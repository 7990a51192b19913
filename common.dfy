/** Values shared by every part of the model: optional values, opaque
    identifiers, timestamps, and order-preserving filtering of a table. */
module Common {

  datatype Option<+T> = None | Some(value: T)

  /** A document identifier. MongoDB's ObjectId is opaque to the
      application; only equality matters. */
  type Id = nat

  /** A point in time, as supplied by the caller in place of datetime.now(). */
  type Timestamp = int

  /** The sub-sequence of `s` whose elements satisfy `p`, in their original
      order: what a collection query with a filter document returns. */
  function Filter<T(!new)>(s: seq<T>, p: T -> bool): (r: seq<T>)
    ensures |r| <= |s|
    ensures forall i :: 0 <= i < |r| ==> p(r[i]) && r[i] in s
  {
    if s == [] then []
    else
      var rest := Filter(s[1..], p);
      assert s == [s[0]] + s[1..];
      if p(s[0]) then [s[0]] + rest else rest
  }

  /** Filtering keeps every occurrence of an element that satisfies `p` and
      none of any other. */
  lemma {:induction false} FilterMultiset<T(!new)>(s: seq<T>, p: T -> bool)
    ensures forall x :: multiset(Filter(s, p))[x] == if p(x) then multiset(s)[x] else 0
  {
    if s != [] {
      assert s == [s[0]] + s[1..];
      FilterMultiset(s[1..], p);
    }
  }

  /** A one-element table filters to itself or to nothing; with
      FilterAppend this fixes the result's order to the table's. */
  lemma FilterSingleton<T(!new)>(x: T, p: T -> bool)
    ensures Filter([x], p) == if p(x) then [x] else []
  {
    assert [x][1..] == [];
  }

  /** Filtering distributes over concatenation, so an insertion at the end of
      a table changes a filtered view only by that one record. */
  lemma {:induction false} FilterAppend<T(!new)>(s: seq<T>, t: seq<T>, p: T -> bool)
    ensures Filter(s + t, p) == Filter(s, p) + Filter(t, p)
  {
    if s == [] {
      assert s + t == t;
    } else {
      assert (s + t)[1..] == s[1..] + t;
      FilterAppend(s[1..], t, p);
    }
  }
}
