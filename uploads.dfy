/** The image-upload filename check: an upload is accepted when the text
    after its last dot, lower-cased, is one of the allowed extensions. */
module Uploads {
  import opened Common
  import opened Text

  /** The extensions an event image may carry. */
  const AllowedExtensions: set<string> := {"png", "jpg", "jpeg", "gif"}

  /** The position of the last '.' in `s`, if any. */
  function LastDot(s: string): (r: Option<nat>)
    ensures r.None? <==> '.' !in s
    ensures r.Some? ==> r.value < |s| && s[r.value] == '.' && '.' !in s[r.value + 1..]
  {
    if s == [] then None
    else if s[|s| - 1] == '.' then Some(|s| - 1)
    else
      var r := LastDot(s[..|s| - 1]);
      assert s == s[..|s| - 1] + [s[|s| - 1]];
      r
  }

  /** The second half of filename.rsplit('.', 1): the text after the last
      dot. */
  function Extension(filename: string): (ext: string)
    requires '.' in filename
    ensures exists k :: 0 <= k < |filename| && filename[k] == '.' && ext == filename[k + 1..]
    ensures '.' !in ext
  {
    filename[LastDot(filename).value + 1..]
  }

  /** allowed_file: the name has a dot, and its extension, lower-cased, is
      allowed. */
  predicate AllowedFile(filename: string) {
    '.' in filename && Lower(Extension(filename)) in AllowedExtensions
  }

  /** The dot an extension starts after is unique: it is the one with no
      dot to its right. */
  lemma LastDotUnique(s: string, k: nat)
    requires k < |s| && s[k] == '.' && '.' !in s[k + 1..]
    ensures LastDot(s) == Some(k)
  {
  }

  /** Position `k` holds the dot an extension follows: the last one. */
  predicate ExtensionDot(filename: string, k: int) {
    0 <= k < |filename| && filename[k] == '.' && '.' !in filename[k + 1..]
  }

  /** The extension allowed_file looks at is the text after the last dot. */
  lemma ExtensionAfterLastDot(filename: string, k: int)
    requires ExtensionDot(filename, k)
    ensures '.' in filename && Extension(filename) == filename[k + 1..]
  {
    LastDotUnique(filename, k);
  }

  /** allowed_file holds exactly when some dot in the name has no dot after
      it and the text after that dot, lower-cased, is png, jpg, jpeg or
      gif. */
  lemma AllowedFileIff(filename: string)
    ensures AllowedFile(filename) <==>
              exists k :: ExtensionDot(filename, k) && Lower(filename[k + 1..]) in AllowedExtensions
  {
    if AllowedFile(filename) {
      var j := LastDot(filename).value;
      assert ExtensionDot(filename, j);
      ExtensionAfterLastDot(filename, j);
    }
    forall k | ExtensionDot(filename, k) && Lower(filename[k + 1..]) in AllowedExtensions
      ensures AllowedFile(filename)
    {
      ExtensionAfterLastDot(filename, k);
    }
  }

  /** `image and image.filename`: a file part with a non-empty filename. */
  predicate HasUpload(upload: Option<string>) {
    upload.Some? && upload.value != []
  }

  /** An upload is stored only when it has a filename and that filename is
      allowed. */
  predicate AcceptsUpload(upload: Option<string>) {
    HasUpload(upload) && AllowedFile(upload.value)
  }

  /** An upper-case extension is accepted. */
  lemma UpperCaseExtensionAllowed()
    ensures AllowedFile("poster.PNG")
  {
    var f := "poster.PNG";
    assert f[6] == '.' && f[7..] == "PNG";
    LastDotUnique(f, 6);
    assert Lower("PNG") == "png";
  }

  /** Only the text after the last dot counts. */
  lemma DoubleExtensionRejected()
    ensures !AllowedFile("poster.png.exe")
  {
    var f := "poster.png.exe";
    assert f[10] == '.' && f[11..] == "exe";
    LastDotUnique(f, 10);
    assert Lower("exe") == "exe";
  }
}
