/** The file-extension checks of app.py (`allowed_file`, `is_video_file`). */
module FileTypes {
  import opened Common

  const ImageExtensions: set<string> := {"jpg", "jpeg", "png", "tif", "tiff"}
  const VideoExtensions: set<string> := {"mp4", "avi", "mov", "mkv", "webm"}
  const AllowedExtensions: set<string> := ImageExtensions + VideoExtensions

  /** ASCII lower-casing of one character. */
  function LowerChar(c: char): char {
    if 'A' <= c <= 'Z' then (c as int - 'A' as int + 'a' as int) as char else c
  }

  /** `str.lower()`, restricted to the ASCII letters. */
  function Lower(s: string): (r: string)
    ensures |r| == |s|
    ensures forall i :: 0 <= i < |s| ==> r[i] == LowerChar(s[i])
  {
    if s == [] then [] else Lower(s[..|s| - 1]) + [LowerChar(s[|s| - 1])]
  }

  /** The text after the last '.', i.e. `name.rsplit('.', 1)[1]`; None when
      `name` holds no '.'. */
  function Extension(name: string): (r: Option<string>)
    ensures r.None? <==> '.' !in name
  {
    if name == [] then None
    else if name[|name| - 1] == '.' then Some([])
    else
      assert name == name[..|name| - 1] + [name[|name| - 1]];
      match Extension(name[..|name| - 1])
      case None => None
      case Some(e) => Some(e + [name[|name| - 1]])
  }

  predicate HasExtensionIn(name: string, exts: set<string>) {
    match Extension(name)
    case None => false
    case Some(e) => Lower(e) in exts
  }

  /** `allowed_file(filename)`: only a name with a '.' can pass. */
  predicate AllowedFile(name: string)
    ensures AllowedFile(name) ==> '.' in name
  {
    HasExtensionIn(name, AllowedExtensions)
  }

  /** `is_video_file(filename)`: only a name with a '.' can pass. */
  predicate IsVideoFile(name: string)
    ensures IsVideoFile(name) ==> '.' in name
  {
    HasExtensionIn(name, VideoExtensions)
  }

  /** The extension is the suffix that follows the last '.' of the name, and
      there is one exactly when the name contains a '.'. */
  lemma {:induction false} ExtensionIsAfterLastDot(name: string)
    ensures Extension(name).None? <==> '.' !in name
    ensures Extension(name).Some? ==>
      var e := Extension(name).value;
      |e| < |name| && name[|name| - |e| - 1] == '.' && '.' !in e &&
      e == name[|name| - |e|..]
  {
    if name != [] && name[|name| - 1] != '.' {
      var init := name[..|name| - 1];
      ExtensionIsAfterLastDot(init);
      assert name == init + [name[|name| - 1]];
      if Extension(init).Some? {
        var e := Extension(init).value;
        assert name[|name| - |e| - 2] == init[|init| - |e| - 1];
        assert init[|init| - |e|..] + [name[|name| - 1]] == name[|name| - |e| - 1..];
      }
    }
  }

  /** `i` is the position of the last '.' of `name`. */
  predicate LastDot(name: string, i: int) {
    0 <= i < |name| && name[i] == '.' && '.' !in name[i + 1..]
  }

  /** `allowed_file` holds iff the name contains a '.' and the lower-cased
      text after the last '.' is one of the ten allowed extensions. */
  lemma AllowedFileIff(name: string)
    ensures AllowedFile(name) <==>
      exists i :: LastDot(name, i) && Lower(name[i + 1..]) in AllowedExtensions
  {
    match Extension(name)
    case None =>
      NoLastDot(name);
    case Some(e) =>
      var i := |name| - |e| - 1;
      ExtensionAtLastDot(name);
      forall j | LastDot(name, j) ensures j == i {
        LastDotUnique(name, i, j);
      }
  }

  /** A name without a '.' has no last '.'. */
  lemma NoLastDot(name: string)
    requires '.' !in name
    ensures forall i :: !LastDot(name, i)
  {
  }

  /** The extension starts just after the last '.'. */
  lemma ExtensionAtLastDot(name: string)
    requires Extension(name).Some?
    ensures var e := Extension(name).value;
      LastDot(name, |name| - |e| - 1) && name[|name| - |e|..] == e
  {
    ExtensionIsAfterLastDot(name);
  }

  /** A name has at most one last '.'. */
  lemma LastDotUnique(name: string, i: int, j: int)
    requires LastDot(name, i) && LastDot(name, j)
    ensures i == j
  {
  }

  /** Every video file is an allowed file. */
  lemma VideoFileIsAllowed(name: string)
    requires IsVideoFile(name)
    ensures AllowedFile(name)
  {
  }

  /** The extensions are ten distinct strings, five of images and five of videos. */
  lemma AllowedExtensionsCount()
    ensures |ImageExtensions| == 5 && |VideoExtensions| == 5
    ensures ImageExtensions !! VideoExtensions
    ensures |AllowedExtensions| == 10
  {
  }
}
