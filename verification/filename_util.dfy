/** `FilenameUtil` (backend/Utils/FilenameUtil.cs): recognising video files
    by their last extension. */
module FilenameUtil {
  import opened Text
  import Paths

  /** The video extensions, lower case with their leading dot, in four
      parts to keep questions about single extensions small. */
  const VideoExtensions1: seq<string> :=
    [".webm", ".m4v", ".3gp", ".nsv", ".ty", ".strm", ".rm", ".rmvb", ".m3u", ".ifo", ".mov", ".qt"]
  const VideoExtensions2: seq<string> :=
    [".divx", ".xvid", ".bivx", ".nrg", ".pva", ".wmv", ".asf", ".asx", ".ogm", ".ogv", ".m2v", ".avi"]
  const VideoExtensions3: seq<string> :=
    [".bin", ".dat", ".dvr-ms", ".mpg", ".mpeg", ".mp4", ".avc", ".vp3", ".svq3", ".nuv", ".viv", ".dv"]
  const VideoExtensions4: seq<string> :=
    [".fli", ".flv", ".wpl", ".img", ".iso", ".vob", ".mkv", ".mk3d", ".ts", ".wtv", ".m2ts"]
  const VideoExtensionList: seq<string> := VideoExtensions1 + VideoExtensions2 + VideoExtensions3 + VideoExtensions4

  /** Membership in a list, one element at a time. */
  predicate InList(x: string, list: seq<string>)
    decreases |list|
  {
    |list| > 0 && (list[0] == x || InList(x, list[1..]))
  }

  lemma {:induction false} InListIsIn(x: string, list: seq<string>)
    ensures InList(x, list) <==> x in list
    decreases |list|
  {
    if |list| > 0 {
      InListIsIn(x, list[1..]);
      assert x in list <==> x == list[0] || x in list[1..] by {
        assert list == [list[0]] + list[1..];
      }
    }
  }

  predicate Shaped(list: seq<string>) {
    forall i :: 0 <= i < |list| ==> |list[i]| >= 3 && list[i][0] == '.'
  }

  /** Every video extension is a dot followed by at least two characters. */
  lemma VideoExtensionShape()
    ensures Shaped(VideoExtensionList)
  {
    assert Shaped(VideoExtensions1) && Shaped(VideoExtensions2);
    assert Shaped(VideoExtensions3) && Shaped(VideoExtensions4);
  }

  predicate IsVideoExtension(ext: string) {
    InList(ext, VideoExtensionList)
  }

  /** `IsVideoFile`: the lower-cased last extension is a video extension. */
  predicate IsVideoFile(name: string) {
    IsVideoExtension(ToLower(Paths.GetExtension(name)))
  }

  /** A name without an extension is never a video. */
  lemma NoExtensionNoVideo(name: string)
    requires Paths.GetExtension(name) == ""
    ensures !IsVideoFile(name)
  {
    assert ToLower("") == "";
    VideoExtensionShape();
    InListIsIn("", VideoExtensionList);
  }

  /** An extension shape: a dot and at least one character, with no further
      dot or separator. */
  predicate ExtensionLike(ext: string) {
    |ext| >= 2 && ext[0] == '.' && '.' !in ext[1..] && Paths.Separator !in ext
  }

  /** Appending an extension-shaped suffix makes it the extension. */
  lemma {:induction false} ExtensionOfAppend(base: string, ext: string)
    requires ExtensionLike(ext)
    ensures Paths.GetExtension(base + ext) == ext
  {
    var name := base + ext;
    Paths.LastIndexOfAppend(base, ext, '.');
    Paths.LastIndexOfAppend(base, ext, Paths.Separator);
    assert '.' in ext by { assert ext[0] == '.'; }
    var d := Paths.LastIndexOf(ext, '.');
    assert d == 0;
    var slash := Paths.LastIndexOf(name, Paths.Separator);
    assert slash < |base| by {
      if slash >= 0 { assert slash == Paths.LastIndexOf(base, Paths.Separator); }
    }
    assert name[|base|..] == ext;
  }

  /** Only the last extension decides: appending an extension makes the
      name a video exactly when that extension is one, whatever came before
      (so `x.mkv.par2` is no video). */
  lemma {:induction false} LastExtensionDecides(base: string, ext: string)
    requires ExtensionLike(ext)
    ensures IsVideoFile(base + ext) <==> IsVideoExtension(ToLower(ext))
  {
    ExtensionOfAppend(base, ext);
  }

  lemma Par2NotVideoExtension()
    ensures !IsVideoExtension(".par2")
  {
    InListIsIn(".par2", VideoExtensionList);
    assert ".par2" !in VideoExtensions1 && ".par2" !in VideoExtensions2;
    assert ".par2" !in VideoExtensions3 && ".par2" !in VideoExtensions4;
  }

  lemma MkvVideoExtension()
    ensures IsVideoExtension(".mkv")
  {
    InListIsIn(".mkv", VideoExtensionList);
    assert VideoExtensionList[42] == ".mkv";
  }

  /** Only the last extension counts: `x.mkv.par2` is no video. */
  lemma Par2AfterVideo(base: string)
    ensures !IsVideoFile(base + ".mkv.par2")
  {
    assert base + ".mkv.par2" == (base + ".mkv") + ".par2";
    LastExtensionDecides(base + ".mkv", ".par2");
    assert ToLower(".par2") == ".par2";
    Par2NotVideoExtension();
  }

  /** Upper-case extensions count: `x.MKV` is a video. */
  lemma UpperCaseVideo(base: string)
    ensures IsVideoFile(base + ".MKV")
  {
    LastExtensionDecides(base, ".MKV");
    assert ToLower(".MKV") == ".mkv";
    MkvVideoExtension();
  }

  lemma {:induction false} LastIndexOfLower(s: string, c: char)
    requires ToLowerChar(c) == c && !('A' <= c <= 'Z')
    requires forall x: char :: ToLowerChar(x) == c ==> x == c
    ensures Paths.LastIndexOf(ToLower(s), c) == Paths.LastIndexOf(s, c)
    decreases |s|
  {
    if |s| > 0 {
      assert ToLower(s)[..|s| - 1] == ToLower(s[..|s| - 1]);
      LastIndexOfLower(s[..|s| - 1], c);
    }
  }

  lemma ToLowerIdempotent(s: string)
    ensures ToLower(ToLower(s)) == ToLower(s)
  {
  }

  lemma ExtensionOfLower(name: string)
    ensures Paths.GetExtension(ToLower(name)) == ToLower(Paths.GetExtension(name))
  {
    LastIndexOfLower(name, '.');
    LastIndexOfLower(name, Paths.Separator);
    var dot := Paths.LastIndexOf(name, '.');
    if 0 <= dot {
      LowerSuffix(name, dot);
    }
  }

  lemma LowerSuffix(s: string, k: int)
    requires 0 <= k <= |s|
    ensures ToLower(s)[k..] == ToLower(s[k..])
  {
    var a, b := ToLower(s)[k..], ToLower(s[k..]);
    assert |a| == |b|;
    forall i | 0 <= i < |a|
      ensures a[i] == b[i]
    {
      assert a[i] == ToLowerChar(s[k + i]);
    }
  }

  /** The check ignores case: a name and its lower-case form agree. */
  lemma CaseInsensitive(name: string)
    ensures IsVideoFile(name) <==> IsVideoFile(ToLower(name))
  {
    ExtensionOfLower(name);
    ToLowerIdempotent(Paths.GetExtension(name));
  }
}
