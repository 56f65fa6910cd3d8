/** `NzbFileExtensions` (backend/Extensions/NzbFileExtensions.cs): the
    segment order of an NZB file and the choice of its file name.

    The two subject-line extractors are regular expressions; the model takes
    what each of them extracts as a parameter of `GetSubjectFileName`. The header file name comes
    from the first segment's yEnc header, which is fetched over the network:
    it is a parameter. */
module NzbFileExtensions {
  import opened Text
  import Paths
  import Sorting

  datatype NzbSegment = NzbSegment(number: int, messageId: string)

  function SegmentKey(s: NzbSegment): Sorting.Key {
    Sorting.Key(s.number, 0)
  }

  function MessageIds(segments: seq<NzbSegment>): (r: seq<string>)
    ensures |r| == |segments|
    ensures forall i :: 0 <= i < |segments| ==> r[i] == segments[i].messageId
  {
    seq(|segments|, i requires 0 <= i < |segments| => segments[i].messageId)
  }

  /** `GetOrderedSegmentIds`: the message ids by ascending segment number. */
  function GetOrderedSegmentIds(segments: seq<NzbSegment>): (r: seq<string>)
    ensures |r| == |segments|
  {
    Sorting.SortByCorrect(segments, SegmentKey);
    MessageIds(Sorting.SortBy(segments, SegmentKey))
  }

  /** The ids come from a reordering of the segments that ascends by
      number and keeps equal numbers in document order. */
  lemma OrderedSegmentIdsCorrect(segments: seq<NzbSegment>)
    ensures var sorted := Sorting.SortBy(segments, SegmentKey);
            && GetOrderedSegmentIds(segments) == MessageIds(sorted)
            && multiset(sorted) == multiset(segments)
            && (forall i, j :: 0 <= i < j < |sorted| ==> sorted[i].number <= sorted[j].number)
            && (forall k :: Sorting.WithKey(sorted, SegmentKey, k) == Sorting.WithKey(segments, SegmentKey, k))
  {
    var sorted := Sorting.SortBy(segments, SegmentKey);
    Sorting.SortByCorrect(segments, SegmentKey);
    forall i, j | 0 <= i < j < |sorted|
      ensures sorted[i].number <= sorted[j].number
    {
      assert Sorting.KeyLe(SegmentKey(sorted[i]), SegmentKey(sorted[j]));
    }
  }

  /** A name with no directory part is its own `Path.GetFileName`. */
  predicate ValidName(c: string) {
    c == Paths.GetFileName(c)
  }

  /** `GetFirstValidNonEmptyFilename`: the first candidate that is
      non-empty and has no directory part, or "". */
  function FirstValidNonEmpty(candidates: seq<string>): (r: string)
    ensures r == "" || exists i :: 0 <= i < |candidates| && candidates[i] == r
    ensures r != "" ==> Paths.Separator !in r
    decreases |candidates|
  {
    if |candidates| == 0 then ""
    else if candidates[0] != "" && ValidName(candidates[0]) then
      Paths.FileNameFixedPoint(candidates[0]);
      candidates[0]
    else
      var r := FirstValidNonEmpty(candidates[1..]);
      assert r != "" ==> exists i :: 0 <= i < |candidates| && candidates[i] == r by {
        if r != "" {
          var i :| 0 <= i < |candidates[1..]| && candidates[1..][i] == r;
          assert candidates[i + 1] == r;
        }
      }
      r
  }

  /** A candidate the name choice accepts. */
  predicate Acceptable(c: string) {
    c != "" && Paths.Separator !in c
  }

  /** None of the first `n` candidates is acceptable. */
  predicate NoneAcceptable(candidates: seq<string>, n: int)
    requires 0 <= n <= |candidates|
  {
    forall j :: 0 <= j < n ==> !Acceptable(candidates[j])
  }

  /** The chosen candidate is the first acceptable one: every earlier
      candidate is empty or has a directory part, and "" means none was
      acceptable. */
  lemma {:induction false} FirstValidNonEmptyIsFirst(candidates: seq<string>)
    ensures var r := FirstValidNonEmpty(candidates);
            r == "" <==> NoneAcceptable(candidates, |candidates|)
    ensures var r := FirstValidNonEmpty(candidates);
            r != "" ==> exists i :: 0 <= i < |candidates| && candidates[i] == r && NoneAcceptable(candidates, i)
    decreases |candidates|
  {
    if |candidates| > 0 {
      Paths.FileNameFixedPoint(candidates[0]);
      var tail := candidates[1..];
      FirstValidNonEmptyIsFirst(tail);
      if !Acceptable(candidates[0]) {
        var r := FirstValidNonEmpty(tail);
        assert FirstValidNonEmpty(candidates) == r;
        ShiftNone(candidates, |tail|);
        if r != "" {
          var i :| 0 <= i < |tail| && tail[i] == r && NoneAcceptable(tail, i);
          ShiftNone(candidates, i);
          assert candidates[i + 1] == r;
        }
      } else {
        assert NoneAcceptable(candidates, 0);
      }
    }
  }

  /** Past an unacceptable first candidate, "none of the first `n + 1`"
      is "none of the next `n`". */
  lemma ShiftNone(candidates: seq<string>, n: int)
    requires 0 <= n < |candidates| && !Acceptable(candidates[0])
    ensures NoneAcceptable(candidates[1..], n) <==> NoneAcceptable(candidates, n + 1)
  {
    var tail := candidates[1..];
    if NoneAcceptable(tail, n) {
      forall j | 0 <= j < n + 1
        ensures !Acceptable(candidates[j])
      {
        if j > 0 {
          assert candidates[j] == tail[j - 1];
        }
      }
    }
    if NoneAcceptable(candidates, n + 1) {
      forall j | 0 <= j < n
        ensures !Acceptable(tail[j])
      {
        assert tail[j] == candidates[j + 1];
      }
    }
  }

  /** `GetSubjectFileName`: the quoted-subject match is tried before the
      sabnzbd-style match; a match counts only when it is a non-empty bare
      file name. */
  function GetSubjectFileName(quoted: string, sabnzbd: string): (r: string)
    ensures r == "" || r == quoted || r == sabnzbd
    ensures quoted != "" && Paths.Separator !in quoted ==> r == quoted
    ensures (quoted == "" || Paths.Separator in quoted) ==>
              r == (if sabnzbd != "" && Paths.Separator !in sabnzbd then sabnzbd else "")
  {
    Paths.FileNameFixedPoint(sabnzbd);
    assert [quoted, sabnzbd][1..] == [sabnzbd] && [sabnzbd][1..] == [];
    assert FirstValidNonEmpty([sabnzbd]) == if sabnzbd != "" && ValidName(sabnzbd) then sabnzbd else "";
    Paths.FileNameFixedPoint(quoted);
    FirstValidNonEmpty([quoted, sabnzbd])
  }

  /** `TrimStart('.')`: drops every leading dot. */
  function TrimLeadingDots(s: string): (r: string)
    ensures |r| <= |s| && s[|s| - |r|..] == r
    ensures r == "" || r[0] != '.'
    decreases |s|
  {
    if |s| > 0 && s[0] == '.' then TrimLeadingDots(s[1..]) else s
  }

  /** The length of the extension without its dot. */
  function ExtensionLength(name: string): (n: nat)
    ensures n == if Paths.GetExtension(name) == "" then 0 else |Paths.GetExtension(name)| - 1
  {
    var ext := Paths.GetExtension(name);
    Paths.ExtensionShape(name);
    assert ext != "" ==> ext[1..] != "" && ext[1..][0] != '.' && ext[1..] == TrimLeadingDots(ext);
    |TrimLeadingDots(ext)|
  }

  /** An extension of two to four characters counts as a real one. */
  predicate HasPlausibleExtension(name: string) {
    2 <= ExtensionLength(name) <= 4
  }

  /** `GetFileName`: the subject name wins unless it is empty, or lacks a
      plausible extension while the header name has one. */
  function ChooseFileName(subjectName: string, headerName: string): (r: string)
    ensures r == subjectName || r == headerName
    ensures subjectName == "" ==> r == headerName
    ensures subjectName != "" && HasPlausibleExtension(subjectName) ==> r == subjectName
    ensures subjectName != "" && !HasPlausibleExtension(subjectName) ==>
              r == (if HasPlausibleExtension(headerName) then headerName else subjectName)
  {
    if subjectName == "" then headerName
    else if HasPlausibleExtension(subjectName) then subjectName
    else if HasPlausibleExtension(headerName) then headerName
    else subjectName
  }

  /** The header name is only needed when the subject gives no name with
      a plausible extension: otherwise any header name gives the same
      choice. */
  lemma HeaderConsultedOnlyWhenNeeded(subjectName: string, h1: string, h2: string)
    requires subjectName != "" && HasPlausibleExtension(subjectName)
    ensures ChooseFileName(subjectName, h1) == ChooseFileName(subjectName, h2) == subjectName
  {
  }
}
