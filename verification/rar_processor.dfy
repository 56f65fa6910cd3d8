/** `RarProcessor` (backend/Services/FileProcessors/RarProcessor.cs): how an
    NZB file that is a RAR volume is recognised, numbered and indexed.

    The archive reader is outside the model: its headers are an abstract
    sequence, a header it cannot decrypt is a `Locked` entry and one it
    rejects as invalid is a `Malformed` entry. The
    regular expressions are written out over characters (ASCII digits,
    ASCII case folding, `$` at the very end of the name). */
module RarProcessor {
  import opened Text
  import opened Wrappers
  import Paths

  const Int32Max: int := 0x7FFF_FFFF

  /** `\.r(\d+)$` matches with `j` digits. */
  predicate RMatchAt(name: string, j: int) {
    && 1 <= j && j + 2 <= |name|
    && AllDigits(name[|name| - j..])
    && ToLowerChar(name[|name| - j - 1]) == 'r'
    && name[|name| - j - 2] == '.'
  }

  /** The digits of a `.rNN` ending, if the name has one. */
  function RDigits(name: string): (r: Option<string>)
    ensures r.Some? ==> |r.value| >= 1 && AllDigits(r.value) && EndsWith(name, r.value)
  {
    var k := TrailingDigitCount(name);
    if k >= 1 && k + 2 <= |name| && ToLowerChar(name[|name| - k - 1]) == 'r' && name[|name| - k - 2] == '.'
    then Some(name[|name| - k..])
    else None
  }

  /** `RDigits` finds the regular expression's match, and it is the only
      one: the digit run has to reach back to the 'r'. */
  lemma RDigitsIsTheMatch(name: string)
    ensures RDigits(name).Some? <==> exists j :: RMatchAt(name, j)
    ensures forall j :: RMatchAt(name, j) ==> RDigits(name) == Some(name[|name| - j..])
  {
    var k := TrailingDigitCount(name);
    forall j | RMatchAt(name, j)
      ensures j == k
    {
      if j > k {
        assert false;
      }
    }
    if RDigits(name).Some? {
      assert RMatchAt(name, k);
    }
  }

  /** `IsRarFile`: a non-empty name ending in `.rar` or `.rNN`, ignoring
      case. */
  predicate IsRarFile(name: string) {
    name != "" && (EndsWithIgnoreCase(name, ".rar") || RDigits(name).Some?)
  }

  /** The digits of a `.partNN.rar` ending (case ignored), if any. */
  function PartDigits(name: string): (r: Option<string>)
    ensures r.Some? ==> && |r.value| >= 1 && AllDigits(r.value) && EndsWithIgnoreCase(name, ".rar")
                        && EndsWith(name[..|name| - 4], r.value)
  {
    if !EndsWithIgnoreCase(name, ".rar") then None
    else
      var stem := name[..|name| - 4];
      var k := TrailingDigitCount(stem);
      if k >= 1 && EndsWithIgnoreCase(stem[..|stem| - k], ".part") then
        assert stem[|stem| - |stem[|stem| - k..]|..] == stem[|stem| - k..];
        Some(stem[|stem| - k..])
      else None
  }

  /** `int.Parse` of a run of ASCII digits: fails with an overflow past
      `int.MaxValue`. */
  function ParseInt32(digits: string): (r: Result<int>)
    requires AllDigits(digits)
    ensures r.Ok? ==> r.value == DecimalValue(digits) <= Int32Max
    ensures r.Err? <==> DecimalValue(digits) > Int32Max
    ensures r.Err? ==> r.error == OverflowError
  {
    var v := DecimalValue(digits);
    if v > Int32Max then Err(OverflowError) else Ok(v)
  }

  /** `GetPartNumber`: `.partNN.rar` first, then `.rNN`, else -1. */
  function GetPartNumber(name: string): (r: Result<int>)
    ensures PartDigits(name).Some? ==> r == ParseInt32(PartDigits(name).value)
    ensures PartDigits(name).None? && RDigits(name).Some? ==> r == ParseInt32(RDigits(name).value)
    ensures PartDigits(name).None? && RDigits(name).None? ==> r == Ok(-1)
    ensures r.Ok? ==> -1 <= r.value <= Int32Max
  {
    match PartDigits(name)
    case Some(d) => ParseInt32(d)
    case None =>
      match RDigits(name)
      case Some(d) => ParseInt32(d)
      case None => Ok(-1)
  }

  /** Naming a volume and reading its number back: `base.partN.rar` is
      volume N. */
  lemma PartNameNumber(base: string, digits: string)
    requires |digits| >= 1 && AllDigits(digits)
    ensures GetPartNumber(base + ".part" + digits + ".rar") == ParseInt32(digits)
  {
    var name := base + ".part" + digits + ".rar";
    var stem := base + ".part" + digits;
    assert name[..|name| - 4] == stem;
    assert name[|name| - 4..] == ".rar";
    TrailingDigitsOf(base + ".part", digits);
    assert stem[..|stem| - |digits|] == base + ".part";
    assert (base + ".part")[|base + ".part"| - 5..] == ".part";
  }

  /** ... and `base.rN` is volume N. */
  lemma RNameNumber(base: string, digits: string)
    requires |digits| >= 1 && AllDigits(digits)
    ensures GetPartNumber(base + ".r" + digits) == ParseInt32(digits)
  {
    var name := base + ".r" + digits;
    assert IsDigit(name[|name| - 1]);
    assert !EndsWithIgnoreCase(name, ".rar");
    TrailingDigitsOf(base + ".r", digits);
    assert name[|name| - |digits| - 1] == 'r' && name[|name| - |digits| - 2] == '.';
    assert name[|name| - |digits|..] == digits;
  }

  /** A bare `.rar` volume has no number. */
  lemma RarNameNumber(base: string)
    requires base == "" || !IsDigit(base[|base| - 1])
    ensures GetPartNumber(base + ".rar") == Ok(-1)
  {
    var name := base + ".rar";
    assert name[..|name| - 4] == base;
    assert TrailingDigitCount(name) == 0;
  }

  /** The trailing digits of `prefix + digits` are exactly `digits` when
      `prefix` ends in a non-digit. */
  lemma TrailingDigitsOf(prefix: string, digits: string)
    requires |prefix| >= 1 && !IsDigit(prefix[|prefix| - 1]) && AllDigits(digits)
    ensures TrailingDigitCount(prefix + digits) == |digits|
  {
    var s := prefix + digits;
    var k := TrailingDigitCount(s);
    assert s[|s| - |digits|..] == digits;
    if k < |digits| {
      assert false;
    } else if k > |digits| {
      assert false;
    }
  }

  /** `sans` ends with `.part` and `k` digits. */
  predicate PartSuffixAt(sans: string, k: int) {
    && 1 <= k && k + 5 <= |sans|
    && sans[|sans| - k - 5..|sans| - k] == ".part"
    && AllDigits(sans[|sans| - k..])
  }

  /** `GetArchiveName`: the file name without its extension, and without a
      trailing `.partNN` (this pattern is case-sensitive). */
  function GetArchiveName(name: string): (r: string)
    ensures var sans := Paths.GetFileNameWithoutExtension(name);
            var k := |sans| - |r| - 5;
            || (r == sans && forall j :: !PartSuffixAt(sans, j))
            || (PartSuffixAt(sans, k) && r == sans[..|sans| - k - 5])
  {
    var sans := Paths.GetFileNameWithoutExtension(name);
    var k := TrailingDigitCount(sans);
    if k >= 1 && EndsWith(sans[..|sans| - k], ".part") then
      PartSuffixFound(sans);
      sans[..|sans| - k - 5]
    else
      PartSuffixUnique(sans);
      sans
  }

  /** The trailing digit run preceded by `.part` is a part suffix. */
  lemma PartSuffixFound(sans: string)
    requires TrailingDigitCount(sans) >= 1
    requires EndsWith(sans[..|sans| - TrailingDigitCount(sans)], ".part")
    ensures PartSuffixAt(sans, TrailingDigitCount(sans))
  {
    var k := TrailingDigitCount(sans);
    assert sans[|sans| - k - 5..|sans| - k] == sans[..|sans| - k][|sans| - k - 5..];
  }

  /** Only the full trailing digit run can follow `.part`. */
  lemma PartSuffixUnique(sans: string)
    ensures forall j :: PartSuffixAt(sans, j) ==>
              && j == TrailingDigitCount(sans)
              && EndsWith(sans[..|sans| - j], ".part")
  {
    forall j | PartSuffixAt(sans, j)
      ensures j == TrailingDigitCount(sans) && EndsWith(sans[..|sans| - j], ".part")
    {
      PartSuffixIsDigitRun(sans, j);
      assert sans[..|sans| - j][|sans| - j - 5..] == sans[|sans| - j - 5..|sans| - j];
    }
  }

  lemma PartSuffixIsDigitRun(sans: string, j: int)
    requires PartSuffixAt(sans, j)
    ensures j == TrailingDigitCount(sans)
  {
    var k := TrailingDigitCount(sans);
    var t := |sans| - j - 1;
    assert sans[t] == sans[|sans| - j - 5..|sans| - j][4] == 't';
    if j < k {
      assert false;
    }
  }

  /** Volumes named `base.partN.rar` belong to the archive `base`. */
  lemma ArchiveNameOfPart(name: string, base: string, digits: string)
    requires |digits| >= 1 && AllDigits(digits)
    requires Paths.GetFileNameWithoutExtension(name) == base + ".part" + digits
    ensures GetArchiveName(name) == base
  {
    var sans := base + ".part" + digits;
    TrailingDigitsOf(base + ".part", digits);
    assert sans[..|sans| - |digits|] == base + ".part";
    assert (base + ".part")[|base + ".part"| - 5..] == ".part";
    assert sans[..|sans| - |digits| - 5] == base;
  }

  datatype HeaderType = FileHeader | OtherHeader

  /** A header as the archive reader yields it; `Locked` stands for one
      whose reading fails with a cryptographic error, `Malformed` for one
      the reader rejects as not a valid archive. */
  datatype RarHeader =
    | Header(headerType: HeaderType, isDirectory: bool, fileName: string,
             compressionMethod: int, dataStart: int, compressedSize: int, additionalDataSize: int)
    | Locked
    | Malformed

  /** A stored file's bytes inside one volume. */
  datatype StoredFileSegment = StoredFileSegment(pathWithinArchive: string, offset: int, byteCount: int)

  /** The headers the scan ignores: non-file headers, directories and the
      "QO" entry. */
  predicate Skipped(h: RarHeader)
    requires h.Header?
  {
    h.headerType != FileHeader || h.isDirectory || h.fileName == "QO"
  }

  function ToSegment(h: RarHeader): StoredFileSegment
    requires h.Header?
  {
    StoredFileSegment(h.fileName, h.dataStart, h.additionalDataSize)
  }

  /** Fewer than 1000 bytes follow the header's data. */
  predicate NearEnd(h: RarHeader, volumeLength: int)
    requires h.Header?
  {
    volumeLength - (h.dataStart + h.compressedSize) < 1000
  }

  /** The header scan, stated by recursion over the headers. */
  function Scan(headers: seq<RarHeader>, volumeLength: int): (r: Result<seq<StoredFileSegment>>)
    ensures r.Err? ==> r.error == PasswordProtectedRar || r.error == UnsupportedRarCompression
                       || r.error == InvalidArchiveFormat
    decreases |headers|
  {
    if |headers| == 0 then Ok([])
    else
      var h := headers[0];
      if h.Locked? then Err(PasswordProtectedRar)
      else if h.Malformed? then Err(InvalidArchiveFormat)
      else if Skipped(h) then Scan(headers[1..], volumeLength)
      else if h.compressionMethod != 0 then Err(UnsupportedRarCompression)
      else if NearEnd(h, volumeLength) then Ok([ToSegment(h)])
      else
        var rest := Scan(headers[1..], volumeLength);
        if rest.Err? then rest else Ok([ToSegment(h)] + rest.value)
  }

  /** Every stored segment found comes from a stored, non-skipped file
      header, in header order. */
  lemma {:induction false} ScanKeepsStoredFiles(headers: seq<RarHeader>, volumeLength: int)
    ensures Scan(headers, volumeLength).Ok? ==>
              forall s :: s in Scan(headers, volumeLength).value ==>
                exists i :: 0 <= i < |headers| && headers[i].Header? && !Skipped(headers[i])
                            && headers[i].compressionMethod == 0 && s == ToSegment(headers[i])
    decreases |headers|
  {
    if |headers| > 0 && headers[0].Header? {
      ScanKeepsStoredFiles(headers[1..], volumeLength);
      var r := Scan(headers, volumeLength);
      if r.Ok? {
        forall s | s in r.value
          ensures exists i :: 0 <= i < |headers| && headers[i].Header? && !Skipped(headers[i])
                              && headers[i].compressionMethod == 0 && s == ToSegment(headers[i])
        {
          if s == ToSegment(headers[0]) && !Skipped(headers[0]) && headers[0].compressionMethod == 0 {
            assert headers[0].Header?;
          } else {
            var i :| 0 <= i < |headers[1..]| && headers[1..][i].Header? && !Skipped(headers[1..][i])
                     && headers[1..][i].compressionMethod == 0 && s == ToSegment(headers[1..][i]);
            assert headers[i + 1] == headers[1..][i];
          }
        }
      }
    }
  }

  /** The segments of the headers, in order. */
  function FileSegments(headers: seq<RarHeader>): (r: seq<StoredFileSegment>)
    decreases |headers|
  {
    if |headers| == 0 then []
    else (if headers[0].Header? then [ToSegment(headers[0])] else []) + FileSegments(headers[1..])
  }

  /** When every header is a stored file header and none is near the end
      of the volume, the scan keeps all of them, in order. */
  lemma {:induction false} ScanKeepsAll(headers: seq<RarHeader>, volumeLength: int)
    requires forall i :: 0 <= i < |headers| ==>
               (headers[i].Header? && !Skipped(headers[i]) && headers[i].compressionMethod == 0
                && !NearEnd(headers[i], volumeLength))
    ensures Scan(headers, volumeLength) == Ok(FileSegments(headers))
    decreases |headers|
  {
    if |headers| > 0 {
      assert forall i :: 0 <= i < |headers[1..]| ==> headers[1..][i] == headers[i + 1];
      ScanKeepsAll(headers[1..], volumeLength);
    }
  }

  /** `GetRarHeaders`: the loop over the reader's headers. */
  method GetRarHeaders(headers: seq<RarHeader>, volumeLength: int) returns (r: Result<seq<StoredFileSegment>>)
    ensures r == Scan(headers, volumeLength)
  {
    var kept: seq<StoredFileSegment> := [];
    var i := 0;
    assert headers[0..] == headers;
    PrependEmpty(Scan(headers, volumeLength));
    while i < |headers|
      invariant 0 <= i <= |headers|
      invariant Scan(headers, volumeLength) == Prepend(kept, Scan(headers[i..], volumeLength))
    {
      var h := headers[i];
      assert headers[i..] == [h] + headers[i + 1..];
      if h.Locked? {
        return Err(PasswordProtectedRar);
      }
      if h.Malformed? {
        return Err(InvalidArchiveFormat);
      }
      if Skipped(h) {
        i := i + 1;
        continue;
      }
      if h.compressionMethod != 0 {
        return Err(UnsupportedRarCompression);
      }
      if NearEnd(h, volumeLength) {
        return Ok(kept + [ToSegment(h)]);
      }
      PrependAssoc(kept, [ToSegment(h)], Scan(headers[i + 1..], volumeLength));
      kept := kept + [ToSegment(h)];
      i := i + 1;
    }
    assert headers[i..] == [];
    assert kept + [] == kept;
    return Ok(kept);
  }

  /** `kept` followed by the outcome of the rest of the scan. */
  function Prepend(kept: seq<StoredFileSegment>, rest: Result<seq<StoredFileSegment>>): Result<seq<StoredFileSegment>> {
    if rest.Err? then rest else Ok(kept + rest.value)
  }

  lemma PrependEmpty(rest: Result<seq<StoredFileSegment>>)
    ensures Prepend([], rest) == rest
  {
    if rest.Ok? {
      assert [] + rest.value == rest.value;
    }
  }

  lemma PrependAssoc(a: seq<StoredFileSegment>, b: seq<StoredFileSegment>, rest: Result<seq<StoredFileSegment>>)
    ensures Prepend(a, Prepend(b, rest)) == Prepend(a + b, rest)
  {
    if rest.Ok? {
      assert a + (b + rest.value) == (a + b) + rest.value;
    }
  }

  /** What processing one volume yields. */
  datatype RarResult = RarResult(partSize: int, archiveName: string, partNumber: int, segments: seq<StoredFileSegment>)

  /** `ProcessAsync`: the volume's size, its archive name and number, and
      its stored segments. */
  method ProcessAsync(name: string, partSize: int, headers: seq<RarHeader>) returns (r: Result<RarResult>)
    ensures r.Ok? ==> && r.value.partSize == partSize && r.value.archiveName == GetArchiveName(name)
                      && Ok(r.value.partNumber) == GetPartNumber(name)
                      && Ok(r.value.segments) == Scan(headers, partSize)
    ensures r.Err? <==> GetPartNumber(name).Err? || Scan(headers, partSize).Err?
  {
    var archiveName := GetArchiveName(name);
    var partNumber := GetPartNumber(name);
    if partNumber.Err? {
      return Err(partNumber.error);
    }
    var segments := GetRarHeaders(headers, partSize);
    if segments.Err? {
      return Err(segments.error);
    }
    return Ok(RarResult(partSize, archiveName, partNumber.value, segments.value));
  }
}
