/** `GetWebdavItemRequest`
    (backend/Api/Controllers/GetWebdavItem/GetWebdavItemRequest.cs): the
    item path and byte range of a download request.

    The download key is a SHA-256 digest of the path and an API key; its
    check is a parameter (`keyValid`). `long.Parse` is modelled on ASCII
    digits only. */
module GetWebdavItemRequest {
  import opened Text
  import opened Wrappers

  const Int64Max: int := 0x7FFF_FFFF_FFFF_FFFF

  /** Strips a leading "/", then "view", then "/", each once if present. */
  function NormalizePath(path: string): (r: string)
    ensures |r| <= |path| && EndsWith(path, r)
  {
    var p1 := if StartsWith(path, "/") then path[1..] else path;
    var p2 := if StartsWith(p1, "view") then p1[4..] else p1;
    var p3 := if StartsWith(p2, "/") then p2[1..] else p2;
    assert path[|path| - |p3|..] == p3;
    p3
  }

  /** A `/view/` route gives back exactly the path after it. */
  lemma ViewRoute(p: string)
    ensures NormalizePath("/view/" + p) == p
  {
    assert ("/view/" + p)[..1] == "/";
    assert ("/view/" + p)[1..] == "view/" + p;
    assert ("view/" + p)[..4] == "view";
    assert ("view/" + p)[4..] == "/" + p;
    assert ("/" + p)[..1] == "/";
    assert ("/" + p)[1..] == p;
  }

  /** A path that starts with neither "/" nor "view" is kept as it is. */
  lemma PlainPathKept(p: string)
    requires !StartsWith(p, "/") && !StartsWith(p, "view")
    ensures NormalizePath(p) == p
  {
  }

  /** `long.Parse` of a run of ASCII digits. */
  function ParseLong(s: string): (r: Result<int>)
    ensures r.Ok? <==> s != "" && AllDigits(s) && DecimalValue(s) <= Int64Max
    ensures r.Ok? ==> r.value == DecimalValue(s)
    ensures r.Err? ==> r.error == (if s != "" && AllDigits(s) then OverflowError else FormatError)
  {
    if s == "" || !AllDigits(s) then Err(FormatError)
    else if DecimalValue(s) > Int64Max then Err(OverflowError)
    else Ok(DecimalValue(s))
  }

  /** The two optional bounds the source stores. */
  datatype Bounds = Bounds(start: Option<int>, end: Option<int>)

  /** The range header as the source reads it: the non-empty pieces
      between dashes are the start and, if present, the end. */
  function ParseRangeAsWritten(header: string): (r: Result<Bounds>)
    ensures !StartsWith(header, "bytes=") ==> r == Ok(Bounds(None, None))
  {
    if !StartsWith(header, "bytes=") then Ok(Bounds(None, None))
    else
      var parts := SplitRemoveEmpty(header[6..], '-');
      if |parts| == 0 then Err(IndexOutOfRange)
      else match ParseLong(parts[0])
        case Err(e) => Err(e)
        case Ok(start) =>
          if |parts| > 1 then
            match ParseLong(parts[1])
            case Err(e) => Err(e)
            case Ok(end) => Ok(Bounds(Some(start), Some(end)))
          else Ok(Bounds(Some(start), None))
  }

  /** A byte range: from a start, to an optional end, or the last
      `length` bytes (section 14.1.2 of RFC 9110). */
  datatype RangeSpec = NoRange | FromTo(start: nat, end: Option<nat>) | Suffix(length: nat)

  /** The range header with suffix ranges kept apart; otherwise the same
      reading as `ParseRangeAsWritten`. */
  function ParseRange(header: string): (r: Result<RangeSpec>)
    ensures !StartsWith(header, "bytes=") ==> r == Ok(NoRange)
  {
    if !StartsWith(header, "bytes=") then Ok(NoRange)
    else
      var rest := header[6..];
      var parts := SplitRemoveEmpty(rest, '-');
      if |parts| == 0 then Err(IndexOutOfRange)
      else match ParseLong(parts[0])
        case Err(e) => Err(e)
        case Ok(first) =>
          if StartsWith(rest, "-") then Ok(Suffix(first))
          else if |parts| > 1 then
            match ParseLong(parts[1])
            case Err(e) => Err(e)
            case Ok(end) => Ok(FromTo(first, Some(end)))
          else Ok(FromTo(first, None))
  }

  /** Both readings agree on every header that is not a suffix range. */
  lemma ParsersAgree(header: string)
    requires StartsWith(header, "bytes=") ==> !StartsWith(header[6..], "-")
    ensures ParseRangeAsWritten(header).Err? <==> ParseRange(header).Err?
    ensures ParseRangeAsWritten(header).Err? ==> ParseRangeAsWritten(header).error == ParseRange(header).error
    ensures ParseRangeAsWritten(header).Ok? ==>
              match ParseRange(header).value
              case NoRange => ParseRangeAsWritten(header).value == Bounds(None, None)
              case FromTo(s, e) => ParseRangeAsWritten(header).value == Bounds(Some(s), e)
              case Suffix(_) => false
  {
  }

  lemma DigitsHaveNoDash(n: nat)
    ensures '-' !in ShowNat(n) && ShowNat(n) != ""
  {
    var s := ShowNat(n);
    forall i | 0 <= i < |s|
      ensures s[i] != '-'
    {
      assert IsDigit(s[i]);
    }
  }

  lemma NonEmptyCons(a: string, rest: seq<string>)
    ensures NonEmpty([a] + rest) == (if a == "" then [] else [a]) + NonEmpty(rest)
  {
    assert ([a] + rest)[1..] == rest;
  }

  /** The pieces of "s-e", "s-" and "-e" between dashes. */
  lemma DashPieces(a: string, b: string)
    requires '-' !in a && '-' !in b
    ensures SplitRemoveEmpty(a + "-" + b, '-') == NonEmpty([a, b])
  {
    assert a + "-" + b == a + ['-'] + b;
    SplitAt(a, b, '-');
    SplitNoSep(b, '-');
  }

  lemma NumberPiece(n: nat)
    requires n <= Int64Max
    ensures ParseLong(ShowNat(n)) == Ok(n) && IsDigit(ShowNat(n)[0])
  {
    DecimalRoundTrip(n);
  }

  /** "bytes=s-e" reads as the range from s to e. */
  lemma ClosedRangeRoundTrip(s: nat, e: nat)
    requires s <= Int64Max && e <= Int64Max
    ensures ParseRange("bytes=" + ShowNat(s) + "-" + ShowNat(e)) == Ok(FromTo(s, Some(e)))
    ensures ParseRangeAsWritten("bytes=" + ShowNat(s) + "-" + ShowNat(e)) == Ok(Bounds(Some(s), Some(e)))
  {
    ClosedRangePieces(s, e);
  }

  /** The pieces of "bytes=s-e" after the unit: two numbers, no leading dash. */
  lemma ClosedRangePieces(s: nat, e: nat)
    requires s <= Int64Max && e <= Int64Max
    ensures var h := "bytes=" + ShowNat(s) + "-" + ShowNat(e);
            && StartsWith(h, "bytes=") && !StartsWith(h[6..], "-")
            && SplitRemoveEmpty(h[6..], '-') == [ShowNat(s), ShowNat(e)]
            && ParseLong(ShowNat(s)) == Ok(s) && ParseLong(ShowNat(e)) == Ok(e)
  {
    var a, b := ShowNat(s), ShowNat(e);
    var rest := a + "-" + b;
    DigitsHaveNoDash(s);
    DigitsHaveNoDash(e);
    assert "bytes=" + a + "-" + b == "bytes=" + rest;
    HeaderBody(rest);
    TwoPieces(a, b);
    NumberPiece(s);
    NumberPiece(e);
    assert rest[0] == a[0];
  }

  lemma HeaderBody(rest: string)
    ensures StartsWith("bytes=" + rest, "bytes=") && ("bytes=" + rest)[6..] == rest
  {
    assert ("bytes=" + rest)[..6] == "bytes=";
  }

  lemma TwoPieces(a: string, b: string)
    requires '-' !in a && '-' !in b && a != "" && b != ""
    ensures SplitRemoveEmpty(a + "-" + b, '-') == [a, b]
  {
    DashPieces(a, b);
    NonEmptyCons(a, [b]);
    NonEmptyCons(b, []);
  }

  /** "bytes=s-" reads as the range from s to the end. */
  lemma OpenRangeRoundTrip(s: nat)
    requires s <= Int64Max
    ensures ParseRange("bytes=" + ShowNat(s) + "-") == Ok(FromTo(s, None))
    ensures ParseRangeAsWritten("bytes=" + ShowNat(s) + "-") == Ok(Bounds(Some(s), None))
  {
    var a := ShowNat(s);
    var h := "bytes=" + a + "-";
    DigitsHaveNoDash(s);
    assert h[..6] == "bytes=";
    assert h[6..] == a + "-" + "";
    DashPieces(a, "");
    NonEmptyCons(a, [""]);
    NonEmptyCons("", []);
    NumberPiece(s);
    assert h[6..][0] == a[0];
  }

  /** The source reads the suffix range "bytes=-n" (the last n bytes) as
      the range from offset n to the end. */
  lemma SuffixRangeAsWritten(n: nat)
    requires n <= Int64Max
    ensures ParseRangeAsWritten("bytes=-" + ShowNat(n)) == Ok(Bounds(Some(n), None))
  {
    SuffixPieces(n);
  }

  /** The corrected reading keeps it a suffix range. */
  lemma SuffixRangeRoundTrip(n: nat)
    requires n <= Int64Max
    ensures ParseRange("bytes=-" + ShowNat(n)) == Ok(Suffix(n))
  {
    SuffixPieces(n);
  }

  lemma SuffixPieces(n: nat)
    requires n <= Int64Max
    ensures var h := "bytes=-" + ShowNat(n);
            && StartsWith(h, "bytes=") && StartsWith(h[6..], "-")
            && SplitRemoveEmpty(h[6..], '-') == [ShowNat(n)]
            && ParseLong(ShowNat(n)) == Ok(n)
  {
    var b := ShowNat(n);
    var h := "bytes=-" + b;
    DigitsHaveNoDash(n);
    assert h[..6] == "bytes=";
    assert h[6..] == "" + "-" + b;
    DashPieces("", b);
    NonEmptyCons("", [b]);
    NonEmptyCons(b, []);
    NumberPiece(n);
  }

  /** The request as the source stores it: the item and the two bounds. */
  datatype Request = Request(item: string, bounds: Bounds)

  /** `new GetWebdavItemRequest(context)`: the normalised path, the key
      check, then the range as the source reads it. */
  function New(path: string, keyValid: bool, rangeHeader: string): (r: Result<Request>)
    ensures !keyValid ==> r == Err(Unauthorized)
    ensures keyValid ==> (r.Ok? <==> ParseRangeAsWritten(rangeHeader).Ok?)
    ensures keyValid && r.Err? ==> r.error == ParseRangeAsWritten(rangeHeader).error
    ensures r.Ok? ==> r.value.item == NormalizePath(path) && Ok(r.value.bounds) == ParseRangeAsWritten(rangeHeader)
  {
    var item := NormalizePath(path);
    if !keyValid then Err(Unauthorized)
    else match ParseRangeAsWritten(rangeHeader)
      case Err(e) => Err(e)
      case Ok(bounds) => Ok(Request(item, bounds))
  }

  /** A request whose range keeps suffix ranges apart. */
  datatype RangedRequest = RangedRequest(item: string, range: RangeSpec)

  /** `New` with the corrected range reading. */
  function NewCorrected(path: string, keyValid: bool, rangeHeader: string): (r: Result<RangedRequest>)
    ensures !keyValid ==> r == Err(Unauthorized)
    ensures keyValid ==> (r.Ok? <==> ParseRange(rangeHeader).Ok?)
    ensures keyValid && r.Err? ==> r.error == ParseRange(rangeHeader).error
    ensures r.Ok? ==> r.value.item == NormalizePath(path) && Ok(r.value.range) == ParseRange(rangeHeader)
  {
    var item := NormalizePath(path);
    if !keyValid then Err(Unauthorized)
    else match ParseRange(rangeHeader)
      case Err(e) => Err(e)
      case Ok(range) => Ok(RangedRequest(item, range))
  }

  /** Both constructions agree on every header that is not a suffix range. */
  lemma NewAgrees(path: string, keyValid: bool, rangeHeader: string)
    requires StartsWith(rangeHeader, "bytes=") ==> !StartsWith(rangeHeader[6..], "-")
    ensures New(path, keyValid, rangeHeader).Err? <==> NewCorrected(path, keyValid, rangeHeader).Err?
    ensures New(path, keyValid, rangeHeader).Err? ==>
              New(path, keyValid, rangeHeader).error == NewCorrected(path, keyValid, rangeHeader).error
    ensures New(path, keyValid, rangeHeader).Ok? ==>
              var a, b := New(path, keyValid, rangeHeader).value, NewCorrected(path, keyValid, rangeHeader).value;
              && a.item == b.item
              && match b.range
                 case NoRange => a.bounds == Bounds(None, None)
                 case FromTo(s, e) => a.bounds == Bounds(Some(s), e)
                 case Suffix(_) => false
  {
    ParsersAgree(rangeHeader);
  }
}
