/** `StringExtensions` (backend/Extensions/StringExtensions.cs): membership
    in a list of accepted values, and prefix removal. */
module StringExtensions {
  import opened Text

  /** `IsAny`: the value equals one of the accepted values. */
  function IsAny(value: string, accepted: seq<string>): (r: bool)
    ensures r <==> exists i :: 0 <= i < |accepted| && accepted[i] == value
    decreases |accepted|
  {
    if |accepted| == 0 then false
    else if accepted[0] == value then true
    else
      var rest := IsAny(value, accepted[1..]);
      assert forall i :: 1 <= i < |accepted| ==> accepted[i] == accepted[1..][i - 1];
      rest
  }

  /** `RemovePrefix`: strips one leading occurrence of `prefix`, if any. */
  function RemovePrefix(value: string, prefix: string): (r: string)
    ensures StartsWith(value, prefix) ==> prefix + r == value
    ensures !StartsWith(value, prefix) ==> r == value
  {
    if StartsWith(value, prefix) then
      assert value == value[..|prefix|] + value[|prefix|..];
      value[|prefix|..]
    else value
  }

  /** Removing a prefix that was put there gives the original back. */
  lemma RemovePrefixRoundTrip(prefix: string, rest: string)
    ensures RemovePrefix(prefix + rest, prefix) == rest
  {
    assert (prefix + rest)[..|prefix|] == prefix;
  }
}
