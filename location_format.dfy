/**
 * The `L<line>:C<column>` markers the tools print for each location: the
 * 1-indexed form of the location's start position.
 */
module LocationFormat {
  import opened Wrappers
  import opened Protocol
  import opened GoStrings

  /** `fmt.Sprintf("L%d:C%d", start.Line+1, start.Character+1)`, in uint32 arithmetic. */
  function Marker(loc: Location): (r: string)
    ensures |r| >= 5 && r[0] == 'L'
    ensures forall k :: 0 <= k < |r| ==> IsDigit(r[k]) || r[k] in "L:C"
  {
    "L" + DecimalString(OneBased(loc.range.start.line)) + ":C" + DecimalString(OneBased(loc.range.start.character))
  }

  /** One marker per location, in the group's order. */
  function Markers(group: seq<Location>): seq<string>
  {
    seq(|group|, k requires 0 <= k < |group| => Marker(group[k]))
  }

  /** The loop that accumulates `locStrings`. */
  method LocationMarkers(group: seq<Location>) returns (locStrings: seq<string>)
    ensures |locStrings| == |group|
    ensures forall k :: 0 <= k < |group| ==> locStrings[k] == Marker(group[k])
  {
    locStrings := [];
    for i := 0 to |group|
      invariant |locStrings| == i
      invariant forall k :: 0 <= k < i ==> locStrings[k] == Marker(group[k])
    {
      locStrings := locStrings + [Marker(group[i])];
    }
  }

  /** Reads a marker back: the line and column numbers it shows. */
  function ParseMarker(m: string): Option<(nat, nat)>
  {
    if |m| == 0 || m[0] != 'L' then None
    else
      var body := m[1..];
      match IndexOf(body, ':')
      case None => None
      case Some(i) =>
        var lineDigits := body[..i];
        var tail := body[i + 1..];
        if |tail| == 0 || tail[0] != 'C' then None
        else
          var columnDigits := tail[1..];
          if lineDigits == "" || columnDigits == "" || !AllDigits(lineDigits) || !AllDigits(columnDigits) then None
          else Some((DigitsValue(lineDigits), DigitsValue(columnDigits)))
  }

  /** A marker shows exactly the 1-indexed start line and column of its location. */
  lemma MarkerRoundTrip(loc: Location)
    ensures ParseMarker(Marker(loc)) == Some((OneBased(loc.range.start.line), OneBased(loc.range.start.character)))
  {
    var a := DecimalString(OneBased(loc.range.start.line));
    var b := DecimalString(OneBased(loc.range.start.character));
    var m := Marker(loc);
    var body := m[1..];
    assert body == a + ":C" + b;
    assert ':' !in body[..|a|] by {
      assert body[..|a|] == a;
      assert forall k :: 0 <= k < |a| ==> IsDigit(a[k]);
    }
    IndexOfAt(body, ':', |a|);
    assert body[..|a|] == a;
    assert body[|a| + 1..] == "C" + b;
    assert body[|a| + 1..][1..] == b;
  }

  /**
   * Marker is the inverse of the request's position conversion: converting
   * the numbers a marker shows back with ZeroBased gives the start position,
   * unless a coordinate is 2^32 - 1, where the printed value wraps to 0.
   */
  lemma MarkerRecoversPosition(loc: Location)
    requires loc.range.start.line as int < TwoTo32 - 1 && loc.range.start.character as int < TwoTo32 - 1
    ensures ParseMarker(Marker(loc)).Some?
    ensures var (line, column) := ParseMarker(Marker(loc)).value;
      ToPosition(line, column) == loc.range.start
  {
    MarkerRoundTrip(loc);
    ZeroBasedOneBased(loc.range.start.line);
    ZeroBasedOneBased(loc.range.start.character);
  }
}
