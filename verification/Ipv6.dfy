// frontend/src/utils/ipAddress.util.ts, parseIpv6Part, and what normalizeIpv6 reads an IPv6 address as.
module Ipv6 {
  import opened Wrappers
  import opened Text
  import opened Numerals
  import opened Ipv4

  /** Eight 16-bit groups: the value of an IPv6 address. */
  ghost predicate IsAddress(groups: seq<nat>) {
    |groups| == 8 && AllGroups(groups)
  }

  ghost predicate AllGroups(groups: seq<nat>) {
    forall k | 0 <= k < |groups| :: groups[k] < 0x10000
  }

  // ---------------------------------------------------------------- reading

  /** The pattern `^[0-9a-f]{1,4}$` with the `i` flag. */
  predicate GroupShape(s: string) {
    1 <= |s| <= 4 && AllDigits(s, 16)
  }

  /** The one or two groups that a segment between colons denotes. */
  function ReadSegment(segment: string): Option<seq<nat>> {
    if segment == "" then None
    else if '.' in segment then
      var quad := ReadQuad(segment);
      if quad.None? then None
      else Some([quad.value[0] * 256 + quad.value[1], quad.value[2] * 256 + quad.value[3]])
    else if GroupShape(segment) then Some([Parse(segment, 16)])
    else None
  }

  function ReadSegments(segments: seq<string>): Option<seq<nat>> {
    if segments == [] then Some([])
    else
      var front, last := ReadSegments(segments[..|segments| - 1]), ReadSegment(segments[|segments| - 1]);
      if front.None? || last.None? then None else Some(front.value + last.value)
  }

  /** The groups on one side of the `::`. */
  function ReadPart(part: string): Option<seq<nat>> {
    if part == "" then Some([]) else ReadSegments(Split(part, ":"))
  }

  function Zeros(n: nat): seq<nat> {
    seq(n, _ => 0)
  }

  /** The groups on both sides of a `::` with zeros filled in between, or eight groups without one. */
  function Assemble(left: Option<seq<nat>>, right: Option<seq<nat>>, hasGap: bool): Option<seq<nat>> {
    if left.None? || right.None? then None
    else if !hasGap then
      if |left.value| + |right.value| != 8 then None else Some(left.value + right.value)
    else
      var present := |left.value| + |right.value|;
      if present >= 8 then None else Some(left.value + Zeros(8 - present) + right.value)
  }

  /** The eight groups a text denotes, if it is an IPv6 address. */
  function ReadAddress(value: string): Option<seq<nat>> {
    var parts := Split(ToLower(value), "::");
    if |parts| > 2 then None
    else if |parts| == 2 then Assemble(ReadPart(parts[0]), ReadPart(parts[1]), true)
    else Assemble(ReadPart(parts[0]), ReadPart(""), false)
  }

  lemma {:induction false} SegmentsRange(segments: seq<string>)
    ensures ReadSegments(segments).Some? ==> AllGroups(ReadSegments(segments).value)
  {
    if segments != [] {
      var last := segments[|segments| - 1];
      SegmentsRange(segments[..|segments| - 1]);
      if GroupShape(last) {
        HexBound(last, 4);
      }
    }
  }

  lemma {:induction false} HexBound(s: string, width: nat)
    requires AllDigits(s, 16) && |s| <= width <= 4
    ensures Parse(s, 16) < [1, 16, 256, 4096, 65536][width]
  {
    if s != "" {
      assert s[|s| - 1] in s;
      forall c | c in s[..|s| - 1] ensures IsHex(c) {
        assert c in s;
      }
      HexBound(s[..|s| - 1], width - 1);
    }
  }

  /** Whatever text is accepted, the groups it denotes fit in 16 bits. */
  lemma ReadAddressRange(value: string)
    ensures ReadAddress(value).Some? ==> IsAddress(ReadAddress(value).value)
  {
    var parts := Split(ToLower(value), "::");
    SegmentsRange(Split(parts[0], ":"));
    if |parts| == 2 {
      SegmentsRange(Split(parts[1], ":"));
    }
  }

  /** A `::` always stands for at least one group, and those groups are zero. */
  lemma GapStandsForZeros(value: string)
    requires ReadAddress(value).Some?
    ensures var parts := Split(ToLower(value), "::"); var groups := ReadAddress(value).value;
      && |groups| == 8
      && (|parts| == 2 ==>
            && ReadPart(parts[0]).Some? && ReadPart(parts[1]).Some?
            && var left, right := ReadPart(parts[0]).value, ReadPart(parts[1]).value;
               && |left| + |right| <= 7 && left <= groups && groups[8 - |right|..] == right
               && forall k | |left| <= k < 8 - |right| :: groups[k] == 0)
  {
  }

  /** One bad segment spoils the whole part. */
  lemma {:induction false} BadSegment(segments: seq<string>, i: nat)
    requires i < |segments| && ReadSegment(segments[i]).None?
    ensures ReadSegments(segments).None?
  {
    if i < |segments| - 1 {
      BadSegment(segments[..|segments| - 1], i);
    }
  }

  lemma ReadOneSegment(segment: string)
    ensures ReadSegments([segment]) == ReadSegment(segment)
  {
    assert [segment][..0] == [];
    if ReadSegment(segment).Some? {
      assert [] + ReadSegment(segment).value == ReadSegment(segment).value;
    }
  }

  lemma ReadTwoSegments(a: string, b: string)
    requires ReadSegment(a).Some? && ReadSegment(b).Some?
    ensures ReadSegments([a, b]) == Some(ReadSegment(a).value + ReadSegment(b).value)
  {
    assert [a, b][..1] == [a];
    ReadOneSegment(a);
  }

  method ParseIpv6Part(part: string) returns (r: Option<seq<nat>>)
    ensures r == ReadPart(part)
  {
    if part == "" {
      return Some([]);
    }
    var segments := Split(part, ":");
    var groups: seq<nat> := [];
    for i := 0 to |segments|
      invariant ReadSegments(segments[..i]) == Some(groups)
    {
      var segment := segments[i];
      assert segments[..i + 1][..i] == segments[..i];
      if ReadSegment(segment).None? {
        BadSegment(segments, i);
      }
      if segment == "" {
        return None;
      }
      if '.' in segment {
        var normalized := NormalizeIpv4(segment);
        if normalized.None? {
          return None;
        }
        ReadPrintedQuad(ReadQuad(segment).value);
        var octets := ReadQuad(normalized.value).value;
        groups := groups + [octets[0] * 256 + octets[1], octets[2] * 256 + octets[3]];
        continue;
      }
      if !GroupShape(segment) {
        return None;
      }
      groups := groups + [Parse(segment, 16)];
    }
    assert segments[..|segments|] == segments;
    r := Some(groups);
  }
}
