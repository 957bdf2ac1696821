// frontend/src/utils/ipAddress.util.ts, normalizeIpAddress: one text per address, whatever surrounds it.
module IpAddress {
  import opened Wrappers
  import opened Text
  import opened Numerals
  import opened Ipv4
  import opened Ipv6
  import opened Ipv6Text

  /** The first entry of a comma-separated list, trimmed. */
  function FirstEntry(s: string): string {
    if ',' in s then Trim(s[..IndexOf(s, ',')]) else s
  }

  predicate Port(s: string) {
    s != "" && AllDigits(s, 10)
  }

  /** The pattern `^\[([^[\]]+)\](?::\d+)?$`; its first group, or the text itself. */
  function Unbracket(s: string): string {
    var close := IndexOf(s, ']');
    if s != "" && s[0] == '[' && close < |s| then
      var inner, tail := s[1..close], s[close + 1..];
      if inner != "" && '[' !in inner && (tail == "" || (tail[0] == ':' && Port(tail[1..]))) then inner else s
    else s
  }

  function WithoutZone(s: string): string {
    s[..IndexOf(s, '%')]
  }

  predicate QuadShape(s: string) {
    var octets := Split(s, ".");
    |octets| == 4 && forall k | 0 <= k < 4 :: OctetShape(octets[k])
  }

  /** The pattern `^(\d{1,3}(?:\.\d{1,3}){3}):(\d+)$`; its first group, or the text itself. */
  function WithoutPort(s: string): string {
    var colon := IndexOf(s, ':');
    if colon < |s| && QuadShape(s[..colon]) && Port(s[colon + 1..]) then s[..colon] else s
  }

  /** The text that is left once list, brackets, zone and port are gone. */
  function Bare(value: string): string {
    WithoutPort(WithoutZone(Unbracket(FirstEntry(Trim(value)))))
  }

  const MAPPED := "::ffff:"

  /** The branch that answers with the dotted quad of an IPv4-mapped address. */
  predicate IsMapped(bare: string) {
    MAPPED <= bare && NormalizeIpv4(bare[|MAPPED|..]).Some?
  }

  function BareText(bare: string): Option<string> {
    if IsMapped(bare) then NormalizeIpv4(bare[|MAPPED|..])
    else if NormalizeIpv4(bare).Some? then NormalizeIpv4(bare)
    else NormalizedText(bare)
  }

  /** The normal form of an address; a missing value is None. */
  function AddressText(value: Option<string>): Option<string> {
    if value.None? || Trim(value.value) == "" then None else BareText(Bare(value.value))
  }

  method NormalizeIpAddress(value: Option<string>) returns (r: Option<string>)
    ensures r == AddressText(value)
  {
    if value.None? || value.value == "" {
      return None;
    }
    var normalized := Trim(value.value);
    if normalized == "" {
      return None;
    }
    normalized := FirstEntry(normalized);
    normalized := Unbracket(normalized);
    normalized := WithoutZone(normalized);
    normalized := WithoutPort(normalized);
    if MAPPED <= normalized {
      var mappedIpv4 := NormalizeIpv4(normalized[|MAPPED|..]);
      if mappedIpv4.Some? {
        return mappedIpv4;
      }
    }
    r := NormalizeIpv4(normalized);
    if r.None? {
      r := NormalizeIpv6(normalized);
    }
  }

  // ---------------------------------------------------------------- the possible answers

  ghost predicate IsQuadText(t: string) {
    exists octets :: IsQuad(octets) && t == PrintQuad(octets)
  }

  ghost predicate IsAddressText(t: string) {
    exists groups :: IsAddress(groups) && t == CanonicalText(groups)
  }

  /** Only hexadecimal digits, dots and colons: nothing that list, bracket, zone or trimming rules touch. */
  ghost predicate Plain(t: string) {
    t != "" && forall c | c in t :: IsHex(c) || c == '.' || c == ':'
  }

  lemma BareTextForms(bare: string)
    ensures var r := BareText(bare); r.Some? ==> IsQuadText(r.value) || IsAddressText(r.value)
  {
    if BareText(bare).Some? {
      if IsMapped(bare) {
        assert IsQuad(ReadQuad(bare[|MAPPED|..]).value);
      } else if NormalizeIpv4(bare).Some? {
        assert IsQuad(ReadQuad(bare).value);
      } else {
        ReadAddressRange(bare);
        assert IsAddress(ReadAddress(bare).value);
      }
    }
  }

  /** Joined hexadecimal texts, with or without a `::`, hold only hexadecimal digits and colons. */
  lemma AddressCharacters(groups: seq<nat>)
    requires IsAddress(groups)
    ensures var t := CanonicalText(groups); ':' in t && forall c | c in t :: IsHex(c) || c == ':'
  {
    var (start, length) := BestRun(groups, 0);
    var left, right := HexText(groups[..start]), HexText(groups[start + length..]);
    HexTextSolid(groups);
    HexTextSolid(groups[..start]);
    HexTextSolid(groups[start + length..]);
    SeveralGroups(groups);
    assert length >= 2 ==> CanonicalText(groups)[|left|] == ':';
  }

  lemma SeveralGroups(groups: seq<nat>)
    requires |groups| >= 2
    ensures ':' in HexText(groups)
  {
  }

  lemma PlainIsBare(t: string)
    requires Plain(t)
    ensures Trim(t) == t && WithoutZone(Unbracket(FirstEntry(t))) == t
  {
    assert t[0] in t && t[|t| - 1] in t;
    TrimPadded("", t, "");
    assert "" + t + "" == t;
    IndexOfNone(t, '%');
  }

  lemma NoDotNoQuad(s: string)
    requires '.' !in s
    ensures ReadQuad(s).None? && !QuadShape(s)
  {
    assert s[..|s|] == s;
    CharNoneBefore(s, '.', |s|);
    SplitNone(s, ".");
  }

  lemma QuadTextFixed(t: string)
    requires IsQuadText(t)
    ensures Plain(t) && ':' !in t && WithoutPort(t) == t && BareText(t) == Some(t)
  {
    var octets :| IsQuad(octets) && t == PrintQuad(octets);
    QuadCharacters(octets);
    ReadPrintedQuad(octets);
    IndexOfNone(t, ':');
    assert MAPPED[0] == ':' && t[0] in t;
  }

  lemma AddressTextFixed(t: string)
    requires IsAddressText(t)
    ensures Plain(t) && ':' in t && '.' !in t && WithoutPort(t) == t && BareText(t) == Some(t)
  {
    var groups :| IsAddress(groups) && t == CanonicalText(groups);
    AddressCharacters(groups);
    ReadCanonical(groups);
    NoDotNoQuad(t);
    var colon := IndexOf(t, ':');
    NoDotNoQuad(t[..colon]);
    if MAPPED <= t {
      NoDotNoQuad(t[|MAPPED|..]);
    }
  }

  /** A text is its own normal form exactly when it is a canonical dotted quad or a canonical IPv6 text. */
  lemma FixedPoints(t: string)
    ensures AddressText(Some(t)) == Some(t) <==> IsQuadText(t) || IsAddressText(t)
  {
    if AddressText(Some(t)) == Some(t) {
      BareTextForms(Bare(t));
    }
    if IsQuadText(t) {
      QuadTextFixed(t);
      PlainIsBare(t);
    } else if IsAddressText(t) {
      AddressTextFixed(t);
      PlainIsBare(t);
    }
  }

  /** Normalising a second time changes nothing, whatever the input was. */
  lemma Idempotent(value: Option<string>)
    ensures var r := AddressText(value); r.Some? ==> AddressText(r) == r
  {
    if AddressText(value).Some? {
      BareTextForms(Bare(value.value));
      FixedPoints(AddressText(value).value);
    }
  }

  // ---------------------------------------------------------------- IPv4-mapped addresses

  /** The groups of an IPv4-mapped address. */
  function MappedGroups(quad: seq<nat>): seq<nat>
    requires |quad| == 4
  {
    Zeros(5) + [0xffff, quad[0] * 256 + quad[1], quad[2] * 256 + quad[3]]
  }

  lemma QuadHasNoColon(s: string)
    requires ReadQuad(s).Some?
    ensures s != "" && forall c | c in s :: IsDecimal(c) || c == '.'
    ensures '.' in s
  {
    SplitCovers(s, '.');
    var pieces := Split(s, ".");
    var parsed := seq(4, k requires 0 <= k < 4 => ReadOctet(pieces[k]));
    forall c | c in s && c != '.' ensures IsDecimal(c) {
      var p :| p in pieces && c in p;
      var k :| 0 <= k < 4 && pieces[k] == p;
      assert parsed[k].Some?;
    }
    if '.' !in s {
      NoDotNoQuad(s);
    }
  }

  lemma ReadMappedPart(quadText: string)
    requires ReadQuad(quadText).Some?
    ensures ReadPart("ffff:" + quadText) == Some(MappedGroups(ReadQuad(quadText).value)[5..])
  {
    var quad := ReadQuad(quadText).value;
    MappedSegments(quadText);
    ReadFfff();
    QuadHasNoColon(quadText);
    ReadTwoSegments("ffff", quadText);
    assert MappedGroups(quad)[5..] == [0xffff] + [quad[0] * 256 + quad[1], quad[2] * 256 + quad[3]];
  }

  lemma MappedSegments(quadText: string)
    requires ReadQuad(quadText).Some?
    ensures Split("ffff:" + quadText, ":") == ["ffff", quadText]
  {
    QuadHasNoColon(quadText);
    var segments := ["ffff", quadText];
    assert segments[1..] == [quadText] && Join(segments, ":") == "ffff:" + quadText;
    SplitJoin(segments, ':');
  }

  lemma ReadFfff()
    ensures ReadSegment("ffff") == Some([0xffff])
  {
    assert "ffff"[..3] == "fff" && "fff"[..2] == "ff" && "ff"[..1] == "f" && "f"[..0] == "";
    assert Parse("f", 16) == 15;
    assert Parse("ff", 16) == 255;
    assert Parse("fff", 16) == 4095;
  }

  /** The address that `::ffff:` or an upper-case spelling of it puts before a dotted quad. */
  lemma MappedAddress(prefix: string, quadText: string)
    requires ToLower(prefix) == "ffff" && ReadQuad(quadText).Some?
    ensures ReadAddress("::" + prefix + ":" + quadText) == Some(MappedGroups(ReadQuad(quadText).value))
  {
    QuadHasNoColon(quadText);
    var s, lower, right := "::" + prefix + ":" + quadText, "::ffff:" + quadText, "ffff:" + quadText;
    forall k | 0 <= k < |s| ensures LowerChar(s[k]) == lower[k] {
      if 2 <= k < 6 {
        assert s[k] == prefix[k - 2] && lower[k] == ToLower(prefix)[k - 2];
      } else if k >= 7 {
        assert s[k] == quadText[k - 7] && lower[k] == quadText[k - 7] && quadText[k - 7] in quadText;
      }
    }
    assert ToLower(s) == lower;
    MappedSplit(quadText);
    ReadMappedPart(quadText);
    var quad := ReadQuad(quadText).value;
    assert [] + Zeros(5) + MappedGroups(quad)[5..] == MappedGroups(quad);
  }

  lemma MappedSplit(quadText: string)
    requires ReadQuad(quadText).Some?
    ensures Split("::ffff:" + quadText, "::") == ["", "ffff:" + quadText]
  {
    QuadHasNoColon(quadText);
    var right := "ffff:" + quadText;
    forall k | 0 <= k < |right| ensures !("::" <= right[k..]) {
      var tail := right[k..];
      if |tail| >= 2 {
        assert tail[0] == right[k] && tail[1] == right[k + 1];
        assert k >= 4 ==> right[k + 1] == quadText[k - 4] && quadText[k - 4] in quadText;
      }
    }
    SplitNone(right, "::");
    SplitAt("", "::", right);
    assert "" + "::" + right == "::ffff:" + quadText;
  }

  lemma AddressIsNoQuad(s: string)
    requires ReadAddress(s).Some?
    ensures ReadQuad(s).None?
  {
    if ReadQuad(s).Some? {
      QuadHasNoColon(s);
      assert forall k | 0 <= k < |s| :: s[k] in s;
      assert ToLower(s) == s;
      CharNoneBefore(s, ':', |s|);
      assert NoneBefore(s, "::", |s|) by {
        forall k | 0 <= k < |s| ensures !("::" <= s[k..]) {
          assert s[k..][0] == s[k] != ':';
        }
      }
      SplitNone(s, "::");
      SplitNone(s, ":");
      ReadOneSegment(s);
    }
  }

  lemma MappedGroupsInjective(a: seq<nat>, b: seq<nat>)
    requires IsQuad(a) && IsQuad(b) && MappedGroups(a) == MappedGroups(b)
    ensures a == b
  {
    assert MappedGroups(a)[6] == MappedGroups(b)[6] && MappedGroups(a)[7] == MappedGroups(b)[7];
  }

  lemma MappedBare(bare: string) returns (quad: seq<nat>)
    requires IsMapped(bare)
    ensures IsQuad(quad) && BareText(bare) == Some(PrintQuad(quad)) && ReadAddress(bare) == Some(MappedGroups(quad))
    ensures ':' !in PrintQuad(quad)
  {
    var rest := bare[|MAPPED|..];
    quad := ReadQuad(rest).value;
    assert ToLower("ffff") == "ffff";
    MappedAddress("ffff", rest);
    assert bare == "::" + "ffff" + ":" + rest;
    QuadCharacters(quad);
  }

  /** Of two texts that denote one IPv6 address, both or neither have to take the branch for mapped addresses. */
  lemma SameBranch(a: string, b: string)
    requires ReadAddress(a).Some? && ReadAddress(a) == ReadAddress(b)
    ensures BareText(a) == BareText(b) <==> (IsMapped(a) <==> IsMapped(b))
  {
    ReadAddressRange(a);
    AddressCharacters(ReadAddress(a).value);
    AddressIsNoQuad(a);
    AddressIsNoQuad(b);
    if IsMapped(a) {
      var quadA := MappedBare(a);
      if IsMapped(b) {
        var quadB := MappedBare(b);
        MappedGroupsInjective(quadA, quadB);
      }
    } else if IsMapped(b) {
      var quadB := MappedBare(b);
    }
  }

  // ---------------------------------------------------------------- the backend twin

  /** backend/src/share/shareIp.util.ts: the same steps, but the family is what `isIP` of the platform says. */
  function BackendText(family: string -> nat, value: Option<string>): Option<string> {
    if value.None? || Trim(value.value) == "" then None
    else
      var bare := Bare(value.value);
      if IsMapped(bare) then NormalizeIpv4(bare[|MAPPED|..])
      else if family(bare) == 4 then NormalizeIpv4(bare)
      else if family(bare) == 6 then NormalizedText(bare)
      else None
  }

  /** Whatever the backend accepts it writes like the frontend, if `isIP` never calls a dotted quad IPv6. */
  lemma BackendAgrees(family: string -> nat, value: Option<string>)
    requires forall s | family(s) == 6 :: ReadQuad(s).None?
    ensures var r := BackendText(family, value);
      r.Some? ==> r == AddressText(value) && AddressText(r) == r
  {
    Idempotent(value);
  }
}
