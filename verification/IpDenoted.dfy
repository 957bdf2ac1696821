// What address a text stands for, and that normalizeIpAddress gives one text per address but for one branch.
module IpDenoted {
  import opened Wrappers
  import opened Text
  import opened Numerals
  import opened Ipv4
  import opened Ipv6
  import opened Ipv6Text
  import opened Ipv6Spelling
  import opened IpAddress
  import opened IpSurroundings

  // ---------------------------------------------------------------- readable texts are left as they are

  lemma {:induction false} PairCovers(s: string)
    ensures forall c | c in s :: c == ':' || exists p :: p in Split(s, "::") && c in p
    decreases |s|
  {
    var parts := Split(s, "::");
    if |s| >= 2 {
      var k := if "::" <= s then 2 else 1;
      var rest := Split(s[k..], "::");
      PairCovers(s[k..]);
      forall c | c in s && c != ':' ensures exists p :: p in parts && c in p {
        if c in s[k..] {
          var p :| p in rest && c in p;
          var j :| 0 <= j < |rest| && rest[j] == p;
          assert c in parts[if k == 2 then j + 1 else j];
        } else {
          assert k == 1 && c == s[0] && c in parts[0];
        }
      }
    } else {
      assert parts[0] == s;
    }
  }

  predicate PlainChar(c: char) {
    IsHex(c) || c == '.' || c == ':'
  }

  lemma {:induction false} ReadableSegments(segments: seq<string>)
    requires ReadSegments(segments).Some?
    ensures forall p, c | p in segments && c in p :: PlainChar(c)
  {
    if segments != [] {
      var front, last := segments[..|segments| - 1], segments[|segments| - 1];
      ReadableSegments(front);
      if '.' in last {
        QuadHasNoColon(last);
      }
      assert segments == front + [last];
    }
  }

  lemma ReadablePart(part: string)
    requires ReadPart(part).Some?
    ensures forall c | c in part :: PlainChar(c)
  {
    if part != "" {
      ReadableSegments(Split(part, ":"));
      SplitCovers(part, ':');
    }
  }

  lemma ReadableCharacters(s: string)
    requires ReadAddress(s).Some?
    ensures Plain(s)
  {
    var lower := ToLower(s);
    var parts := Split(lower, "::");
    PairCovers(lower);
    forall p | p in parts ensures forall c | c in p :: PlainChar(c) {
      ReadablePart(p);
    }
    forall c | c in s ensures PlainChar(c) {
      var k :| 0 <= k < |s| && s[k] == c;
      assert lower[k] in lower && PlainChar(lower[k]);
    }
  }

  lemma QuadWithPortPieces(t: string, port: string)
    requires QuadShape(t) && Port(port)
    ensures var s := t + ":" + port; ToLower(s) == s && NoneBefore(s, "::", |s|) && Split(s, ":") == [t, port]
  {
    var s := t + ":" + port;
    QuadShapeCharacters(t);
    forall k | 0 <= k < |s| && k != |t| ensures IsDecimal(s[k]) || s[k] == '.' {
      assert s[k] in if k < |t| then t else port;
    }
    forall k | 0 <= k < |s| ensures !("::" <= s[k..]) {
      assert |s[k..]| >= 2 ==> s[k..][0] == s[k] && s[k..][1] == s[k + 1];
    }
    assert [t, port][1..] == [port] && Join([t, port], ":") == s;
    assert ':' !in t && ':' !in port;
    SplitJoin([t, port], ':');
  }

  /** A quad with a port is not an IPv6 address: it has three groups at most. */
  lemma QuadWithPortUnreadable(t: string, port: string)
    requires QuadShape(t) && Port(port)
    ensures ReadAddress(t + ":" + port).None?
  {
    var s := t + ":" + port;
    QuadWithPortPieces(t, port);
    SplitNone(s, "::");
    ReadLowerWhole(s, s);
    if ReadSegment(t).Some? && ReadSegment(port).Some? {
      ReadTwoSegments(t, port);
    } else {
      BadSegment([t, port], if ReadSegment(t).None? then 0 else 1);
    }
  }

  lemma ReadableHasNoPort(s: string)
    requires ReadAddress(s).Some?
    ensures WithoutPort(s) == s
  {
    var colon := IndexOf(s, ':');
    if colon < |s| && QuadShape(s[..colon]) && Port(s[colon + 1..]) {
      assert s == s[..colon] + ":" + s[colon + 1..];
      QuadWithPortUnreadable(s[..colon], s[colon + 1..]);
    }
  }

  /** No rule about lists, brackets, zones and ports touches a text that can be read as an IPv6 address. */
  lemma ReadableIsBare(s: string)
    requires ReadAddress(s).Some?
    ensures Plain(s) && WithoutPort(s) == s && Bare(s) == s && AddressText(Some(s)) == BareText(s)
  {
    ReadableCharacters(s);
    PlainIsBare(s);
    ReadableHasNoPort(s);
  }

  /** Nor one that can be read as a dotted quad. */
  lemma QuadIsBare(s: string)
    requires ReadQuad(s).Some?
    ensures Bare(s) == s && AddressText(Some(s)) == NormalizeIpv4(s)
  {
    QuadHasNoColon(s);
    PlainIsBare(s);
    IndexOfNone(s, ':');
    assert MAPPED[0] == ':' && s[0] in s;
  }

  // ---------------------------------------------------------------- one text per address

  /** The address that the normaliser takes a text for. */
  datatype Denoted = V4(octets: seq<nat>) | V6(groups: seq<nat>)

  function Denotes(value: string): Option<Denoted> {
    var bare := Bare(value);
    if IsMapped(bare) then Some(V4(ReadQuad(bare[|MAPPED|..]).value))
    else if ReadQuad(bare).Some? then Some(V4(ReadQuad(bare).value))
    else if ReadAddress(bare).Some? then Some(V6(ReadAddress(bare).value))
    else None
  }

  function DenotedText(d: Denoted): string {
    match d
    case V4(octets) => PrintQuad(octets)
    case V6(groups) => CanonicalText(groups)
  }

  ghost predicate IsDenoted(d: Denoted) {
    match d
    case V4(octets) => IsQuad(octets)
    case V6(groups) => IsAddress(groups)
  }

  lemma DenotedOfText(value: string)
    ensures AddressText(Some(value)) == (match Denotes(value) case Some(d) => Some(DenotedText(d)) case None => None)
    ensures Denotes(value).Some? ==> IsDenoted(Denotes(value).value)
  {
    ReadAddressRange(Bare(value));
    if Trim(value) == "" {
      NothingSettles();
      SettledFromEntry(value);
    }
  }

  lemma DenotedTextInjective(a: Denoted, b: Denoted)
    requires IsDenoted(a) && IsDenoted(b)
    ensures DenotedText(a) == DenotedText(b) <==> a == b
  {
    match (a, b) {
      case (V4(x), V4(y)) =>
        ReadPrintedQuad(x);
        ReadPrintedQuad(y);
      case (V6(x), V6(y)) =>
        CanonicalInjective(x, y);
      case (V4(x), V6(y)) =>
        QuadCharacters(x);
        AddressCharacters(y);
      case (V6(x), V4(y)) =>
        AddressCharacters(x);
        QuadCharacters(y);
    }
  }

  /** Any two inputs get the same answer exactly when they are taken for the same address, or for none. */
  lemma SameTextSameAddress(a: string, b: string)
    ensures AddressText(Some(a)) == AddressText(Some(b)) <==> Denotes(a) == Denotes(b)
  {
    DenotedOfText(a);
    DenotedOfText(b);
    if Denotes(a).Some? && Denotes(b).Some? {
      DenotedTextInjective(Denotes(a).value, Denotes(b).value);
    }
  }

  /**
   * Two inputs whose bare texts are spellings of one IPv6 address get the same normal form exactly when both or
   * neither take the branch for IPv4-mapped addresses.
   */
  lemma OneFormPerAddress(a: string, b: string)
    requires ReadAddress(Bare(a)).Some? && ReadAddress(Bare(a)) == ReadAddress(Bare(b))
    ensures AddressText(Some(a)) == AddressText(Some(b)) <==> (IsMapped(Bare(a)) <==> IsMapped(Bare(b)))
  {
    DenotedOfText(a);
    DenotedOfText(b);
    AddressIsNoQuad(Bare(a));
    AddressIsNoQuad(Bare(b));
    SameBranch(Bare(a), Bare(b));
  }

  /** The branch looks at lower-case letters only, so an upper-case prefix yields another text for the same address. */
  lemma UpperCasePrefixDiffers(quadText: string)
    requires ReadQuad(quadText).Some?
    ensures var lower, upper := "::ffff:" + quadText, "::FFFF:" + quadText;
      && ReadAddress(lower) == ReadAddress(upper)
      && AddressText(Some(lower)) == NormalizeIpv4(quadText)
      && AddressText(Some(upper)) == Some(CanonicalText(MappedGroups(ReadQuad(quadText).value)))
      && AddressText(Some(lower)) != AddressText(Some(upper))
  {
    MappedPair(quadText);
    ReadableIsBare("::ffff:" + quadText);
    ReadableIsBare("::FFFF:" + quadText);
    MappedTexts(quadText);
  }

  lemma MappedTexts(quadText: string)
    requires ReadQuad(quadText).Some?
    ensures var upper := CanonicalText(MappedGroups(ReadQuad(quadText).value));
      && BareText("::ffff:" + quadText) == NormalizeIpv4(quadText)
      && BareText("::FFFF:" + quadText) == Some(upper)
      && NormalizeIpv4(quadText) != Some(upper)
  {
    var lower, upper, quad := "::ffff:" + quadText, "::FFFF:" + quadText, ReadQuad(quadText).value;
    MappedPair(quadText);
    assert lower[|MAPPED|..] == quadText && upper[2] == 'F' && MAPPED[2] == 'f';
    AddressIsNoQuad(upper);
    AddressCharacters(MappedGroups(quad));
    QuadCharacters(quad);
  }

  lemma MappedPair(quadText: string)
    requires ReadQuad(quadText).Some?
    ensures ReadAddress("::ffff:" + quadText) == Some(MappedGroups(ReadQuad(quadText).value)) == ReadAddress("::FFFF:" + quadText)
  {
    assert ToLower("ffff") == "ffff" && ToLower("FFFF") == "ffff";
    assert "::ffff:" + quadText == "::" + "ffff" + ":" + quadText && "::FFFF:" + quadText == "::" + "FFFF" + ":" + quadText;
    MappedAddress("ffff", quadText);
    MappedAddress("FFFF", quadText);
  }

  // ---------------------------------------------------------------- spellings

  lemma {:induction false} NoDotJoined(texts: seq<string>)
    requires forall k | 0 <= k < |texts| :: GroupShape(texts[k])
    ensures '.' !in Join(texts, ":")
  {
    if texts != [] {
      assert forall c | c in texts[0] :: IsHex(c);
      NoDotJoined(texts[1..]);
    }
  }

  /** A text without dots that can be read as an IPv6 address gets its canonical text. */
  lemma DotlessAddress(s: string)
    requires ReadAddress(s).Some? && '.' !in s
    ensures AddressText(Some(s)) == Some(CanonicalText(ReadAddress(s).value))
  {
    ReadableIsBare(s);
    NoDotNoQuad(s);
    if MAPPED <= s {
      NoDotNoQuad(s[|MAPPED|..]);
    }
  }

  /** Eight groups in any spelling get the canonical text of their address. */
  lemma AnyFullSpelling(texts: seq<string>, groups: seq<nat>)
    requires Spells(texts, groups) && |groups| == 8
    ensures AddressText(Some(Join(texts, ":"))) == Some(CanonicalText(groups))
  {
    FullSpelling(texts, groups);
    NoDotJoined(texts);
    DotlessAddress(Join(texts, ":"));
  }

  /** So do up to seven groups around a `::`. */
  lemma AnyGapSpelling(left: seq<string>, right: seq<string>, before: seq<nat>, after: seq<nat>)
    requires Spells(left, before) && Spells(right, after) && |before| + |after| <= 7
    ensures AddressText(Some(Join(left, ":") + "::" + Join(right, ":"))) == Some(CanonicalText(Filled(before, after)))
  {
    GapSpelling(left, right, before, after);
    NoDotJoined(left);
    NoDotJoined(right);
    DotlessAddress(Join(left, ":") + "::" + Join(right, ":"));
  }

  /** Four octets in any spelling get their dotted quad without leading zeros. */
  lemma AnyQuadSpelling(texts: seq<string>, octets: seq<nat>)
    requires IsQuad(octets) && |texts| == 4
    requires forall k | 0 <= k < 4 :: OctetShape(texts[k]) && Parse(texts[k], 10) == octets[k]
    ensures AddressText(Some(Join(texts, "."))) == Some(PrintQuad(octets))
    ensures var pieces := Split(PrintQuad(octets), ".");
      |pieces| == 4 && forall k | 0 <= k < 4 :: Plainest(pieces[k], 10) && Parse(pieces[k], 10) == octets[k]
  {
    QuadPlain(octets);
    QuadSpelling(texts, octets);
    QuadIsBare(Join(texts, "."));
  }
}
