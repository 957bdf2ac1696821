// Which texts the address parsers accept, and the shape of the texts they answer with.
module AddressGrammar {
  import opened Wrappers
  import opened Text
  import opened Numerals
  import opened Ipv4
  import opened Ipv6
  import opened Ipv6Text
  import opened Ipv6Spelling
  import opened IpAddress
  import opened IpSurroundings
  import opened IpDenoted

  // ---------------------------------------------------------------- dotted quads

  /** Four texts of one to three digits with dots between, and the numbers they denote. */
  ghost predicate QuadSays(value: string, texts: seq<string>, octets: seq<nat>) {
    && |texts| == |octets| == 4 && value == Join(texts, ".")
    && forall k | 0 <= k < 4 :: 1 <= |texts[k]| <= 3 && AllDigits(texts[k], 10) && Parse(texts[k], 10) == octets[k] <= 255
  }

  /** A text is accepted as a dotted quad exactly when it is such a text. */
  lemma QuadExactly(value: string, octets: seq<nat>)
    ensures ReadQuad(value) == Some(octets) <==> exists texts :: QuadSays(value, texts, octets)
  {
    if ReadQuad(value) == Some(octets) {
      var texts := Split(value, ".");
      JoinSplit(value, ".");
      forall k | 0 <= k < 4
        ensures 1 <= |texts[k]| <= 3 && AllDigits(texts[k], 10) && Parse(texts[k], 10) == octets[k] <= 255
      {
        var parsed := seq(4, k requires 0 <= k < 4 => ReadOctet(texts[k]));
        assert parsed[k].Some?;
      }
      assert QuadSays(value, texts, octets);
    }
    if texts :| QuadSays(value, texts, octets) {
      QuadSpelling(texts, octets);
    }
  }

  // ---------------------------------------------------------------- IPv6 addresses

  /** One group in one to four hexadecimal digits, or two groups as a dotted quad. */
  ghost predicate SegmentSays(text: string, groups: seq<nat>) {
    || (1 <= |text| <= 4 && AllDigits(text, 16) && groups == [Parse(text, 16)])
    || exists texts, octets ::
         QuadSays(text, texts, octets) && groups == [octets[0] * 256 + octets[1], octets[2] * 256 + octets[3]]
  }

  ghost predicate SegmentsSay(texts: seq<string>, groups: seq<nat>) {
    if texts == [] then groups == []
    else exists k :: 0 <= k <= |groups| && SegmentsSay(texts[..|texts| - 1], groups[..k]) && SegmentSays(texts[|texts| - 1], groups[k..])
  }

  lemma DottedSegment(text: string)
    requires ReadQuad(text).Some?
    ensures var octets := ReadQuad(text).value;
      && '.' in text && !AllDigits(text, 16)
      && ReadSegment(text) == Some([octets[0] * 256 + octets[1], octets[2] * 256 + octets[3]])
  {
    QuadHasNoColon(text);
  }

  lemma SegmentRead(text: string, groups: seq<nat>)
    requires ReadSegment(text) == Some(groups)
    ensures SegmentSays(text, groups)
  {
    if '.' in text {
      var octets := ReadQuad(text).value;
      QuadExactly(text, octets);
      var texts :| QuadSays(text, texts, octets);
    }
  }

  lemma HexSegment(text: string)
    requires 1 <= |text| <= 4 && AllDigits(text, 16)
    ensures ReadSegment(text) == Some([Parse(text, 16)])
  {
    assert '.' !in text;
  }

  lemma SegmentSaid(text: string, groups: seq<nat>)
    requires SegmentSays(text, groups)
    ensures ReadSegment(text) == Some(groups)
  {
    if 1 <= |text| <= 4 && AllDigits(text, 16) && groups == [Parse(text, 16)] {
      HexSegment(text);
    } else {
      var texts, octets :| QuadSays(text, texts, octets) && groups == [octets[0] * 256 + octets[1], octets[2] * 256 + octets[3]];
      QuadExactly(text, octets);
      DottedSegment(text);
    }
  }

  lemma SegmentExactly(text: string, groups: seq<nat>)
    ensures ReadSegment(text) == Some(groups) <==> SegmentSays(text, groups)
  {
    if ReadSegment(text) == Some(groups) {
      SegmentRead(text, groups);
    }
    if SegmentSays(text, groups) {
      SegmentSaid(text, groups);
    }
  }

  lemma {:induction false} SegmentsExactly(texts: seq<string>, groups: seq<nat>)
    ensures ReadSegments(texts) == Some(groups) <==> SegmentsSay(texts, groups)
  {
    if texts != [] {
      var front, last := texts[..|texts| - 1], texts[|texts| - 1];
      if ReadSegments(texts) == Some(groups) {
        var k := |ReadSegments(front).value|;
        assert groups[..k] == ReadSegments(front).value && groups[k..] == ReadSegment(last).value;
        SegmentsExactly(front, groups[..k]);
        SegmentExactly(last, groups[k..]);
      }
      if SegmentsSay(texts, groups) {
        var k :| 0 <= k <= |groups| && SegmentsSay(front, groups[..k]) && SegmentSays(last, groups[k..]);
        SegmentsExactly(front, groups[..k]);
        SegmentExactly(last, groups[k..]);
        assert groups == groups[..k] + groups[k..];
      }
    }
  }

  ghost predicate WholeSays(lower: string, texts: seq<string>, groups: seq<nat>) {
    texts != [] && lower == Join(texts, ":") && SegmentsSay(texts, groups) && |groups| == 8
  }

  ghost predicate GapSays(lower: string, left: seq<string>, right: seq<string>, before: seq<nat>, after: seq<nat>, groups: seq<nat>) {
    && lower == Join(left, ":") + "::" + Join(right, ":")
    && SegmentsSay(left, before) && SegmentsSay(right, after)
    && |before| + |after| <= 7 && groups == Filled(before, after)
  }

  lemma ReadableSegment(text: string, groups: seq<nat>)
    requires SegmentSays(text, groups)
    ensures text != "" && ':' !in text
  {
    SegmentExactly(text, groups);
    if '.' in text {
      QuadHasNoColon(text);
    }
  }

  /** Every segment of a readable list has something in it and no colon. */
  ghost predicate Segments(texts: seq<string>) {
    forall t | t in texts :: t != "" && ':' !in t
  }

  lemma {:induction false} SayingSegments(texts: seq<string>, groups: seq<nat>)
    requires SegmentsSay(texts, groups)
    ensures Segments(texts)
  {
    if texts != [] {
      var front, last := texts[..|texts| - 1], texts[|texts| - 1];
      var k :| 0 <= k <= |groups| && SegmentsSay(front, groups[..k]) && SegmentSays(last, groups[k..]);
      SayingSegments(front, groups[..k]);
      ReadableSegment(last, groups[k..]);
      assert texts == front + [last];
    }
  }

  /** Joined segments have single colons only, and none at the ends. */
  lemma {:induction false} SingleColons(texts: seq<string>)
    requires Segments(texts)
    ensures var s := Join(texts, ":");
      NoDouble(s) && (s != "" ==> s[0] != ':' && s[|s| - 1] != ':') && (texts != [] <==> s != "")
  {
    if texts != [] {
      var first := texts[0];
      assert first in texts && first[0] in first && first[|first| - 1] in first;
      assert forall k | 0 <= k < |first| :: first[k] in first;
      if |texts| > 1 {
        assert forall t | t in texts[1..] :: t in texts;
        SingleColons(texts[1..]);
        var rest := Join(texts[1..], ":");
        var s := first + ":" + rest;
        forall k | 0 <= k < |s| - 1 ensures !(s[k] == ':' && s[k + 1] == ':') {
          if k > |first| {
            assert s[k] == rest[k - |first| - 1] && s[k + 1] == rest[k - |first|];
          }
        }
      }
    }
  }

  lemma NoPair(s: string)
    requires NoDouble(s)
    ensures Split(s, "::") == [s]
  {
    forall k | 0 <= k < |s| ensures !("::" <= s[k..]) {
      assert |s[k..]| >= 2 ==> s[k..][0] == s[k] && s[k..][1] == s[k + 1];
    }
    SplitNone(s, "::");
  }

  lemma GapSplits(l: string, r: string)
    requires NoDouble(l) && NoDouble(r) && (l != "" ==> l[|l| - 1] != ':')
    ensures Split(l + "::" + r, "::") == [l, r]
  {
    var s := l + "::" + r;
    forall k | 0 <= k < |l| ensures !("::" <= s[k..]) {
      assert s[k..][0] == l[k] && s[k..][1] == s[k + 1];
      assert k < |l| - 1 ==> s[k + 1] == l[k + 1];
    }
    SplitAt(l, "::", r);
    NoPair(r);
  }

  lemma PartSays(texts: seq<string>, groups: seq<nat>)
    requires SegmentsSay(texts, groups)
    ensures ReadPart(Join(texts, ":")) == Some(groups)
  {
    SayingSegments(texts, groups);
    SingleColons(texts);
    if texts != [] {
      SplitJoin(texts, ':');
      SegmentsExactly(texts, groups);
    }
  }

  lemma SayingPart(part: string) returns (texts: seq<string>)
    requires ReadPart(part).Some?
    ensures part == Join(texts, ":") && SegmentsSay(texts, ReadPart(part).value) && (part != "" ==> texts != [])
  {
    if part == "" {
      texts := [];
    } else {
      texts := Split(part, ":");
      JoinSplit(part, ":");
      SegmentsExactly(texts, ReadPart(part).value);
    }
  }

  lemma WholeAccepted(value: string, texts: seq<string>, groups: seq<nat>)
    requires WholeSays(ToLower(value), texts, groups)
    ensures ReadAddress(value) == Some(groups)
  {
    SayingSegments(texts, groups);
    SingleColons(texts);
    NoPair(ToLower(value));
    PartSays(texts, groups);
    assert groups + [] == groups;
  }

  lemma SaidPart(texts: seq<string>, groups: seq<nat>)
    requires SegmentsSay(texts, groups)
    ensures var s := Join(texts, ":");
      NoDouble(s) && (s != "" ==> s[|s| - 1] != ':') && ReadPart(s) == Some(groups)
  {
    SayingSegments(texts, groups);
    SingleColons(texts);
    PartSays(texts, groups);
  }

  lemma ReadAround(value: string, l: string, r: string, before: seq<nat>, after: seq<nat>)
    requires ToLower(value) == l + "::" + r && |before| + |after| <= 7
    requires NoDouble(l) && NoDouble(r) && (l != "" ==> l[|l| - 1] != ':')
    requires ReadPart(l) == Some(before) && ReadPart(r) == Some(after)
    ensures ReadAddress(value) == Some(Filled(before, after))
  {
    GapSplits(l, r);
    ReadGap(value, l, r, before, after);
  }

  lemma GapAccepted(value: string, left: seq<string>, right: seq<string>, before: seq<nat>, after: seq<nat>, groups: seq<nat>)
    requires GapSays(ToLower(value), left, right, before, after, groups)
    ensures ReadAddress(value) == Some(groups)
  {
    SaidPart(left, before);
    SaidPart(right, after);
    ReadAround(value, Join(left, ":"), Join(right, ":"), before, after);
  }

  /** The text is made of segments in one of the two ways. */
  ghost predicate AddressSays(lower: string, groups: seq<nat>) {
    || (exists texts :: WholeSays(lower, texts, groups))
    || exists left, right, before, after :: GapSays(lower, left, right, before, after, groups)
  }

  lemma AcceptedSays(value: string)
    requires ReadAddress(value).Some?
    ensures AddressSays(ToLower(value), ReadAddress(value).value)
  {
    var lower := ToLower(value);
    var parts, groups := Split(lower, "::"), ReadAddress(value).value;
    JoinSplit(lower, "::");
    var left := SayingPart(parts[0]);
    if |parts| == 2 {
      var right := SayingPart(parts[1]);
      assert parts[1..] == [parts[1]];
      assert GapSays(lower, left, right, ReadPart(parts[0]).value, ReadPart(parts[1]).value, groups);
    } else {
      assert ReadPart(parts[0]).value + [] == ReadPart(parts[0]).value;
      assert WholeSays(lower, left, groups);
    }
  }

  /**
   * A text is accepted as an IPv6 address exactly when, in lower case, it is a list of segments of eight groups, or
   * two lists of at most seven around a `::`.
   */
  lemma AddressExactly(value: string, groups: seq<nat>)
    ensures ReadAddress(value) == Some(groups) <==> AddressSays(ToLower(value), groups)
  {
    if ReadAddress(value) == Some(groups) {
      AcceptedSays(value);
    }
    if texts :| WholeSays(ToLower(value), texts, groups) {
      WholeAccepted(value, texts, groups);
    } else if left, right, before, after :| GapSays(ToLower(value), left, right, before, after, groups) {
      GapAccepted(value, left, right, before, after, groups);
    }
  }

  // ---------------------------------------------------------------- what is stripped

  /** Brackets go only as a pair around the whole text, with nothing or a port behind them. */
  lemma BracketsOnly(s: string) returns (tail: string)
    ensures var t := Unbracket(s);
      t != s ==> s == "[" + t + "]" + tail && t != "" && '[' !in t && ']' !in t && (tail == "" || (tail[0] == ':' && Port(tail[1..])))
  {
    var close := IndexOf(s, ']');
    tail := if close < |s| then s[close + 1..] else "";
    if Unbracket(s) != s {
      assert ']' !in s[..close];
      assert forall c | c in s[1..close] :: c in s[..close];
      assert s == "[" + s[1..close] + "]" + tail;
    }
  }

  /** A port goes only after four groups of one to three digits. */
  lemma PortOnly(s: string) returns (texts: seq<string>, port: string)
    ensures var t := WithoutPort(s);
      t != s ==>
        && s == t + ":" + port && port != "" && AllDigits(port, 10)
        && |texts| == 4 && t == Join(texts, ".") && forall k | 0 <= k < 4 :: 1 <= |texts[k]| <= 3 && AllDigits(texts[k], 10)
  {
    texts, port := [], "";
    if WithoutPort(s) != s {
      var colon := IndexOf(s, ':');
      port := s[colon + 1..];
      assert s == s[..colon] + ":" + port;
      texts := QuadPieces(s[..colon]);
    }
  }

  lemma QuadPieces(t: string) returns (texts: seq<string>)
    requires QuadShape(t)
    ensures |texts| == 4 && t == Join(texts, ".") && forall k | 0 <= k < 4 :: 1 <= |texts[k]| <= 3 && AllDigits(texts[k], 10)
  {
    texts := Split(t, ".");
    JoinSplit(t, ".");
    forall k | 0 <= k < 4 ensures 1 <= |texts[k]| <= 3 && AllDigits(texts[k], 10) {
      assert OctetShape(texts[k]);
    }
  }

  // ---------------------------------------------------------------- the answers

  ghost predicate PlainGroup(p: string) {
    p == "" || (Plainest(p, 16) && |p| <= 4)
  }

  lemma HexTextsPlain(groups: seq<nat>)
    requires AllGroups(groups)
    ensures forall p | p in HexTexts(groups) :: PlainGroup(p) && ':' !in p && p != ""
  {
    forall p | p in HexTexts(groups) ensures PlainGroup(p) && ':' !in p && p != "" {
      var k :| 0 <= k < |groups| && p == Print(groups[k], 16);
      PrintShape(groups[k], 16);
      PrintLength(groups[k]);
    }
  }

  lemma GapTextPlain(before: seq<nat>, after: seq<nat>)
    requires AllGroups(before) && AllGroups(after)
    ensures forall p | p in Split(HexText(before) + "::" + HexText(after), ":") :: PlainGroup(p)
  {
    var left, right := HexTexts(before), HexTexts(after);
    var marks := GapMarks(left == [], right == []);
    HexTextsPlain(before);
    HexTextsPlain(after);
    JoinMarks(left, right);
    assert forall p | p in marks :: p == "";
    assert forall p | p in left + marks + right :: p in left || p in marks || p in right;
    SplitJoin(left + marks + right, ':');
  }

  /** The pieces of a printed address are empty at the `::`, and otherwise lower-case numerals without a zero in front. */
  lemma AddressPlain(groups: seq<nat>)
    requires IsAddress(groups)
    ensures forall p | p in Split(CanonicalText(groups), ":") :: PlainGroup(p)
  {
    var (start, length) := BestRun(groups, 0);
    if length < 2 {
      HexTextsPlain(groups);
      SplitJoin(HexTexts(groups), ':');
    } else {
      GapTextPlain(groups[..start], groups[start + length..]);
    }
  }

  /** Four decimal numbers up to 255 without leading zeros. */
  ghost predicate QuadForm(r: string) {
    var quad := Split(r, ".");
    |quad| == 4 && forall k | 0 <= k < 4 :: Plainest(quad[k], 10) && Parse(quad[k], 10) <= 255
  }

  /** Groups of one to four lower-case digits without leading zeros, and empty pieces at a `::`. */
  ghost predicate GroupsForm(r: string) {
    '.' !in r && ':' in r && forall p | p in Split(r, ":") :: PlainGroup(p)
  }

  lemma QuadHasForm(octets: seq<nat>)
    requires IsQuad(octets)
    ensures QuadForm(PrintQuad(octets))
  {
    QuadPlain(octets);
  }

  lemma GroupsHaveForm(groups: seq<nat>)
    requires IsAddress(groups)
    ensures GroupsForm(CanonicalText(groups))
  {
    AddressPlain(groups);
    AddressCharacters(groups);
  }

  /**
   * Whatever is accepted, the answer is a dotted quad or groups of that form (RFC 5952, sections 4.1 and 4.3), and it is
   * a quad exactly for the inputs that are taken for one.
   */
  lemma AnswerShape(value: string)
    requires AddressText(Some(value)).Some?
    ensures var r := AddressText(Some(value)).value;
      Denotes(value).Some? && if Denotes(value).value.V4? then QuadForm(r) else GroupsForm(r)
  {
    DenotedOfText(value);
    var d := Denotes(value).value;
    if d.V4? {
      QuadHasForm(d.octets);
    } else {
      GroupsHaveForm(d.groups);
    }
  }

  // ---------------------------------------------------------------- the backend twin

  /** The backend answers like the frontend exactly where the platform tells the right family, if one is asked for. */
  lemma BackendExactly(family: string -> nat, value: string)
    ensures var bare := Bare(value);
      BackendText(family, Some(value)) == AddressText(Some(value)) <==>
        IsMapped(bare) || (if ReadQuad(bare).Some? then family(bare) == 4 else ReadAddress(bare).Some? ==> family(bare) == 6)
  {
    var bare := Bare(value);
    SettledFromEntry(value);
    if Trim(value) == "" {
      NothingSettles();
    } else if ReadAddress(bare).Some? {
      AddressIsNoQuad(bare);
    }
  }
}
