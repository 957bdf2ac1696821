// frontend/src/utils/ipAddress.util.ts, serializeIpv6 and normalizeIpv6: the canonical text of an address.
module Ipv6Text {
  import opened Wrappers
  import opened Text
  import opened Numerals
  import opened Ipv6

  // ---------------------------------------------------------------- the longest run of zeros

  ghost predicate ZeroRun(groups: seq<nat>, start: nat, length: nat) {
    start + length <= |groups| && forall k | start <= k < start + length :: groups[k] == 0
  }

  /** The run is as long as any other, and no equally long run begins before it. */
  ghost predicate LeftmostLongest(groups: seq<nat>, start: nat, length: nat) {
    && ZeroRun(groups, start, length)
    && forall s: nat, l: nat | ZeroRun(groups, s, l) && l > 0 :: Beats(start, length, s, l)
  }

  ghost predicate Beats(start: int, length: nat, s: nat, l: nat) {
    l < length || (l == length && start <= s)
  }

  function ZerosAt(groups: seq<nat>, i: nat): (n: nat)
    requires i <= |groups|
    ensures i + n <= |groups|
    decreases |groups| - i
  {
    if i < |groups| && groups[i] == 0 then 1 + ZerosAt(groups, i + 1) else 0
  }

  /** The first of the longest runs that begin at `i` or later, as (start, length). */
  function BestRun(groups: seq<nat>, i: nat): (run: (nat, nat))
    requires i <= |groups|
    ensures i <= run.0 && run.0 + run.1 <= |groups|
    decreases |groups| - i
  {
    if i == |groups| then (i, 0)
    else
      var rest, here := BestRun(groups, i + 1), ZerosAt(groups, i);
      if here >= rest.1 then (i, here) else rest
  }

  lemma {:induction false} ZerosAtLongest(groups: seq<nat>, i: nat, length: nat)
    requires i <= |groups|
    ensures ZeroRun(groups, i, length) <==> length <= ZerosAt(groups, i)
    decreases |groups| - i
  {
    if i < |groups| && groups[i] == 0 && length > 0 {
      ZerosAtLongest(groups, i + 1, length - 1);
    }
  }

  lemma {:induction false} BestRunFrom(groups: seq<nat>, i: nat)
    requires i <= |groups|
    ensures var (start, length) := BestRun(groups, i);
      && i <= start && ZeroRun(groups, start, length)
      && forall s: nat, l: nat | i <= s && ZeroRun(groups, s, l) && l > 0 :: Beats(start, length, s, l)
    decreases |groups| - i
  {
    if i < |groups| {
      BestRunFrom(groups, i + 1);
      ZerosAtLongest(groups, i, ZerosAt(groups, i));
      forall l: nat | ZeroRun(groups, i, l) ensures l <= ZerosAt(groups, i) {
        ZerosAtLongest(groups, i, l);
      }
    }
  }

  lemma BestRunUnique(groups: seq<nat>, start: nat, length: nat)
    requires LeftmostLongest(groups, start, length)
    ensures BestRun(groups, 0).1 == length && (length > 0 ==> BestRun(groups, 0).0 == start)
  {
    BestRunFrom(groups, 0);
    var (s, l) := BestRun(groups, 0);
    assert ZeroRun(groups, s, l) && ZeroRun(groups, start, length);
  }

  // ---------------------------------------------------------------- the canonical text

  function HexTexts(groups: seq<nat>): (texts: seq<string>)
    ensures |texts| == |groups|
    ensures forall k | 0 <= k < |texts| :: texts[k] == Print(groups[k], 16)
  {
    seq(|groups|, k requires 0 <= k < |groups| => Print(groups[k], 16))
  }

  function HexText(groups: seq<nat>): string {
    Join(HexTexts(groups), ":")
  }

  /** The groups in lower-case hexadecimal, a run of two or more zeros written as `::`. */
  function TextWithRun(groups: seq<nat>, start: nat, length: nat): string
    requires start + length <= |groups|
  {
    if length < 2 then HexText(groups)
    else HexText(groups[..start]) + "::" + HexText(groups[start + length..])
  }

  /** The text that compresses the leftmost longest run of zeros. */
  function CanonicalText(groups: seq<nat>): string {
    var (start, length) := BestRun(groups, 0);
    TextWithRun(groups, start, length)
  }

  function ColonsAt(s: string): (n: nat)
    ensures n <= |s|
  {
    if s != "" && s[0] == ':' then 1 + ColonsAt(s[1..]) else 0
  }

  /** `s.replace(/:{3,}/g, "::")` */
  function CollapseColons(s: string): string
    decreases |s|
  {
    if s == "" then ""
    else if ColonsAt(s) >= 3 then "::" + CollapseColons(s[ColonsAt(s)..])
    else [s[0]] + CollapseColons(s[1..])
  }

  ghost predicate NoTriple(s: string) {
    forall k | 0 <= k < |s| - 2 :: !(s[k] == ':' && s[k + 1] == ':' && s[k + 2] == ':')
  }

  ghost predicate NoDouble(s: string) {
    forall k | 0 <= k < |s| - 1 :: !(s[k] == ':' && s[k + 1] == ':')
  }

  lemma {:induction false} ColonsBegin(s: string)
    ensures forall k | 0 <= k < ColonsAt(s) :: s[k] == ':'
  {
    if s != "" && s[0] == ':' {
      ColonsBegin(s[1..]);
      forall k | 1 <= k < ColonsAt(s) ensures s[k] == ':' {
        assert s[k] == s[1..][k - 1];
      }
    }
  }

  lemma {:induction false} CollapseNothing(s: string)
    requires NoTriple(s)
    ensures CollapseColons(s) == s
  {
    if s != "" {
      ColonsBegin(s);
      CollapseNothing(s[1..]);
    }
  }

  /** Lower-case groups with single colons between them, and none at the ends. */
  ghost predicate Solid(s: string) {
    && NoDouble(s)
    && (s != "" ==> s[0] != ':' && s[|s| - 1] != ':')
    && forall k | 0 <= k < |s| :: s[k] == ':' || (IsHex(s[k]) && !('A' <= s[k] <= 'F'))
  }

  lemma SolidAppend(a: string, b: string)
    requires a != "" && b != "" && Solid(a) && Solid(b)
    ensures Solid(a + ":" + b)
  {
  }

  lemma {:induction false} HexTextSolid(groups: seq<nat>)
    ensures Solid(HexText(groups))
    ensures groups != [] <==> HexText(groups) != ""
  {
    if groups != [] {
      var first := Print(groups[0], 16);
      PrintShape(groups[0], 16);
      forall k | 0 <= k < |first| ensures IsHex(first[k]) && !('A' <= first[k] <= 'F') {
        assert first[k] in first;
      }
      assert Solid(first);
      if |groups| > 1 {
        HexTextSolid(groups[1..]);
        assert HexTexts(groups[1..]) == HexTexts(groups)[1..];
        SolidAppend(first, HexText(groups[1..]));
      }
    }
  }

  /** Around the `::` there is no third colon, and no `::` begins before it. */
  lemma GapShape(left: string, right: string)
    requires Solid(left) && Solid(right)
    ensures var s := left + "::" + right;
      NoTriple(s) && NoneBefore(s, "::", |left|)
  {
    var s := left + "::" + right;
    forall k | 0 <= k < |s| - 2 ensures !(s[k] == ':' && s[k + 1] == ':' && s[k + 2] == ':') {
      if k < |left| - 1 {
        assert s[k] == left[k] && s[k + 1] == left[k + 1];
      } else if k == |left| - 1 {
        assert s[k] == left[k];
      } else if k == |left| {
        assert s[k + 2] == right[0];
      } else if k == |left| + 1 {
        assert s[k + 1] == right[0];
      } else {
        assert s[k] == right[k - |left| - 2] && s[k + 1] == right[k - |left| - 1];
      }
    }
    forall k | 0 <= k < |left| ensures !("::" <= s[k..]) {
      assert s[k..][0] == left[k] && s[k..][1] == s[k + 1];
      if k < |left| - 1 {
        assert s[k + 1] == left[k + 1];
      }
    }
  }

  lemma SolidNoGap(s: string)
    requires Solid(s)
    ensures NoTriple(s) && Split(s, "::") == [s]
  {
    forall k | 0 <= k < |s| ensures !("::" <= s[k..]) {
      var tail := s[k..];
      if |tail| >= 2 {
        assert tail[0] == s[k] && tail[1] == s[k + 1];
      }
    }
    SplitNone(s, "::");
  }

  lemma SolidLower(s: string)
    requires Solid(s)
    ensures ToLower(s) == s
  {
  }

  lemma GapLower(left: string, right: string)
    requires Solid(left) && Solid(right)
    ensures var s := left + "::" + right; ToLower(s) == s
  {
    var s := left + "::" + right;
    forall k | 0 <= k < |s| ensures LowerChar(s[k]) == s[k] {
      if k < |left| {
        assert s[k] == left[k];
      } else if k >= |left| + 2 {
        assert s[k] == right[k - |left| - 2];
      }
    }
  }

  lemma GapPieces(left: string, right: string)
    requires Solid(left) && Solid(right)
    ensures var s := left + "::" + right;
      NoTriple(s) && ToLower(s) == s && Split(s, "::") == [left, right]
  {
    GapLower(left, right);
    GapShape(left, right);
    SolidNoGap(right);
    SplitAt(left, "::", right);
  }

  lemma WholeTextPieces(groups: seq<nat>)
    ensures var s := HexText(groups);
      NoTriple(s) && ToLower(s) == s && Split(s, "::") == [s]
  {
    HexTextSolid(groups);
    SolidNoGap(HexText(groups));
    SolidLower(HexText(groups));
  }

  lemma GapTextPieces(before: seq<nat>, after: seq<nat>)
    ensures var s := HexText(before) + "::" + HexText(after);
      NoTriple(s) && ToLower(s) == s && Split(s, "::") == [HexText(before), HexText(after)]
  {
    HexTextSolid(before);
    HexTextSolid(after);
    GapPieces(HexText(before), HexText(after));
  }

  /** The text around a compressed run: at most one `::`, no third colon, no upper-case letter. */
  lemma RunTextShape(groups: seq<nat>, start: nat, length: nat)
    requires start + length <= |groups|
    ensures var s := TextWithRun(groups, start, length);
      && NoTriple(s) && ToLower(s) == s
      && Split(s, "::") ==
        if length < 2 then [HexText(groups)] else [HexText(groups[..start]), HexText(groups[start + length..])]
  {
    if length < 2 {
      WholeTextPieces(groups);
    } else {
      GapTextPieces(groups[..start], groups[start + length..]);
    }
  }

  // ---------------------------------------------------------------- reading what was printed

  lemma {:induction false} ReadHexTexts(groups: seq<nat>)
    requires AllGroups(groups)
    ensures ReadSegments(HexTexts(groups)) == Some(groups)
  {
    if groups != [] {
      var front, last := groups[..|groups| - 1], groups[|groups| - 1];
      ReadHexTexts(front);
      assert HexTexts(groups)[..|groups| - 1] == HexTexts(front);
      PrintLength(last);
      ParsePrint(last, 16);
      assert groups == front + [last];
    }
  }

  lemma ReadHexText(groups: seq<nat>)
    requires AllGroups(groups)
    ensures ReadPart(HexText(groups)) == Some(groups)
  {
    HexTextSolid(groups);
    if groups != [] {
      var texts := HexTexts(groups);
      forall p | p in texts ensures ':' !in p {
        var k :| 0 <= k < |texts| && p == Print(groups[k], 16);
      }
      SplitJoin(texts, ':');
      ReadHexTexts(groups);
    }
  }

  lemma AssembleGap(groups: seq<nat>, start: nat, length: nat)
    requires |groups| == 8 && ZeroRun(groups, start, length) && length > 0
    ensures Assemble(Some(groups[..start]), Some(groups[start + length..]), true) == Some(groups)
  {
    assert groups == groups[..start] + Zeros(length) + groups[start + length..];
  }

  lemma ReadPieces(value: string, left: string, right: string)
    requires ToLower(value) == value && Split(value, "::") == [left, right]
    ensures ReadAddress(value) == Assemble(ReadPart(left), ReadPart(right), true)
  {
  }

  lemma ReadWhole(value: string, groups: seq<nat>)
    requires ToLower(value) == value && Split(value, "::") == [value]
    requires ReadPart(value) == Some(groups) && |groups| == 8
    ensures ReadAddress(value) == Some(groups)
  {
    assert groups + [] == groups;
  }

  lemma ReadRunText(groups: seq<nat>, start: nat, length: nat)
    requires IsAddress(groups) && ZeroRun(groups, start, length)
    ensures ReadAddress(TextWithRun(groups, start, length)) == Some(groups)
  {
    RunTextShape(groups, start, length);
    var s := TextWithRun(groups, start, length);
    if length < 2 {
      ReadHexText(groups);
      ReadWhole(s, groups);
    } else {
      ReadPieces(s, HexText(groups[..start]), HexText(groups[start + length..]));
      ReadHexText(groups[..start]);
      ReadHexText(groups[start + length..]);
      AssembleGap(groups, start, length);
    }
  }

  /** Reading the canonical text of eight 16-bit groups gives exactly those groups. */
  lemma ReadCanonical(groups: seq<nat>)
    requires IsAddress(groups)
    ensures ReadAddress(CanonicalText(groups)) == Some(groups)
  {
    BestRunFrom(groups, 0);
    var (start, length) := BestRun(groups, 0);
    ReadRunText(groups, start, length);
  }

  /** Different addresses have different texts. */
  lemma CanonicalInjective(a: seq<nat>, b: seq<nat>)
    requires IsAddress(a) && IsAddress(b)
    ensures CanonicalText(a) == CanonicalText(b) <==> a == b
  {
    ReadCanonical(a);
    ReadCanonical(b);
  }

  lemma LongRunExists(groups: seq<nat>)
    ensures var (start, length) := BestRun(groups, 0);
      && LeftmostLongest(groups, start, length)
      && (length >= 2 <==> exists k: nat :: ZeroRun(groups, k, 2))
  {
    BestRunFrom(groups, 0);
    var (start, length) := BestRun(groups, 0);
    if length >= 2 {
      assert ZeroRun(groups, start, 2);
    }
  }

  /** The two sides of the `::` spell what stands before and after the run. */
  ghost predicate LeavesOut(groups: seq<nat>, parts: seq<string>, start: nat, length: nat) {
    && start + length <= |groups| && |parts| == 2
    && ReadPart(parts[0]) == Some(groups[..start])
    && ReadPart(parts[1]) == Some(groups[start + length..])
  }

  lemma RunParts(groups: seq<nat>, start: nat, length: nat)
    requires IsAddress(groups) && start + length <= |groups|
    ensures var parts := Split(TextWithRun(groups, start, length), "::");
      if length < 2 then parts == [HexText(groups)] else LeavesOut(groups, parts, start, length)
  {
    RunTextShape(groups, start, length);
    ReadHexText(groups[..start]);
    ReadHexText(groups[start + length..]);
  }

  /**
   * What the compression does (RFC 5952, sections 4.2.1 to 4.2.3): the text has a `::` exactly when two
   * neighbouring groups are zero, and then the groups it leaves out are the leftmost longest run of zeros.
   */
  lemma CompressedRun(groups: seq<nat>)
    requires IsAddress(groups)
    ensures var parts := Split(CanonicalText(groups), "::");
      && (|parts| == 2 <==> exists k: nat :: ZeroRun(groups, k, 2))
      && (|parts| == 2 ==> exists start: nat, length: nat ::
            2 <= length && LeftmostLongest(groups, start, length) && LeavesOut(groups, parts, start, length))
      && (|parts| != 2 ==> parts == [HexText(groups)])
  {
    LongRunExists(groups);
    var (start, length) := BestRun(groups, 0);
    RunParts(groups, start, length);
  }

  // ---------------------------------------------------------------- the loops of the source

  /** Every run of zeros seen so far is beaten by the best run, or lies in the run still growing. */
  ghost predicate ScanInvariant(groups: seq<nat>, index: nat, bestStart: int, bestLength: nat, currentStart: int, currentLength: nat)
  {
    && index <= |groups|
    && (bestLength > 0 ==> 0 <= bestStart && ZeroRun(groups, bestStart, bestLength) && bestStart + bestLength <= index)
    && (currentLength == 0 <==> currentStart == -1)
    && (currentLength > 0 ==>
          && 0 <= currentStart && currentStart + currentLength == index && ZeroRun(groups, currentStart, currentLength)
          && (currentStart > 0 ==> groups[currentStart - 1] != 0)
          && (bestLength > 0 ==> bestStart + bestLength <= currentStart))
    && (currentLength == 0 && index > 0 ==> groups[index - 1] != 0)
    && forall s: nat, l: nat | ZeroRun(groups, s, l) && l > 0 && s + l <= index ::
         Beats(bestStart, bestLength, s, l) || 0 <= currentStart <= s
  }

  lemma ScanZero(groups: seq<nat>, index: nat, bestStart: int, bestLength: nat, currentStart: int, currentLength: nat)
    requires ScanInvariant(groups, index, bestStart, bestLength, currentStart, currentLength)
    requires index < |groups| && groups[index] == 0
    ensures ScanInvariant(groups, index + 1, bestStart, bestLength,
                          if currentStart == -1 then index else currentStart, currentLength + 1)
  {
  }

  lemma ScanFlush(groups: seq<nat>, index: nat, bestStart: int, bestLength: nat, currentStart: int, currentLength: nat)
    requires ScanInvariant(groups, index, bestStart, bestLength, currentStart, currentLength)
    ensures forall s: nat, l: nat | ZeroRun(groups, s, l) && l > 0 && s + l <= index ::
      if currentLength > bestLength then Beats(currentStart, currentLength, s, l) else Beats(bestStart, bestLength, s, l)
  {
  }

  /** The first loop of the source, which finds the leftmost longest run of zeros. */
  method FindLongestZeroRun(groups: seq<nat>) returns (bestStart: int, bestLength: nat)
    ensures bestLength > 0 ==> 0 <= bestStart && LeftmostLongest(groups, bestStart, bestLength)
    ensures bestLength == 0 ==> forall k | 0 <= k < |groups| :: groups[k] != 0
    ensures bestLength == BestRun(groups, 0).1 && (bestLength > 0 ==> bestStart == BestRun(groups, 0).0)
  {
    bestStart, bestLength := -1, 0;
    var currentStart, currentLength: nat := -1, 0;
    var index := 0;
    while index <= |groups|
      invariant 0 <= index <= |groups| + 1
      invariant index <= |groups| ==> ScanInvariant(groups, index, bestStart, bestLength, currentStart, currentLength)
      invariant index > |groups| && bestLength > 0 ==> 0 <= bestStart && ZeroRun(groups, bestStart, bestLength)
      invariant index > |groups| ==>
        forall s: nat, l: nat | ZeroRun(groups, s, l) && l > 0 :: Beats(bestStart, bestLength, s, l)
    {
      if index < |groups| && groups[index] == 0 {
        ScanZero(groups, index, bestStart, bestLength, currentStart, currentLength);
        if currentStart == -1 {
          currentStart := index;
        }
        currentLength := currentLength + 1;
        index := index + 1;
        continue;
      }
      ScanFlush(groups, index, bestStart, bestLength, currentStart, currentLength);
      if currentLength > bestLength {
        bestStart := currentStart;
        bestLength := currentLength;
      }
      currentStart := -1;
      currentLength := 0;
      index := index + 1;
    }
    if bestLength > 0 {
      BestRunUnique(groups, bestStart, bestLength);
    } else {
      forall k | 0 <= k < |groups| ensures groups[k] != 0 {
        if groups[k] == 0 {
          assert ZeroRun(groups, k, 1);
        }
      }
      assert LeftmostLongest(groups, 0, 0);
      BestRunUnique(groups, 0, 0);
    }
  }

  /** The empty pieces that make up `::` once joined with the groups around them. */
  function GapMarks(atStart: bool, atEnd: bool): seq<string> {
    (if atStart then [""] else []) + [""] + (if atEnd then [""] else [])
  }

  lemma TwoMarks(rest: seq<string>)
    requires rest != []
    ensures Join(["", ""] + rest, ":") == "::" + Join(rest, ":")
  {
  }

  lemma JoinMarks(left: seq<string>, right: seq<string>)
    ensures Join(left + GapMarks(left == [], right == []) + right, ":") == Join(left, ":") + "::" + Join(right, ":")
  {
    var rest := if right == [] then [""] else right;
    assert Join(rest, ":") == Join(right, ":");
    if left == [] {
      assert left + GapMarks(left == [], right == []) + right == ["", ""] + rest;
      TwoMarks(rest);
    } else {
      assert left + GapMarks(left == [], right == []) + right == left + ([""] + rest);
      JoinAppend(left, [""] + rest, ":");
      assert ([""] + rest)[1..] == rest;
    }
  }

  /** The pieces collected before `index` by the second loop. */
  function Pieces(groups: seq<nat>, start: nat, length: nat, index: nat): seq<string>
    requires start + length <= |groups| && index <= |groups|
  {
    if length < 2 || index < start + length then HexTexts(groups[..index])
    else
      HexTexts(groups[..start]) + GapMarks(start == 0, start + length == |groups|)
      + HexTexts(groups[start + length..index])
  }

  lemma PiecesExtend(groups: seq<nat>, start: nat, length: nat, index: nat)
    requires start + length <= |groups| && index < |groups|
    requires length < 2 || index < start || start + length <= index
    ensures Pieces(groups, start, length, index + 1) == Pieces(groups, start, length, index) + [HexTexts(groups)[index]]
  {
    if length < 2 || index < start {
      assert groups[..index + 1] == groups[..index] + [groups[index]];
    } else {
      assert groups[start + length..index + 1] == groups[start + length..index] + [groups[index]];
    }
  }

  lemma PiecesSkip(groups: seq<nat>, start: nat, length: nat)
    requires start + length <= |groups| && length >= 2
    ensures Pieces(groups, start, length, start + length)
         == Pieces(groups, start, length, start) + GapMarks(start == 0, start + length == |groups|)
  {
  }

  /** The empty pieces pushed for the chosen run. */
  method PushGap(parts: seq<string>, atStart: bool, atEnd: bool) returns (pushed: seq<string>)
    ensures pushed == parts + GapMarks(atStart, atEnd)
  {
    pushed := parts;
    if atStart {
      pushed := pushed + [""];
    }
    pushed := pushed + [""];
    if atEnd {
      pushed := pushed + [""];
    }
  }

  lemma PiecesJoined(groups: seq<nat>, start: nat, length: nat)
    requires start + length <= |groups|
    ensures CollapseColons(Join(Pieces(groups, start, length, |groups|), ":")) == TextWithRun(groups, start, length)
  {
    assert groups[..|groups|] == groups && groups[start + length..|groups|] == groups[start + length..];
    if length >= 2 {
      JoinMarks(HexTexts(groups[..start]), HexTexts(groups[start + length..]));
    }
    RunTextShape(groups, start, length);
    CollapseNothing(TextWithRun(groups, start, length));
  }

  /** The second loop of the source, which collects the pieces and jumps over the chosen run; -1 is no run. */
  method CollectPieces(groups: seq<nat>, bestStart: int, bestLength: nat, ghost start: nat, ghost length: nat) returns (parts: seq<string>)
    requires start + length <= |groups|
    requires if length >= 2 then bestStart == start && bestLength == length else bestStart == -1
    ensures parts == Pieces(groups, start, length, |groups|)
  {
    var normalizedGroups := HexTexts(groups);
    parts := [];
    var index := 0;
    while index < |normalizedGroups|
      invariant 0 <= index <= |groups|
      invariant length < 2 || index <= start || start + length <= index
      invariant parts == Pieces(groups, start, length, index)
    {
      if index == bestStart {
        PiecesSkip(groups, start, length);
        var atStart := index == 0;
        index := index + bestLength - 1;
        parts := PushGap(parts, atStart, index == |normalizedGroups| - 1);
        index := index + 1;
        continue;
      }
      PiecesExtend(groups, start, length, index);
      parts := parts + [normalizedGroups[index]];
      index := index + 1;
    }
  }

  method PrintGroups(groups: seq<nat>, bestStart: int, bestLength: nat) returns (text: string)
    requires bestStart == -1 || (bestStart >= 0 && bestLength >= 2 && bestStart + bestLength <= |groups|)
    ensures text == if bestStart >= 0 then TextWithRun(groups, bestStart, bestLength) else HexText(groups)
  {
    ghost var start: nat, length: nat := 0, 0;
    if bestStart >= 0 {
      start, length := bestStart, bestLength;
    }
    var parts := CollectPieces(groups, bestStart, bestLength, start, length);
    PiecesJoined(groups, start, length);
    text := CollapseColons(Join(parts, ":"));
  }

  method SerializeIpv6(groups: seq<nat>) returns (text: string)
    ensures text == CanonicalText(groups)
  {
    var bestStart, bestLength := FindLongestZeroRun(groups);
    if bestLength < 2 {
      bestStart := -1;
    }
    text := PrintGroups(groups, bestStart, bestLength);
  }

  /** What `normalizeIpv6` answers: the canonical text of the address, if the input is one. */
  function NormalizedText(value: string): Option<string> {
    var address := ReadAddress(value);
    if address.None? then None else Some(CanonicalText(address.value))
  }

  method NormalizeIpv6(value: string) returns (r: Option<string>)
    ensures r == NormalizedText(value)
  {
    var parts := Split(ToLower(value), "::");
    if |parts| > 2 {
      return None;
    }
    var leftGroups := ParseIpv6Part(parts[0]);
    var rightGroups := ParseIpv6Part(if |parts| == 2 then parts[1] else "");
    if leftGroups.None? || rightGroups.None? {
      return None;
    }
    var groups := leftGroups.value + rightGroups.value;
    if |parts| == 1 {
      if |groups| != 8 {
        return None;
      }
    } else {
      if |groups| >= 8 {
        return None;
      }
      groups := leftGroups.value + Zeros(8 - |groups|) + rightGroups.value;
    }
    assert ReadAddress(value) == Some(groups);
    ReadAddressRange(value);
    if |groups| != 8 || exists k | 0 <= k < |groups| :: groups[k] > 0xffff {
      return None;
    }
    var text := SerializeIpv6(groups);
    r := Some(text);
  }

  /** Two accepted texts get the same normal form exactly when they denote the same address. */
  lemma SameNormalForm(a: string, b: string)
    requires ReadAddress(a).Some? && ReadAddress(b).Some?
    ensures NormalizedText(a) == NormalizedText(b) <==> ReadAddress(a) == ReadAddress(b)
  {
    ReadAddressRange(a);
    ReadAddressRange(b);
    CanonicalInjective(ReadAddress(a).value, ReadAddress(b).value);
  }
}
