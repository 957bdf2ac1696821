// Every way to spell an IPv6 address in hexadecimal groups is read as that address: any letter case, leading
// zeros, and a `::` for any run of zeros.
module Ipv6Spelling {
  import opened Wrappers
  import opened Text
  import opened Numerals
  import opened Ipv6
  import opened Ipv6Text

  /** Each text is one to four hexadecimal digits with the value of its group. */
  ghost predicate Spells(texts: seq<string>, groups: seq<nat>) {
    |texts| == |groups| && forall k | 0 <= k < |texts| :: GroupShape(texts[k]) && Parse(texts[k], 16) == groups[k]
  }

  function Lowered(texts: seq<string>): (r: seq<string>)
    ensures |r| == |texts| && forall k | 0 <= k < |r| :: r[k] == ToLower(texts[k])
  {
    seq(|texts|, k requires 0 <= k < |texts| => ToLower(texts[k]))
  }

  lemma LowerAppend(a: string, b: string)
    ensures ToLower(a + b) == ToLower(a) + ToLower(b)
  {
  }

  lemma {:induction false} LowerJoin(texts: seq<string>)
    ensures ToLower(Join(texts, ":")) == Join(Lowered(texts), ":")
  {
    if |texts| > 1 {
      LowerJoin(texts[1..]);
      assert Lowered(texts)[1..] == Lowered(texts[1..]);
      LowerAppend(texts[0] + ":", Join(texts[1..], ":"));
      LowerAppend(texts[0], ":");
    }
  }

  /** The value of a digit does not depend on its case. */
  lemma {:induction false} LowerParse(s: string)
    requires AllDigits(s, 16)
    ensures AllDigits(ToLower(s), 16) && Parse(ToLower(s), 16) == Parse(s, 16)
  {
    if s != "" {
      var front, last := s[..|s| - 1], s[|s| - 1];
      assert last in s;
      LowerParse(front);
      assert ToLower(s) == ToLower(front) + [LowerChar(last)];
      assert ToLower(s)[..|s| - 1] == ToLower(front);
    }
  }

  lemma LowerSpells(texts: seq<string>, groups: seq<nat>)
    requires Spells(texts, groups)
    ensures Spells(Lowered(texts), groups)
  {
    forall k | 0 <= k < |texts| ensures GroupShape(Lowered(texts)[k]) && Parse(Lowered(texts)[k], 16) == groups[k] {
      LowerParse(texts[k]);
    }
  }

  lemma {:induction false} ReadSpelled(texts: seq<string>, groups: seq<nat>)
    requires Spells(texts, groups)
    ensures ReadSegments(texts) == Some(groups)
  {
    if texts != [] {
      var n := |texts| - 1;
      ReadSpelled(texts[..n], groups[..n]);
      assert groups == groups[..n] + [groups[n]];
    }
  }

  lemma {:induction false} SpelledSolid(texts: seq<string>)
    requires forall k | 0 <= k < |texts| :: GroupShape(texts[k])
    ensures Solid(Join(Lowered(texts), ":")) && (texts != [] <==> Join(Lowered(texts), ":") != "")
  {
    if texts != [] {
      var first := ToLower(texts[0]);
      forall k | 0 <= k < |first| ensures IsHex(first[k]) && !('A' <= first[k] <= 'F') {
        assert texts[0][k] in texts[0];
      }
      assert Solid(first);
      if |texts| > 1 {
        SpelledSolid(texts[1..]);
        assert Lowered(texts)[1..] == Lowered(texts[1..]);
        SolidAppend(first, Join(Lowered(texts[1..]), ":"));
      }
    }
  }

  lemma ReadSpelledPart(texts: seq<string>, groups: seq<nat>)
    requires Spells(texts, groups)
    ensures ReadPart(Join(Lowered(texts), ":")) == Some(groups)
  {
    var lowered := Lowered(texts);
    LowerSpells(texts, groups);
    SpelledSolid(texts);
    if texts != [] {
      forall p | p in lowered ensures ':' !in p {
        var k :| 0 <= k < |lowered| && p == lowered[k];
        assert GroupShape(lowered[k]);
      }
      SplitJoin(lowered, ':');
      ReadSpelled(lowered, groups);
    }
  }

  lemma ReadLowerWhole(value: string, whole: string)
    requires Split(ToLower(value), "::") == [whole]
    ensures ReadAddress(value) == Assemble(ReadPart(whole), Some([]), false)
  {
  }

  lemma ReadEight(value: string, whole: string, groups: seq<nat>)
    requires Split(ToLower(value), "::") == [whole] && ReadPart(whole) == Some(groups) && |groups| == 8
    ensures ReadAddress(value) == Some(groups)
  {
    ReadLowerWhole(value, whole);
    assert groups + [] == groups;
  }

  lemma NormalOf(text: string, groups: seq<nat>)
    requires ReadAddress(text) == Some(groups)
    ensures NormalizedText(text) == Some(CanonicalText(groups))
  {
  }

  /** Eight groups in any spelling. */
  lemma FullSpelling(texts: seq<string>, groups: seq<nat>)
    requires Spells(texts, groups) && |groups| == 8
    ensures var text := Join(texts, ":");
      ReadAddress(text) == Some(groups) && NormalizedText(text) == Some(CanonicalText(groups))
  {
    var text, lower := Join(texts, ":"), Join(Lowered(texts), ":");
    LowerJoin(texts);
    SpelledSolid(texts);
    SolidNoGap(lower);
    ReadSpelledPart(texts, groups);
    ReadEight(text, lower, groups);
    NormalOf(text, groups);
  }

  lemma GapLowered(left: seq<string>, right: seq<string>)
    requires (forall k | 0 <= k < |left| :: GroupShape(left[k])) && forall k | 0 <= k < |right| :: GroupShape(right[k])
    ensures Split(ToLower(Join(left, ":") + "::" + Join(right, ":")), "::") == [Join(Lowered(left), ":"), Join(Lowered(right), ":")]
  {
    var l, r := Join(left, ":"), Join(right, ":");
    LowerAppend(l + "::", r);
    LowerAppend(l, "::");
    assert ToLower("::") == "::";
    LowerJoin(left);
    LowerJoin(right);
    SpelledSolid(left);
    SpelledSolid(right);
    GapPieces(Join(Lowered(left), ":"), Join(Lowered(right), ":"));
  }

  function Filled(before: seq<nat>, after: seq<nat>): seq<nat>
    requires |before| + |after| <= 7
  {
    before + Zeros(8 - (|before| + |after|)) + after
  }

  lemma ReadGap(value: string, l: string, r: string, before: seq<nat>, after: seq<nat>)
    requires Split(ToLower(value), "::") == [l, r] && |before| + |after| <= 7
    requires ReadPart(l) == Some(before) && ReadPart(r) == Some(after)
    ensures ReadAddress(value) == Some(Filled(before, after))
  {
  }

  /** Up to seven groups in any spelling around a `::`, which stands for the zeros that are missing. */
  lemma GapSpelling(left: seq<string>, right: seq<string>, before: seq<nat>, after: seq<nat>)
    requires Spells(left, before) && Spells(right, after) && |before| + |after| <= 7
    ensures var text := Join(left, ":") + "::" + Join(right, ":");
      && ReadAddress(text) == Some(Filled(before, after))
      && NormalizedText(text) == Some(CanonicalText(Filled(before, after)))
  {
    var text := Join(left, ":") + "::" + Join(right, ":");
    GapLowered(left, right);
    ReadSpelledPart(left, before);
    ReadSpelledPart(right, after);
    ReadGap(text, Join(Lowered(left), ":"), Join(Lowered(right), ":"), before, after);
    NormalOf(text, Filled(before, after));
  }
}
