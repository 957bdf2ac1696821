// frontend/src/utils/ipAddress.util.ts, normalizeIpv4: dotted quads with leading zeros removed.
module Ipv4 {
  import opened Wrappers
  import opened Text
  import opened Numerals

  /** Four numbers from 0 to 255. */
  ghost predicate IsQuad(octets: seq<nat>) {
    |octets| == 4 && forall k | 0 <= k < 4 :: octets[k] < 256
  }

  /** The pattern `^\d{1,3}$`. */
  predicate OctetShape(s: string) {
    1 <= |s| <= 3 && AllDigits(s, 10)
  }

  function ReadOctet(s: string): (r: Option<nat>)
    ensures r.Some? ==> r.value < 256
  {
    if !OctetShape(s) then None
    else
      var parsed := Parse(s, 10);
      if parsed > 255 then None else Some(parsed)
  }

  /** The four numbers a text denotes, if it is a dotted quad. */
  function ReadQuad(value: string): (r: Option<seq<nat>>)
    ensures r.Some? ==> IsQuad(r.value)
  {
    var octets := Split(value, ".");
    if |octets| != 4 then None
    else
      var parsed := seq(4, k requires 0 <= k < 4 => ReadOctet(octets[k]));
      if exists k | 0 <= k < 4 :: parsed[k].None? then None
      else Some(seq(4, k requires 0 <= k < 4 => parsed[k].value))
  }

  function PrintQuad(octets: seq<nat>): string {
    Join(seq(|octets|, k requires 0 <= k < |octets| => Print(octets[k], 10)), ".")
  }

  function NormalizeIpv4(value: string): Option<string> {
    var quad := ReadQuad(value);
    if quad.None? then None else Some(PrintQuad(quad.value))
  }

  /** Four texts of one to three digits, leading zeros allowed, with dots between are read as the numbers they denote. */
  lemma QuadSpelling(texts: seq<string>, octets: seq<nat>)
    requires IsQuad(octets) && |texts| == 4
    requires forall k | 0 <= k < 4 :: OctetShape(texts[k]) && Parse(texts[k], 10) == octets[k]
    ensures ReadQuad(Join(texts, ".")) == Some(octets)
  {
    forall p | p in texts ensures '.' !in p {
      var k :| 0 <= k < 4 && p == texts[k];
      assert OctetShape(texts[k]);
    }
    SplitJoin(texts, '.');
    forall k | 0 <= k < 4 ensures ReadOctet(texts[k]) == Some(octets[k]) {
    }
    var quad := ReadQuad(Join(texts, "."));
    assert quad.Some? && quad.value == octets;
  }

  /** Reading a printed quad gives its four numbers back, so different quads have different texts. */
  lemma ReadPrintedQuad(octets: seq<nat>)
    requires IsQuad(octets)
    ensures ReadQuad(PrintQuad(octets)) == Some(octets)
    ensures NormalizeIpv4(PrintQuad(octets)) == Some(PrintQuad(octets))
  {
    var texts := seq(|octets|, k requires 0 <= k < |octets| => Print(octets[k], 10));
    forall k | 0 <= k < 4 ensures OctetShape(texts[k]) && Parse(texts[k], 10) == octets[k] {
      ParsePrint(octets[k], 10);
      PrintLength(octets[k]);
    }
    QuadSpelling(texts, octets);
  }

  /** The pieces of a printed quad are decimal numerals without a zero in front. */
  lemma QuadPlain(octets: seq<nat>)
    requires IsQuad(octets)
    ensures var pieces := Split(PrintQuad(octets), ".");
      |pieces| == 4 && forall k | 0 <= k < 4 :: Plainest(pieces[k], 10) && Parse(pieces[k], 10) == octets[k]
  {
    var texts := seq(|octets|, k requires 0 <= k < |octets| => Print(octets[k], 10));
    forall p | p in texts ensures '.' !in p {
      var k :| 0 <= k < 4 && p == Print(octets[k], 10);
    }
    SplitJoin(texts, '.');
    forall k | 0 <= k < 4 ensures Plainest(texts[k], 10) && Parse(texts[k], 10) == octets[k] {
      PrintShape(octets[k], 10);
      ParsePrint(octets[k], 10);
    }
  }

  /** Two texts normalise to the same text exactly when they denote the same four numbers. */
  lemma SameQuadText(a: string, b: string)
    requires ReadQuad(a).Some? && ReadQuad(b).Some?
    ensures NormalizeIpv4(a) == NormalizeIpv4(b) <==> ReadQuad(a) == ReadQuad(b)
  {
    ReadPrintedQuad(ReadQuad(a).value);
    ReadPrintedQuad(ReadQuad(b).value);
  }

  /** Only digits and dots occur in a printed quad, which begins with a digit. */
  lemma QuadCharacters(octets: seq<nat>)
    requires IsQuad(octets)
    ensures var s := PrintQuad(octets);
      && s != "" && IsDecimal(s[0]) && IsDecimal(s[|s| - 1])
      && forall c | c in s :: IsDecimal(c) || c == '.'
  {
    var texts := seq(|octets|, k requires 0 <= k < |octets| => Print(octets[k], 10));
    forall p | p in texts ensures p != "" && AllDigits(p, 10) {
      var k :| 0 <= k < 4 && p == Print(octets[k], 10);
    }
    JoinedNumerals(texts, '.', 10);
  }

  /** Characters of numerals joined by a separator. */
  lemma {:induction false} JoinedNumerals(texts: seq<string>, sep: char, radix: Radix)
    requires texts != [] && forall p | p in texts :: p != "" && AllDigits(p, radix)
    ensures var s := Join(texts, [sep]);
      && s != "" && IsDigit(s[0], radix) && IsDigit(s[|s| - 1], radix)
      && forall c | c in s :: IsDigit(c, radix) || c == sep
  {
    var first := texts[0];
    assert first in texts && first[0] in first && first[|first| - 1] in first;
    if |texts| > 1 {
      forall p | p in texts[1..] ensures p != "" && AllDigits(p, radix) {
        assert p in texts;
      }
      JoinedNumerals(texts[1..], sep, radix);
    }
  }
}
