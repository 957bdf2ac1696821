// Periods such as "30 days": parseTimespanValue and timespanToMinutes of backend/src/config/config.service.ts,
// and stringToTimespan of backend/src/utils/date.util.ts, which reads the same texts elsewhere.
module Timespan {
  import opened Wrappers
  import opened Text
  import opened Numerals

  datatype Period = Period(value: nat, unit: string)

  const TIMESPAN_IN_MINUTES: map<string, nat> :=
    map["minutes" := 1, "hours" := 60, "days" := 60 * 24, "weeks" := 60 * 24 * 7,
        "months" := 60 * 24 * 30, "years" := 60 * 24 * 365]

  function ToMinutes(p: Period): nat
    requires p.unit in TIMESPAN_IN_MINUTES
  {
    p.value * TIMESPAN_IN_MINUTES[p.unit]
  }

  /** How the units are related; months and years have the same length all the time. */
  lemma UnitLengths(n: nat)
    ensures forall unit :: unit in TIMESPAN_IN_MINUTES <==>
      unit in ["minutes", "hours", "days", "weeks", "months", "years"]
    ensures ToMinutes(Period(n, "minutes")) == n
    ensures ToMinutes(Period(n, "hours")) == ToMinutes(Period(60 * n, "minutes"))
    ensures ToMinutes(Period(n, "days")) == ToMinutes(Period(24 * n, "hours"))
    ensures ToMinutes(Period(n, "weeks")) == ToMinutes(Period(7 * n, "days"))
    ensures ToMinutes(Period(n, "months")) == ToMinutes(Period(30 * n, "days"))
    ensures ToMinutes(Period(n, "years")) == ToMinutes(Period(365 * n, "days"))
  {
  }

  predicate IsLetter(c: char) {
    'a' <= c <= 'z'
  }

  predicate Letters(s: string) {
    s != "" && forall c | c in s :: IsLetter(c)
  }

  predicate Digits(s: string) {
    s != "" && AllDigits(s, 10)
  }

  /** The number of leading characters that are decimal digits. */
  function DigitsAt(s: string): (n: nat)
    ensures n <= |s| && AllDigits(s[..n], 10) && (n < |s| ==> !IsDecimal(s[n]))
  {
    if s != "" && IsDecimal(s[0]) then
      var n := 1 + DigitsAt(s[1..]);
      assert s[..n] == [s[0]] + s[1..][..n - 1];
      n
    else 0
  }

  function SpacesAt(s: string): (n: nat)
    ensures n <= |s| && AllSpace(s[..n]) && (n < |s| ==> !IsSpace(s[n]))
  {
    if s != "" && IsSpace(s[0]) then
      var n := 1 + SpacesAt(s[1..]);
      assert s[..n] == [s[0]] + s[1..][..n - 1];
      n
    else 0
  }

  /** The text matched by `^(\d+)\s+([a-z]+)$` after trimming, with a known unit. */
  function ParseTimespan(text: string): (r: Option<Period>)
    ensures r.Some? ==> r.value.unit in TIMESPAN_IN_MINUTES
  {
    var t := Trim(text);
    var d := DigitsAt(t);
    var w := SpacesAt(t[d..]);
    var unit := t[d + w..];
    if d == 0 || w == 0 || !Letters(unit) || unit !in TIMESPAN_IN_MINUTES then None
    else Some(Period(Parse(t[..d], 10), unit))
  }

  /** `parseInt(s)` for texts without a sign: leading white space is skipped; None is NaN. */
  function ParseInt(s: string): Option<nat> {
    var t := TrimStart(s);
    var d := DigitsAt(t);
    if d == 0 then None else Some(Parse(t[..d], 10))
  }

  /** `value.split(" ")` read as number and unit; None when either is missing. */
  function StringToTimespan(text: string): Option<Period> {
    var parts := Split(text, " ");
    var time := ParseInt(parts[0]);
    if |parts| < 2 || time.None? then None else Some(Period(time.value, parts[1]))
  }

  // ---------------------------------------------------------------- texts taken apart

  /** A number and a unit with white space before, between and after. */
  ghost predicate Pieces(before: string, number: string, gap: string, unit: string, after: string) {
    && AllSpace(before) && Digits(number) && gap != "" && AllSpace(gap)
    && Letters(unit) && unit in TIMESPAN_IN_MINUTES && AllSpace(after)
  }

  /** What the split at single blanks can cope with. */
  ghost predicate WellSpaced(before: string, gap: string, after: string)
    requires gap != ""
  {
    && ' ' !in before
    && IndexOf(gap, ' ') == |gap| - 1
    && (after == "" || after[0] == ' ')
  }

  lemma {:induction false} DigitsPrefix(number: string, rest: string)
    requires AllDigits(number, 10) && (rest != "" ==> !IsDecimal(rest[0]))
    ensures DigitsAt(number + rest) == |number|
  {
    if number != "" {
      assert (number + rest)[1..] == number[1..] + rest && number[0] in number;
      DigitsPrefix(number[1..], rest);
    } else {
      assert number + rest == rest;
    }
  }

  lemma {:induction false} SpacesPrefix(gap: string, rest: string)
    requires AllSpace(gap) && (rest != "" ==> !IsSpace(rest[0]))
    ensures SpacesAt(gap + rest) == |gap|
  {
    if gap != "" {
      assert (gap + rest)[1..] == gap[1..] + rest;
      SpacesPrefix(gap[1..], rest);
    } else {
      assert gap + rest == rest;
    }
  }

  /** Every text made of such pieces is accepted. */
  lemma ParsePieces(before: string, number: string, gap: string, unit: string, after: string)
    requires Pieces(before, number, gap, unit, after)
    ensures ParseTimespan(before + (number + gap + unit) + after) == Some(Period(Parse(number, 10), unit))
  {
    var t := number + gap + unit;
    assert number[0] in number && unit[|unit| - 1] in unit && unit[0] in unit && gap[0] in gap;
    TrimPadded(before, t, after);
    assert t == number + (gap + unit);
    DigitsPrefix(number, gap + unit);
    assert t[|number|..] == gap + unit && t[..|number|] == number;
    SpacesPrefix(gap, unit);
    assert t[|number| + |gap|..] == unit;
  }

  lemma ParsePlain(number: string, unit: string)
    requires Digits(number) && Letters(unit) && unit in TIMESPAN_IN_MINUTES
    ensures ParseTimespan(number + " " + unit) == Some(Period(Parse(number, 10), unit))
  {
    ParsePieces("", number, " ", unit, "");
    assert "" + (number + " " + unit) + "" == number + " " + unit;
  }

  /** And every accepted text is made of such pieces. */
  lemma AcceptedPieces(text: string) returns (before: string, number: string, gap: string, unit: string, after: string)
    requires ParseTimespan(text).Some?
    ensures Pieces(before, number, gap, unit, after) && text == before + (number + gap + unit) + after
    ensures ParseTimespan(text) == Some(Period(Parse(number, 10), unit))
  {
    var t := Trim(text);
    before, after := TrimmedParts(text);
    var d := DigitsAt(t);
    var w := SpacesAt(t[d..]);
    number, gap, unit := t[..d], t[d..][..w], t[d + w..];
    assert t == number + gap + unit;
  }

  lemma TrimmedParts(s: string) returns (before: string, after: string)
    ensures AllSpace(before) && AllSpace(after) && s == before + Trim(s) + after
  {
    before := StartPart(s);
    after := EndPart(TrimStart(s));
  }

  lemma {:induction false} StartPart(s: string) returns (before: string)
    ensures AllSpace(before) && s == before + TrimStart(s)
  {
    if s != "" && IsSpace(s[0]) {
      var rest := StartPart(s[1..]);
      before := [s[0]] + rest;
      assert forall c | c in before :: c == s[0] || c in rest;
      assert s == [s[0]] + s[1..];
    } else {
      before := "";
    }
  }

  lemma {:induction false} EndPart(s: string) returns (after: string)
    ensures AllSpace(after) && s == TrimEnd(s) + after
  {
    if s != "" && IsSpace(s[|s| - 1]) {
      var rest := EndPart(s[..|s| - 1]);
      after := rest + [s[|s| - 1]];
      assert s == s[..|s| - 1] + [s[|s| - 1]];
    } else {
      after := "";
    }
  }

  // ---------------------------------------------------------------- the two readers compared

  lemma FirstPiece(head: string, rest: string)
    requires ' ' !in head
    ensures Split(head + " " + rest, " ")[0] == head && |Split(head + " " + rest, " ")| >= 2
    ensures Split(head + " " + rest, " ")[1] == Split(rest, " ")[0]
  {
    assert (head + " " + rest)[..|head|] == head;
    CharNoneBefore(head + " " + rest, ' ', |head|);
    SplitAt(head, " ", rest);
  }

  lemma OnePiece(s: string)
    requires ' ' !in s
    ensures Split(s, " ") == [s]
  {
    assert s[..|s|] == s;
    CharNoneBefore(s, ' ', |s|);
    SplitNone(s, " ");
  }

  /** The first piece of a text is what comes before its first blank. */
  lemma PieceBeforeBlank(s: string)
    ensures Split(s, " ")[0] == s[..IndexOf(s, ' ')]
    ensures |Split(s, " ")| >= 2 <==> ' ' in s
    ensures ' ' in s ==> Split(s, " ")[1] == Split(s[IndexOf(s, ' ') + 1..], " ")[0]
  {
    var k := IndexOf(s, ' ');
    if k < |s| {
      assert s == s[..k] + " " + s[k + 1..];
      FirstPiece(s[..k], s[k + 1..]);
    } else {
      assert s[..k] == s;
      OnePiece(s);
    }
  }

  lemma ParseIntSpaces(s: string)
    requires AllSpace(s)
    ensures ParseInt(s).None?
  {
    TrimStartDrops(s, "");
    assert s + "" == s;
  }

  lemma ParseIntPadded(before: string, number: string, rest: string)
    requires AllSpace(before) && Digits(number) && (rest != "" ==> !IsDecimal(rest[0]))
    ensures ParseInt(before + number + rest) == Some(Parse(number, 10))
  {
    assert number[0] in number;
    assert before + number + rest == before + (number + rest);
    TrimStartDrops(before, number + rest);
    DigitsPrefix(number, rest);
    assert (number + rest)[..|number|] == number;
  }

  lemma IndexAfter(head: string, rest: string)
    requires ' ' !in head
    ensures IndexOf(head + rest, ' ') == |head| + IndexOf(rest, ' ')
  {
    var k := IndexOf(rest, ' ');
    if k < |rest| {
      var near, far := rest[..k], rest[k + 1..];
      assert rest == near + [' '] + far;
      assert head + rest == (head + near) + [' '] + far;
      IndexOfFirst(head + near, ' ', far);
    } else {
      assert rest[..k] == rest;
      IndexOfNone(head + rest, ' ');
    }
  }

  /** The piece after the blank starts with the characters that follow it. */
  lemma UnitPiece(unit: string, after: string)
    requires Letters(unit) && AllSpace(after)
    ensures Split(unit + after, " ")[0] == unit <==> after == "" || after[0] == ' '
  {
    assert ' ' !in unit;
    PieceBeforeBlank(unit + after);
    IndexAfter(unit, after);
    var k := IndexOf(after, ' ');
    assert (unit + after)[..|unit| + k] == unit + after[..k];
    assert k == 0 <==> after == "" || after[0] == ' ';
    if k > 0 {
      assert |unit + after[..k]| > |unit|;
    }
  }

  lemma IndexInside(head: string, rest: string)
    requires ' ' in head
    ensures IndexOf(head + rest, ' ') == IndexOf(head, ' ')
  {
    var k := IndexOf(head, ' ');
    assert head == head[..k] + [' '] + head[k + 1..];
    assert head + rest == head[..k] + [' '] + (head[k + 1..] + rest);
    IndexOfFirst(head[..k], ' ', head[k + 1..] + rest);
  }

  /** A piece cut out of white space is not a unit. */
  lemma SpacePiece(spaces: string, rest: string, unit: string)
    requires AllSpace(spaces) && Letters(unit) && (spaces == "" ==> rest == "")
    ensures Split(spaces + rest, " ")[0] != unit
  {
    var s := spaces + rest;
    PieceBeforeBlank(s);
    var piece := s[..IndexOf(s, ' ')];
    if piece != "" {
      assert piece[0] == spaces[0] && spaces[0] in spaces && unit[0] in unit;
    }
  }

  lemma BlankInFront(before: string, rest: string)
    requires AllSpace(before) && ' ' in before
    ensures StringToTimespan(before + rest).None?
  {
    IndexInside(before, rest);
    PieceBeforeBlank(before + rest);
    var k := IndexOf(before, ' ');
    assert (before + rest)[..k] == before[..k];
    ParseIntSpaces(before[..k]);
  }

  lemma BlankInGap(before: string, number: string, gap: string, unit: string, after: string)
    requires Pieces(before, number, gap, unit, after) && ' ' !in before && ' ' in gap
    ensures StringToTimespan(before + number + gap + (unit + after)) == Some(Period(Parse(number, 10), unit))
      <==> WellSpaced(before, gap, after)
  {
    var k, rest := IndexOf(gap, ' '), unit + after;
    var head, tail := before + number + gap[..k], gap[k + 1..] + rest;
    assert ' ' !in number && ' ' !in head;
    assert before + number + gap + rest == head + " " + tail;
    FirstPiece(head, tail);
    assert k > 0 ==> gap[0] in gap;
    ParseIntPadded(before, number, gap[..k]);
    assert head == before + number + gap[..k];
    if k == |gap| - 1 {
      assert tail == rest;
      UnitPiece(unit, after);
    } else {
      SpacePiece(gap[k + 1..], rest, unit);
    }
  }

  /** After a head without blanks only white space is left for a unit. */
  lemma NoUnitAfter(head: string, after: string, unit: string)
    requires ' ' !in head && AllSpace(after) && Letters(unit)
    ensures var parts := Split(head + after, " "); |parts| >= 2 ==> parts[1] != unit
  {
    var k := IndexOf(after, ' ');
    if k < |after| {
      var front, rest := after[..k], after[k + 1..];
      assert after == front + " " + rest && head + after == (head + front) + " " + rest;
      FirstPiece(head + front, rest);
      SpacePiece(rest, "", unit);
      assert rest + "" == rest;
    } else {
      assert after[..k] == after;
      OnePiece(head + after);
    }
  }

  lemma NoBlankInGap(before: string, number: string, gap: string, unit: string, after: string)
    requires Pieces(before, number, gap, unit, after) && ' ' !in before && ' ' !in gap
    ensures StringToTimespan(before + number + gap + (unit + after)) != Some(Period(Parse(number, 10), unit))
  {
    var head := before + number + gap + unit;
    assert ' ' !in number && ' ' !in unit && ' ' !in head;
    assert before + number + gap + (unit + after) == head + after;
    NoUnitAfter(head, after, unit);
  }

  /**
   * The rest of the code reads an accepted text as the period that was validated exactly when no blank comes
   * before the number, the only blank of the gap is its last character, and only a blank may follow the unit.
   */
  lemma ReadersAgree(before: string, number: string, gap: string, unit: string, after: string)
    requires Pieces(before, number, gap, unit, after)
    ensures var text := before + (number + gap + unit) + after;
      StringToTimespan(text) == ParseTimespan(text) <==> WellSpaced(before, gap, after)
  {
    var text := before + (number + gap + unit) + after;
    ParsePieces(before, number, gap, unit, after);
    assert text == before + number + gap + (unit + after);
    if ' ' in before {
      assert text == before + (number + gap + (unit + after));
      BlankInFront(before, number + gap + (unit + after));
    } else if ' ' in gap {
      BlankInGap(before, number, gap, unit, after);
    } else {
      IndexOfNone(gap, ' ');
      NoBlankInGap(before, number, gap, unit, after);
    }
  }
}
