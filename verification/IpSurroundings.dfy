// frontend/src/utils/ipAddress.util.ts, normalizeIpAddress: what stands around an address makes no difference to its
// normal form, whatever the text in the middle is.
module IpSurroundings {
  import opened Wrappers
  import opened Text
  import opened Numerals
  import opened Ipv4
  import opened IpAddress

  /** Past the first entry of a list only these steps are left. */
  function Settle(entry: string): Option<string> {
    BareText(WithoutPort(WithoutZone(Unbracket(entry))))
  }

  lemma NothingSettles()
    ensures Settle("").None?
  {
    NoDotNoQuad("");
    assert Split("", "::") == [""];
  }

  /** The normal form of any text is settled from its first entry, trimmed. */
  lemma SettledFromEntry(v: string)
    ensures AddressText(Some(v)) == Settle(FirstEntry(Trim(v)))
  {
    if Trim(v) == "" {
      NothingSettles();
    }
  }

  lemma SettledFromTrimmed(v: string)
    requires ',' !in v
    ensures AddressText(Some(v)) == Settle(Trim(v))
  {
    TrimTwice(v);
    SettledFromEntry(v);
  }

  /** White space around any text does not matter. */
  lemma SpaceIgnored(v: string, before: string, after: string)
    requires AllSpace(before) && AllSpace(after)
    ensures AddressText(Some(before + v + after)) == AddressText(Some(v))
  {
    TrimIgnoresPadding(before, v, after);
  }

  // ---------------------------------------------------------------- lists

  lemma TrimmedList(v: string, rest: string) returns (tail: string)
    ensures Trim(v + "," + rest) == TrimStart(v) + "," + tail
  {
    var list := TrimStart(v) + ",";
    assert v + "," + rest == v + ("," + rest);
    TrimStartAppend(v, "," + rest);
    assert TrimStart(v + "," + rest) == list + rest;
    TrimEndKeeps(list, rest);
    tail := TrimEnd(list + rest)[|list|..];
  }

  lemma EntryOfList(entry: string, tail: string)
    requires ',' !in entry
    ensures FirstEntry(entry + "," + tail) == Trim(entry)
  {
    var list := entry + "," + tail;
    assert list[|entry|] == ',';
    IndexOfFirst(entry, ',', tail);
    assert list[..|entry|] == entry;
  }

  lemma FirstOfList(v: string, rest: string)
    requires ',' !in v
    ensures AddressText(Some(v + "," + rest)) == Settle(Trim(v))
  {
    var tail := TrimmedList(v, rest);
    TrimStartClean(v);
    EntryOfList(TrimStart(v), tail);
    TrimTwice(v);
    SettledFromEntry(v + "," + rest);
  }

  /** Of a comma-separated list only the first entry counts, whatever it is and whatever follows. */
  lemma ListIgnored(v: string, rest: string)
    ensures AddressText(Some(v + "," + rest)) == AddressText(Some(v))
  {
    if ',' in v {
      var k := IndexOf(v, ',');
      var first, more := v[..k], v[k + 1..];
      assert v == first + "," + more;
      assert v + "," + rest == first + "," + (more + "," + rest);
      FirstOfList(first, more);
      FirstOfList(first, more + "," + rest);
    } else {
      FirstOfList(v, rest);
      SettledFromTrimmed(v);
    }
  }

  // ---------------------------------------------------------------- brackets

  /** Nothing, or a colon and a port. */
  predicate PortTail(tail: string) {
    tail == "" || (tail[0] == ':' && Port(tail[1..]))
  }

  lemma TailCharacters(tail: string)
    requires PortTail(tail)
    ensures forall c | c in tail :: c == ':' || IsDecimal(c)
  {
    assert forall c | c in tail :: c == ':' || c in tail[1..];
  }

  lemma BracketsTrimmed(t: string, tail: string)
    requires ',' !in t && PortTail(tail)
    ensures var s := "[" + t + "]" + tail; Trim(s) == s && ',' !in s
  {
    var s := "[" + t + "]" + tail;
    TailCharacters(tail);
    assert tail != "" ==> tail[|tail| - 1] in tail;
    TrimPadded("", s, "");
    assert "" + s + "" == s;
  }

  lemma Unbracketed(t: string, tail: string)
    requires t != "" && '[' !in t && ']' !in t && PortTail(tail)
    ensures Unbracket("[" + t + "]" + tail) == t && Unbracket(t) == t
  {
    var s := "[" + t + "]" + tail;
    assert s == ("[" + t) + [']'] + tail;
    IndexOfFirst("[" + t, ']', tail);
    assert s[1..1 + |t|] == t && s[2 + |t|..] == tail;
    assert t[0] in t;
  }

  /** Brackets, with or without a port behind them, around any trimmed text without brackets do not matter. */
  lemma BracketsAndPortIgnored(t: string, tail: string)
    requires t != "" && Trim(t) == t && '[' !in t && ']' !in t && ',' !in t && PortTail(tail)
    ensures AddressText(Some("[" + t + "]" + tail)) == AddressText(Some(t))
  {
    BracketsTrimmed(t, tail);
    Unbracketed(t, tail);
    SettledFromTrimmed("[" + t + "]" + tail);
    SettledFromTrimmed(t);
  }

  // ---------------------------------------------------------------- zones

  lemma ZoneCut(t: string, zone: string)
    ensures WithoutZone(t + "%" + zone) == WithoutZone(t)
  {
    var k := IndexOf(t, '%');
    var s := t + "%" + zone;
    if k < |t| {
      assert s == t[..k] + ['%'] + (t[k + 1..] + "%" + zone);
      IndexOfFirst(t[..k], '%', t[k + 1..] + "%" + zone);
    } else {
      assert t[..k] == t;
      IndexOfFirst(t, '%', zone);
    }
  }

  lemma ZoneWithoutComma(t: string, zone: string)
    requires Trim(t) == t && (t != "" ==> t[0] != '[') && ',' !in t && ',' !in zone
    ensures AddressText(Some(t + "%" + zone)) == AddressText(Some(t))
  {
    var s := t + "%" + zone;
    TrimTwice(t);
    TrimEndKeeps(t + "%", zone);
    TrimTwice(s);
    var trimmed := Trim(s);
    assert s[0] == if t == "" then '%' else t[0];
    assert TrimStart(s) == s && t + "%" <= trimmed;
    var left := trimmed[|t| + 1..];
    assert trimmed == t + "%" + left;
    ZoneCut(t, left);
    assert Unbracket(trimmed) == trimmed && Unbracket(t) == t;
    SettledFromTrimmed(s);
    SettledFromTrimmed(t);
  }

  /** A zone identifier after any trimmed text that does not begin with a bracket does not matter. */
  lemma ZoneIgnored(t: string, zone: string)
    requires Trim(t) == t && (t != "" ==> t[0] != '[')
    ensures AddressText(Some(t + "%" + zone)) == AddressText(Some(t))
  {
    if ',' in t {
      var k := IndexOf(t, ',');
      var first, more := t[..k], t[k + 1..];
      assert t == first + "," + more;
      assert t + "%" + zone == first + "," + (more + "%" + zone);
      ListIgnored(first, more);
      ListIgnored(first, more + "%" + zone);
    } else if ',' in zone {
      var k := IndexOf(zone, ',');
      var first, more := zone[..k], zone[k + 1..];
      assert zone == first + "," + more;
      assert t + "%" + zone == (t + "%" + first) + "," + more;
      ListIgnored(t + "%" + first, more);
      ZoneWithoutComma(t, first);
    } else {
      ZoneWithoutComma(t, zone);
    }
  }

  // ---------------------------------------------------------------- ports after dotted quads

  lemma QuadShapeCharacters(t: string)
    requires QuadShape(t)
    ensures t != "" && forall c | c in t :: IsDecimal(c) || c == '.'
  {
    SplitCovers(t, '.');
    var pieces := Split(t, ".");
    forall c | c in t && c != '.' ensures IsDecimal(c) {
      var p :| p in pieces && c in p;
      var k :| 0 <= k < 4 && pieces[k] == p;
      assert OctetShape(pieces[k]);
    }
    if t == "" {
      NoDotNoQuad(t);
    }
  }

  /** A port after any four groups of one to three digits does not matter. */
  lemma QuadPortIgnored(t: string, port: string)
    requires QuadShape(t) && Port(port)
    ensures AddressText(Some(t + ":" + port)) == AddressText(Some(t))
  {
    var s := t + ":" + port;
    QuadShapeCharacters(t);
    PlainIsBare(s);
    PlainIsBare(t);
    IndexOfFirst(t, ':', port);
    IndexOfNone(t, ':');
    assert s[..|t|] == t && s[|t| + 1..] == port;
  }
}
