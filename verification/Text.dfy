// Strings as the JavaScript built-ins treat them: split, join, trim and lower-casing.
module Text {

  /** `s.split(sep)`: cuts at the leftmost, non-overlapping occurrences of `sep`. */
  function Split(s: string, sep: string): (parts: seq<string>)
    requires sep != ""
    ensures |parts| >= 1
    decreases |s|
  {
    if |s| < |sep| then [s]
    else if sep <= s then [""] + Split(s[|sep|..], sep)
    else
      var rest := Split(s[1..], sep);
      [[s[0]] + rest[0]] + rest[1..]
  }

  /** `parts.join(sep)` */
  function Join(parts: seq<string>, sep: string): string
  {
    if parts == [] then ""
    else if |parts| == 1 then parts[0]
    else parts[0] + sep + Join(parts[1..], sep)
  }

  /** No occurrence of `sep` begins before position `bound`. */
  ghost predicate NoneBefore(s: string, sep: string, bound: nat)
    requires bound <= |s|
  {
    forall k | 0 <= k < bound :: !(sep <= s[k..])
  }

  lemma {:induction false} SplitNone(s: string, sep: string)
    requires sep != "" && NoneBefore(s, sep, |s|)
    ensures Split(s, sep) == [s]
    decreases |s|
  {
    if |s| >= |sep| {
      assert s[0..] == s;
      forall k | 0 <= k < |s| - 1 ensures !(sep <= s[1..][k..]) {
        assert s[1..][k..] == s[k + 1..];
      }
      SplitNone(s[1..], sep);
      assert [s[0]] + s[1..] == s;
    }
  }

  /** The first piece ends where the first separator begins. */
  lemma {:induction false} SplitAt(left: string, sep: string, right: string)
    requires sep != "" && NoneBefore(left + sep + right, sep, |left|)
    ensures Split(left + sep + right, sep) == [left] + Split(right, sep)
    decreases |left|
  {
    var s := left + sep + right;
    if left == "" {
      assert s == sep + right;
      assert s[|sep|..] == right;
    } else {
      assert s[0..] == s;
      var tail := left[1..] + sep + right;
      assert s[1..] == tail;
      forall k | 0 <= k < |left| - 1 ensures !(sep <= tail[k..]) {
        assert tail[k..] == s[k + 1..];
      }
      SplitAt(left[1..], sep, right);
      assert [left[0]] + left[1..] == left;
      var rest := Split(tail, sep);
      assert rest[0] == left[1..] && rest[1..] == Split(right, sep);
    }
  }

  lemma CharNoneBefore(s: string, c: char, bound: nat)
    requires bound <= |s| && c !in s[..bound]
    ensures NoneBefore(s, [c], bound)
  {
    forall k | 0 <= k < bound ensures !([c] <= s[k..]) {
      assert s[..bound][k] == s[k..][0];
    }
  }

  /** Splitting undoes joining when no piece contains the one-character separator. */
  lemma {:induction false} SplitJoin(parts: seq<string>, c: char)
    requires parts != [] && forall p | p in parts :: c !in p
    ensures Split(Join(parts, [c]), [c]) == parts
  {
    assert c !in parts[0];
    if |parts| == 1 {
      assert parts[0][..|parts[0]|] == parts[0];
      CharNoneBefore(parts[0], c, |parts[0]|);
      SplitNone(parts[0], [c]);
    } else {
      var right := Join(parts[1..], [c]);
      SplitJoin(parts[1..], c);
      var s := parts[0] + [c] + right;
      assert s[..|parts[0]|] == parts[0];
      CharNoneBefore(s, c, |parts[0]|);
      SplitAt(parts[0], [c], right);
      assert [parts[0]] + parts[1..] == parts;
    }
  }

  lemma {:induction false} JoinAppend(a: seq<string>, b: seq<string>, sep: string)
    requires a != [] && b != []
    ensures Join(a + b, sep) == Join(a, sep) + sep + Join(b, sep)
  {
    if |a| == 1 {
      assert (a + b)[1..] == b;
    } else {
      assert (a + b)[1..] == a[1..] + b;
      JoinAppend(a[1..], b, sep);
    }
  }

  /** A piece of a split does not contain the one-character separator. */
  lemma {:induction false} SplitPiecesClean(s: string, c: char)
    ensures forall p | p in Split(s, [c]) :: c !in p
    decreases |s|
  {
    if s == "" {
    } else if [c] <= s {
      SplitPiecesClean(s[1..], c);
    } else {
      SplitPiecesClean(s[1..], c);
      assert s[0] != c;
      var rest := Split(s[1..], [c]);
      assert rest[0] in rest;
    }
  }

  lemma JoinGrown(c: char, parts: seq<string>, sep: string)
    requires parts != []
    ensures Join([[c] + parts[0]] + parts[1..], sep) == [c] + Join(parts, sep)
  {
    var grown := [[c] + parts[0]] + parts[1..];
    assert grown[1..] == parts[1..];
  }

  lemma JoinAfterEmpty(parts: seq<string>, sep: string)
    requires parts != []
    ensures Join([""] + parts, sep) == sep + Join(parts, sep)
  {
    assert ([""] + parts)[1..] == parts;
  }

  lemma SplitFront(s: string, sep: string)
    requires sep != "" && sep <= s
    ensures Split(s, sep) == [""] + Split(s[|sep|..], sep) && s == sep + s[|sep|..]
  {
  }

  lemma SplitFirst(s: string, sep: string)
    requires sep != "" && |s| >= |sep| && !(sep <= s)
    ensures var rest := Split(s[1..], sep); Split(s, sep) == [[s[0]] + rest[0]] + rest[1..]
    ensures s == [s[0]] + s[1..]
  {
  }

  /** Joining undoes splitting. */
  lemma {:induction false} JoinSplit(s: string, sep: string)
    requires sep != ""
    ensures Join(Split(s, sep), sep) == s
    decreases |s|
  {
    if |s| < |sep| {
    } else if sep <= s {
      SplitFront(s, sep);
      JoinSplit(s[|sep|..], sep);
      JoinAfterEmpty(Split(s[|sep|..], sep), sep);
    } else {
      SplitFirst(s, sep);
      JoinSplit(s[1..], sep);
      JoinGrown(s[0], Split(s[1..], sep), sep);
    }
  }

  /** Every character of a text is in a piece of its split, or is the separator. */
  lemma {:induction false} SplitCovers(s: string, sep: char)
    ensures forall c | c in s :: c == sep || exists p :: p in Split(s, [sep]) && c in p
    decreases |s|
  {
    if s != "" {
      SplitCovers(s[1..], sep);
      var parts, rest := Split(s, [sep]), Split(s[1..], [sep]);
      forall c | c in s && c != sep ensures exists p :: p in parts && c in p {
        if [sep] <= s {
          assert c in s[1..];
          var p :| p in rest && c in p;
          assert parts == [""] + rest;
          assert p in parts;
        } else if c == s[0] {
          assert c in parts[0];
        } else {
          assert c in s[1..];
          var p :| p in rest && c in p;
          var k :| 0 <= k < |rest| && rest[k] == p;
          assert c in parts[k];
        }
      }
    }
  }

  /** `s.indexOf(c)`, or the length of `s` when `c` does not occur. */
  function IndexOf(s: string, c: char): (k: nat)
    ensures k <= |s| && c !in s[..k] && (k < |s| ==> s[k] == c)
  {
    if s == "" || s[0] == c then 0
    else
      var k := 1 + IndexOf(s[1..], c);
      assert s[..k] == [s[0]] + s[1..][..k - 1];
      k
  }

  lemma {:induction false} IndexOfFirst(before: string, c: char, after: string)
    requires c !in before
    ensures IndexOf(before + [c] + after, c) == |before|
  {
    var s := before + [c] + after;
    if before != "" {
      assert s[1..] == before[1..] + [c] + after;
      IndexOfFirst(before[1..], c, after);
    }
  }

  lemma {:induction false} IndexOfNone(s: string, c: char)
    requires c !in s
    ensures IndexOf(s, c) == |s|
  {
    if s != "" {
      IndexOfNone(s[1..], c);
    }
  }

  /** The characters `String.prototype.trim` and `\s` count as white space. */
  predicate IsSpace(c: char) {
    || '\U{0009}' <= c <= '\U{000D}' || c == ' ' || c == '\U{00A0}' || c == '\U{1680}'
    || '\U{2000}' <= c <= '\U{200A}' || c == '\U{2028}' || c == '\U{2029}' || c == '\U{202F}'
    || c == '\U{205F}' || c == '\U{3000}' || c == '\U{FEFF}'
  }

  /** The code points that count as white space. */
  lemma SpaceCodes(c: char)
    ensures IsSpace(c) <==>
      var n := c as int;
      n in {9, 10, 11, 12, 13, 32, 160, 5760, 8232, 8233, 8239, 8287, 12288, 65279} || 8192 <= n <= 8202
  {
  }

  function TrimStart(s: string): string {
    if s != "" && IsSpace(s[0]) then TrimStart(s[1..]) else s
  }

  function TrimEnd(s: string): string {
    if s != "" && IsSpace(s[|s| - 1]) then TrimEnd(s[..|s| - 1]) else s
  }

  /** `s.trim()` */
  function Trim(s: string): string {
    TrimEnd(TrimStart(s))
  }

  predicate AllSpace(s: string) {
    forall c | c in s :: IsSpace(c)
  }

  predicate NoSpace(s: string) {
    forall c | c in s :: !IsSpace(c)
  }

  lemma {:induction false} TrimStartDrops(before: string, s: string)
    requires AllSpace(before)
    ensures TrimStart(before + s) == TrimStart(s)
  {
    if before == "" {
      assert before + s == s;
    } else {
      assert (before + s)[1..] == before[1..] + s;
      TrimStartDrops(before[1..], s);
    }
  }

  lemma {:induction false} TrimEndDrops(s: string, after: string)
    requires AllSpace(after)
    ensures TrimEnd(s + after) == TrimEnd(s)
  {
    if after == "" {
      assert s + after == s;
    } else {
      var shorter := after[..|after| - 1];
      assert (s + after)[..|s + after| - 1] == s + shorter;
      TrimEndDrops(s, shorter);
    }
  }

  /** Trimming stops at a character that is not white space. */
  lemma {:induction false} TrimEndKeeps(s: string, after: string)
    requires s != "" && !IsSpace(s[|s| - 1])
    ensures s <= TrimEnd(s + after)
  {
    if after == "" {
      assert s + after == s;
    } else if IsSpace(after[|after| - 1]) {
      assert (s + after)[..|s + after| - 1] == s + after[..|after| - 1];
      TrimEndKeeps(s, after[..|after| - 1]);
    }
  }

  /** Trimming removes exactly the white space put around a text that has none at its ends. */
  lemma TrimPadded(before: string, s: string, after: string)
    requires AllSpace(before) && AllSpace(after)
    requires s != "" && !IsSpace(s[0]) && !IsSpace(s[|s| - 1])
    ensures Trim(before + s + after) == s
  {
    assert before + s + after == before + (s + after);
    TrimStartDrops(before, s + after);
    TrimEndDrops(s, after);
  }

  lemma {:induction false} TrimStartAppend(s: string, after: string)
    ensures TrimStart(s + after) == if TrimStart(s) == "" then TrimStart(after) else TrimStart(s) + after
  {
    if s == "" {
      assert s + after == after;
    } else if IsSpace(s[0]) {
      assert (s + after)[1..] == s[1..] + after;
      TrimStartAppend(s[1..], after);
    }
  }

  lemma {:induction false} TrimStartClean(s: string)
    ensures var t := TrimStart(s);
      && (t != "" ==> !IsSpace(t[0])) && TrimStart(t) == t
      && forall c | c in t :: c in s
  {
    if s != "" && IsSpace(s[0]) {
      TrimStartClean(s[1..]);
    }
  }

  lemma {:induction false} TrimEndClean(s: string)
    ensures var t := TrimEnd(s);
      && t <= s && TrimEnd(t) == t
  {
    if s != "" && IsSpace(s[|s| - 1]) {
      TrimEndClean(s[..|s| - 1]);
    }
  }

  /** White space put around a text makes no difference to what is left after trimming. */
  lemma TrimIgnoresPadding(before: string, s: string, after: string)
    requires AllSpace(before) && AllSpace(after)
    ensures Trim(before + s + after) == Trim(s)
  {
    assert before + s + after == before + (s + after);
    TrimStartDrops(before, s + after);
    TrimStartAppend(s, after);
    TrimStartDrops(after, "");
    assert after + "" == after;
    TrimEndDrops(TrimStart(s), after);
  }

  /** Trimming twice is trimming once, and what it leaves begins with no white space. */
  lemma TrimTwice(s: string)
    ensures var t := Trim(s);
      && Trim(t) == t && Trim(TrimStart(s)) == t
      && (t != "" ==> !IsSpace(t[0]))
      && forall c | c in t :: c in s
  {
    TrimStartClean(s);
    TrimEndClean(TrimStart(s));
    var t := Trim(s);
    if t != "" {
      assert t[0] == TrimStart(s)[0];
      assert TrimStart(t) == t;
    }
  }

  function LowerChar(c: char): char {
    if 'A' <= c <= 'Z' then c + 32 as char else c
  }

  /** Each upper-case letter becomes its lower-case one, everything else stays. */
  lemma LowerLetters(c: char)
    ensures forall k | 0 <= k < 26 ::
      "ABCDEFGHIJKLMNOPQRSTUVWXYZ"[k] == c ==> LowerChar(c) == "abcdefghijklmnopqrstuvwxyz"[k]
    ensures c !in "ABCDEFGHIJKLMNOPQRSTUVWXYZ" ==> LowerChar(c) == c
  {
    var upper, lower := "ABCDEFGHIJKLMNOPQRSTUVWXYZ", "abcdefghijklmnopqrstuvwxyz";
    if 'A' <= c <= 'Z' {
      assert upper[(c - 'A') as nat] == c;
    }
  }

  /** `s.toLowerCase()` on the ASCII letters. */
  function ToLower(s: string): (r: string)
    ensures |r| == |s| && forall k | 0 <= k < |s| :: r[k] == LowerChar(s[k])
  {
    seq(|s|, k requires 0 <= k < |s| => LowerChar(s[k]))
  }
}
