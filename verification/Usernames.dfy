// backend/src/oauth/oauth.service.ts, getAvailableUsername.
module Usernames {
  import opened Sets

  predicate IsAllowed(c: char) {
    'a' <= c <= 'z' || 'A' <= c <= 'Z' || '0' <= c <= '9' || c == '.' || c == '_'
  }

  /** `s.replace(/[^a-zA-Z0-9._]/g, "")` */
  function Sanitize(s: string): (r: string)
    ensures |r| <= |s| && forall c | c in r :: c in s && IsAllowed(c)
  {
    if s == "" then "" else (if IsAllowed(s[0]) then [s[0]] else []) + Sanitize(s[1..])
  }

  /** The first name tried: cleaned and cut to 20 characters. */
  function FirstChoice(preferred: string): string {
    var clean := Sanitize(preferred);
    if |clean| > 20 then clean[..20] else clean
  }

  /** Cleaning keeps the allowed characters in their order and drops all others. */
  lemma {:induction false} SanitizeSplit(a: string, b: string)
    ensures Sanitize(a + b) == Sanitize(a) + Sanitize(b)
  {
    if a == "" {
      assert a + b == b;
    } else {
      assert (a + b)[1..] == a[1..] + b;
      SanitizeSplit(a[1..], b);
    }
  }

  lemma LowerCase(c: char)
    ensures 'a' <= c <= 'z' <==> c in "abcdefghijklmnopqrstuvwxyz"
  {
    var letters := "abcdefghijklmnopqrstuvwxyz";
    if 'a' <= c <= 'z' {
      assert letters[(c - 'a') as nat] == c;
    }
  }

  lemma UpperCase(c: char)
    ensures 'A' <= c <= 'Z' <==> c in "ABCDEFGHIJKLMNOPQRSTUVWXYZ"
  {
    var letters := "ABCDEFGHIJKLMNOPQRSTUVWXYZ";
    if 'A' <= c <= 'Z' {
      assert letters[(c - 'A') as nat] == c;
    }
  }

  lemma Decimal(c: char)
    ensures '0' <= c <= '9' <==> c in "0123456789"
  {
    var digits := "0123456789";
    if '0' <= c <= '9' {
      assert digits[(c - '0') as nat] == c;
    }
  }

  lemma SanitizeChar(c: char)
    ensures Sanitize([c]) ==
      if c in "abcdefghijklmnopqrstuvwxyz" || c in "ABCDEFGHIJKLMNOPQRSTUVWXYZ" || c in "0123456789" || c in "._" then [c] else ""
  {
    LowerCase(c);
    UpperCase(c);
    Decimal(c);
    assert Sanitize([c][1..]) == "";
  }

  lemma FirstChoiceShape(preferred: string)
    ensures FirstChoice(preferred) <= Sanitize(preferred)
    ensures |FirstChoice(preferred)| == 20 || (|FirstChoice(preferred)| < 20 && FirstChoice(preferred) == Sanitize(preferred))
  {
  }

  /** The names tried one after the other. */
  function Candidate(preferred: string, suffix: nat -> string, k: nat): string {
    if k == 0 then FirstChoice(preferred) else Candidate(preferred, suffix, k - 1) + "_" + suffix(k)
  }

  /** Later candidates are longer. */
  lemma {:induction false} CandidateShape(preferred: string, suffix: nat -> string, j: nat, k: nat)
    requires j <= k
    ensures Candidate(preferred, suffix, j) <= Candidate(preferred, suffix, k)
    ensures j < k ==> |Candidate(preferred, suffix, j)| < |Candidate(preferred, suffix, k)|
  {
    if j < k {
      CandidateShape(preferred, suffix, j, k - 1);
    }
  }

  /**
   * The search ends with an unused name after at most one lookup more than there are users, whatever the
   * random suffixes are (even empty ones): every candidate is longer than all before, so none is tried twice. It is
   * the first candidate that is not in use.
   */
  method GetAvailableUsername(preferred: string, users: set<string>, suffix: nat -> string) returns (username: string, lookups: nat)
    ensures username !in users
    ensures 1 <= lookups <= |users| + 1
    ensures username == Candidate(preferred, suffix, lookups - 1)
    ensures forall k | 0 <= k < lookups - 1 :: Candidate(preferred, suffix, k) in users
    ensures FirstChoice(preferred) <= username
    ensures |username| > |FirstChoice(preferred)| <==> FirstChoice(preferred) in users
  {
    username := FirstChoice(preferred);
    lookups := 1;
    ghost var tried: set<string> := {};
    while username in users
      invariant lookups >= 1 && username == Candidate(preferred, suffix, lookups - 1)
      invariant tried <= users && |tried| == lookups - 1
      invariant forall t | t in tried :: |t| < |username|
      invariant forall k | 0 <= k < lookups - 1 :: Candidate(preferred, suffix, k) in tried
      decreases |users| - |tried|
    {
      tried := tried + {username};
      SubsetSize(tried, users);
      username := username + "_" + suffix(lookups);
      lookups := lookups + 1;
    }
    SubsetSize(tried, users);
    CandidateShape(preferred, suffix, 0, lookups - 1);
    assert lookups > 1 ==> Candidate(preferred, suffix, 0) in tried;
  }
}
