// backend/src/apiToken/apiToken.util.ts: reading the Authorization header, and the text form of scopes.
module ApiTokens {
  import opened Wrappers
  import opened Text

  const PREFIX := "psk_"

  datatype Credentials = Credentials(tokenId: string, secret: string)

  function Piece(parts: seq<string>, k: nat): string {
    if k < |parts| then parts[k] else ""
  }

  function ParseApiToken(header: string): Option<Credentials> {
    var parts := Split(header, " ");
    var scheme, credentials := Piece(parts, 0), Piece(parts, 1);
    if scheme == "" || credentials == "" || ToLower(scheme) != "bearer" then None
    else
      var pieces := Split(credentials, ".");
      var prefixedTokenId, secret := Piece(pieces, 0), Piece(pieces, 1);
      if prefixedTokenId == "" || secret == "" || !(PREFIX <= prefixedTokenId) then None
      else Some(Credentials(prefixedTokenId[|PREFIX|..], secret))
  }

  /** The token that is handed out once, when it is created. */
  function PrintToken(tokenId: string, secret: string): string {
    PREFIX + tokenId + "." + secret
  }

  lemma {:induction false} SplitWithin(s: string, sep: char)
    ensures forall p, c | p in Split(s, [sep]) && c in p :: c in s && c != sep
    decreases |s|
  {
    SplitPiecesClean(s, sep);
    if s != "" {
      SplitWithin(s[1..], sep);
      var rest := Split(s[1..], [sep]);
      assert rest[0] in rest;
      assert forall p | p in rest[1..] :: p in rest;
    }
  }

  /** The pieces of the header that are read hold neither blanks nor dots. */
  lemma ReadPiecesClean(header: string)
    ensures ParseApiToken(header).Some? ==>
      var c := ParseApiToken(header).value;
      c.secret != "" && ' ' !in c.tokenId && '.' !in c.tokenId && ' ' !in c.secret && '.' !in c.secret
  {
    SplitWithin(header, ' ');
    var pieces := Split(Piece(Split(header, " "), 1), ".");
    SplitWithin(Piece(Split(header, " "), 1), '.');
    assert |PREFIX| <= |pieces[0]| ==> forall c | c in pieces[0][|PREFIX|..] :: c in pieces[0];
  }

  lemma BearerPieces(scheme: string, credentials: string)
    requires ' ' !in scheme && ' ' !in credentials
    ensures Split(scheme + " " + credentials, " ") == [scheme, credentials]
  {
    var parts := [scheme, credentials];
    assert parts[1..] == [credentials] && Join(parts, " ") == scheme + " " + credentials;
    SplitJoin(parts, ' ');
  }

  lemma TokenPieces(prefixedId: string, secret: string)
    requires '.' !in prefixedId && '.' !in secret
    ensures Split(prefixedId + "." + secret, ".") == [prefixedId, secret]
  {
    var parts := [prefixedId, secret];
    assert parts[1..] == [secret] && Join(parts, ".") == prefixedId + "." + secret;
    SplitJoin(parts, '.');
  }

  /** A printed token is read back exactly when neither part holds a blank or a dot and the secret is not empty. */
  lemma TokenRoundTrip(scheme: string, tokenId: string, secret: string)
    requires ToLower(scheme) == "bearer" && ' ' !in scheme
    ensures PrintToken(tokenId, secret) == "psk_" + tokenId + "." + secret
    ensures ParseApiToken(scheme + " " + PrintToken(tokenId, secret)) == Some(Credentials(tokenId, secret))
      <==> secret != "" && ' ' !in tokenId && '.' !in tokenId && ' ' !in secret && '.' !in secret
  {
    ReadPiecesClean(scheme + " " + PrintToken(tokenId, secret));
    if secret != "" && ' ' !in tokenId && '.' !in tokenId && ' ' !in secret && '.' !in secret {
      BearerPieces(scheme, PrintToken(tokenId, secret));
      TokenPieces(PREFIX + tokenId, secret);
    }
  }

  /** A token id and a secret that a header can carry. */
  predicate CleanParts(c: Credentials) {
    c.secret != "" && ' ' !in c.tokenId && '.' !in c.tokenId && ' ' !in c.secret && '.' !in c.secret
  }

  lemma FirstTwo(s: string, sep: char)
    requires |Split(s, [sep])| >= 2
    ensures var parts := Split(s, [sep]);
      exists more :: s == parts[0] + [sep] + parts[1] + more && (more == "" || more[0] == sep)
  {
    var parts := Split(s, [sep]);
    JoinSplit(s, [sep]);
    var more := if |parts| == 2 then "" else [sep] + Join(parts[2..], [sep]);
    assert parts[1..][1..] == parts[2..] && (|parts| == 2 ==> parts[1..] == [parts[1]]);
    assert s == parts[0] + [sep] + parts[1] + more;
  }

  lemma SplitHead(a: string, sep: char, rest: string)
    requires sep !in a
    ensures Split(a + [sep] + rest, [sep]) == [a] + Split(rest, [sep])
  {
    assert (a + [sep] + rest)[..|a|] == a;
    CharNoneBefore(a + [sep] + rest, sep, |a|);
    SplitAt(a, [sep], rest);
  }

  lemma SplitStart(b: string, sep: char, more: string)
    requires sep !in b && (more == "" || more[0] == sep)
    ensures Split(b + more, [sep])[0] == b
  {
    if more == "" {
      assert b + more == b && b[..|b|] == b;
      CharNoneBefore(b, sep, |b|);
      SplitNone(b, [sep]);
    } else {
      assert b + more == b + [sep] + more[1..];
      SplitHead(b, sep, more[1..]);
    }
  }

  lemma SplitFirstTwo(a: string, b: string, sep: char, more: string)
    requires sep !in a && sep !in b && (more == "" || more[0] == sep)
    ensures var parts := Split(a + [sep] + b + more, [sep]); |parts| >= 2 && parts[0] == a && parts[1] == b
  {
    SplitHead(a, sep, b + more);
    SplitStart(b, sep, more);
    assert a + [sep] + b + more == a + [sep] + (b + more);
  }

  /** The header has the scheme and a token, with anything after a further dot or blank. */
  ghost predicate Carries(header: string, scheme: string, c: Credentials, rest: string, more: string) {
    && header == scheme + " " + PrintToken(c.tokenId, c.secret) + rest + more
    && ToLower(scheme) == "bearer" && CleanParts(c)
    && ' ' !in rest && (rest == "" || rest[0] == '.') && (more == "" || more[0] == ' ')
  }

  lemma BearerHasNoBlank(scheme: string)
    requires ToLower(scheme) == "bearer"
    ensures ' ' !in scheme
  {
    forall k | 0 <= k < |scheme| ensures scheme[k] != ' ' {
      assert ToLower(scheme)[k] == LowerChar(scheme[k]);
    }
  }

  lemma CarriedIsRead(header: string, scheme: string, c: Credentials, rest: string, more: string)
    requires Carries(header, scheme, c, rest, more)
    ensures ParseApiToken(header) == Some(c)
  {
    BearerHasNoBlank(scheme);
    var credentials := PrintToken(c.tokenId, c.secret) + rest;
    assert header == scheme + " " + credentials + more;
    SplitFirstTwo(scheme, credentials, ' ', more);
    assert credentials == (PREFIX + c.tokenId) + "." + c.secret + rest;
    SplitFirstTwo(PREFIX + c.tokenId, c.secret, '.', rest);
  }

  /** A header is read as an id and a secret exactly when it carries them under the bearer scheme. */
  lemma HeaderExactly(header: string, c: Credentials)
    ensures ParseApiToken(header) == Some(c) <==> exists scheme, rest, more :: Carries(header, scheme, c, rest, more)
  {
    if ParseApiToken(header) == Some(c) {
      ReadPiecesClean(header);
      var parts := Split(header, " ");
      FirstTwo(header, ' ');
      var more :| header == parts[0] + " " + parts[1] + more && (more == "" || more[0] == ' ');
      FirstTwo(parts[1], '.');
      var pieces := Split(parts[1], ".");
      var rest :| parts[1] == pieces[0] + "." + pieces[1] + rest && (rest == "" || rest[0] == '.');
      SplitPiecesClean(header, ' ');
      assert forall x | x in rest :: x in parts[1];
      assert pieces[0] == PREFIX + c.tokenId;
      assert Carries(header, parts[0], c, rest, more);
    }
    if scheme, rest, more :| Carries(header, scheme, c, rest, more) {
      CarriedIsRead(header, scheme, c, rest, more);
    }
  }

  // ---------------------------------------------------------------- scopes

  /** The order of `sort()` without an argument: by character, a prefix first. */
  predicate Less(a: string, b: string) {
    if b == "" then false
    else if a == "" then true
    else a[0] < b[0] || (a[0] == b[0] && Less(a[1..], b[1..]))
  }

  /** The first place where two texts differ decides, and a text comes after its beginnings. */
  lemma {:induction false} LessMeans(a: string, b: string)
    ensures Less(a, b) <==> exists k :: FirstDifference(a, b, k)
  {
    if a != "" && b != "" && a[0] == b[0] {
      LessMeans(a[1..], b[1..]);
      if Less(a, b) {
        var k :| FirstDifference(a[1..], b[1..], k);
        assert a[..k + 1] == [a[0]] + a[1..][..k] && b[..k + 1] == [b[0]] + b[1..][..k];
        assert FirstDifference(a, b, k + 1);
      }
      if k :| FirstDifference(a, b, k) {
        assert k > 0 && a[1..][..k - 1] == a[..k][1..] && b[1..][..k - 1] == b[..k][1..];
        assert FirstDifference(a[1..], b[1..], k - 1);
      }
    } else if Less(a, b) {
      assert FirstDifference(a, b, 0);
    }
  }

  ghost predicate FirstDifference(a: string, b: string, k: int) {
    0 <= k <= |a| && k < |b| && a[..k] == b[..k] && (k < |a| ==> a[k] < b[k])
  }

  lemma {:induction false} LessTotal(a: string, b: string)
    ensures !(Less(a, b) && Less(b, a))
    ensures a != b <==> Less(a, b) || Less(b, a)
  {
    if a != "" && b != "" {
      LessTotal(a[1..], b[1..]);
      assert a == [a[0]] + a[1..] && b == [b[0]] + b[1..];
    }
  }

  lemma {:induction false} LessTransitive(a: string, b: string, c: string)
    requires Less(a, b) && Less(b, c)
    ensures Less(a, c)
  {
    if a != "" && a[0] == b[0] == c[0] {
      LessTransitive(a[1..], b[1..], c[1..]);
    }
  }

  ghost predicate Ascending(s: seq<string>) {
    forall j, k | 0 <= j < k < |s| :: Less(s[j], s[k])
  }

  /** Puts a scope in its place, once. */
  function Insert(s: seq<string>, x: string): seq<string> {
    if s == [] then [x]
    else if s[0] == x then s
    else if Less(x, s[0]) then [x] + s
    else [s[0]] + Insert(s[1..], x)
  }

  /** The known scopes of a list, sorted and each once. */
  function Normalize(known: set<string>, scopes: seq<string>): seq<string> {
    if scopes == [] then []
    else
      var front, last := Normalize(known, scopes[..|scopes| - 1]), scopes[|scopes| - 1];
      if last in known then Insert(front, last) else front
  }

  function Serialize(known: set<string>, scopes: seq<string>): string {
    Join(Normalize(known, scopes), " ")
  }

  function Deserialize(known: set<string>, text: string): seq<string> {
    if text == "" then [] else Normalize(known, Split(text, " "))
  }

  lemma {:induction false} InsertSorted(s: seq<string>, x: string)
    requires Ascending(s)
    ensures Ascending(Insert(s, x)) && forall y :: y in Insert(s, x) <==> y in s || y == x
  {
    if s != [] {
      LessTotal(s[0], x);
      if s[0] != x && Less(x, s[0]) {
        forall k | 0 <= k < |s| ensures Less(x, s[k]) {
          if k > 0 {
            LessTransitive(x, s[0], s[k]);
          }
        }
      } else if s[0] != x {
        assert Ascending(s[1..]);
        InsertSorted(s[1..], x);
        var rest := Insert(s[1..], x);
        forall k | 0 <= k < |rest| ensures Less(s[0], rest[k]) {
          assert rest[k] in rest;
        }
      }
    }
  }

  /** The result is sorted and holds exactly the known ones among the scopes given. */
  lemma {:induction false} NormalizedScopes(known: set<string>, scopes: seq<string>)
    ensures Ascending(Normalize(known, scopes))
    ensures forall x :: x in Normalize(known, scopes) <==> x in scopes && x in known
  {
    if scopes != [] {
      var front, last := scopes[..|scopes| - 1], scopes[|scopes| - 1];
      NormalizedScopes(known, front);
      InsertSorted(Normalize(known, front), last);
      assert scopes == front + [last];
    }
  }

  /** There is one sorted list of a set of scopes. */
  lemma {:induction false} AscendingUnique(a: seq<string>, b: seq<string>)
    requires Ascending(a) && Ascending(b) && forall x :: x in a <==> x in b
    ensures a == b
  {
    assert b != [] ==> b[0] in b;
    if a != [] {
      assert a[0] in b && b[0] in a;
      LessTotal(a[0], b[0]);
      FirstIsLeast(a, b[0]);
      FirstIsLeast(b, a[0]);
      forall x ensures x in a[1..] <==> x in b[1..] {
        RestOfAscending(a, x);
        RestOfAscending(b, x);
      }
      AscendingUnique(a[1..], b[1..]);
      assert a == [a[0]] + a[1..] && b == [b[0]] + b[1..];
    }
  }

  lemma FirstIsLeast(s: seq<string>, x: string)
    requires Ascending(s) && x in s
    ensures x == s[0] || Less(s[0], x)
  {
  }

  lemma RestOfAscending(s: seq<string>, x: string)
    requires Ascending(s) && s != []
    ensures x in s[1..] <==> x in s && x != s[0]
  {
    LessTotal(s[0], s[0]);
    assert s == [s[0]] + s[1..];
  }

  /** The normalised scopes depend only on which scopes are given. */
  lemma SameScopes(known: set<string>, a: seq<string>, b: seq<string>)
    requires forall x | x in known :: x in a <==> x in b
    ensures Normalize(known, a) == Normalize(known, b)
  {
    NormalizedScopes(known, a);
    NormalizedScopes(known, b);
    AscendingUnique(Normalize(known, a), Normalize(known, b));
  }

  /** Reading the stored text of any scopes gives the normalised scopes. */
  lemma ScopesRoundTrip(known: set<string>, scopes: seq<string>)
    requires forall x | x in known :: x != "" && ' ' !in x
    ensures Deserialize(known, Serialize(known, scopes)) == Normalize(known, scopes)
  {
    NormalizedScopes(known, scopes);
    var normal := Normalize(known, scopes);
    if normal != [] {
      SplitJoin(normal, ' ');
      assert normal[0] in normal;
      SameScopes(known, normal, scopes);
    }
  }
}
