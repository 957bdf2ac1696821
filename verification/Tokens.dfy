// backend/src/auth/auth.service.ts and authTotp.service.ts: refresh, login and reset tokens and the TOTP state of
// a user; backend/src/jobs/jobs.service.ts, deleteExpiredTokens. Every action is one atomic step.
module Tokens {
  import opened Wrappers

  datatype User = User(passwordVersion: nat, totpSecret: Option<string>, totpEnabled: bool, totpVerified: bool)

  /** A stored token; `used` is only ever set for login tokens. */
  datatype Token = Token(userId: string, expiresAt: int, used: bool)

  type TokenTable = map<string, Token>

  datatype Store = Store(users: map<string, User>, refresh: TokenTable, login: TokenTable, reset: TokenTable)

  /** Results of foreign checks (passwords, codes, settings) and newly drawn tokens come with the action. */
  datatype Action =
    | GenerateToken(userId: string, skipTotp: bool, newToken: string, sessionMs: nat)
    | RefreshAccessToken(token: string)
    | SignInTotp(token: string, codeValid: bool, newToken: string, sessionMs: nat)
    | SignOut(token: string)
    | RequestResetPassword(userId: string, disabled: bool, ldap: bool, newToken: string)
    | ResetPassword(token: string, disabled: bool)
    | UpdatePassword(userId: string, oldPasswordValid: bool, newToken: string, sessionMs: nat)
    | EnableTotp(userId: string, passwordValid: bool, secret: string)
    | VerifyTotp(userId: string, passwordValid: bool, codeValid: bool)
    | DisableTotp(userId: string, passwordValid: bool, codeValid: bool)

  const LOGIN_TOKEN_MS := 5 * 60 * 1000
  const RESET_TOKEN_MS := 60 * 60 * 1000

  /** `where: { expiresAt: { lt: now } }` selects the others. */
  function Live(tokens: TokenTable, now: int): TokenTable {
    map t | t in tokens && tokens[t].expiresAt >= now :: tokens[t]
  }

  function WithoutUser(tokens: TokenTable, userId: string): TokenTable {
    map t | t in tokens && tokens[t].userId != userId :: tokens[t]
  }

  /** The job: expired tokens of all three kinds are deleted. */
  function DeleteExpiredTokens(s: Store, now: int): Store {
    s.(refresh := Live(s.refresh, now), login := Live(s.login, now), reset := Live(s.reset, now))
  }

  function NewToken(userId: string, expiresAt: int): Token {
    Token(userId, expiresAt, false)
  }

  predicate LoginAccepted(s: Store, now: int, token: string, codeValid: bool) {
    && token in s.login && !s.login[token].used && !(s.login[token].expiresAt < now)
    && s.login[token].userId in s.users
    && s.users[s.login[token].userId].totpSecret.Some? && s.users[s.login[token].userId].totpSecret.value != ""
    && codeValid
  }

  /** The store after an action, and whether the action is accepted. */
  function Act(s: Store, now: int, a: Action): (Store, bool) {
    match a
    case GenerateToken(userId, skipTotp, newToken, sessionMs) =>
      if userId !in s.users then (s, false)
      else if s.users[userId].totpVerified && !skipTotp then
        (s.(login := s.login[newToken := NewToken(userId, now + LOGIN_TOKEN_MS)]), true)
      else (s.(refresh := s.refresh[newToken := NewToken(userId, now + sessionMs)]), true)
    case RefreshAccessToken(token) =>
      (s, token in s.refresh && !(s.refresh[token].expiresAt < now))
    case SignInTotp(token, codeValid, newToken, sessionMs) =>
      if !LoginAccepted(s, now, token, codeValid) then (s, false)
      else
        (s.(login := s.login[token := s.login[token].(used := true)],
            refresh := s.refresh[newToken := NewToken(s.login[token].userId, now + sessionMs)]), true)
    case SignOut(token) => (s.(refresh := s.refresh - {token}), true)
    case RequestResetPassword(userId, disabled, ldap, newToken) =>
      if disabled then (s, false)
      else if userId !in s.users then (s, true)
      else if ldap then (s, false)
      else (s.(reset := WithoutUser(s.reset, userId)[newToken := NewToken(userId, now + RESET_TOKEN_MS)]), true)
    case ResetPassword(token, disabled) =>
      if disabled || token !in s.reset || !(s.reset[token].expiresAt > now) || s.reset[token].userId !in s.users then (s, false)
      else
        var id := s.reset[token].userId;
        (s.(reset := s.reset - {token},
            users := s.users[id := s.users[id].(passwordVersion := s.users[id].passwordVersion + 1)]), true)
    case UpdatePassword(userId, oldPasswordValid, newToken, sessionMs) =>
      if userId !in s.users || !oldPasswordValid then (s, false)
      else
        (s.(refresh := WithoutUser(s.refresh, userId)[newToken := NewToken(userId, now + sessionMs)],
            users := s.users[userId := s.users[userId].(passwordVersion := s.users[userId].passwordVersion + 1)]), true)
    case EnableTotp(userId, passwordValid, secret) =>
      if userId !in s.users || !passwordValid || s.users[userId].totpVerified then (s, false)
      else (s.(users := s.users[userId := s.users[userId].(totpEnabled := true, totpSecret := Some(secret))]), true)
    case VerifyTotp(userId, passwordValid, codeValid) =>
      if userId !in s.users || !passwordValid || s.users[userId].totpSecret.None? || s.users[userId].totpSecret.value == "" || !codeValid
      then (s, false)
      else (s.(users := s.users[userId := s.users[userId].(totpVerified := true)]), true)
    case DisableTotp(userId, passwordValid, codeValid) =>
      if userId !in s.users || !passwordValid || s.users[userId].totpSecret.None? || s.users[userId].totpSecret.value == "" || !codeValid
      then (s, false)
      else
        (s.(users := s.users[userId := s.users[userId].(totpVerified := false, totpEnabled := false, totpSecret := None)]), true)
  }

  class TokenService {
    var users: map<string, User>
    var refresh: TokenTable
    var login: TokenTable
    var reset: TokenTable

    ghost function View(): Store
      reads this
    {
      Store(users, refresh, login, reset)
    }

    constructor (users: map<string, User>)
      ensures View() == Store(users, map[], map[], map[])
    {
      this.users := users;
      refresh, login, reset := map[], map[], map[];
    }

    method HandleSignInTotp(token: string, codeValid: bool, newToken: string, sessionMs: nat, now: int) returns (ok: bool)
      modifies this
      ensures (View(), ok) == Act(old(View()), now, SignInTotp(token, codeValid, newToken, sessionMs))
    {
      if token !in login || login[token].used {
        return false;
      }
      if login[token].expiresAt < now || login[token].userId !in users {
        return false;
      }
      var totpSecret := users[login[token].userId].totpSecret;
      if totpSecret.None? || totpSecret.value == "" || !codeValid {
        return false;
      }
      login := login[token := login[token].(used := true)];
      refresh := refresh[newToken := NewToken(login[token].userId, now + sessionMs)];
      ok := true;
    }

    method HandleResetPassword(token: string, disabled: bool, now: int) returns (ok: bool)
      modifies this
      ensures (View(), ok) == Act(old(View()), now, ResetPassword(token, disabled))
    {
      if disabled || token !in reset || reset[token].expiresAt <= now || reset[token].userId !in users {
        return false;
      }
      var id := reset[token].userId;
      reset := reset - {token};
      users := users[id := users[id].(passwordVersion := users[id].passwordVersion + 1)];
      ok := true;
    }

    method HandleDeleteExpiredTokens(now: int)
      modifies this
      ensures users == old(users) && View() == DeleteExpiredTokens(old(View()), now)
      ensures forall t :: t in refresh <==> t in old(refresh) && !(old(refresh)[t].expiresAt < now)
      ensures forall t :: t in login <==> t in old(login) && !(old(login)[t].expiresAt < now)
      ensures forall t :: t in reset <==> t in old(reset) && !(old(reset)[t].expiresAt < now)
      ensures refresh.Items <= old(refresh).Items && login.Items <= old(login).Items && reset.Items <= old(reset).Items
    {
      refresh := Live(refresh, now);
      login := Live(login, now);
      reset := Live(reset, now);
    }
  }

  // ---------------------------------------------------------------- what an action does to the users

  /** A refused action changes nothing, and no action adds or removes a user. */
  lemma RefusedChangesNothing(s: Store, now: int, a: Action)
    ensures !Act(s, now, a).1 ==> Act(s, now, a).0 == s
    ensures Act(s, now, a).0.users.Keys == s.users.Keys
  {
  }

  /** The action is a reset or an update of the password of this user. */
  predicate PasswordOf(s: Store, a: Action, id: string) {
    || (a.ResetPassword? && a.token in s.reset && s.reset[a.token].userId == id)
    || (a.UpdatePassword? && a.userId == id)
  }

  /** A password is replaced by an accepted reset or update for its user, and by nothing else. */
  lemma PasswordsReplaced(s: Store, now: int, a: Action, id: string)
    requires id in s.users
    ensures var (s', ok) := Act(s, now, a);
      && id in s'.users
      && (ok && PasswordOf(s, a, id) ==> s'.users[id].passwordVersion == s.users[id].passwordVersion + 1)
      && (!ok || !PasswordOf(s, a, id) ==> s'.users[id].passwordVersion == s.users[id].passwordVersion)
  {
  }

  /** When the actions on the second factor and on passwords are accepted. */
  lemma AcceptedExactly(s: Store, now: int, a: Action)
    ensures a.EnableTotp? ==>
      (Act(s, now, a).1 <==> a.userId in s.users && a.passwordValid && !s.users[a.userId].totpVerified)
    ensures a.VerifyTotp? ==> (Act(s, now, a).1 <==> HasSecret(s, a.userId) && a.passwordValid && a.codeValid)
    ensures a.DisableTotp? ==> (Act(s, now, a).1 <==> HasSecret(s, a.userId) && a.passwordValid && a.codeValid)
    ensures a.UpdatePassword? ==> (Act(s, now, a).1 <==> a.userId in s.users && a.oldPasswordValid)
    ensures a.RequestResetPassword? ==> (Act(s, now, a).1 <==> !a.disabled && !(a.userId in s.users && a.ldap))
    ensures a.RequestResetPassword? && a.userId !in s.users ==> Act(s, now, a).0 == s
  {
  }

  /** The second factor of a user as it is stored: enabled, verified, and the secret. */
  function FactorOf(u: User): (bool, bool, Option<string>) {
    (u.totpEnabled, u.totpVerified, u.totpSecret)
  }

  /** The second factor of a user after an action: set up, confirmed, removed, or as it was. */
  lemma SecondFactor(s: Store, now: int, a: Action, id: string)
    requires id in s.users
    ensures var (s', ok) := Act(s, now, a);
      && id in s'.users
      && (ok && a.EnableTotp? && a.userId == id ==> FactorOf(s'.users[id]) == (true, false, Some(a.secret)))
      && (ok && a.VerifyTotp? && a.userId == id ==>
            FactorOf(s'.users[id]) == (s.users[id].totpEnabled, true, s.users[id].totpSecret))
      && (ok && a.DisableTotp? && a.userId == id ==> FactorOf(s'.users[id]) == (false, false, None))
      && (!((a.EnableTotp? || a.VerifyTotp? || a.DisableTotp?) && ok && a.userId == id) ==>
            FactorOf(s'.users[id]) == FactorOf(s.users[id]))
  {
  }

  // ---------------------------------------------------------------- what the job may delete

  predicate HasSecret(s: Store, userId: string) {
    userId in s.users && s.users[userId].totpSecret.Some? && s.users[userId].totpSecret.value != ""
  }

  /**
   * A session is deleted exactly if it can no longer be refreshed, an unused login token exactly if the right code no
   * longer signs in with it, a reset token only if it no longer resets a password; what is left is left as it was.
   */
  lemma JobDeletesUseless(s: Store, now: int, token: string, newToken: string, sessionMs: nat)
    ensures var s' := DeleteExpiredTokens(s, now);
      && s'.users == s.users
      && (token in s'.refresh <==> Act(s, now, RefreshAccessToken(token)).1)
      && (token in s.login && !s.login[token].used && HasSecret(s, s.login[token].userId) ==>
            (token in s'.login <==> Act(s, now, SignInTotp(token, true, newToken, sessionMs)).1))
      && (Act(s, now, ResetPassword(token, false)).1 ==> token in s'.reset)
      && (token in s'.reset && s.reset[token].userId in s.users ==>
            Act(s, now, ResetPassword(token, false)).1 || s.reset[token].expiresAt == now)
      && (token in s'.refresh ==> s'.refresh[token] == s.refresh[token])
      && (token in s'.login ==> s'.login[token] == s.login[token])
      && (token in s'.reset ==> s'.reset[token] == s.reset[token])
  {
    assert token in Live(s.refresh, now) <==> token in s.refresh && s.refresh[token].expiresAt >= now;
    assert token in Live(s.login, now) <==> token in s.login && s.login[token].expiresAt >= now;
    assert token in Live(s.reset, now) <==> token in s.reset && s.reset[token].expiresAt >= now;
  }

  // ---------------------------------------------------------------- the job is not noticed

  /** The two stores differ at most in tokens that have expired. */
  ghost predicate Alike(a: Store, b: Store, now: int) {
    && a.users == b.users
    && Live(a.refresh, now) == Live(b.refresh, now)
    && Live(a.login, now) == Live(b.login, now)
    && Live(a.reset, now) == Live(b.reset, now)
  }

  lemma LiveLater(a: TokenTable, b: TokenTable, now: int, later: int)
    requires Live(a, now) == Live(b, now) && now <= later
    ensures Live(a, later) == Live(b, later)
  {
    forall t | t in Live(a, later) || t in Live(b, later)
      ensures t in a && t in b && a[t] == b[t]
    {
      assert t in Live(a, now) || t in Live(b, now);
    }
  }

  lemma LiveEntry(a: TokenTable, b: TokenTable, now: int, t: string)
    requires Live(a, now) == Live(b, now)
    ensures t in a && a[t].expiresAt >= now <==> t in b && b[t].expiresAt >= now
    ensures t in a && a[t].expiresAt >= now ==> a[t] == b[t]
  {
    assert t in Live(a, now) <==> t in Live(b, now);
  }

  lemma LiveWrite(a: TokenTable, now: int, t: string, token: Token)
    ensures Live(a[t := token], now) == if token.expiresAt >= now then Live(a, now)[t := token] else Live(a, now) - {t}
  {
  }

  lemma BothWrite(a: TokenTable, b: TokenTable, now: int, t: string, token: Token)
    requires Live(a, now) == Live(b, now)
    ensures Live(a[t := token], now) == Live(b[t := token], now)
  {
    LiveWrite(a, now, t, token);
    LiveWrite(b, now, t, token);
  }

  lemma LiveRemove(a: TokenTable, now: int, t: string)
    ensures Live(a - {t}, now) == Live(a, now) - {t}
  {
  }

  lemma LiveWithoutUser(a: TokenTable, b: TokenTable, now: int, userId: string)
    requires Live(a, now) == Live(b, now)
    ensures Live(WithoutUser(a, userId), now) == Live(WithoutUser(b, userId), now)
  {
    assert Live(WithoutUser(a, userId), now) == WithoutUser(Live(a, now), userId);
    assert Live(WithoutUser(b, userId), now) == WithoutUser(Live(b, now), userId);
  }

  lemma LiveTwice(a: TokenTable, now: int)
    ensures Live(Live(a, now), now) == Live(a, now)
  {
  }

  ghost predicate AnsweredAlike(a: Store, b: Store, now: int, action: Action) {
    && Act(a, now, action).1 == Act(b, now, action).1
    && Alike(Act(a, now, action).0, Act(b, now, action).0, now)
  }

  lemma AlikeLogin(a: Store, b: Store, now: int, t: string, token: Token)
    requires Alike(a, b, now)
    ensures Alike(a.(login := a.login[t := token]), b.(login := b.login[t := token]), now)
  {
    BothWrite(a.login, b.login, now, t, token);
  }

  lemma AlikeSession(a: Store, b: Store, now: int, t: string, token: Token)
    requires Alike(a, b, now)
    ensures Alike(a.(refresh := a.refresh[t := token]), b.(refresh := b.refresh[t := token]), now)
  {
    BothWrite(a.refresh, b.refresh, now, t, token);
  }

  lemma AlikeGenerate(a: Store, b: Store, now: int, action: Action)
    requires Alike(a, b, now) && action.GenerateToken?
    ensures AnsweredAlike(a, b, now, action)
  {
    if action.userId in a.users && a.users[action.userId].totpVerified && !action.skipTotp {
      AlikeLogin(a, b, now, action.newToken, NewToken(action.userId, now + LOGIN_TOKEN_MS));
    } else {
      AlikeSession(a, b, now, action.newToken, NewToken(action.userId, now + action.sessionMs));
    }
  }

  lemma AlikeSignIn(a: Store, b: Store, now: int, action: Action)
    requires Alike(a, b, now) && action.SignInTotp?
    ensures AnsweredAlike(a, b, now, action)
  {
    LiveEntry(a.login, b.login, now, action.token);
    if LoginAccepted(a, now, action.token, action.codeValid) {
      var used := a.login[action.token].(used := true);
      var session := NewToken(a.login[action.token].userId, now + action.sessionMs);
      AlikeLogin(a, b, now, action.token, used);
      AlikeSession(a.(login := a.login[action.token := used]), b.(login := b.login[action.token := used]), now, action.newToken, session);
    }
  }

  lemma AlikeReset(a: Store, b: Store, now: int, action: Action)
    requires Alike(a, b, now) && (action.RequestResetPassword? || action.ResetPassword?)
    ensures AnsweredAlike(a, b, now, action)
  {
    if action.RequestResetPassword? {
      var token := NewToken(action.userId, now + RESET_TOKEN_MS);
      LiveWithoutUser(a.reset, b.reset, now, action.userId);
      BothWrite(WithoutUser(a.reset, action.userId), WithoutUser(b.reset, action.userId), now, action.newToken, token);
    } else {
      LiveEntry(a.reset, b.reset, now, action.token);
      LiveRemove(a.reset, now, action.token);
      LiveRemove(b.reset, now, action.token);
    }
  }

  lemma AlikeRefresh(a: Store, b: Store, now: int, action: Action)
    requires Alike(a, b, now) && (action.RefreshAccessToken? || action.SignOut?)
    ensures AnsweredAlike(a, b, now, action)
  {
    LiveEntry(a.refresh, b.refresh, now, action.token);
    LiveRemove(a.refresh, now, action.token);
    LiveRemove(b.refresh, now, action.token);
  }

  lemma AlikeUpdatePassword(a: Store, b: Store, now: int, action: Action)
    requires Alike(a, b, now) && action.UpdatePassword?
    ensures AnsweredAlike(a, b, now, action)
  {
    var session := NewToken(action.userId, now + action.sessionMs);
    LiveWithoutUser(a.refresh, b.refresh, now, action.userId);
    BothWrite(WithoutUser(a.refresh, action.userId), WithoutUser(b.refresh, action.userId), now, action.newToken, session);
  }

  /** Every action is answered alike in both stores and leaves them alike. */
  lemma AlikeAct(a: Store, b: Store, now: int, action: Action)
    requires Alike(a, b, now)
    ensures AnsweredAlike(a, b, now, action)
  {
    if action.GenerateToken? {
      AlikeGenerate(a, b, now, action);
    } else if action.SignInTotp? {
      AlikeSignIn(a, b, now, action);
    } else if action.RequestResetPassword? || action.ResetPassword? {
      AlikeReset(a, b, now, action);
    } else if action.RefreshAccessToken? || action.SignOut? {
      AlikeRefresh(a, b, now, action);
    } else if action.UpdatePassword? {
      AlikeUpdatePassword(a, b, now, action);
    }
  }

  /** An action at a time, after the job if it happens to run first. */
  datatype Moment = Moment(now: int, jobFirst: bool, action: Action)

  function MaybeJob(s: Store, m: Moment): Store {
    if m.jobFirst then DeleteExpiredTokens(s, m.now) else s
  }

  /** The answers of a run. */
  function Answers(s: Store, moments: seq<Moment>): seq<bool>
    decreases |moments|
  {
    if moments == [] then []
    else
      var (s', ok) := Act(MaybeJob(s, moments[0]), moments[0].now, moments[0].action);
      [ok] + Answers(s', moments[1..])
  }

  /** The same actions at the same times; only the job may run at different moments. */
  ghost predicate SameButJobs(a: seq<Moment>, b: seq<Moment>) {
    |a| == |b| && forall k | 0 <= k < |a| :: a[k].now == b[k].now && a[k].action == b[k].action
  }

  ghost predicate ClockFrom(now: int, moments: seq<Moment>) {
    forall k | 0 <= k < |moments| :: now <= moments[k].now && forall j | 0 <= j < k :: moments[j].now <= moments[k].now
  }

  lemma AlikeJobs(a: Store, b: Store, now: int, m: Moment, n: Moment)
    requires Alike(a, b, now) && now <= m.now == n.now
    ensures Alike(MaybeJob(a, m), MaybeJob(b, n), m.now)
  {
    LiveLater(a.refresh, b.refresh, now, m.now);
    LiveLater(a.login, b.login, now, m.now);
    LiveLater(a.reset, b.reset, now, m.now);
    LiveTwice(a.refresh, m.now);
    LiveTwice(a.login, m.now);
    LiveTwice(a.reset, m.now);
    LiveTwice(b.refresh, m.now);
    LiveTwice(b.login, m.now);
    LiveTwice(b.reset, m.now);
  }

  /** Running or skipping the clean-up at any moments never changes an answer, as long as the clock does not run back. */
  lemma {:induction false} JobIsNotNoticed(a: Store, b: Store, now: int, moments: seq<Moment>, others: seq<Moment>)
    requires Alike(a, b, now) && SameButJobs(moments, others) && ClockFrom(now, moments)
    ensures Answers(a, moments) == Answers(b, others)
    decreases |moments|
  {
    if moments != [] {
      var m, n := moments[0], others[0];
      AlikeJobs(a, b, now, m, n);
      AlikeAct(MaybeJob(a, m), MaybeJob(b, n), m.now, m.action);
      assert ClockFrom(m.now, moments[1..]) by {
        forall k | 0 <= k < |moments[1..]|
          ensures m.now <= moments[1..][k].now && forall j | 0 <= j < k :: moments[1..][j].now <= moments[1..][k].now
        {
          assert moments[1..][k] == moments[k + 1];
        }
      }
      JobIsNotNoticed(Act(MaybeJob(a, m), m.now, m.action).0, Act(MaybeJob(b, n), n.now, n.action).0, m.now, moments[1..], others[1..]);
    }
  }

  // ---------------------------------------------------------------- one session per login token

  /** The login token cannot be used any more: it is marked, or it is gone. */
  ghost predicate Spent(s: Store, token: string) {
    token in s.login ==> s.login[token].used
  }

  ghost predicate Recreates(a: Action, token: string) {
    a.GenerateToken? && a.newToken == token
  }

  function After(s: Store, moments: seq<Moment>): Store
    decreases |moments|
  {
    if moments == [] then s
    else After(Act(MaybeJob(s, moments[0]), moments[0].now, moments[0].action).0, moments[1..])
  }

  lemma {:induction false} SpentStays(s: Store, token: string, moments: seq<Moment>)
    requires Spent(s, token) && forall m | m in moments :: !Recreates(m.action, token)
    ensures Spent(After(s, moments), token)
    decreases |moments|
  {
    if moments != [] {
      var m := moments[0];
      assert m in moments;
      SpentStays(Act(MaybeJob(s, m), m.now, m.action).0, token, moments[1..]);
    }
  }

  /** After a login token was accepted once it is never accepted again, unless the same token is drawn anew. */
  lemma OneSessionPerLoginToken(s: Store, now: int, token: string, newToken: string, sessionMs: nat, moments: seq<Moment>, again: Moment)
    requires Act(s, now, SignInTotp(token, true, newToken, sessionMs)).1
    requires forall m | m in moments :: !Recreates(m.action, token)
    requires again.action.SignInTotp? && again.action.token == token
    ensures var later := After(Act(s, now, SignInTotp(token, true, newToken, sessionMs)).0, moments);
      !Act(MaybeJob(later, again), again.now, again.action).1
  {
    SpentStays(Act(s, now, SignInTotp(token, true, newToken, sessionMs)).0, token, moments);
  }

  // ---------------------------------------------------------------- the TOTP state

  /** A verified second factor always has a secret. */
  ghost predicate VerifiedHasSecret(s: Store) {
    forall id | id in s.users :: s.users[id].totpVerified ==> s.users[id].totpSecret.Some? && s.users[id].totpSecret.value != ""
  }

  lemma ActKeepsSecrets(s: Store, now: int, action: Action)
    requires VerifiedHasSecret(s)
    ensures VerifiedHasSecret(Act(s, now, action).0)
  {
    var users := Act(s, now, action).0.users;
    forall id | id in users && users[id].totpVerified
      ensures users[id].totpSecret.Some? && users[id].totpSecret.value != ""
    {
      assert id in s.users;
    }
  }

  lemma {:induction false} VerifiedAlwaysHasSecret(s: Store, moments: seq<Moment>)
    requires VerifiedHasSecret(s)
    ensures VerifiedHasSecret(After(s, moments))
    decreases |moments|
  {
    if moments != [] {
      var m := moments[0];
      ActKeepsSecrets(MaybeJob(s, m), m.now, m.action);
      VerifiedAlwaysHasSecret(Act(MaybeJob(s, m), m.now, m.action).0, moments[1..]);
    }
  }
}
