// From when until when a token is worth anything: sessions, login tokens and reset tokens over whole runs.
module TokenLifetimes {
  import opened Tokens

  /** An action that draws this token again, for whatever purpose. */
  ghost predicate Redraws(a: Action, token: string) {
    || (a.GenerateToken? && a.newToken == token)
    || (a.SignInTotp? && a.newToken == token)
    || (a.RequestResetPassword? && a.newToken == token)
    || (a.UpdatePassword? && a.newToken == token)
  }

  ghost predicate NeverRedrawn(moments: seq<Moment>, token: string) {
    forall m | m in moments :: !Redraws(m.action, token)
  }

  /** What the job leaves of a token when it ran at no later time than this one. */
  ghost predicate StoredOrExpired(tokens: TokenTable, token: string, entry: Token, now: int) {
    if token in tokens then tokens[token] == entry else entry.expiresAt < now
  }

  lemma ClockRest(now: int, moments: seq<Moment>)
    requires ClockFrom(now, moments) && moments != []
    ensures now <= moments[0].now && ClockFrom(moments[0].now, moments[1..])
  {
    forall k | 0 <= k < |moments[1..]|
      ensures moments[0].now <= moments[1..][k].now && forall j | 0 <= j < k :: moments[1..][j].now <= moments[1..][k].now
    {
      assert moments[1..][k] == moments[k + 1];
    }
  }

  // ---------------------------------------------------------------- sessions

  /** Signing out, or a new password for the user. */
  ghost predicate EndsSession(a: Action, token: string, userId: string) {
    || (a.SignOut? && a.token == token)
    || (a.UpdatePassword? && a.userId == userId && a.oldPasswordValid)
  }

  ghost predicate SessionEnded(moments: seq<Moment>, token: string, userId: string) {
    exists m | m in moments :: EndsSession(m.action, token, userId)
  }

  lemma {:induction false} EndedStays(s: Store, token: string, moments: seq<Moment>)
    requires token !in s.refresh && NeverRedrawn(moments, token)
    ensures token !in After(s, moments).refresh
    decreases |moments|
  {
    if moments != [] {
      var m := moments[0];
      assert m in moments;
      EndedStays(Act(MaybeJob(s, m), m.now, m.action).0, token, moments[1..]);
    }
  }

  lemma SessionStep(s: Store, now: int, token: string, entry: Token, m: Moment)
    requires StoredOrExpired(s.refresh, token, entry, now) && entry.userId in s.users
    requires !Redraws(m.action, token) && now <= m.now
    ensures var s1 := Act(MaybeJob(s, m), m.now, m.action).0;
      && entry.userId in s1.users
      && (if EndsSession(m.action, token, entry.userId) then token !in s1.refresh
          else StoredOrExpired(s1.refresh, token, entry, m.now))
  {
    assert StoredOrExpired(MaybeJob(s, m).refresh, token, entry, m.now);
  }

  lemma {:induction false} SessionStored(s: Store, now: int, token: string, entry: Token, moments: seq<Moment>, later: int)
    requires StoredOrExpired(s.refresh, token, entry, now) && entry.userId in s.users
    requires NeverRedrawn(moments, token) && ClockFrom(now, moments)
    requires now <= later && forall m | m in moments :: m.now <= later
    ensures var s' := After(s, moments);
      if SessionEnded(moments, token, entry.userId) then token !in s'.refresh
      else StoredOrExpired(s'.refresh, token, entry, later)
    decreases |moments|
  {
    if moments != [] {
      var m := moments[0];
      assert m in moments;
      ClockRest(now, moments);
      SessionStep(s, now, token, entry, m);
      var s1 := Act(MaybeJob(s, m), m.now, m.action).0;
      if EndsSession(m.action, token, entry.userId) {
        EndedStays(s1, token, moments[1..]);
      } else {
        SessionStored(s1, m.now, token, entry, moments[1..], later);
        assert SessionEnded(moments, token, entry.userId) <==> SessionEnded(moments[1..], token, entry.userId);
      }
    }
  }

  /**
   * A stored session can be refreshed at a later time exactly when it has not expired by then, nobody signed out of
   * it and its user did not change the password; the job, other sessions and other users do not matter.
   */
  lemma RefreshExactly(s: Store, now: int, token: string, moments: seq<Moment>, again: Moment)
    requires token in s.refresh && s.refresh[token].userId in s.users
    requires NeverRedrawn(moments, token) && ClockFrom(now, moments + [again])
    requires again.action == RefreshAccessToken(token)
    ensures var entry := s.refresh[token];
      Act(MaybeJob(After(s, moments), again), again.now, again.action).1
      <==> again.now <= entry.expiresAt && !SessionEnded(moments, token, entry.userId)
  {
    ClockPrefix(now, moments, again);
    SessionStored(s, now, token, s.refresh[token], moments, again.now);
  }

  /**
   * What a sign-in gets, from its issue on. With a verified second factor that is not skipped it opens no session, but
   * gives a login token. Otherwise it gives a session of this user, which can be refreshed exactly until it expires,
   * its user signs out of it or changes the password.
   */
  lemma SessionFromSignIn(s: Store, now: int, userId: string, skipTotp: bool, token: string, sessionMs: nat, moments: seq<Moment>, again: Moment)
    requires userId in s.users && NeverRedrawn(moments, token) && ClockFrom(now, moments + [again])
    requires again.action == RefreshAccessToken(token)
    ensures var (issued, ok) := Act(s, now, GenerateToken(userId, skipTotp, token, sessionMs));
      && ok && issued.users == s.users && issued.reset == s.reset
      && if s.users[userId].totpVerified && !skipTotp then
           issued.refresh == s.refresh && token in issued.login && issued.login[token] == Token(userId, now + 5 * 60 * 1000, false)
         else
           && issued.login == s.login && token in issued.refresh && issued.refresh[token].userId == userId
           && (Act(MaybeJob(After(issued, moments), again), again.now, again.action).1
               <==> again.now <= now + sessionMs && !SessionEnded(moments, token, userId))
  {
    var issued := Act(s, now, GenerateToken(userId, skipTotp, token, sessionMs)).0;
    if !s.users[userId].totpVerified || skipTotp {
      RefreshExactly(issued, now, token, moments, again);
    }
  }

  /** A new password ends all sessions of its user but the one it opens, which lives like any other. */
  lemma SessionFromPassword(s: Store, now: int, userId: string, token: string, sessionMs: nat, moments: seq<Moment>, again: Moment)
    requires userId in s.users && NeverRedrawn(moments, token) && ClockFrom(now, moments + [again])
    requires again.action == RefreshAccessToken(token)
    ensures var (issued, ok) := Act(s, now, UpdatePassword(userId, true, token, sessionMs));
      && ok && issued.login == s.login && issued.reset == s.reset
      && (forall t | t != token ::
            && (t in issued.refresh <==> t in s.refresh && s.refresh[t].userId != userId)
            && (t in issued.refresh ==> issued.refresh[t] == s.refresh[t]))
      && token in issued.refresh && issued.refresh[token].userId == userId
      && (Act(MaybeJob(After(issued, moments), again), again.now, again.action).1
          <==> again.now <= now + sessionMs && !SessionEnded(moments, token, userId))
  {
    var issued := Act(s, now, UpdatePassword(userId, true, token, sessionMs)).0;
    RefreshExactly(issued, now, token, moments, again);
  }

  lemma ClockPrefix(now: int, moments: seq<Moment>, again: Moment)
    requires ClockFrom(now, moments + [again])
    ensures ClockFrom(now, moments) && now <= again.now && forall m | m in moments :: m.now <= again.now
  {
    var all := moments + [again];
    assert all[|moments|] == again;
    forall k | 0 <= k < |moments|
      ensures now <= moments[k].now <= again.now && forall j | 0 <= j < k :: moments[j].now <= moments[k].now
    {
      assert all[k] == moments[k] && all[k].now <= all[|moments|].now;
      forall j | 0 <= j < k ensures moments[j].now <= moments[k].now {
        assert all[j] == moments[j];
      }
    }
  }

  // ---------------------------------------------------------------- reset tokens

  /** The token is spent on a new password, or replaced by a newer one. */
  ghost predicate EndsReset(a: Action, token: string, userId: string) {
    || (a.ResetPassword? && a.token == token && !a.disabled)
    || (a.RequestResetPassword? && a.userId == userId && !a.disabled && !a.ldap)
  }

  ghost predicate ResetEnded(moments: seq<Moment>, token: string, userId: string) {
    exists m | m in moments :: EndsReset(m.action, token, userId)
  }

  /** The token is gone, or no longer valid at this time. */
  ghost predicate ResetVoid(s: Store, token: string, now: int) {
    token in s.reset ==> s.reset[token].expiresAt <= now
  }

  lemma {:induction false} VoidStays(s: Store, now: int, token: string, moments: seq<Moment>, later: int)
    requires ResetVoid(s, token, now) && NeverRedrawn(moments, token) && ClockFrom(now, moments)
    requires now <= later && forall m | m in moments :: m.now <= later
    ensures ResetVoid(After(s, moments), token, later)
    decreases |moments|
  {
    if moments != [] {
      var m := moments[0];
      assert m in moments;
      ClockRest(now, moments);
      VoidStays(Act(MaybeJob(s, m), m.now, m.action).0, m.now, token, moments[1..], later);
    }
  }

  lemma ResetStep(s: Store, now: int, token: string, entry: Token, m: Moment)
    requires StoredOrExpired(s.reset, token, entry, now) && entry.userId in s.users
    requires !Redraws(m.action, token) && now <= m.now
    ensures var s1 := Act(MaybeJob(s, m), m.now, m.action).0;
      && entry.userId in s1.users
      && (if EndsReset(m.action, token, entry.userId) then ResetVoid(s1, token, m.now)
          else StoredOrExpired(s1.reset, token, entry, m.now))
  {
    assert StoredOrExpired(MaybeJob(s, m).reset, token, entry, m.now);
  }

  lemma {:induction false} ResetStored(s: Store, now: int, token: string, entry: Token, moments: seq<Moment>, later: int)
    requires StoredOrExpired(s.reset, token, entry, now) && entry.userId in s.users
    requires NeverRedrawn(moments, token) && ClockFrom(now, moments)
    requires now <= later && forall m | m in moments :: m.now <= later
    ensures var s' := After(s, moments);
      && (if ResetEnded(moments, token, entry.userId) then ResetVoid(s', token, later)
          else StoredOrExpired(s'.reset, token, entry, later))
      && entry.userId in s'.users
    decreases |moments|
  {
    if moments != [] {
      var m := moments[0];
      assert m in moments;
      ClockRest(now, moments);
      ResetStep(s, now, token, entry, m);
      var s1 := Act(MaybeJob(s, m), m.now, m.action).0;
      UsersStay(s1, moments[1..], entry.userId);
      if EndsReset(m.action, token, entry.userId) {
        VoidStays(s1, m.now, token, moments[1..], later);
      } else {
        ResetStored(s1, m.now, token, entry, moments[1..], later);
        assert ResetEnded(moments, token, entry.userId) <==> ResetEnded(moments[1..], token, entry.userId);
      }
    }
  }

  lemma {:induction false} UsersStay(s: Store, moments: seq<Moment>, userId: string)
    requires userId in s.users
    ensures userId in After(s, moments).users
    decreases |moments|
  {
    if moments != [] {
      var m := moments[0];
      UsersStay(Act(MaybeJob(s, m), m.now, m.action).0, moments[1..], userId);
    }
  }

  /**
   * A reset token sets a new password exactly within its hour, once, and only while no newer one was requested.
   */
  lemma ResetExactly(s: Store, now: int, userId: string, token: string, moments: seq<Moment>, again: Moment)
    requires userId in s.users && NeverRedrawn(moments, token) && ClockFrom(now, moments + [again])
    requires again.action == ResetPassword(token, false)
    ensures var issued := Act(s, now, RequestResetPassword(userId, false, false, token)).0;
      Act(MaybeJob(After(issued, moments), again), again.now, again.action).1
      <==> again.now < now + 60 * 60 * 1000 && !ResetEnded(moments, token, userId)
  {
    var issued := Act(s, now, RequestResetPassword(userId, false, false, token)).0;
    ClockPrefix(now, moments, again);
    ResetStored(issued, now, token, NewToken(userId, now + RESET_TOKEN_MS), moments, again.now);
  }

  // ---------------------------------------------------------------- login tokens

  /** Some sign-in with this login token was accepted. */
  ghost predicate SignedIn(s: Store, token: string, moments: seq<Moment>)
    decreases |moments|
  {
    moments != [] &&
    var m := moments[0];
    var (s1, ok) := Act(MaybeJob(s, m), m.now, m.action);
    (ok && m.action.SignInTotp? && m.action.token == token) || SignedIn(s1, token, moments[1..])
  }

  lemma LoginStep(s: Store, now: int, token: string, entry: Token, m: Moment)
    requires StoredOrExpired(s.login, token, entry, now) && !entry.used && entry.userId in s.users
    requires !Redraws(m.action, token) && now <= m.now
    ensures var (s1, ok) := Act(MaybeJob(s, m), m.now, m.action);
      && entry.userId in s1.users
      && (if ok && m.action.SignInTotp? && m.action.token == token then Spent(s1, token)
          else StoredOrExpired(s1.login, token, entry, m.now))
  {
    assert StoredOrExpired(MaybeJob(s, m).login, token, entry, m.now);
  }

  lemma {:induction false} LoginStored(s: Store, now: int, token: string, entry: Token, moments: seq<Moment>, later: int)
    requires StoredOrExpired(s.login, token, entry, now) && !entry.used && entry.userId in s.users
    requires NeverRedrawn(moments, token) && ClockFrom(now, moments)
    requires now <= later && forall m | m in moments :: m.now <= later
    ensures var s' := After(s, moments);
      && (if SignedIn(s, token, moments) then Spent(s', token)
          else StoredOrExpired(s'.login, token, entry, later))
      && entry.userId in s'.users
    decreases |moments|
  {
    if moments != [] {
      var m := moments[0];
      assert m in moments;
      ClockRest(now, moments);
      LoginStep(s, now, token, entry, m);
      var (s1, ok) := Act(MaybeJob(s, m), m.now, m.action);
      UsersStay(s, moments, entry.userId);
      if ok && m.action.SignInTotp? && m.action.token == token {
        SpentStays(s1, token, moments[1..]);
      } else {
        LoginStored(s1, m.now, token, entry, moments[1..], later);
      }
    }
  }

  /**
   * A login token lets its user sign in exactly within its five minutes, once, with a valid code and a stored secret,
   * and the session that is opened then belongs to that user.
   */
  lemma SignInExactly(s: Store, now: int, userId: string, token: string, moments: seq<Moment>, again: Moment)
    requires userId in s.users && s.users[userId].totpVerified
    requires NeverRedrawn(moments, token) && ClockFrom(now, moments + [again])
    requires again.action.SignInTotp? && again.action.token == token
    ensures var issued := Act(s, now, GenerateToken(userId, false, token, 0)).0;
      var later := After(issued, moments);
      var (s', ok) := Act(MaybeJob(later, again), again.now, again.action);
      && (ok <==>
            && again.now <= now + 5 * 60 * 1000 && !SignedIn(issued, token, moments) && again.action.codeValid
            && userId in later.users && later.users[userId].totpSecret.Some? && later.users[userId].totpSecret.value != "")
      && (ok ==>
            && again.action.newToken in s'.refresh
            && s'.refresh[again.action.newToken] == NewToken(userId, again.now + again.action.sessionMs))
  {
    var issued := Act(s, now, GenerateToken(userId, false, token, 0)).0;
    ClockPrefix(now, moments, again);
    LoginStored(issued, now, token, NewToken(userId, now + LOGIN_TOKEN_MS), moments, again.now);
  }
}
