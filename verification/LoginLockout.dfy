/**
 The login pipeline's brute-force guard. Password and code checks are inputs of an attempt;
 sessions and their tokens are not part of this model.
 */
module LoginLockout {
  import opened Wrappers

  type User = string

  /** What the credential checks say about an attempt. */
  datatype Credentials = Credentials(passwordOk: bool, totpEnrolled: bool, code: Option<bool>)

  datatype Attempt = Attempt(user: User, creds: Credentials, now: nat)

  datatype Outcome =
    | Success
    | SecondFactorRequired
    | SecondFactorAccepted
    | InvalidCredentials
    | LockedOut(retryAfter: nat)

  datatype RateState = RateState(failures: nat, windowStart: nat)

  datatype AuditAction = Authentication | FailedLogin

  datatype AuditEntry = AuditEntry(actor: User, action: AuditAction, timestamp: nat, success: bool)

  /** A bounded log, oldest entry first. */
  datatype AuditLog = AuditLog(capacity: nat, entries: seq<AuditEntry>) {

    ghost predicate Valid() {
      capacity >= 1 && |entries| <= capacity
    }

    /** Append an entry; a full log loses its oldest one. */
    function Record(entry: AuditEntry): AuditLog {
      this.(entries := (if entries != [] && |entries| >= capacity then entries[1..] else entries) + [entry])
    }
  }

  datatype Service = Service(maxAttempts: nat, window: nat, limits: map<User, RateState>, audit: AuditLog) {

    /** A missing entry counts as the default one. */
    function Rate(user: User): RateState {
      if user in limits then limits[user] else RateState(0, 0)
    }

    function WindowEnd(user: User): nat {
      Rate(user).windowStart + window
    }

    ghost predicate Valid() {
      && maxAttempts >= 1
      && (forall u :: u in limits ==> 1 <= limits[u].failures <= maxAttempts)
      && audit.Valid()
    }
  }

  function AtLeastOne(n: nat): nat {
    if n < 1 then 1 else n
  }

  function NewService(maxAttempts: nat, window: nat, auditCapacity: nat): (s: Service)
    ensures s.Valid() && s.window == window && s.limits == map[] && s.audit.entries == []
    ensures s.maxAttempts == (if maxAttempts == 0 then 1 else maxAttempts)
    ensures s.audit.capacity == if auditCapacity == 0 then 1 else auditCapacity
  {
    Service(AtLeastOne(maxAttempts), window, map[], AuditLog(AtLeastOne(auditCapacity), []))
  }

  // In what follows `end` is the end of the account's window as the code computes it.

  predicate IsLockedUntil(s: Service, user: User, now: nat, end: nat) {
    user in s.limits && s.limits[user].failures >= s.maxAttempts && now < end
  }

  function RecordFailure(s: Service, user: User, now: nat, end: nat): Service {
    var current := if now >= end then RateState(0, now) else s.Rate(user);
    s.(limits := s.limits[user := current.(failures := current.failures + 1)],
       audit := s.audit.Record(AuditEntry(user, FailedLogin, now, false)))
  }

  function RecordSuccess(s: Service, user: User, now: nat): Service {
    s.(limits := s.limits - {user}, audit := s.audit.Record(AuditEntry(user, Authentication, now, true)))
  }

  function LoginUntil(s: Service, a: Attempt, end: nat): (Service, Outcome) {
    if IsLockedUntil(s, a.user, a.now, end) then
      (s.(audit := s.audit.Record(AuditEntry(a.user, FailedLogin, a.now, false))), LockedOut(s.window))
    else if !a.creds.passwordOk then (RecordFailure(s, a.user, a.now, end), InvalidCredentials)
    else if a.creds.totpEnrolled then
      match a.creds.code
      case None => (s, SecondFactorRequired)
      case Some(true) => (RecordSuccess(s, a.user, a.now), SecondFactorAccepted)
      case Some(false) => (RecordFailure(s, a.user, a.now, end), InvalidCredentials)
    else (RecordSuccess(s, a.user, a.now), Success)
  }

  predicate IsLocked(s: Service, user: User, now: nat) {
    IsLockedUntil(s, user, now, s.WindowEnd(user))
  }

  /** A login while the end of the window fits in 64 bits; `LoginIn` below is the login of a build in any case. */
  function Login(s: Service, a: Attempt): (Service, Outcome) {
    LoginUntil(s, a, s.WindowEnd(a.user))
  }

  predicate Completes(o: Outcome) {
    o.Success? || o.SecondFactorAccepted?
  }

  // ---------- One attempt ----------

  /** The failure counter never passes the limit, nor the audit log its capacity. */
  lemma LoginKeepsValid(s: Service, a: Attempt)
    requires s.Valid()
    ensures Login(s, a).0.Valid()
    ensures Login(s, a).0.maxAttempts == s.maxAttempts && Login(s, a).0.window == s.window
  {
  }

  /** A login completes only with a right password and, where a second factor is enrolled, a right code. */
  lemma CompletesOnlyWithCredentials(s: Service, a: Attempt)
    ensures Completes(Login(s, a).1) <==>
              !IsLocked(s, a.user, a.now) && a.creds.passwordOk && (a.creds.totpEnrolled ==> a.creds.code == Some(true))
    ensures Login(s, a).1.Success? ==> !a.creds.totpEnrolled
    ensures Login(s, a).1.SecondFactorAccepted? ==> a.creds.totpEnrolled
  {
  }

  /** And what an attempt that does not complete is told: to wait a window length, to bring a code, or that it is wrong. */
  lemma RefusalIs(s: Service, a: Attempt)
    ensures var o, locked := Login(s, a).1, IsLocked(s, a.user, a.now);
            && (o.LockedOut? <==> locked)
            && (o.LockedOut? ==> o.retryAfter == s.window)
            && (o.SecondFactorRequired? <==> !locked && a.creds.passwordOk && a.creds.totpEnrolled && a.creds.code == None)
            && (o.InvalidCredentials? <==>
                  !locked && (!a.creds.passwordOk || (a.creds.totpEnrolled && a.creds.code == Some(false))))
    ensures IsLocked(s, a.user, a.now) <==>
              a.user in s.limits && s.limits[a.user].failures >= s.maxAttempts
              && a.now < s.limits[a.user].windowStart + s.window
  {
  }

  // ---------- Runs ----------

  function Run(s: Service, attempts: seq<Attempt>): Service
    decreases |attempts|
  {
    if attempts == [] then s else Run(Login(s, attempts[0]).0, attempts[1..])
  }

  function Outcomes(s: Service, attempts: seq<Attempt>): (os: seq<Outcome>)
    ensures |os| == |attempts|
    decreases |attempts|
  {
    if attempts == [] then [] else [Login(s, attempts[0]).1] + Outcomes(Login(s, attempts[0]).0, attempts[1..])
  }

  lemma {:induction false} RunKeepsValid(s: Service, attempts: seq<Attempt>)
    requires s.Valid()
    ensures Run(s, attempts).Valid()
    ensures Run(s, attempts).maxAttempts == s.maxAttempts && Run(s, attempts).window == s.window
    decreases |attempts|
  {
    if attempts != [] {
      LoginKeepsValid(s, attempts[0]);
      RunKeepsValid(Login(s, attempts[0]).0, attempts[1..]);
    }
  }

  // ---------- The audit trail ----------

  /** The attempts that are written down: all but a right password that still lacks its second factor. */
  predicate Audited(s: Service, a: Attempt) {
    IsLocked(s, a.user, a.now) || !a.creds.passwordOk || !a.creds.totpEnrolled || a.creds.code.Some?
  }

  /** What is written down about an attempt. */
  function EntryFor(s: Service, a: Attempt): AuditEntry {
    var ok := !IsLocked(s, a.user, a.now) && a.creds.passwordOk && (a.creds.totpEnrolled ==> a.creds.code == Some(true));
    AuditEntry(a.user, if ok then Authentication else FailedLogin, a.now, ok)
  }

  /** An attempt appends its entry exactly when it is to be written down, and the entry tells whether it completed. */
  lemma AuditedIff(s: Service, a: Attempt)
    ensures var (t, o) := Login(s, a);
            && t.audit == (if Audited(s, a) then s.audit.Record(EntryFor(s, a)) else s.audit)
            && EntryFor(s, a).success == Completes(o)
            && (|s.audit.entries| < s.audit.capacity ==>
                  (t.audit.entries == s.audit.entries + [EntryFor(s, a)] <==> Audited(s, a)))
  {
  }

  /** One that is not: the right password of an account with a second factor, without a code, leaves no trace. */
  lemma UnauditedAttempt()
    ensures var s, a := NewService(5, 900, 100), Attempt("admin", Credentials(true, true, None), 1000);
            Login(s, a) == (s, SecondFactorRequired) && s.audit.entries == [] && !Audited(s, a)
  {
  }

  /** What a run of attempts is to leave in the log, in order. */
  function Trail(s: Service, attempts: seq<Attempt>): seq<AuditEntry>
    decreases |attempts|
  {
    if attempts == [] then []
    else (if Audited(s, attempts[0]) then [EntryFor(s, attempts[0])] else [])
         + Trail(Login(s, attempts[0]).0, attempts[1..])
  }

  /** The last `n` entries, or all if there are fewer. */
  function Newest(es: seq<AuditEntry>, n: nat): seq<AuditEntry> {
    if |es| <= n then es else es[|es| - n..]
  }

  /** Over any run the log is the newest part of what it held followed by the trail of the run. */
  lemma {:induction false} LogIsTrail(s: Service, attempts: seq<Attempt>)
    requires s.Valid()
    ensures var t := Run(s, attempts);
            && t.audit.capacity == s.audit.capacity
            && t.audit.entries == Newest(s.audit.entries + Trail(s, attempts), s.audit.capacity)
    decreases |attempts|
  {
    hide Login, Audited, EntryFor, Service.Rate;
    if attempts == [] {
      assert s.audit.entries + [] == s.audit.entries;
    } else {
      var a, rest := attempts[0], attempts[1..];
      var s' := Login(s, a).0;
      AuditedIff(s, a);
      LoginKeepsValid(s, a);
      LogIsTrail(s', rest);
      if Audited(s, a) {
        NewestAfterRecord(s.audit, EntryFor(s, a), Trail(s', rest));
      } else {
        assert [] + Trail(s', rest) == Trail(s', rest);
      }
    }
  }

  /** Dropping the oldest early or late makes no difference. */
  lemma NewestAfterRecord(log: AuditLog, e: AuditEntry, more: seq<AuditEntry>)
    requires log.Valid()
    ensures Newest(log.Record(e).entries + more, log.capacity) == Newest(log.entries + ([e] + more), log.capacity)
  {
    var all := log.entries + ([e] + more);
    if |log.entries| < log.capacity {
      assert log.Record(e).entries + more == all;
    } else {
      assert log.Record(e).entries + more == all[1..];
    }
  }

  /**
   As long as the log has room, it grows by one entry for every attempt of a run exactly when none of them is a right
   password lacking its second factor.
   */
  lemma AllAuditedIff(s: Service, attempts: seq<Attempt>)
    requires s.Valid() && |s.audit.entries| + |attempts| <= s.audit.capacity
    ensures |Run(s, attempts).audit.entries| == |s.audit.entries| + |attempts|
            <==> forall k :: 0 <= k < |attempts| ==> Audited(Run(s, attempts[..k]), attempts[k])
  {
    hide Run, Trail, Audited;
    LogIsTrail(s, attempts);
    TrailIsFullIff(s, attempts);
  }

  lemma {:induction false} TrailIsFullIff(s: Service, attempts: seq<Attempt>)
    ensures |Trail(s, attempts)| <= |attempts|
    ensures |Trail(s, attempts)| == |attempts|
            <==> forall k :: 0 <= k < |attempts| ==> Audited(Run(s, attempts[..k]), attempts[k])
    decreases |attempts|
  {
    hide Login, Audited, EntryFor;
    if attempts != [] {
      var a, rest := attempts[0], attempts[1..];
      var s' := Login(s, a).0;
      TrailIsFullIff(s', rest);
      assert attempts[..0] == [] && Run(s, attempts[..0]) == s;
      forall k | 0 <= k < |rest|
        ensures Run(s, attempts[..k + 1]) == Run(s', rest[..k]) && attempts[k + 1] == rest[k]
      {
        assert attempts[..k + 1][1..] == rest[..k];
      }
      assert forall k :: 0 < k < |attempts| ==> rest[k - 1] == attempts[k];
      if forall k :: 0 <= k < |attempts| ==> Audited(Run(s, attempts[..k]), attempts[k]) {
        forall k | 0 <= k < |rest|
          ensures Audited(Run(s', rest[..k]), rest[k])
        {
          assert Audited(Run(s, attempts[..k + 1]), attempts[k + 1]);
        }
      } else {
        var k :| 0 <= k < |attempts| && !Audited(Run(s, attempts[..k]), attempts[k]);
        assert k > 0 ==> !Audited(Run(s', rest[..k - 1]), rest[k - 1])
                         && Run(s, attempts[..k - 1 + 1]) == Run(s', rest[..k - 1]);
      }
    }
  }

  // ---------- Accounts ----------

  /** What an attempt does depends on, and changes, its own account only. */
  lemma LoginIsLocal(s: Service, t: Service, a: Attempt, u: User)
    requires s.maxAttempts == t.maxAttempts && s.window == t.window
    requires (u in s.limits <==> u in t.limits) && s.Rate(u) == t.Rate(u)
    ensures a.user == u ==> Login(s, a).1 == Login(t, a).1
    ensures var s', t' := Login(s, a).0, (if a.user == u then Login(t, a).0 else t);
            (u in s'.limits <==> u in t'.limits) && s'.Rate(u) == t'.Rate(u)
  {
  }

  function Only(u: User, attempts: seq<Attempt>): seq<Attempt> {
    if attempts == [] then []
    else (if attempts[0].user == u then [attempts[0]] else []) + Only(u, attempts[1..])
  }

  /** The outcomes of one account's attempts, in order. */
  function OutcomesOf(u: User, attempts: seq<Attempt>, os: seq<Outcome>): seq<Outcome>
    requires |os| == |attempts|
  {
    if attempts == [] then []
    else (if attempts[0].user == u then [os[0]] else []) + OutcomesOf(u, attempts[1..], os[1..])
  }

  /** Accounts are independent: an account's outcomes are what they would be if it were alone. */
  lemma {:induction false} AccountsAreIndependent(s: Service, t: Service, u: User, attempts: seq<Attempt>)
    requires s.Valid() && t.Valid() && s.maxAttempts == t.maxAttempts && s.window == t.window
    requires (u in s.limits <==> u in t.limits) && s.Rate(u) == t.Rate(u)
    ensures OutcomesOf(u, attempts, Outcomes(s, attempts)) == Outcomes(t, Only(u, attempts))
    decreases |attempts|
  {
    hide Login, Service.Rate, Service.Valid;
    if attempts != [] {
      var a, rest := attempts[0], attempts[1..];
      var s', os := Login(s, a).0, Outcomes(s, attempts);
      LoginIsLocal(s, t, a, u);
      LoginKeepsValid(s, a);
      LoginKeepsValid(t, a);
      assert os[1..] == Outcomes(s', rest);
      if a.user == u {
        AccountsAreIndependent(s', Login(t, a).0, u, rest);
        assert Only(u, attempts) == [a] + Only(u, rest);
        assert ([a] + Only(u, rest))[1..] == Only(u, rest);
      } else {
        AccountsAreIndependent(s', t, u, rest);
        assert Only(u, attempts) == Only(u, rest);
      }
    }
  }

  // ---------- Lockout ----------

  /**
   Once the counter has reached the limit, every attempt on the account before the window ends is locked out,
   whatever its credentials, and the account stays as it is.
   */
  lemma {:induction false} LockedUntilWindowEnds(s: Service, u: User, attempts: seq<Attempt>)
    requires s.Valid() && u in s.limits && s.limits[u].failures == s.maxAttempts
    requires forall a :: a in attempts ==> a.now < s.limits[u].windowStart + s.window
    ensures forall k :: 0 <= k < |attempts| && attempts[k].user == u ==> Outcomes(s, attempts)[k] == LockedOut(s.window)
    ensures u in Run(s, attempts).limits && Run(s, attempts).limits[u] == s.limits[u]
    decreases |attempts|
  {
    if attempts != [] {
      var a, rest := attempts[0], attempts[1..];
      assert a in attempts;
      LoginKeepsValid(s, a);
      var s' := Login(s, a).0;
      assert u in s'.limits && s'.limits[u] == s.limits[u];
      LockedUntilWindowEnds(s', u, rest);
      var os := Outcomes(s, attempts);
      assert os[1..] == Outcomes(s', rest);
      forall k | 0 < k < |attempts| && attempts[k].user == u
        ensures os[k] == LockedOut(s.window)
      {
        assert os[k] == os[1..][k - 1] && attempts[k] == rest[k - 1];
      }
    }
  }

  /** Wrong guesses on one account. */
  function Guesses(u: User, attempts: seq<Attempt>, os: seq<Outcome>): nat
    requires |os| == |attempts|
  {
    if attempts == [] then 0
    else (if attempts[0].user == u && os[0] == InvalidCredentials then 1 else 0) + Guesses(u, attempts[1..], os[1..])
  }

  /**
   The lock is earned: as long as an account's failures so far and its wrong guesses since stay below the limit,
   none of its attempts is locked out; and a completed login forgets all earlier failures.
   */
  lemma {:induction false} LockIsEarned(s: Service, u: User, attempts: seq<Attempt>)
    requires s.Valid()
    requires s.Rate(u).failures + Guesses(u, attempts, Outcomes(s, attempts)) < s.maxAttempts
    ensures forall k :: 0 <= k < |attempts| && attempts[k].user == u ==> !Outcomes(s, attempts)[k].LockedOut?
    decreases |attempts|
  {
    hide Login;
    if attempts != [] {
      var a, rest := attempts[0], attempts[1..];
      var s', os := Login(s, a).0, Outcomes(s, attempts);
      assert os[0] == Login(s, a).1 && os[1..] == Outcomes(s', rest);
      FailuresCountGuesses(s, a, u);
      LoginKeepsValid(s, a);
      LockIsEarned(s', u, rest);
      assert forall k :: 0 < k < |attempts| ==> rest[k - 1] == attempts[k] && os[1..][k - 1] == os[k];
    }
  }

  lemma FailuresCountGuesses(s: Service, a: Attempt, u: User)
    ensures var (t, o) := Login(s, a);
            && t.Rate(u).failures <= s.Rate(u).failures + (if a.user == u && o == InvalidCredentials then 1 else 0)
            && (a.user == u && s.Rate(u).failures < s.maxAttempts ==> !o.LockedOut?)
            && (a.user == u && Completes(o) ==> t.Rate(u).failures == 0)
  {
  }

  /** After a completed login, whatever came before, it takes the full number of wrong guesses to be locked out. */
  lemma {:induction false} SuccessRestoresBudget(s: Service, a: Attempt, attempts: seq<Attempt>)
    requires s.Valid() && Completes(Login(s, a).1)
    requires Guesses(a.user, attempts, Outcomes(Login(s, a).0, attempts)) < s.maxAttempts
    ensures var os := Outcomes(Login(s, a).0, attempts);
            forall k :: 0 <= k < |attempts| && attempts[k].user == a.user ==> !os[k].LockedOut?
  {
    hide Login, Outcomes, Guesses;
    FailuresCountGuesses(s, a, a.user);
    LoginKeepsValid(s, a);
    LockIsEarned(Login(s, a).0, a.user, attempts);
  }

  /** Wrong guesses still possible in a window of time that began at `from`. */
  ghost function Budget(s: Service, u: User, from: nat): int {
    s.maxAttempts - s.Rate(u).failures + if s.Rate(u).windowStart < from then s.maxAttempts else 0
  }

  ghost predicate InWindow(a: Attempt, from: nat, window: nat) {
    from <= a.now < from + window
  }

  lemma LoginSpendsBudget(s: Service, a: Attempt, u: User, from: nat)
    requires s.Valid() && InWindow(a, from, s.window)
    requires a.user == u ==> !Completes(Login(s, a).1)
    ensures var (t, o) := Login(s, a);
            Budget(t, u, from) <= Budget(s, u, from) - (if a.user == u && o == InvalidCredentials then 1 else 0)
  {
  }

  lemma {:induction false} GuessesWithinBudget(s: Service, u: User, attempts: seq<Attempt>, from: nat)
    requires s.Valid()
    requires forall a :: a in attempts ==> InWindow(a, from, s.window)
    requires forall k :: 0 <= k < |attempts| && attempts[k].user == u ==> !Completes(Outcomes(s, attempts)[k])
    ensures Guesses(u, attempts, Outcomes(s, attempts)) <= Budget(s, u, from)
    decreases |attempts|
  {
    hide Login, Budget;
    if attempts == [] {
      BudgetIsNotNegative(s, u, from);
    } else {
      var a, rest := attempts[0], attempts[1..];
      assert a in attempts;
      var s', os := Login(s, a).0, Outcomes(s, attempts);
      assert os[0] == Login(s, a).1 && os[1..] == Outcomes(s', rest);
      LoginSpendsBudget(s, a, u, from);
      LoginKeepsValid(s, a);
      assert forall k :: 0 <= k < |rest| ==> rest[k] == attempts[k + 1] && os[1..][k] == os[k + 1];
      GuessesWithinBudget(s', u, rest, from);
    }
  }

  lemma BudgetIsNotNegative(s: Service, u: User, from: nat)
    requires s.Valid()
    ensures Budget(s, u, from) >= 0
    ensures Budget(s, u, from) <= 2 * s.maxAttempts
  {
  }

  /**
   The same budget on a clock past its first window length: an account without failures has one limit to spend,
   because its first failure opens a window of its own.
   */
  ghost function LateBudget(s: Service, u: User, from: nat): int {
    if u in s.limits then Budget(s, u, from) else s.maxAttempts
  }

  lemma LoginSpendsLateBudget(s: Service, a: Attempt, u: User, from: nat)
    requires s.Valid() && InWindow(a, from, s.window) && a.now >= s.window
    requires a.user == u ==> !Completes(Login(s, a).1)
    ensures var (t, o) := Login(s, a);
            LateBudget(t, u, from) <= LateBudget(s, u, from) - (if a.user == u && o == InvalidCredentials then 1 else 0)
    ensures 0 <= LateBudget(s, u, from) <= 2 * s.maxAttempts - 1
  {
  }

  lemma {:induction false} GuessesWithinLateBudget(s: Service, u: User, attempts: seq<Attempt>, from: nat)
    requires s.Valid()
    requires forall a :: a in attempts ==> InWindow(a, from, s.window) && a.now >= s.window
    requires forall k :: 0 <= k < |attempts| && attempts[k].user == u ==> !Completes(Outcomes(s, attempts)[k])
    ensures Guesses(u, attempts, Outcomes(s, attempts)) <= LateBudget(s, u, from) <= 2 * s.maxAttempts - 1
    decreases |attempts|
  {
    hide Login;
    if attempts != [] {
      var a, rest := attempts[0], attempts[1..];
      assert a in attempts;
      var s', os := Login(s, a).0, Outcomes(s, attempts);
      assert os[0] == Login(s, a).1 && os[1..] == Outcomes(s', rest);
      LoginSpendsLateBudget(s, a, u, from);
      LoginKeepsValid(s, a);
      assert forall k :: 0 <= k < |rest| ==> rest[k] == attempts[k + 1] && os[1..][k] == os[k + 1];
      hide LateBudget;
      GuessesWithinLateBudget(s', u, rest, from);
    }
  }

  lemma {:induction false} OutcomesAppend(s: Service, xs: seq<Attempt>, ys: seq<Attempt>)
    ensures Outcomes(s, xs + ys) == Outcomes(s, xs) + Outcomes(Run(s, xs), ys)
    decreases |xs|
  {
    hide Login;
    if xs == [] {
      assert xs + ys == ys;
    } else {
      assert (xs + ys)[1..] == xs[1..] + ys;
      OutcomesAppend(Login(s, xs[0]).0, xs[1..], ys);
    }
  }

  /**
   The guessing bound: in any stretch of any run whose attempts fall in a half-open interval as long as the window,
   an account that no login completes on sees at most twice the limit of wrong guesses, and one less when the
   stretch lies past the clock's first window length, as any present-day time does.
   */
  lemma GuessingBound(start: Service, before: seq<Attempt>, during: seq<Attempt>, u: User, from: nat)
    requires start.Valid()
    requires forall a :: a in during ==> InWindow(a, from, start.window)
    requires forall k :: 0 <= k < |during| && during[k].user == u ==> !Completes(Outcomes(Run(start, before), during)[k])
    ensures var os := Outcomes(start, before + during)[|before|..];
            && os == Outcomes(Run(start, before), during)
            && Guesses(u, during, os) <= 2 * start.maxAttempts
            && ((forall a :: a in during ==> a.now >= start.window) ==> Guesses(u, during, os) <= 2 * start.maxAttempts - 1)
  {
    hide Login, Outcomes, Run;
    RunKeepsValid(start, before);
    var t := Run(start, before);
    OutcomesAppend(start, before, during);
    assert (Outcomes(start, before) + Outcomes(t, during))[|before|..] == Outcomes(t, during);
    GuessesWithinBudget(t, u, during, from);
    BudgetIsNotNegative(t, u, from);
    if forall a :: a in during ==> a.now >= start.window {
      GuessesWithinLateBudget(t, u, during, from);
    }
  }

  // ---------- Both bounds are reached ----------

  const WRONG: Credentials := Credentials(false, false, None)

  /** The same wrong guess `n` times. */
  function Burst(u: User, now: nat, n: nat): (attempts: seq<Attempt>)
    ensures |attempts| == n
  {
    seq(n, _ => Attempt(u, WRONG, now))
  }

  /** A burst that the window under way has room for is all wrong guesses, and counted. */
  lemma {:induction false} BurstCounts(s: Service, u: User, now: nat, n: nat)
    requires s.Valid() && now < s.Rate(u).windowStart + s.window && s.Rate(u).failures + n <= s.maxAttempts
    ensures Guesses(u, Burst(u, now, n), Outcomes(s, Burst(u, now, n))) == n
    ensures Run(s, Burst(u, now, n)).Rate(u) == RateState(s.Rate(u).failures + n, s.Rate(u).windowStart)
    decreases n
  {
    if n > 0 {
      var a, rest := Attempt(u, WRONG, now), Burst(u, now, n - 1);
      assert Burst(u, now, n)[0] == a && Burst(u, now, n)[1..] == rest;
      var t := Login(s, a).0;
      LoginKeepsValid(s, a);
      assert Login(s, a).1 == InvalidCredentials;
      assert t.Rate(u) == RateState(s.Rate(u).failures + 1, s.Rate(u).windowStart);
      assert t.window == s.window && t.maxAttempts == s.maxAttempts;
      BurstCounts(t, u, now, n - 1);
      var os := Outcomes(s, Burst(u, now, n));
      assert os[1..] == Outcomes(t, rest);
    }
  }

  /** So is a burst up to the limit once the last window is over; it opens a window of its own. */
  lemma BurstInNewWindow(s: Service, u: User, now: nat, n: nat)
    requires s.Valid() && s.window > 0 && now >= s.Rate(u).windowStart + s.window && 1 <= n <= s.maxAttempts
    ensures Guesses(u, Burst(u, now, n), Outcomes(s, Burst(u, now, n))) == n
    ensures Run(s, Burst(u, now, n)).Rate(u) == RateState(n, now)
  {
    var a, rest := Attempt(u, WRONG, now), Burst(u, now, n - 1);
    assert Burst(u, now, n)[0] == a && Burst(u, now, n)[1..] == rest;
    var t := Login(s, a).0;
    LoginKeepsValid(s, a);
    assert Login(s, a).1 == InvalidCredentials;
    assert t.Rate(u) == RateState(1, now);
    BurstCounts(t, u, now, n - 1);
    var os := Outcomes(s, Burst(u, now, n));
    assert os[1..] == Outcomes(t, rest);
  }

  lemma {:induction false} GuessesAppend(u: User, xs: seq<Attempt>, ys: seq<Attempt>, os: seq<Outcome>, ps: seq<Outcome>)
    requires |os| == |xs| && |ps| == |ys|
    ensures Guesses(u, xs + ys, os + ps) == Guesses(u, xs, os) + Guesses(u, ys, ps)
    decreases |xs|
  {
    if xs == [] {
      assert xs + ys == ys && os + ps == ps;
    } else {
      assert (xs + ys)[1..] == xs[1..] + ys && (os + ps)[1..] == os[1..] + ps;
      GuessesAppend(u, xs[1..], ys, os[1..], ps);
    }
  }

  /** Two bursts, the first in a window under way and the second as soon as it is over. */
  lemma TwoBursts(s: Service, u: User, n: nat)
    requires s.Valid() && s.window > 0 && s.Rate(u).failures + n == s.maxAttempts
    ensures var over := s.Rate(u).windowStart + s.window;
            var during := Burst(u, over - 1, n) + Burst(u, over, s.maxAttempts);
            Guesses(u, during, Outcomes(s, during)) == n + s.maxAttempts
  {
    hide Login, Outcomes, Run, Guesses, Service.Valid;
    var over := s.Rate(u).windowStart + s.window;
    var first, second := Burst(u, over - 1, n), Burst(u, over, s.maxAttempts);
    BurstCounts(s, u, over - 1, n);
    RunKeepsValid(s, first);
    var t := Run(s, first);
    LimitIsPositive(s);
    BurstInNewWindow(t, u, over, s.maxAttempts);
    OutcomesAppend(s, first, second);
    GuessesAppend(u, first, second, Outcomes(s, first), Outcomes(t, second));
  }

  lemma LimitIsPositive(s: Service)
    requires s.Valid()
    ensures s.maxAttempts >= 1
  {
  }

  /**
   For every limit, every window of at least 2 and every time past the first window length there is a run that
   reaches twice the limit less one: a guess, the rest of the limit just before its window ends, and the limit
   again just after.
   */
  lemma {:induction false} GuessingBoundIsTight(start: Service, u: User, time: nat)
    requires start.Valid() && start.limits == map[] && start.window >= 2 && time >= start.window
    ensures var m, over := start.maxAttempts, time + start.window;
            var before, during := Burst(u, time, 1), Burst(u, over - 1, m - 1) + Burst(u, over, m);
            && (forall a :: a in before + during ==> a.now >= start.window)
            && (forall a :: a in during ==> InWindow(a, time + 1, start.window))
            && Guesses(u, during, Outcomes(Run(start, before), during)) == 2 * m - 1
  {
    hide Login, Outcomes, Run, Guesses;
    BurstInNewWindow(start, u, time, 1);
    RunKeepsValid(start, Burst(u, time, 1));
    TwoBursts(Run(start, Burst(u, time, 1)), u, start.maxAttempts - 1);
  }

  /**
   On a clock below the window the full bound is reached: an account without failures counts as having a window
   from time 0, so the whole limit can be spent at its end and again just after.
   */
  lemma {:induction false} EarlyGuessingBoundIsTight(start: Service, u: User)
    requires start.Valid() && start.limits == map[] && start.window >= 2
    ensures var m := start.maxAttempts;
            var during := Burst(u, start.window - 1, m) + Burst(u, start.window, m);
            && (forall a :: a in during ==> InWindow(a, 1, start.window))
            && Guesses(u, during, Outcomes(start, during)) == 2 * m
  {
    hide Login, Outcomes, Run, Guesses;
    TwoBursts(start, u, start.maxAttempts);
  }

  // ---------- Window ends in 64 bits ----------

  const M64: nat := 0x1_0000_0000_0000_0000

  /** A sum of 64-bit numbers: when it does not fit, a debug build stops and a release build drops the carry. */
  function Sum64(p: Profile, a: nat, b: nat): Option<nat> {
    if a + b < M64 then Some(a + b) else if p == Debug then None else Some((a + b) % M64)
  }

  /** The login asks for the end of the window at all. */
  predicate NeedsEnd(s: Service, a: Attempt) {
    || (a.user in s.limits && s.limits[a.user].failures >= s.maxAttempts)
    || !a.creds.passwordOk
    || (a.creds.totpEnrolled && a.creds.code == Some(false))
  }

  /** The login as a build performs it; nothing if it stops. */
  function LoginIn(p: Profile, s: Service, a: Attempt): Option<(Service, Outcome)> {
    match Sum64(p, s.Rate(a.user).windowStart, s.window)
    case Some(end) => Some(LoginUntil(s, a, end))
    case None => if NeedsEnd(s, a) then None else Some(LoginUntil(s, a, 0))
  }

  function RunIn(p: Profile, s: Service, attempts: seq<Attempt>): (r: Option<(Service, seq<Outcome>)>)
    ensures r.Some? ==> |r.value.1| == |attempts|
    decreases |attempts|
  {
    if attempts == [] then Some((s, []))
    else
      match LoginIn(p, s, attempts[0])
      case None => None
      case Some((t, o)) =>
        match RunIn(p, t, attempts[1..])
        case None => None
        case Some((t', os)) => Some((t', [o] + os))
  }

  /** A build that does not stop, and any build while the sum fits, performs the login. */
  lemma LoginInIsLogin(p: Profile, s: Service, a: Attempt)
    ensures s.WindowEnd(a.user) < M64 ==> LoginIn(p, s, a) == Some(Login(s, a))
    ensures LoginIn(Debug, s, a).Some? ==> LoginIn(Debug, s, a) == Some(Login(s, a))
  {
  }

  /** Whatever the end comes out as, the counter stays within the limit. */
  lemma LoginInKeepsValid(p: Profile, s: Service, a: Attempt)
    requires s.Valid()
    ensures LoginIn(p, s, a).Some? ==> LoginIn(p, s, a).value.0.Valid()
  {
  }

  /** Every window end a run asks about fits. */
  ghost predicate EndsFit(s: Service, attempts: seq<Attempt>)
    decreases |attempts|
  {
    attempts == [] || (s.WindowEnd(attempts[0].user) < M64 && EndsFit(Login(s, attempts[0]).0, attempts[1..]))
  }

  lemma {:induction false} RunInIsRun(p: Profile, s: Service, attempts: seq<Attempt>)
    requires EndsFit(s, attempts) || (p == Debug && RunIn(p, s, attempts).Some?)
    ensures RunIn(p, s, attempts) == Some((Run(s, attempts), Outcomes(s, attempts)))
    decreases |attempts|
  {
    hide Login, LoginIn;
    if attempts != [] {
      LoginInIsLogin(p, s, attempts[0]);
      RunInIsRun(p, Login(s, attempts[0]).0, attempts[1..]);
    }
  }

  /** A window that was ever opened was opened no earlier than a window length after time 0, and not in the future. */
  ghost predicate OpenedLate(s: Service, horizon: nat) {
    forall u :: u in s.limits ==> s.limits[u].windowStart == 0 || s.window <= s.limits[u].windowStart <= horizon
  }

  ghost predicate Until(attempts: seq<Attempt>, horizon: nat) {
    forall a :: a in attempts ==> a.now <= horizon
  }

  /** Whatever the window, nothing overflows before this: no attempt is both a window length after 0 and one before 2^64. */
  predicate Safe(window: nat, horizon: nat) {
    horizon < window || horizon + window < M64
  }

  lemma LoginOpensLate(s: Service, a: Attempt, horizon: nat)
    requires OpenedLate(s, horizon) && a.now <= horizon
    ensures OpenedLate(Login(s, a).0, horizon) && Login(s, a).0.window == s.window
  {
  }

  lemma {:induction false} SafeEndsFit(s: Service, attempts: seq<Attempt>, horizon: nat)
    requires s.window < M64 && Safe(s.window, horizon) && OpenedLate(s, horizon) && Until(attempts, horizon)
    ensures EndsFit(s, attempts)
    decreases |attempts|
  {
    hide Login;
    if attempts != [] {
      assert attempts[0] in attempts;
      LoginOpensLate(s, attempts[0], horizon);
      SafeEndsFit(Login(s, attempts[0]).0, attempts[1..], horizon);
    }
  }

  /**
   A service with no failures meets no overflow in any run up to a horizon exactly when the horizon is below the window
   length or a window opened there still ends before 2^64; which is so for every window while the clock is below 2^63.
   */
  lemma NoOverflowIff(start: Service, horizon: nat)
    requires start.Valid() && start.limits == map[] && start.window < M64
    ensures (forall attempts :: Until(attempts, horizon) ==> EndsFit(start, attempts)) <==> Safe(start.window, horizon)
    ensures horizon < M64 / 2 ==> Safe(start.window, horizon)
  {
    if Safe(start.window, horizon) {
      forall attempts | Until(attempts, horizon)
        ensures EndsFit(start, attempts)
      {
        SafeEndsFit(start, attempts, horizon);
      }
    } else {
      var attempts := Burst("", horizon, 2);
      var first := Attempt("", WRONG, horizon);
      assert attempts[0] == first && attempts[1..][0] == first;
      assert Login(start, first).0.Rate("").windowStart == horizon;
      assert Until(attempts, horizon) && !EndsFit(start, attempts);
    }
  }

  // ---------- The bound in a build ----------

  /** A stretch of a run of a build, up to a horizon, in one window length and with no completed login on the account. */
  ghost predicate Stretch(p: Profile, start: Service, horizon: nat,
                          before: seq<Attempt>, during: seq<Attempt>, u: User, from: nat)
  {
    var r := RunIn(p, start, before + during);
    && r.Some? && Until(before + during, horizon)
    && (forall a :: a in during ==> InWindow(a, from, start.window))
    && (forall k :: 0 <= k < |during| && during[k].user == u ==> !Completes(r.value.1[|before| + k]))
  }

  /** In all of them at most twice the limit of wrong guesses. */
  ghost predicate BoundKept(p: Profile, start: Service, horizon: nat) {
    forall before, during, u, from: nat :: Stretch(p, start, horizon, before, during, u, from) ==>
      Guesses(u, during, RunIn(p, start, before + during).value.1[|before|..]) <= 2 * start.maxAttempts
  }

  lemma StretchIsBounded(p: Profile, start: Service, horizon: nat,
                         before: seq<Attempt>, during: seq<Attempt>, u: User, from: nat)
    requires start.Valid() && Stretch(p, start, horizon, before, during, u, from)
    requires p == Debug || EndsFit(start, before + during)
    ensures Guesses(u, during, RunIn(p, start, before + during).value.1[|before|..]) <= 2 * start.maxAttempts
  {
    hide Login, Outcomes, Run, RunIn, Guesses, EndsFit;
    RunInIsRun(p, start, before + during);
    OutcomesAppend(start, before, during);
    var os, ps := Outcomes(start, before), Outcomes(Run(start, before), during);
    assert (os + ps)[|before|..] == ps && forall k :: 0 <= k < |during| ==> (os + ps)[|before| + k] == ps[k];
    GuessingBound(start, before, during, u, from);
  }

  /** In a release build, past the safe horizon, every wrong guess opens a new window: nobody is ever locked out. */
  lemma {:induction false} WrappedWindowNeverLocks(s: Service, u: User, now: nat, n: nat)
    requires s.Valid() && s.window <= now < M64 && s.window < M64 && now + s.window >= M64
    requires u in s.limits ==> s.limits[u] == RateState(1, now)
    ensures var r := RunIn(Release, s, Burst(u, now, n));
            r.Some? && (forall k :: 0 <= k < n ==> r.value.1[k] == InvalidCredentials)
            && Guesses(u, Burst(u, now, n), r.value.1) == n
    decreases n
  {
    if n > 0 {
      var a, rest := Attempt(u, WRONG, now), Burst(u, now, n - 1);
      var all := Burst(u, now, n);
      assert all[0] == a && all[1..] == rest;
      var t := WrappedGuess(s, a);
      hide LoginIn, Service.Valid;
      WrappedWindowNeverLocks(t, u, now, n - 1);
      var os := RunIn(Release, t, rest).value.1;
      assert RunIn(Release, s, all).value.1 == [InvalidCredentials] + os && ([InvalidCredentials] + os)[1..] == os;
    }
  }

  lemma WrappedGuess(s: Service, a: Attempt) returns (t: Service)
    requires s.Valid() && s.window <= a.now < M64 && s.window < M64 && a.now + s.window >= M64 && a.creds == WRONG
    requires a.user in s.limits ==> s.limits[a.user] == RateState(1, a.now)
    ensures LoginIn(Release, s, a) == Some((t, InvalidCredentials))
    ensures t.Valid() && t.window == s.window && t.maxAttempts == s.maxAttempts
    ensures a.user in t.limits && t.limits[a.user] == RateState(1, a.now)
  {
    var end := Sum64(Release, s.Rate(a.user).windowStart, s.window).value;
    assert end <= a.now;
    t := LoginUntil(s, a, end).0;
  }

  /**
   A debug build never exceeds the guessing bound; a release build keeps it over all runs up to a horizon exactly when
   that is safe.
   */
  lemma BoundKeptIff(start: Service, horizon: nat)
    requires start.Valid() && start.limits == map[] && start.window < M64 && horizon < M64
    ensures BoundKept(Debug, start, horizon)
    ensures BoundKept(Release, start, horizon) <==> Safe(start.window, horizon)
  {
    hide RunIn, Guesses;
    forall p, before, during, u, from: nat
      | (p == Debug || Safe(start.window, horizon)) && Stretch(p, start, horizon, before, during, u, from)
      ensures Guesses(u, during, RunIn(p, start, before + during).value.1[|before|..]) <= 2 * start.maxAttempts
    {
      if p == Release {
        SafeEndsFit(start, before + during, horizon);
      }
      StretchIsBounded(p, start, horizon, before, during, u, from);
    }
    if !Safe(start.window, horizon) {
      BoundBroken(start, horizon);
    }
  }

  lemma BoundBroken(start: Service, horizon: nat)
    requires start.Valid() && start.limits == map[] && start.window < M64 && horizon < M64 && !Safe(start.window, horizon)
    ensures !BoundKept(Release, start, horizon)
  {
    var n := 2 * start.maxAttempts + 1;
    var during := Burst("", horizon, n);
    WrappedWindowNeverLocks(start, "", horizon, n);
    hide RunIn, Guesses;
    assert [] + during == during;
    var r := RunIn(Release, start, [] + during);
    assert r.value.1[0..] == r.value.1;
    assert Stretch(Release, start, horizon, [], during, "", horizon);
  }

  // ---------- The object ----------

  class AuthService {
    const build: Profile
    var maxAttempts: nat
    var window: nat
    var limits: map<User, RateState>
    var audit: AuditLog

    ghost function State(): Service
      reads this
    {
      Service(maxAttempts, window, limits, audit)
    }

    constructor (build: Profile, maxAttempts: nat, window: nat, auditCapacity: nat)
      ensures State() == NewService(maxAttempts, window, auditCapacity) && this.build == build
    {
      this.build := build;
      this.maxAttempts := if maxAttempts < 1 then 1 else maxAttempts;
      this.window := window;
      limits, audit := map[], AuditLog(if auditCapacity < 1 then 1 else auditCapacity, []);
    }

    /** Nothing is recorded when the build stops at the sum. */
    method CountFailure(user: User, now: nat) returns (ok: bool)
      modifies this`limits, this`audit
      ensures var end := Sum64(build, old(State()).Rate(user).windowStart, window);
              && (ok <==> end.Some?)
              && State() == if ok then RecordFailure(old(State()), user, now, end.value) else old(State())
    {
      var state := if user in limits then limits[user] else RateState(0, 0);
      var end := Sum64(build, state.windowStart, window);
      if end.None? {
        return false;
      }
      if now >= end.value {
        state := RateState(0, now);
      }
      limits := limits[user := state.(failures := state.failures + 1)];
      audit := audit.Record(AuditEntry(user, FailedLogin, now, false));
      return true;
    }

    method ClearFailures(user: User, now: nat)
      modifies this`limits, this`audit
      ensures State() == RecordSuccess(old(State()), user, now)
    {
      limits := limits - {user};
      audit := audit.Record(AuditEntry(user, Authentication, now, true));
    }

    /** The gate in front of everything else; the sum is made only for an account at its limit. */
    method Locked(user: User, now: nat) returns (r: Option<bool>)
      ensures var end := Sum64(build, State().Rate(user).windowStart, window);
              r == if user !in limits || limits[user].failures < maxAttempts then Some(false)
                   else if end.None? then None else Some(now < end.value)
    {
      if user !in limits || limits[user].failures < maxAttempts {
        return Some(false);
      }
      var end := Sum64(build, limits[user].windowStart, window);
      match end
      case None => return None;
      case Some(e) => return Some(now < e);
    }

    /** Nothing is returned when the build stops. */
    method TryLogin(a: Attempt) returns (o: Option<Outcome>)
      requires State().Valid()
      modifies this
      ensures match LoginIn(build, old(State()), a)
              case None => o == None && State() == old(State())
              case Some((t, r)) => o == Some(r) && State() == t
      ensures State().Valid()
      ensures old(State()).WindowEnd(a.user) < M64 ==> o == Some(Login(old(State()), a).1)
    {
      LoginInKeepsValid(build, State(), a);
      LoginInIsLogin(build, State(), a);
      var locked := Locked(a.user, a.now);
      if locked == None {
        return None;
      }
      if locked.value {
        audit := audit.Record(AuditEntry(a.user, FailedLogin, a.now, false));
        return Some(LockedOut(window));
      }
      if !a.creds.passwordOk {
        var ok := CountFailure(a.user, a.now);
        return if ok then Some(InvalidCredentials) else None;
      }
      if a.creds.totpEnrolled {
        match a.creds.code
        case None =>
          return Some(SecondFactorRequired);
        case Some(right) =>
          if right {
            ClearFailures(a.user, a.now);
            return Some(SecondFactorAccepted);
          }
          var ok := CountFailure(a.user, a.now);
          return if ok then Some(InvalidCredentials) else None;
      }
      ClearFailures(a.user, a.now);
      return Some(Success);
    }
  }
}
