/**
 Role changes whose two statements, the one that changes the role and the one that logs it, other requests come
 between.
 */
module RoleLog {
  import opened Options
  import opened Roles

  /** A request that has passed its checks, or one whose role statement, by its number, is still to be logged. */
  datatype Request = Allowed(caller: string, target: string, role: Role) | Logging(statement: nat)

  /**
   The tables, the requests under way, and for the record every statement that changed a role, in order, and of which
   statement each log entry is.
   */
  datatype Flow = Flow(users: map<string, User>, changes: seq<RoleChange>, requests: map<nat, Request>,
                       statements: seq<RoleChange>, logged: seq<nat>)

  const EMPTY := Flow(map[], [], map[], [], [])

  datatype Event =
    | Upsert(email: string, sub: string, issuer: string, name: string, avatarUrl: string)
    | Allow(q: nat, caller: string, target: string, role: string)
    | Assign(q: nat)
    | Promote(q: nat, author: string, email: string)
    | Log(q: nat, ok: bool)

  /** The statement changes the role; its request goes on to log it. */
  function Assigned(s: Flow, q: nat, c: RoleChange): Flow {
    s.(users := SetRoleStatement(s.users, c.target, c.newRole), statements := s.statements + [c],
       requests := s.requests[q := Logging(|s.statements|)])
  }

  predicate CanAssign(s: Flow, q: nat) {
    && q in s.requests && s.requests[q].Allowed? && s.requests[q].target in s.users
    && s.users[s.requests[q].target].role != s.requests[q].role
  }

  predicate CanPromote(s: Flow, q: nat, email: string) {
    q !in s.requests && CanBootstrap(s.users, email)
  }

  function UpsertStep(s: Flow, email: string, sub: string, issuer: string, name: string, avatarUrl: string): Flow {
    var users := UpsertStatement(s.users, email, sub, issuer, name, avatarUrl);
    if users.None? then s else s.(users := users.value)
  }

  function LogStep(s: Flow, q: nat, ok: bool): Flow {
    if q !in s.requests || !s.requests[q].Logging? then s
    else
      var n := s.requests[q].statement;
      if ok && n < |s.statements|
      then s.(requests := s.requests - {q}, changes := s.changes + [s.statements[n]], logged := s.logged + [n])
      else s.(requests := s.requests - {q})
  }

  /** One statement; an event that is not possible, or changes no role, leaves no trace. */
  function Next(s: Flow, e: Event): Flow {
    match e
    case Upsert(email, sub, issuer, name, avatarUrl) => UpsertStep(s, email, sub, issuer, name, avatarUrl)
    case Allow(q, caller, target, role) =>
      if q in s.requests || caller !in s.users || !s.users[caller].role.Admin? || target == "" || RoleNamed(role).None?
      then s
      else s.(requests := s.requests[q := Allowed(caller, target, RoleNamed(role).value)])
    case Assign(q) =>
      if CanAssign(s, q) then
        var Allowed(caller, target, role) := s.requests[q];
        Assigned(s, q, RoleChange(caller, target, s.users[target].role, role))
      else if q in s.requests && s.requests[q].Allowed? then s.(requests := s.requests - {q})
      else s
    case Promote(q, author, email) =>
      if CanPromote(s, q, email) then Assigned(s, q, RoleChange(author, email, s.users[email].role, Admin)) else s
    case Log(q, ok) => LogStep(s, q, ok)
  }

  function RunFlow(events: seq<Event>): Flow {
    if events == [] then EMPTY else Next(RunFlow(events[..|events| - 1]), events[|events| - 1])
  }

  // ---- Every reachable state ----

  predicate Pending(s: Flow, q: nat, n: nat) {
    q in s.requests && s.requests[q] == Logging(n)
  }

  /** The table is the replay of all statements; each entry is of one, and each has at most one entry to come. */
  ghost predicate FlowValid(s: Flow) {
    && (forall e :: RoleIn(s.users, e) == Replay(s.statements, e))
    && |s.logged| == |s.changes|
    && (forall i | 0 <= i < |s.logged| :: s.logged[i] < |s.statements| && s.changes[i] == s.statements[s.logged[i]])
    && (forall q: nat, n: nat | Pending(s, q, n) :: n < |s.statements|)
    && (forall q: nat, r: nat, n: nat | Pending(s, q, n) && Pending(s, r, n) :: q == r)
    && (forall i | 0 <= i < |s.statements| :: ChangesRole(s.statements[..i], s.statements[i]))
  }

  /** The statement starts from the role that those before it give, and gives another. */
  predicate ChangesRole(before: seq<RoleChange>, c: RoleChange) {
    c.oldRole == Replay(before, c.target) != c.newRole
  }

  lemma AssignedValid(s: Flow, q: nat, c: RoleChange)
    requires FlowValid(s) && c.target in s.users && c.oldRole == s.users[c.target].role != c.newRole
    requires q in s.requests ==> s.requests[q].Allowed?
    ensures FlowValid(Assigned(s, q, c))
  {
    var s' := Assigned(s, q, c);
    ReplaySnoc(s.statements, c);
    assert RoleIn(s.users, c.target) == s.users[c.target].role;
    forall e ensures RoleIn(s'.users, e) == Replay(s'.statements, e) {
      assert RoleIn(s'.users, e) == if e == c.target then c.newRole else RoleIn(s.users, e);
    }
    forall i | 0 <= i < |s'.statements| ensures ChangesRole(s'.statements[..i], s'.statements[i]) {
      assert s'.statements[..i] == s.statements[..i];
      assert s.statements[..|s.statements|] == s.statements;
    }
    assert forall r: nat, n: nat | Pending(s', r, n) :: Pending(s, r, n) || (r == q && n == |s.statements|);
  }

  /** Nothing is added but requests that have passed their checks. */
  lemma AllowedValid(s: Flow, s': Flow)
    requires FlowValid(s) && s'.statements == s.statements && s'.changes == s.changes && s'.logged == s.logged
    requires forall x :: RoleIn(s'.users, x) == RoleIn(s.users, x)
    requires forall q: nat, n: nat | Pending(s', q, n) :: Pending(s, q, n)
    ensures FlowValid(s')
  {
    hide RoleIn, Replay;
  }

  lemma LoggedValid(s: Flow, q: nat, ok: bool)
    requires FlowValid(s)
    ensures FlowValid(LogStep(s, q, ok))
  {
    hide RoleIn, Replay;
    assert forall r: nat, n: nat | Pending(LogStep(s, q, ok), r, n) :: Pending(s, r, n);
    if q in s.requests && s.requests[q].Logging? {
      assert Pending(s, q, s.requests[q].statement);
    }
  }

  lemma NextValid(s: Flow, e: Event)
    requires FlowValid(s)
    ensures FlowValid(Next(s, e))
  {
    match e
    case Upsert(email, sub, issuer, name, avatarUrl) =>
      hide FlowValid;
      AllowedValid(s, UpsertStep(s, email, sub, issuer, name, avatarUrl));
    case Allow(q, caller, target, role) =>
      hide FlowValid;
      AllowedValid(s, Next(s, e));
    case Assign(q) =>
      hide FlowValid, Replay;
      if CanAssign(s, q) {
        var Allowed(caller, target, role) := s.requests[q];
        AssignedValid(s, q, RoleChange(caller, target, s.users[target].role, role));
      } else {
        AllowedValid(s, Next(s, e));
      }
    case Promote(q, author, email) =>
      hide FlowValid, Replay;
      if CanPromote(s, q, email) {
        NoAdminNoRole(s.users, email);
        AssignedValid(s, q, RoleChange(author, email, s.users[email].role, Admin));
      }
    case Log(q, ok) =>
      hide FlowValid;
      LoggedValid(s, q, ok);
  }

  lemma {:induction false} FlowIsValid(events: seq<Event>)
    ensures FlowValid(RunFlow(events))
  {
    if events != [] {
      FlowIsValid(events[..|events| - 1]);
      hide FlowValid, Next;
      NextValid(RunFlow(events[..|events| - 1]), events[|events| - 1]);
    }
  }

  // ---- Whole requests ----

  /** The statements of a request that nothing comes between. */
  function StatementsOf(s: Flow, a: Action, q: nat): seq<Event> {
    match a
    case SetRole(caller, target, role, logged) => [Allow(q, caller, target, role), Assign(q), Log(q, logged)]
    case Bootstrap(email, logged) => [Promote(q, "bootstrap", email), Log(q, logged)]
    case EnsureUser(sess, logged) =>
      var upsert := Upsert(sess.email, SubjectOf(sess), ISSUER, sess.name, sess.avatarUrl);
      if SubTaken(s.users, sess.email, SubjectOf(sess), ISSUER) || !HasAdminGroup(sess.groups) then [upsert]
      else [upsert, Promote(q, "oauth2-proxy-group-seed", sess.email), Log(q, logged)]
  }

  function NextAll(s: Flow, events: seq<Event>): Flow
    decreases events
  {
    if events == [] then s else NextAll(Next(s, events[0]), events[1..])
  }

  function TablesOf(s: Flow): State {
    State(s.users, s.changes)
  }

  lemma WholeSetRole(s: Flow, caller: string, target: string, role: string, logged: bool, q: nat)
    requires q !in s.requests
    ensures var s' := Next(Next(Next(s, Allow(q, caller, target, role)), Assign(q)), Log(q, logged));
            TablesOf(s') == SetRoleRequest(TablesOf(s), caller, target, role, logged)
  {
    if MaySetRole(TablesOf(s), caller, target, role) {
      var given := RoleNamed(role).value;
      assert s.users[target].role == given ==> SetRoleStatement(s.users, target, given) == s.users;
    }
  }

  lemma WholePromotion(s: Flow, author: string, email: string, logged: bool, q: nat)
    requires q !in s.requests
    ensures TablesOf(Next(Next(s, Promote(q, author, email)), Log(q, logged))) ==
            if CanBootstrap(s.users, email) then Changed(TablesOf(s), author, email, Admin, logged) else TablesOf(s)
  {
  }

  /** They do to the tables what the whole request does. */
  lemma WholeRequest(s: Flow, a: Action, q: nat)
    requires q !in s.requests
    ensures TablesOf(NextAll(s, StatementsOf(s, a, q))) == Step(TablesOf(s), a)
  {
    hide NextAll, Changed, CanBootstrap, HasAdminGroup;
    match a
    case SetRole(caller, target, role, logged) =>
      ThreeEvents(s, Allow(q, caller, target, role), Assign(q), Log(q, logged));
      hide Next, SetRoleRequest;
      WholeSetRole(s, caller, target, role, logged, q);
    case Bootstrap(email, logged) =>
      TwoEvents(s, Promote(q, "bootstrap", email), Log(q, logged));
      hide Next;
      WholePromotion(s, "bootstrap", email, logged, q);
    case EnsureUser(sess, logged) =>
      var upsert := Upsert(sess.email, SubjectOf(sess), ISSUER, sess.name, sess.avatarUrl);
      OneEvent(s, upsert);
      ThreeEvents(s, upsert, Promote(q, "oauth2-proxy-group-seed", sess.email), Log(q, logged));
      WholePromotion(Next(s, upsert), "oauth2-proxy-group-seed", sess.email, logged, q);
  }

  lemma OneEvent(s: Flow, a: Event)
    ensures NextAll(s, [a]) == Next(s, a)
  {
    hide Next;
    assert [a][1..] == [];
  }

  lemma TwoEvents(s: Flow, a: Event, b: Event)
    ensures NextAll(s, [a, b]) == Next(Next(s, a), b)
  {
    hide Next;
    assert [a, b][1..] == [b];
    OneEvent(Next(s, a), b);
  }

  lemma ThreeEvents(s: Flow, a: Event, b: Event, c: Event)
    ensures NextAll(s, [a, b, c]) == Next(Next(Next(s, a), b), c)
  {
    hide Next;
    assert [a, b, c][1..] == [b, c];
    TwoEvents(Next(s, a), b, c);
  }

  // ---- Exactly when the log replays to a user's role ----

  /** Some role statement on the user is still to be logged. */
  ghost predicate Unlogged(s: Flow, email: string) {
    exists q: nat, n: nat :: Pending(s, q, n) && n < |s.statements| && s.statements[n].target == email
  }

  /** The event is a role statement on the user. */
  predicate StatesRole(s: Flow, e: Event, email: string) {
    || (e.Assign? && CanAssign(s, e.q) && s.requests[e.q].target == email)
    || (e.Promote? && CanPromote(s, e.q, e.email) && e.email == email)
  }

  /** The event is a log insert of a change of the user. */
  predicate LogInsert(s: Flow, e: Event, email: string) {
    && e.Log? && e.q in s.requests && s.requests[e.q].Logging?
    && s.requests[e.q].statement < |s.statements| && s.statements[s.requests[e.q].statement].target == email
  }

  predicate LogsRole(s: Flow, e: Event, email: string) {
    LogInsert(s, e, email) && e.ok
  }

  predicate LosesEntry(s: Flow, e: Event, email: string) {
    LogInsert(s, e, email) && !e.ok
  }

  /** The role that such an event gives, in the table or in the log. */
  function RoleGiven(s: Flow, e: Event, email: string): Role
    requires StatesRole(s, e, email) || LogsRole(s, e, email)
  {
    match e
    case Assign(q) => s.requests[q].role
    case Promote(_, _, _) => Admin
    case Log(q, _) => s.statements[s.requests[q].statement].newRole
  }

  lemma StepGives(s: Flow, e: Event, email: string)
    ensures RoleIn(Next(s, e).users, email) ==
            if StatesRole(s, e, email) then RoleGiven(s, e, email) else RoleIn(s.users, email)
    ensures Replay(Next(s, e).changes, email) ==
            if LogsRole(s, e, email) then RoleGiven(s, e, email) else Replay(s.changes, email)
  {
    if e.Log? && e.q in s.requests && s.requests[e.q].Logging? && s.requests[e.q].statement < |s.statements| {
      ReplaySnoc(s.changes, s.statements[s.requests[e.q].statement]);
    }
  }

  /** Step `k` of the run states a role of the user. */
  ghost predicate StatesAt(events: seq<Event>, k: nat, email: string) {
    k < |events| && StatesRole(RunFlow(events[..k]), events[k], email)
  }

  /** Step `k` logs one. */
  ghost predicate LogsAt(events: seq<Event>, k: nat, email: string) {
    k < |events| && LogsRole(RunFlow(events[..k]), events[k], email)
  }

  /** No step from `i` up to `j` does either. */
  ghost predicate Untouched(events: seq<Event>, i: nat, j: nat, email: string) {
    forall m: nat | i <= m < j :: !StatesAt(events, m, email) && !LogsAt(events, m, email)
  }

  /** Step `k` is the last that does. */
  ghost predicate LastStep(events: seq<Event>, k: nat, email: string) {
    (StatesAt(events, k, email) || LogsAt(events, k, email)) && Untouched(events, k + 1, |events|, email)
  }

  lemma RunNext(events: seq<Event>, n: nat)
    requires n < |events|
    ensures RunFlow(events[..n + 1]) == Next(RunFlow(events[..n]), events[n])
  {
    assert events[..n + 1][..n] == events[..n];
  }

  lemma RunAll(events: seq<Event>)
    ensures RunFlow(events[..0]) == EMPTY && RunFlow(events[..|events|]) == RunFlow(events)
  {
    assert events[..|events|] == events;
  }

  /** While no step states or logs a role of the user, table and log keep theirs. */
  lemma {:induction false} UntouchedKeeps(events: seq<Event>, i: nat, j: nat, email: string)
    requires i <= j <= |events| && Untouched(events, i, j, email)
    ensures var s, s' := RunFlow(events[..i]), RunFlow(events[..j]);
            RoleIn(s'.users, email) == RoleIn(s.users, email) && Replay(s'.changes, email) == Replay(s.changes, email)
    decreases j
  {
    if i < j {
      hide RunFlow, Next, StatesRole, LogsRole, Replay, RoleIn;
      UntouchedKeeps(events, i, j - 1, email);
      RunNext(events, j - 1);
      StepGives(RunFlow(events[..j - 1]), events[j - 1], email);
      assert !StatesAt(events, j - 1, email) && !LogsAt(events, j - 1, email);
    }
  }

  /**
   In every interleaving, what the last step that states or logs a role of the user finds decides: the log replays to
   the user's role if and only if a last log insert gives the role that the table has then, or a last role statement
   the one that the log replays to then.
   */
  lemma LogReplaysIff(events: seq<Event>, k: nat, email: string)
    requires LastStep(events, k, email)
    ensures var s, s' := RunFlow(events[..k]), RunFlow(events);
            Replay(s'.changes, email) == RoleIn(s'.users, email) <==>
            RoleGiven(s, events[k], email) ==
            if LogsAt(events, k, email) then RoleIn(s.users, email) else Replay(s.changes, email)
  {
    RunAll(events);
    RunNext(events, k);
    UntouchedKeeps(events, k + 1, |events|, email);
    StepGives(RunFlow(events[..k]), events[k], email);
  }

  /** Without such a step it does. */
  lemma UntouchedReplays(events: seq<Event>, email: string)
    requires Untouched(events, 0, |events|, email)
    ensures Replay(RunFlow(events).changes, email) == RoleIn(RunFlow(events).users, email) == Reviewer
  {
    RunAll(events);
    UntouchedKeeps(events, 0, |events|, email);
  }

  lemma {:induction false} LastStepUpTo(events: seq<Event>, i: nat, j: nat, email: string)
    requires i < j <= |events| && (StatesAt(events, i, email) || LogsAt(events, i, email))
    ensures exists k: nat ::
              k < j && (StatesAt(events, k, email) || LogsAt(events, k, email)) && Untouched(events, k + 1, j, email)
    decreases j
  {
    hide StatesAt, LogsAt;
    if StatesAt(events, j - 1, email) || LogsAt(events, j - 1, email) {
      assert Untouched(events, j, j, email);
    } else {
      LastStepUpTo(events, i, j - 1, email);
      var k: nat :| k < j - 1 && (StatesAt(events, k, email) || LogsAt(events, k, email))
                    && Untouched(events, k + 1, j - 1, email);
      assert Untouched(events, k + 1, j, email);
    }
  }

  lemma StatementIsUnlogged(s: Flow, e: Event, email: string)
    requires StatesRole(s, e, email)
    ensures Unlogged(Next(s, e), email)
  {
    assert Pending(Next(s, e), e.q, |s.statements|);
  }

  /** Only a log insert of the user's ends a statement's being unlogged. */
  lemma StepKeepsUnlogged(s: Flow, e: Event, email: string)
    requires Unlogged(s, email) && !LogInsert(s, e, email)
    ensures Unlogged(Next(s, e), email)
  {
    var q: nat, n: nat :| Pending(s, q, n) && n < |s.statements| && s.statements[n].target == email;
    assert Pending(Next(s, e), q, n) && Next(s, e).statements[n] == s.statements[n];
  }

  /** Step `m` inserts a log entry on the user, or fails to. */
  ghost predicate InsertsAt(events: seq<Event>, m: nat, email: string) {
    m < |events| && LogInsert(RunFlow(events[..m]), events[m], email)
  }

  lemma NextUnlogged(events: seq<Event>, m: nat, email: string)
    ensures m < |events| && Unlogged(RunFlow(events[..m]), email) && !InsertsAt(events, m, email) ==>
              Unlogged(RunFlow(events[..m + 1]), email)
  {
    hide RunFlow, Next, Unlogged, LogInsert;
    if m < |events| && Unlogged(RunFlow(events[..m]), email) && !InsertsAt(events, m, email) {
      RunNext(events, m);
      StepKeepsUnlogged(RunFlow(events[..m]), events[m], email);
    }
  }

  lemma {:induction false} StaysUnlogged(events: seq<Event>, i: nat, j: nat, email: string)
    requires i <= j <= |events| && Unlogged(RunFlow(events[..i]), email)
    requires forall m: nat | i <= m < j :: !InsertsAt(events, m, email)
    ensures Unlogged(RunFlow(events[..j]), email)
    decreases j
  {
    hide RunFlow, Unlogged, InsertsAt;
    if i < j {
      StaysUnlogged(events, i, j - 1, email);
      NextUnlogged(events, j - 1, email);
    }
  }

  /** No log insert of a change of the user fails. */
  ghost predicate NoneLost(events: seq<Event>, email: string) {
    forall m: nat | m < |events| :: !LosesEntry(RunFlow(events[..m]), events[m], email)
  }

  /** And once every change of the user is logged, the last such step is a log insert. */
  lemma EndsInLogInsert(events: seq<Event>, i: nat, email: string)
    requires StatesAt(events, i, email) && NoneLost(events, email) && !Unlogged(RunFlow(events), email)
    ensures exists k: nat :: LastStep(events, k, email) && LogsAt(events, k, email)
  {
    hide RunFlow, Next, StatesRole, LogInsert, Unlogged;
    LastStepUpTo(events, i, |events|, email);
    var k: nat :| k < |events| && (StatesAt(events, k, email) || LogsAt(events, k, email))
                  && Untouched(events, k + 1, |events|, email);
    if StatesAt(events, k, email) {
      RunNext(events, k);
      RunAll(events);
      StatementIsUnlogged(RunFlow(events[..k]), events[k], email);
      forall m: nat | k + 1 <= m < |events| ensures !InsertsAt(events, m, email) {
        assert !LogsAt(events, m, email) && !LosesEntry(RunFlow(events[..m]), events[m], email);
      }
      StaysUnlogged(events, k + 1, |events|, email);
    }
  }

  // ---- The last entry and the last statement ----

  /** The position of the last change of user `email`. */
  function LastOn(cs: seq<RoleChange>, email: string): (i: Option<nat>)
    ensures i.Some? ==> i.value < |cs| && cs[i.value].target == email
  {
    if cs == [] then None
    else if cs[|cs| - 1].target == email then Some(|cs| - 1)
    else LastOn(cs[..|cs| - 1], email)
  }

  lemma {:induction false} ReplayIsLast(cs: seq<RoleChange>, email: string)
    ensures Replay(cs, email) == if LastOn(cs, email).None? then Reviewer else cs[LastOn(cs, email).value].newRole
  {
    if cs != [] {
      ReplayIsLast(cs[..|cs| - 1], email);
    }
  }

  /** The user's last log entry is that of the user's last role statement. */
  predicate Belongs(s: Flow, email: string) {
    var i, j := LastOn(s.changes, email), LastOn(s.statements, email);
    if i.None? then j.None? else j.Some? && i.value < |s.logged| && s.logged[i.value] == j.value
  }

  /** It does not replay if the user's last entry is of the statement just before that user's last. */
  lemma SwappedEntriesDisagree(events: seq<Event>, email: string)
    requires var s := RunFlow(events);
             && LastOn(s.changes, email).Some? && LastOn(s.statements, email).Some?
             && LastOn(s.changes, email).value < |s.logged|
             && Some(s.logged[LastOn(s.changes, email).value])
                == LastOn(s.statements[..LastOn(s.statements, email).value], email)
    ensures RoleIn(RunFlow(events).users, email) != Replay(RunFlow(events).changes, email)
  {
    FlowIsValid(events);
    var s := RunFlow(events);
    hide RunFlow;
    var i, j := LastOn(s.changes, email).value, LastOn(s.statements, email).value;
    ReplayIsLast(s.changes, email);
    ReplayIsLast(s.statements, email);
    ReplayIsLast(s.statements[..j], email);
    assert s.changes[i] == s.statements[s.logged[i]];
    assert ChangesRole(s.statements[..j], s.statements[j]);
  }

  // ---- Changes of one user in turn ----

  /** No role statement on the user comes while another is unlogged, and no log insert of one fails. */
  ghost predicate InTurn(events: seq<Event>, email: string) {
    forall n | 0 <= n < |events| ::
      && (StatesRole(RunFlow(events[..n]), events[n], email) ==> !Unlogged(RunFlow(events[..n]), email))
      && !LosesEntry(RunFlow(events[..n]), events[n], email)
  }

  /** Each entry on the user starts from the role that the entries before it give. */
  ghost predicate ChainedFor(changes: seq<RoleChange>, email: string) {
    forall i | 0 <= i < |changes| && changes[i].target == email :: changes[i].oldRole == Replay(changes[..i], email)
  }

  /** Only the user's last statement can be unlogged; but for that one, the log replays to the statements. */
  ghost predicate Orderly(s: Flow, email: string) {
    && (forall q: nat, n: nat | Pending(s, q, n) && n < |s.statements| && s.statements[n].target == email ::
          Some(n) == LastOn(s.statements, email))
    && (Unlogged(s, email) ==>
          LastOn(s.statements, email).Some?
          && Replay(s.changes, email) == Replay(s.statements[..LastOn(s.statements, email).value], email))
    && (!Unlogged(s, email) ==> Replay(s.changes, email) == Replay(s.statements, email))
  }

  lemma LastOnSnoc(cs: seq<RoleChange>, c: RoleChange, email: string)
    ensures LastOn(cs + [c], email) == if c.target == email then Some(|cs|) else LastOn(cs, email)
  {
    assert (cs + [c])[..|cs|] == cs;
  }

  lemma AssignedOrderly(s: Flow, q: nat, c: RoleChange, email: string)
    requires FlowValid(s) && Orderly(s, email) && (c.target == email ==> !Unlogged(s, email))
    requires q in s.requests ==> s.requests[q].Allowed?
    ensures Orderly(Assigned(s, q, c), email)
  {
    hide RoleIn, Replay, LastOn;
    var s' := Assigned(s, q, c);
    LastOnSnoc(s.statements, c, email);
    ReplaySnoc(s.statements, c);
    assert Pending(s', q, |s.statements|) && s'.statements[|s.statements|] == c;
    assert forall r: nat, n: nat | Pending(s', r, n) :: Pending(s, r, n) || (r == q && n == |s.statements|);
    assert forall r: nat, n: nat | Pending(s, r, n) :: Pending(s', r, n);
    assert forall n | 0 <= n <= |s.statements| :: s'.statements[..n] == s.statements[..n];
    assert s.statements[..|s.statements|] == s.statements;
    if c.target != email {
      assert Unlogged(s', email) <==> Unlogged(s, email);
    }
  }

  lemma LoggedOrderly(s: Flow, q: nat, ok: bool, email: string)
    requires FlowValid(s) && Orderly(s, email) && q in s.requests && s.requests[q].Logging?
    requires !LosesEntry(s, Log(q, ok), email)
    ensures Orderly(LogStep(s, q, ok), email)
    ensures ChainedFor(s.changes, email) ==> ChainedFor(LogStep(s, q, ok).changes, email)
  {
    hide RoleIn, Replay, LastOn;
    var s', n := LogStep(s, q, ok), s.requests[q].statement;
    assert Pending(s, q, n);
    var c := s.statements[n];
    assert forall r: nat, m: nat | Pending(s', r, m) :: Pending(s, r, m) && r != q;
    assert forall r: nat, m: nat | Pending(s, r, m) && r != q :: Pending(s', r, m);
    ReplaySnoc(s.changes, c);
    if c.target == email {
      assert ChangesRole(s.statements[..n], c);
      ReplayIsLast(s.statements, email);
    } else {
      assert Unlogged(s', email) <==> Unlogged(s, email);
    }
    if ChainedFor(s.changes, email) {
      ChainedSnoc(s.changes, c, email);
    }
  }

  lemma ChainedSnoc(changes: seq<RoleChange>, c: RoleChange, email: string)
    requires ChainedFor(changes, email) && (c.target == email ==> c.oldRole == Replay(changes, email))
    ensures ChainedFor(changes + [c], email)
  {
    var all := changes + [c];
    assert forall i | 0 <= i <= |changes| :: all[..i] == changes[..i];
    assert changes[..|changes|] == changes;
  }

  lemma NextOrderly(s: Flow, e: Event, email: string)
    requires FlowValid(s) && Orderly(s, email)
    requires StatesRole(s, e, email) ==> !Unlogged(s, email)
    requires !LosesEntry(s, e, email)
    ensures Orderly(Next(s, e), email)
    ensures ChainedFor(s.changes, email) ==> ChainedFor(Next(s, e).changes, email)
  {
    hide Replay, LastOn;
    if e.Assign? && CanAssign(s, e.q) {
      var Allowed(caller, target, role) := s.requests[e.q];
      AssignedOrderly(s, e.q, RoleChange(caller, target, s.users[target].role, role), email);
    } else if e.Promote? && CanPromote(s, e.q, e.email) {
      AssignedOrderly(s, e.q, RoleChange(e.author, e.email, s.users[e.email].role, Admin), email);
    } else if e.Log? && e.q in s.requests && s.requests[e.q].Logging? {
      LoggedOrderly(s, e.q, e.ok, email);
    } else {
      var s' := Next(s, e);
      assert forall q: nat, n: nat :: Pending(s', q, n) <==> Pending(s, q, n);
      assert Unlogged(s', email) <==> Unlogged(s, email);
    }
  }

  lemma {:induction false} RunOrderly(events: seq<Event>, email: string)
    requires InTurn(events, email)
    ensures Orderly(RunFlow(events), email) && ChainedFor(RunFlow(events).changes, email)
  {
    if events != [] {
      var n := |events| - 1;
      hide FlowValid, Orderly, Next, StatesRole, Unlogged, LosesEntry;
      assert InTurn(events[..n], email) by {
        assert forall k | 0 <= k < n :: events[..n][..k] == events[..k] && events[..n][k] == events[k];
      }
      RunOrderly(events[..n], email);
      FlowIsValid(events[..n]);
      NextOrderly(RunFlow(events[..n]), events[n], email);
    }
  }

  /**
   Changes of a user in turn, whatever happens to others: each entry on the user starts from the role that the entries
   before it give, and once all are logged the log replays to the user's role.
   */
  lemma InTurnIsEnough(events: seq<Event>, email: string)
    requires InTurn(events, email)
    ensures ChainedFor(RunFlow(events).changes, email)
    ensures !Unlogged(RunFlow(events), email) ==>
              RoleIn(RunFlow(events).users, email) == Replay(RunFlow(events).changes, email)
  {
    RunOrderly(events, email);
    FlowIsValid(events);
  }

  // ---- A run in which it does not ----

  lemma FlowSnoc(events: seq<Event>, e: Event)
    ensures RunFlow(events + [e]) == Next(RunFlow(events), e)
  {
    assert (events + [e])[..|events|] == events;
  }

  const A := User("a", ISSUER, "", "", Admin)
  const B := User("b", ISSUER, "", "", Reviewer)

  /** An admin and another user. */
  function TwoUsers(): seq<Event> {
    [Upsert("a", "a", ISSUER, "", "")] + [Promote(0, "bootstrap", "a")] + [Log(0, true)]
    + [Upsert("b", "b", ISSUER, "", "")]
  }

  const FIRST := RoleChange("bootstrap", "a", Reviewer, Admin)

  lemma TwoUsersAre()
    ensures RunFlow(TwoUsers()) == Flow(map["a" := A, "b" := B], [FIRST], map[], [FIRST], [0])
  {
    hide RunFlow;
    FlowOfNone();
    var a1 := [Upsert("a", "a", ISSUER, "", "")];
    FlowSnoc([], a1[0]);
    assert [] + [a1[0]] == a1;
    var u := User("a", ISSUER, "", "", Reviewer);
    assert RunFlow(a1) == Flow(map["a" := u], [], map[], [], []);
    assert Admins(map["a" := u]) == {};
    FlowSnoc(a1, Promote(0, "bootstrap", "a"));
    var a2 := a1 + [Promote(0, "bootstrap", "a")];
    assert RunFlow(a2) == Flow(map["a" := A], [], map[0 := Logging(0)], [FIRST], []);
    FlowSnoc(a2, Log(0, true));
    assert map[0 := Logging(0)] - {0} == map[];
    FlowSnoc(a2 + [Log(0, true)], Upsert("b", "b", ISSUER, "", ""));
  }

  lemma FlowOfNone()
    ensures RunFlow([]) == EMPTY
  {
  }

  const C1 := RoleChange("a", "b", Reviewer, Writer)
  const C2 := RoleChange("a", "b", Writer, Admin)
  const C3 := RoleChange("a", "b", Admin, Writer)

  /** Three requests on one user have passed their checks. */
  function ThreeAllowed(): seq<Event> {
    TwoUsers() + [Allow(1, "a", "b", "writer")] + [Allow(2, "a", "b", "admin")] + [Allow(3, "a", "b", "writer")]
  }

  lemma ThreeAllowedAre()
    ensures RunFlow(ThreeAllowed()) ==
            Flow(map["a" := A, "b" := B], [FIRST],
                 map[1 := Allowed("a", "b", Writer), 2 := Allowed("a", "b", Admin), 3 := Allowed("a", "b", Writer)],
                 [FIRST], [0])
  {
    hide RunFlow;
    TwoUsersAre();
    var a0 := TwoUsers();
    FlowSnoc(a0, Allow(1, "a", "b", "writer"));
    FlowSnoc(a0 + [Allow(1, "a", "b", "writer")], Allow(2, "a", "b", "admin"));
    FlowSnoc(a0 + [Allow(1, "a", "b", "writer")] + [Allow(2, "a", "b", "admin")], Allow(3, "a", "b", "writer"));
  }

  lemma ThreeAssigned()
    ensures RunFlow(ThreeAllowed() + [Assign(1)] + [Assign(2)] + [Assign(3)]) ==
            Flow(map["a" := A, "b" := B.(role := Writer)], [FIRST],
                 map[1 := Logging(1), 2 := Logging(2), 3 := Logging(3)], [FIRST, C1, C2, C3], [0])
  {
    hide RunFlow, ThreeAllowed;
    ThreeAllowedAre();
    var a := ThreeAllowed();
    FlowSnoc(a, Assign(1));
    assert RunFlow(a + [Assign(1)]) ==
           Flow(map["a" := A, "b" := B.(role := Writer)], [FIRST],
                map[1 := Logging(1), 2 := Allowed("a", "b", Admin), 3 := Allowed("a", "b", Writer)], [FIRST, C1], [0]);
    FlowSnoc(a + [Assign(1)], Assign(2));
    assert RunFlow(a + [Assign(1)] + [Assign(2)]) ==
           Flow(map["a" := A, "b" := B.(role := Admin)], [FIRST],
                map[1 := Logging(1), 2 := Logging(2), 3 := Allowed("a", "b", Writer)], [FIRST, C1, C2], [0]);
    FlowSnoc(a + [Assign(1)] + [Assign(2)], Assign(3));
  }

  /** Agreement can also be by chance: the first of three entries comes last, and gives the role that the third does. */
  lemma EntriesCanCoincide()
    ensures var s := RunFlow(ThreeAllowed() + [Assign(1)] + [Assign(2)] + [Assign(3)]
                             + [Log(3, true)] + [Log(2, true)] + [Log(1, true)]);
            && s.requests == map[] && !Belongs(s, "b")
            && RoleIn(s.users, "b") == Writer == Replay(s.changes, "b")
  {
    hide RunFlow, ThreeAllowed;
    ThreeAssigned();
    var a := ThreeAllowed() + [Assign(1)] + [Assign(2)] + [Assign(3)];
    FlowSnoc(a, Log(3, true));
    assert map[1 := Logging(1), 2 := Logging(2), 3 := Logging(3)] - {3} == map[1 := Logging(1), 2 := Logging(2)];
    FlowSnoc(a + [Log(3, true)], Log(2, true));
    assert map[1 := Logging(1), 2 := Logging(2)] - {2} == map[1 := Logging(1)];
    FlowSnoc(a + [Log(3, true)] + [Log(2, true)], Log(1, true));
    assert map[1 := Logging(1)] - {1} == map[];
    var s := RunFlow(a + [Log(3, true)] + [Log(2, true)] + [Log(1, true)]);
    assert s.changes == [FIRST] + [C3] + [C2] + [C1] && s.logged == [0] + [3] + [2] + [1];
    hide Next;
    LastOnSnoc([FIRST] + [C3] + [C2], C1, "b");
    assert s.statements == [FIRST] + [C1] + [C2] + [C3];
    LastOnSnoc([FIRST] + [C1] + [C2], C3, "b");
    ReplaySnoc([FIRST] + [C3] + [C2], C1);
  }

  /** Two requests on one user log in the other order: the table has the later role, the log replays to the earlier. */
  lemma EntriesCanSwap()
    ensures var s := RunFlow(ThreeAllowed() + [Assign(1)] + [Assign(2)] + [Log(2, true)] + [Log(1, true)]);
            RoleIn(s.users, "b") == Admin && Replay(s.changes, "b") == Writer && !Unlogged(s, "b")
  {
    hide RunFlow, ThreeAllowed;
    ThreeAllowedAre();
    var a := ThreeAllowed();
    FlowSnoc(a, Assign(1));
    assert RunFlow(a + [Assign(1)]) ==
           Flow(map["a" := A, "b" := B.(role := Writer)], [FIRST],
                map[1 := Logging(1), 2 := Allowed("a", "b", Admin), 3 := Allowed("a", "b", Writer)], [FIRST, C1], [0]);
    FlowSnoc(a + [Assign(1)], Assign(2));
    var rest := map[3 := Allowed("a", "b", Writer)];
    assert RunFlow(a + [Assign(1)] + [Assign(2)]) ==
           Flow(map["a" := A, "b" := B.(role := Admin)], [FIRST], rest[1 := Logging(1)][2 := Logging(2)],
                [FIRST, C1, C2], [0]);
    TwoLogged(a + [Assign(1)] + [Assign(2)], rest);
  }

  lemma TwoLogged(a: seq<Event>, rest: map<nat, Request>)
    requires rest == map[3 := Allowed("a", "b", Writer)]
    requires RunFlow(a) ==
             Flow(map["a" := A, "b" := B.(role := Admin)], [FIRST], rest[1 := Logging(1)][2 := Logging(2)],
                  [FIRST, C1, C2], [0])
    ensures var s := RunFlow(a + [Log(2, true)] + [Log(1, true)]);
            RoleIn(s.users, "b") == Admin && Replay(s.changes, "b") == Writer && !Unlogged(s, "b")
  {
    hide RunFlow;
    FlowSnoc(a, Log(2, true));
    assert rest[1 := Logging(1)][2 := Logging(2)] - {2} == rest[1 := Logging(1)];
    FlowSnoc(a + [Log(2, true)], Log(1, true));
    assert rest[1 := Logging(1)] - {1} == rest;
    ReplaySnoc([FIRST] + [C2], C1);
  }
}
