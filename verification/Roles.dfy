/**
 Users, their roles, and the log of role changes. A statement of the store is one step of its methods; the requests
 are first taken one at a time, and then what their interleaving can do is shown.
 */
module Roles {
  import opened Options
  import opened Places
  import Text

  datatype Role = Reviewer | Writer | Admin

  datatype User = User(sub: string, issuer: string, name: string, avatarUrl: string, role: Role)

  datatype RoleChange = RoleChange(changedBy: string, target: string, oldRole: Role, newRole: Role)

  datatype Session = Session(email: string, name: string, login: string, avatarUrl: string, groups: seq<string>)

  /** The users by email, and the log, oldest first. */
  datatype State = State(users: map<string, User>, changes: seq<RoleChange>)

  const START := State(map[], [])

  /** A role by its name. */
  function RoleNamed(name: string): Option<Role> {
    if name == "admin" then Some(Admin)
    else if name == "writer" then Some(Writer)
    else if name == "reviewer" then Some(Reviewer)
    else None
  }

  function Admins(users: map<string, User>): set<string> {
    set email | email in users && users[email].role.Admin?
  }

  // ---- Statements ----

  /** Some other user has this non-empty subject with this issuer. */
  predicate SubTaken(users: map<string, User>, email: string, sub: string, issuer: string) {
    sub != "" && exists e <- users :: e != email && users[e].sub == sub && users[e].issuer == issuer
  }

  /** The upsert, which leaves the role alone; a taken subject is a violation. */
  function UpsertStatement(users: map<string, User>, email: string, sub: string, issuer: string, name: string,
                           avatarUrl: string): Option<map<string, User>>
  {
    if SubTaken(users, email, sub, issuer) then None
    else
      var role := if email in users then users[email].role else Reviewer;
      Some(users[email := User(sub, issuer, name, avatarUrl, role)])
  }

  function SetRoleStatement(users: map<string, User>, email: string, role: Role): map<string, User> {
    if email in users then users[email := users[email].(role := role)] else users
  }

  predicate CanBootstrap(users: map<string, User>, email: string) {
    Admins(users) == {} && email in users
  }

  // ---- Requests, one at a time ----

  const ISSUER := "oauth2-proxy"

  /** The change is made, and goes on the log if that insert succeeds; its failure is ignored. */
  function Changed(s: State, author: string, target: string, role: Role, logged: bool): State
    requires target in s.users
  {
    State(SetRoleStatement(s.users, target, role),
          if logged then s.changes + [RoleChange(author, target, s.users[target].role, role)] else s.changes)
  }

  predicate IsAdminGroup(g: string) {
    g == "admin" || g == "admins"
  }

  predicate HasAdminGroup(groups: seq<string>) {
    exists g <- groups :: IsAdminGroup(g)
  }

  function SubjectOf(sess: Session): string {
    if sess.login == "" then sess.email else sess.login
  }

  function EnsureUserStep(s: State, sess: Session, logged: bool): State {
    var upserted := UpsertStatement(s.users, sess.email, SubjectOf(sess), ISSUER, sess.name, sess.avatarUrl);
    if upserted.None? then s
    else if HasAdminGroup(sess.groups) && CanBootstrap(upserted.value, sess.email)
    then Changed(State(upserted.value, s.changes), "oauth2-proxy-group-seed", sess.email, Admin, logged)
    else State(upserted.value, s.changes)
  }

  predicate MaySetRole(s: State, caller: string, target: string, role: string) {
    caller in s.users && s.users[caller].role.Admin? && target != "" && target in s.users && RoleNamed(role).Some?
  }

  function SetRoleRequest(s: State, caller: string, target: string, role: string, logged: bool): State {
    if !MaySetRole(s, caller, target, role) then s
    else Changed(s, caller, target, RoleNamed(role).value, logged && s.users[target].role != RoleNamed(role).value)
  }

  function BootstrapRequest(s: State, email: string, logged: bool): State {
    if CanBootstrap(s.users, email) then Changed(s, "bootstrap", email, Admin, logged) else s
  }

  datatype Action =
    | EnsureUser(sess: Session, logged: bool)
    | SetRole(caller: string, target: string, role: string, logged: bool)
    | Bootstrap(email: string, logged: bool)

  function Step(s: State, a: Action): State {
    match a
    case EnsureUser(sess, logged) => EnsureUserStep(s, sess, logged)
    case SetRole(caller, target, role, logged) => SetRoleRequest(s, caller, target, role, logged)
    case Bootstrap(email, logged) => BootstrapRequest(s, email, logged)
  }

  function Run(actions: seq<Action>): State {
    if actions == [] then START else Step(Run(actions[..|actions| - 1]), actions[|actions| - 1])
  }

  // ---- The code ----

  datatype StoreError = NoError | UserNotFound | AdminExists | Violation

  /** The two tables and the store's statements on them. */
  class UserStore {
    var users: map<string, User>
    var changes: seq<RoleChange>

    function View(): State
      reads this
    {
      State(users, changes)
    }

    constructor ()
      ensures View() == START
    {
      users, changes := map[], [];
    }

    method UpsertUser(sub: string, issuer: string, email: string, name: string, avatarUrl: string)
      returns (err: StoreError)
      modifies this`users
      ensures err == if SubTaken(old(users), email, sub, issuer) then Violation else NoError
      ensures err.Violation? <==> sub != "" && exists e <- old(users) ::
                e != email && old(users)[e].sub == sub && old(users)[e].issuer == issuer
      ensures var upserted := UpsertStatement(old(users), email, sub, issuer, name, avatarUrl);
              users == if err.NoError? then upserted.value else old(users)
      ensures err.NoError? ==>
                && users == old(users)[email := users[email]]
                && users[email].sub == sub && users[email].issuer == issuer
                && users[email].name == name && users[email].avatarUrl == avatarUrl
                && users[email].role == if email in old(users) then old(users)[email].role else Reviewer
    {
      if SubTaken(users, email, sub, issuer) {
        return Violation;
      }
      if email in users {
        users := users[email := users[email].(sub := sub, issuer := issuer, name := name, avatarUrl := avatarUrl)];
      } else {
        users := users[email := User(sub, issuer, name, avatarUrl, Reviewer)];
      }
      err := NoError;
    }

    method SetRole(email: string, role: Role) returns (oldRole: Role, err: StoreError)
      modifies this`users
      ensures err == if email in old(users) then NoError else UserNotFound
      ensures users == SetRoleStatement(old(users), email, role)
      ensures email in old(users) ==> oldRole == old(users)[email].role
    {
      if email !in users {
        return Reviewer, UserNotFound;
      }
      oldRole := users[email].role;
      users := users[email := users[email].(role := role)];
      err := NoError;
    }

    method CountAdmins() returns (n: nat)
      ensures n == |Admins(users)|
    {
      n := |Admins(users)|;
    }

    /** One statement promotes if there is no admin; only the error is looked up afterwards. */
    method BootstrapAdmin(email: string) returns (oldRole: Role, err: StoreError)
      modifies this`users
      ensures err == if CanBootstrap(old(users), email) then NoError
                     else if Admins(old(users)) != {} then AdminExists else UserNotFound
      ensures users == if err.NoError? then SetRoleStatement(old(users), email, Admin) else old(users)
      ensures err.NoError? ==> oldRole == old(users)[email].role
    {
      if |Admins(users)| == 0 && email in users {
        oldRole := users[email].role;
        users := users[email := users[email].(role := Admin)];
        return oldRole, NoError;
      }
      var n := CountAdmins();
      return Reviewer, if n > 0 then AdminExists else UserNotFound;
    }

    method InsertRoleChange(change: RoleChange, ok: bool)
      modifies this`changes
      ensures changes == if ok then old(changes) + [change] else old(changes)
    {
      if ok {
        changes := changes + [change];
      }
    }
  }

  /** `containsAdmin`. */
  method ContainsAdmin(groups: seq<string>) returns (found: bool)
    ensures found <==> "admin" in groups || "admins" in groups
    ensures found == HasAdminGroup(groups)
  {
    for i := 0 to |groups|
      invariant forall j | 0 <= j < i :: groups[j] != "admin" && groups[j] != "admins"
    {
      if IsAdminGroup(groups[i]) {
        return true;
      }
    }
    return false;
  }

  /** There is no admin, and a group of the session's makes one. */
  predicate Seeds(users: map<string, User>, sess: Session) {
    (forall e <- users :: !users[e].role.Admin?) && ("admin" in sess.groups || "admins" in sess.groups)
  }

  /** Whoever signs in is registered, unless another user has the subject, and is made admin exactly if seeded. */
  method HandleEnsureUser(store: UserStore, sess: Session, logged: bool)
    modifies store
    ensures store.View() == EnsureUserStep(old(store.View()), sess, logged)
    ensures SubTaken(old(store.users), sess.email, SubjectOf(sess), ISSUER) ==> store.View() == old(store.View())
    ensures !SubTaken(old(store.users), sess.email, SubjectOf(sess), ISSUER) ==>
              var before := if sess.email in old(store.users) then old(store.users)[sess.email].role else Reviewer;
              && sess.email in store.users && store.users.Keys == old(store.users).Keys + {sess.email}
              && store.users[sess.email].sub == (if sess.login == "" then sess.email else sess.login)
              && store.users[sess.email].issuer == "oauth2-proxy"
              && store.users[sess.email].role == (if Seeds(old(store.users), sess) then Admin else before)
              && store.changes == old(store.changes)
                                  + if Seeds(old(store.users), sess) && logged
                                    then [RoleChange("oauth2-proxy-group-seed", sess.email, before, Admin)] else []
  {
    NoAdmins(store.users);
    SeedsIff(store.users, sess);
    var sub := sess.login;
    if sub == "" {
      sub := sess.email;
    }
    var err := store.UpsertUser(sub, ISSUER, sess.email, sess.name, sess.avatarUrl);
    if !err.NoError? {
      return;
    }
    var admin := ContainsAdmin(sess.groups);
    if !admin {
      return;
    }
    var oldRole;
    oldRole, err := store.BootstrapAdmin(sess.email);
    if !err.NoError? {
      return;
    }
    store.InsertRoleChange(RoleChange("oauth2-proxy-group-seed", sess.email, oldRole, Admin), logged);
  }

  lemma NoAdmins(users: map<string, User>)
    ensures Admins(users) == {} <==> forall e <- users :: !users[e].role.Admin?
  {
    if Admins(users) == {} {
      forall e | e in users ensures !users[e].role.Admin? {
        assert e !in Admins(users);
      }
    }
  }

  lemma SeedsIff(users: map<string, User>, sess: Session)
    ensures HasAdminGroup(sess.groups) <==> "admin" in sess.groups || "admins" in sess.groups
    ensures !SubTaken(users, sess.email, SubjectOf(sess), ISSUER) ==>
              var users' := UpsertStatement(users, sess.email, SubjectOf(sess), ISSUER, sess.name, sess.avatarUrl);
              Admins(users'.value) == Admins(users)
  {
    if !SubTaken(users, sess.email, SubjectOf(sess), ISSUER) {
      var users' := UpsertStatement(users, sess.email, SubjectOf(sess), ISSUER, sess.name, sess.avatarUrl).value;
      assert forall e :: e in Admins(users') <==> e in Admins(users);
    }
  }

  /** `handleSetRole`: only an admin may, and only what changes goes on the log. */
  method HandleSetRole(store: UserStore, caller: string, target: string, role: string, logged: bool)
    returns (done: bool)
    modifies store
    ensures done == MaySetRole(old(store.View()), caller, target, role)
    ensures store.View() == SetRoleRequest(old(store.View()), caller, target, role, logged)
    ensures done <==> && caller in old(store.users) && old(store.users)[caller].role.Admin?
                      && target != "" && target in old(store.users)
                      && (role == "admin" || role == "writer" || role == "reviewer")
    ensures done ==>
              var was := old(store.users)[target].role;
              && target in store.users && store.users == old(store.users)[target := store.users[target]]
              && (store.users[target].role.Admin? <==> role == "admin")
              && (store.users[target].role.Writer? <==> role == "writer")
              && store.changes == old(store.changes)
                                  + if logged && store.users[target].role != was
                                    then [RoleChange(caller, target, was, store.users[target].role)] else []
    ensures !done ==> store.View() == old(store.View())
  {
    if caller !in store.users || store.users[caller].role != Admin {
      return false;
    }
    if target == "" {
      return false;
    }
    var newRole := RoleNamed(role);
    if newRole.None? {
      return false;
    }
    var oldRole, err := store.SetRole(target, newRole.value);
    if !err.NoError? {
      return false;
    }
    if oldRole != newRole.value {
      store.InsertRoleChange(RoleChange(caller, target, oldRole, newRole.value), logged);
    }
    done := true;
  }

  method HandleBootstrap(store: UserStore, email: string, logged: bool) returns (done: bool)
    modifies store
    ensures done == CanBootstrap(old(store.users), email)
    ensures store.View() == BootstrapRequest(old(store.View()), email, logged)
    ensures done <==> email in old(store.users) && forall e <- old(store.users) :: !old(store.users)[e].role.Admin?
    ensures done ==>
              && email in store.users && store.users[email].role.Admin?
              && store.changes == old(store.changes)
                                  + if logged then [RoleChange("bootstrap", email, old(store.users)[email].role, Admin)]
                                    else []
    ensures !done ==> store.View() == old(store.View())
  {
    NoAdmins(store.users);
    var oldRole, err := store.BootstrapAdmin(email);
    if !err.NoError? {
      return false;
    }
    store.InsertRoleChange(RoleChange("bootstrap", email, oldRole, Admin), logged);
    done := true;
  }

  // ---- Replaying the log ----

  /** A user's role according to the log: the last one it gives, or else the default. */
  function Replay(changes: seq<RoleChange>, email: string): Role {
    if changes == [] then Reviewer
    else if changes[|changes| - 1].target == email then changes[|changes| - 1].newRole
    else Replay(changes[..|changes| - 1], email)
  }

  /** A user's role according to the table; one who is not there yet would get the default. */
  function RoleIn(users: map<string, User>, email: string): Role {
    if email in users then users[email].role else Reviewer
  }

  /** The log replays to the table. */
  ghost predicate Agrees(s: State) {
    forall email :: RoleIn(s.users, email) == Replay(s.changes, email)
  }

  /** Each entry starts from the role that the entries before it give, and is about a user. */
  ghost predicate Chained(s: State) {
    forall i | 0 <= i < |s.changes| ::
      s.changes[i].target in s.users && s.changes[i].oldRole == Replay(s.changes[..i], s.changes[i].target)
  }

  ghost predicate Valid(s: State) {
    Chained(s) && UniqueSubs(s.users)
  }

  ghost predicate UniqueSubs(users: map<string, User>) {
    forall e <- users :: !SubTaken(users, e, users[e].sub, users[e].issuer)
  }

  lemma ReplaySnoc(changes: seq<RoleChange>, c: RoleChange)
    ensures forall email ::
              Replay(changes + [c], email) == if email == c.target then c.newRole else Replay(changes, email)
  {
    assert (changes + [c])[..|changes|] == changes;
  }

  /** A change of role keeps table and log in agreement exactly if it is logged, or changes nothing. */
  lemma ChangedAgreesIff(s: State, author: string, target: string, role: Role, logged: bool)
    requires Agrees(s) && target in s.users
    ensures Agrees(Changed(s, author, target, role, logged)) <==> logged || s.users[target].role == role
  {
    ReplaySnoc(s.changes, RoleChange(author, target, s.users[target].role, role));
    var s' := Changed(s, author, target, role, logged);
    assert RoleIn(s'.users, target) == role && RoleIn(s.users, target) == s.users[target].role;
  }

  lemma ChangedChains(s: State, author: string, target: string, role: Role, logged: bool)
    requires Valid(s) && Agrees(s) && target in s.users
    ensures Valid(Changed(s, author, target, role, logged))
  {
    assert RoleIn(s.users, target) == s.users[target].role;
    var s' := Changed(s, author, target, role, logged);
    forall i | 0 <= i < |s'.changes|
      ensures s'.changes[i].target in s'.users && s'.changes[i].oldRole == Replay(s'.changes[..i], s'.changes[i].target)
    {
      assert s'.changes[..i] == s.changes[..i];
      assert i == |s.changes| ==> s.changes[..i] == s.changes;
    }
    assert forall e <- s'.users :: s'.users[e].sub == s.users[e].sub && s'.users[e].issuer == s.users[e].issuer;
    assert UniqueSubs(s'.users);
  }

  /** Registering a user keeps every role; a new one has the default, and no entry yet. */
  lemma UpsertAgrees(s: State, email: string, sub: string, issuer: string, name: string, avatarUrl: string)
    requires Valid(s) && !SubTaken(s.users, email, sub, issuer)
    ensures var users := UpsertStatement(s.users, email, sub, issuer, name, avatarUrl).value;
            && Valid(State(users, s.changes)) && (Agrees(State(users, s.changes)) <==> Agrees(s))
            && users.Keys == s.users.Keys + {email} && forall e :: RoleIn(users, e) == RoleIn(s.users, e)
  {
    var users := UpsertStatement(s.users, email, sub, issuer, name, avatarUrl).value;
    forall e | e in users ensures !SubTaken(users, e, users[e].sub, users[e].issuer) {
      if e != email && users[e].sub == sub && users[e].issuer == issuer {
        assert sub == "" || SubTaken(s.users, email, sub, issuer);
      }
      assert e in s.users && e != email ==> !SubTaken(s.users, e, users[e].sub, users[e].issuer);
    }
    assert forall e :: RoleIn(users, e) == RoleIn(s.users, e);
    assert UniqueSubs(users);
  }

  predicate Logged(a: Action) {
    match a
    case EnsureUser(_, logged) => logged
    case SetRole(_, _, _, logged) => logged
    case Bootstrap(_, logged) => logged
  }

  lemma StepAgrees(s: State, a: Action)
    requires Valid(s) && Agrees(s)
    ensures Valid(Step(s, a))
    ensures Logged(a) ==> Agrees(Step(s, a))
  {
    match a
    case EnsureUser(sess, logged) =>
      var upserted := UpsertStatement(s.users, sess.email, SubjectOf(sess), ISSUER, sess.name, sess.avatarUrl);
      if upserted.Some? {
        UpsertAgrees(s, sess.email, SubjectOf(sess), ISSUER, sess.name, sess.avatarUrl);
        if sess.email in upserted.value {
          ChangedBoth(State(upserted.value, s.changes), "oauth2-proxy-group-seed", sess.email, Admin, logged);
        }
      }
    case SetRole(caller, target, role, logged) =>
      if MaySetRole(s, caller, target, role) {
        ChangedBoth(s, caller, target, RoleNamed(role).value, logged && s.users[target].role != RoleNamed(role).value);
      }
    case Bootstrap(email, logged) =>
      if email in s.users {
        ChangedBoth(s, "bootstrap", email, Admin, logged);
      }
  }

  lemma ChangedBoth(s: State, author: string, target: string, role: Role, logged: bool)
    requires Valid(s) && Agrees(s) && target in s.users
    ensures Valid(Changed(s, author, target, role, logged))
    ensures Agrees(Changed(s, author, target, role, logged)) <==> logged || s.users[target].role == role
  {
    ChangedChains(s, author, target, role, logged);
    ChangedAgreesIff(s, author, target, role, logged);
  }

  /**
   In every run of whole requests with no failed log insert, replaying the log gives each user's role, and each
   entry starts from the role that the entries before it give.
   */
  lemma {:induction false} LogReplaysToRoles(actions: seq<Action>)
    requires forall a <- actions :: Logged(a)
    ensures Agrees(Run(actions)) && Valid(Run(actions))
  {
    if actions != [] {
      hide Agrees, Valid, Step;
      var n := |actions| - 1;
      assert forall a <- actions[..n] :: a in actions;
      LogReplaysToRoles(actions[..n]);
      StepAgrees(Run(actions[..n]), actions[n]);
    } else {
      StartAgrees();
    }
  }

  lemma StartAgrees()
    ensures Agrees(START) && Valid(START)
  {
  }

  /** The request will give someone another role: what its own guards tell beforehand. */
  predicate WillChangeRole(s: State, a: Action) {
    match a
    case EnsureUser(sess, _) =>
      !SubTaken(s.users, sess.email, SubjectOf(sess), ISSUER) && HasAdminGroup(sess.groups) && Admins(s.users) == {}
    case SetRole(caller, target, role, _) =>
      MaySetRole(s, caller, target, role) && s.users[target].role != RoleNamed(role).value
    case Bootstrap(email, _) => CanBootstrap(s.users, email)
  }

  /** Where the log insert fails, table and log part exactly if the request was one that gives another role. */
  lemma LogPartsIffRoleLost(s: State, a: Action)
    requires Valid(s) && Agrees(s) && !Logged(a)
    ensures Agrees(Step(s, a)) <==> !WillChangeRole(s, a)
  {
    match a
    case EnsureUser(sess, logged) =>
      var upserted := UpsertStatement(s.users, sess.email, SubjectOf(sess), ISSUER, sess.name, sess.avatarUrl);
      if upserted.Some? {
        UpsertAgrees(s, sess.email, SubjectOf(sess), ISSUER, sess.name, sess.avatarUrl);
        assert Admins(upserted.value) == Admins(s.users) by { SameAdmins(s.users, upserted.value, sess.email); }
        ChangedAgreesIff(State(upserted.value, s.changes), "oauth2-proxy-group-seed", sess.email, Admin, logged);
        NoAdminNoRole(upserted.value, sess.email);
      }
    case SetRole(caller, target, role, logged) =>
      if MaySetRole(s, caller, target, role) {
        ChangedAgreesIff(s, caller, target, RoleNamed(role).value, false);
      }
    case Bootstrap(email, logged) =>
      if CanBootstrap(s.users, email) {
        ChangedAgreesIff(s, "bootstrap", email, Admin, logged);
        NoAdminNoRole(s.users, email);
      }
  }

  lemma SameAdmins(users: map<string, User>, users': map<string, User>, email: string)
    requires users'.Keys == users.Keys + {email}
    requires forall e :: RoleIn(users', e) == RoleIn(users, e)
    ensures Admins(users') == Admins(users)
  {
    forall e ensures e in Admins(users') <==> e in Admins(users) {
      assert RoleIn(users', e) == RoleIn(users, e);
    }
  }

  lemma NoAdminNoRole(users: map<string, User>, email: string)
    requires email in users
    ensures Admins(users) == {} ==> !users[email].role.Admin?
  {
    assert users[email].role.Admin? ==> email in Admins(users);
  }

  // ---- Who becomes the first admin ----

  /** A bootstrap, by itself or on signing in, happens exactly when there is no admin, and makes exactly one. */
  lemma BootstrapMakesTheOne(s: State, email: string, logged: bool)
    ensures CanBootstrap(s.users, email) ==> Admins(BootstrapRequest(s, email, logged).users) == {email}
    ensures !CanBootstrap(s.users, email) ==> BootstrapRequest(s, email, logged) == s
  {
  }

  lemma SignInMakesTheOne(s: State, sess: Session, logged: bool)
    requires !SubTaken(s.users, sess.email, SubjectOf(sess), ISSUER)
    ensures var s' := EnsureUserStep(s, sess, logged);
            if Admins(s.users) == {} && HasAdminGroup(sess.groups) then Admins(s'.users) == {sess.email}
            else Admins(s'.users) == Admins(s.users)
  {
    var users := UpsertStatement(s.users, sess.email, SubjectOf(sess), ISSUER, sess.name, sess.avatarUrl).value;
    assert forall e :: e in Admins(users) <==> e in Admins(s.users);
    assert Admins(users) == Admins(s.users);
  }

  /** Bootstrapping can happen again only after the last admin has given the role up. */
  lemma LastAdminLeavesAlone(s: State, a: Action)
    requires Admins(s.users) != {} && Admins(Step(s, a).users) == {}
    ensures a.SetRole? && a.caller == a.target && Admins(s.users) == {a.caller}
  {
    match a
    case EnsureUser(sess, logged) =>
      if !SubTaken(s.users, sess.email, SubjectOf(sess), ISSUER) {
        SignInMakesTheOne(s, sess, logged);
      }
    case Bootstrap(email, logged) =>
    case SetRole(caller, target, role, logged) =>
      var s' := Step(s, a);
      forall e | e in Admins(s.users) ensures e == target {
        assert e != target ==> e in Admins(s'.users);
      }
      assert caller in Admins(s.users);
  }

  // ---- Group headers ----

  /** The non-empty trimmed pieces. */
  function Groups(pieces: seq<string>): seq<string> {
    if pieces == [] then []
    else
      var g := Text.TrimSpace(pieces[|pieces| - 1]);
      Groups(pieces[..|pieces| - 1]) + (if g == "" then [] else [g])
  }

  /** `splitGroups`. */
  method SplitGroups(raw: string) returns (groups: seq<string>)
    ensures groups == if raw == "" then [] else Groups(Text.Split(raw, ","))
  {
    if raw == "" {
      return [];
    }
    groups := [];
    var pieces := Text.Split(raw, ",");
    for i := 0 to |pieces|
      invariant groups == Groups(pieces[..i])
    {
      assert pieces[..i + 1][..i] == pieces[..i];
      var g := Text.TrimSpace(pieces[i]);
      if g != "" {
        groups := groups + [g];
      }
    }
    assert pieces[..|pieces|] == pieces;
  }

  /** How many pieces are not blank. */
  function Visible(pieces: seq<string>): nat {
    if pieces == [] then 0
    else Visible(pieces[..|pieces| - 1]) + (if Text.TrimSpace(pieces[|pieces| - 1]) == "" then 0 else 1)
  }

  /** There are as many groups as pieces that are not blank. */
  lemma {:induction false} GroupsCounted(pieces: seq<string>)
    ensures |Groups(pieces)| == Visible(pieces)
  {
    if pieces != [] {
      GroupsCounted(pieces[..|pieces| - 1]);
    }
  }

  /** And they are those pieces, each trimmed, in order. */
  lemma {:induction false} GroupAt(pieces: seq<string>, i: nat)
    requires i < |pieces| && Text.TrimSpace(pieces[i]) != ""
    ensures Nth(Groups(pieces), Visible(pieces[..i])) == Some(Text.TrimSpace(pieces[i]))
  {
    hide Text.TrimSpace;
    if i == |pieces| - 1 {
      GroupsCounted(pieces[..i]);
    } else {
      GroupAt(pieces[..|pieces| - 1], i);
      assert pieces[..|pieces| - 1][..i] == pieces[..i];
    }
  }

  predicate GroupName(g: string) {
    g != "" && Text.TrimSpace(g) == g && !Text.Contains(g, ",")
  }

  lemma LastGroup(pieces: seq<string>)
    requires pieces != [] && GroupName(pieces[|pieces| - 1])
    ensures Groups(pieces) == Groups(pieces[..|pieces| - 1]) + [pieces[|pieces| - 1]]
  {
    hide Text.TrimSpace, Text.Contains;
  }

  lemma {:induction false} GroupsAsTheyAre(pieces: seq<string>)
    requires forall i | 0 <= i < |pieces| :: GroupName(pieces[i])
    ensures Groups(pieces) == pieces
  {
    hide GroupName;
    if pieces == [] {
      assert Groups(pieces) == [];
    } else {
      hide Groups;
      var n := |pieces| - 1;
      GroupsAsTheyAre(pieces[..n]);
      LastGroup(pieces);
      assert pieces[..n] + [pieces[n]] == pieces;
    }
  }

  /** Group names joined with commas come back as they were. */
  lemma JoinedGroupsComeBack(groups: seq<string>)
    requires groups != [] && forall i | 0 <= i < |groups| :: GroupName(groups[i])
    ensures Groups(Text.Split(Text.Join(groups, ","), ",")) == groups
  {
    Text.SplitJoin(groups, ",");
    GroupsAsTheyAre(groups);
  }
}
