/**
  Single sign-on resolution: `find_or_create_user` and `generate_unique_username` of
  `backend/src/api/oauth.rs`, over a table of user rows.
 */
module Usernames {
  import opened Wrappers
  import opened Strings

  const TRIES: nat := 1000

  /** The `i`-th name tried: the base, then the base with 1, 2, 3 and so on appended. */
  function Candidate(base: string, i: nat): string {
    if i == 0 then base else base + Decimal(i)
  }

  function Fallback(base: string, suffix: string): string {
    base + "_" + suffix
  }

  function Search(names: set<string>, base: string, suffix: string, i: nat): string
    decreases TRIES - i
  {
    if i >= TRIES then Fallback(base, suffix)
    else if Candidate(base, i) !in names then Candidate(base, i)
    else Search(names, base, suffix, i + 1)
  }

  /** `names` holds the username of every row; `suffix` is the start of a random UUID. */
  method GenerateUniqueUsername(names: set<string>, base: string, suffix: string) returns (name: string, ghost k: nat)
    ensures name == Search(names, base, suffix, 0)
    ensures k > 0 ==> base in names && forall j :: 1 <= j < k ==> base + Decimal(j) in names
    ensures if k == 0 then name == base && name !in names
            else if k < 1000 then name == base + Decimal(k) && name !in names
            else k == 1000 && name == base + "_" + suffix
  {
    k := SearchStops(names, base, suffix, 0);
    CandidatesSpelled(base, names, k);
    if base !in names {
      return base, k;
    }
    for i := 1 to TRIES
      invariant Search(names, base, suffix, 0) == Search(names, base, suffix, i)
    {
      var candidate := base + Decimal(i);
      if candidate !in names {
        return candidate, k;
      }
    }
    return Fallback(base, suffix), k;
  }

  lemma CandidatesSpelled(base: string, names: set<string>, k: nat)
    requires forall j :: 0 <= j < k ==> Candidate(base, j) in names
    ensures k > 0 ==> base in names && forall j :: 1 <= j < k ==> base + Decimal(j) in names
  {
    if k > 0 {
      assert Candidate(base, 0) in names;
      forall j | 1 <= j < k ensures base + Decimal(j) in names {
        assert Candidate(base, j) in names;
      }
    }
  }

  lemma {:induction false} CandidateInjective(base: string, i: nat, j: nat)
    requires Candidate(base, i) == Candidate(base, j)
    ensures i == j
  {
    var s, t := Candidate(base, i), Candidate(base, j);
    if i > 0 && j > 0 {
      assert s[|base|..] == Decimal(i) && t[|base|..] == Decimal(j);
      DecimalInjective(i, j);
    }
  }

  function Candidates(base: string, n: nat): set<string> {
    if n == 0 then {} else Candidates(base, n - 1) + {Candidate(base, n - 1)}
  }

  lemma {:induction false} CandidatesAre(base: string, n: nat)
    ensures forall c :: c in Candidates(base, n) <==> exists i :: 0 <= i < n && c == Candidate(base, i)
    ensures |Candidates(base, n)| == n
  {
    if n > 0 {
      CandidatesAre(base, n - 1);
      forall i | 0 <= i < n - 1 ensures Candidate(base, i) != Candidate(base, n - 1) {
        if Candidate(base, i) == Candidate(base, n - 1) {
          CandidateInjective(base, i, n - 1);
        }
      }
      assert Candidate(base, n - 1) !in Candidates(base, n - 1);
      forall c | exists i :: 0 <= i < n && c == Candidate(base, i) ensures c in Candidates(base, n) {
        var i :| 0 <= i < n && c == Candidate(base, i);
        assert i < n - 1 ==> c in Candidates(base, n - 1);
      }
    }
  }

  /** The search stops at the first free candidate, or at the fallback when there is none. */
  lemma {:induction false} SearchStops(names: set<string>, base: string, suffix: string, i: nat) returns (k: nat)
    requires i <= TRIES
    ensures i <= k <= TRIES && forall j :: i <= j < k ==> Candidate(base, j) in names
    ensures k < TRIES ==> Search(names, base, suffix, i) == Candidate(base, k) && Candidate(base, k) !in names
    ensures k == TRIES ==> Search(names, base, suffix, i) == Fallback(base, suffix)
    decreases TRIES - i
  {
    if i == TRIES || Candidate(base, i) !in names {
      k := i;
    } else {
      k := SearchStops(names, base, suffix, i + 1);
    }
  }

  /** The name found is taken exactly when all 1000 candidates are taken and so is the unchecked
      fallback. */
  lemma {:induction false} TakenExactly(names: set<string>, base: string, suffix: string)
    ensures Search(names, base, suffix, 0) in names
            <==> (forall j :: 0 <= j < TRIES ==> Candidate(base, j) in names) && Fallback(base, suffix) in names
  {
    var k := SearchStops(names, base, suffix, 0);
    assert k < TRIES ==> Candidate(base, k) !in names;
  }

  /** The failing case: exactly these names. */
  lemma {:induction false} FallbackTaken(base: string, suffix: string, n: nat)
    requires n == TRIES
    ensures var names := Candidates(base, n) + {Fallback(base, suffix)}; Search(names, base, suffix, 0) in names
  {
    var names := Candidates(base, n) + {Fallback(base, suffix)};
    CandidatesAre(base, n);
    forall j | 0 <= j < TRIES ensures Candidate(base, j) in names {
      assert Candidate(base, j) in Candidates(base, n);
    }
    TakenExactly(names, base, suffix);
  }

  /** With fewer than 1000 usernames the name found is unused, and is the first free candidate, so
      the unchecked fallback is never reached. */
  lemma {:induction false} UnusedByPigeonhole(names: set<string>, base: string, suffix: string) returns (k: nat)
    requires |names| < TRIES
    ensures k < TRIES && Search(names, base, suffix, 0) == Candidate(base, k) && Candidate(base, k) !in names
    ensures forall j :: 0 <= j < k ==> Candidate(base, j) in names
  {
    k := SearchStops(names, base, suffix, 0);
    if k == TRIES {
      CandidatesAre(base, TRIES);
      assert Candidates(base, TRIES) <= names;
      SubsetSize(Candidates(base, TRIES), names);
    }
  }
}

module SsoIdentity {
  import opened Wrappers
  import opened Strings
  import Usernames

  /** A user row. Rows are identified by their position; soft-deleted rows stay. */
  datatype User = User(
    email: string,
    username: string,
    role: string,
    provider: Option<string>,
    externalId: Option<string>,
    deleted: bool)

  type Table = seq<User>

  datatype Login = Login(
    email: string,
    externalId: Option<string>,
    providerKey: string,
    oidc: bool,
    desiredRole: string,
    defaultRole: string,
    autoProvision: bool,
    baseName: string,
    suffix: string)

  datatype LoginError = LinkedElsewhere | NoAccount | InsertRejected

  /** The external identifier, trimmed, unless it is empty. */
  function External(q: Login): Option<string> {
    if q.externalId.Some? && Trim(q.externalId.value) != "" then Some(Trim(q.externalId.value)) else None
  }

  predicate HasIdentity(u: User, provider: string, ext: string) {
    !u.deleted && u.provider == Some(provider) && u.externalId == Some(ext)
  }

  predicate HasEmail(u: User, email: string) {
    !u.deleted && Lower(u.email) == Lower(email)
  }

  /** An answer to a query for one row: any matching row, and none only if there is none. */
  ghost predicate Answers(t: Table, matching: User -> bool, row: Option<nat>) {
    if row.Some? then row.value < |t| && matching(t[row.value])
    else forall i :: 0 <= i < |t| ==> !matching(t[i])
  }

  /** What the database answers during a login. The email is looked up only when the identity is not found. */
  datatype Replies = Replies(byIdentity: Option<nat>, byEmail: Option<nat>, inserted: bool)

  ghost predicate Honest(t: Table, q: Login, d: Replies) {
    && (External(q).Some? ==> Answers(t, (u: User) => HasIdentity(u, q.providerKey, External(q).value), d.byIdentity))
    && ((External(q).Some? && d.byIdentity.Some?) || Answers(t, (u: User) => HasEmail(u, q.email), d.byEmail))
  }

  function Synced(u: User, q: Login): User {
    if q.oidc && q.desiredRole != "" then u.(role := q.desiredRole) else u
  }

  function Names(t: Table): set<string> {
    set i | 0 <= i < |t| :: t[i].username
  }

  function NewUser(t: Table, q: Login): User {
    User(q.email, Usernames.Search(Names(t), q.baseName, q.suffix, 0),
         if q.desiredRole == "" then q.defaultRole else q.desiredRole,
         Some(q.providerKey), External(q), false)
  }

  /** The three stages: by identity, by email with a first link, by creation. */
  function Resolve(t: Table, q: Login, d: Replies): (Table, Result<nat, LoginError>)
    requires d.byIdentity.Some? ==> d.byIdentity.value < |t|
    requires d.byEmail.Some? ==> d.byEmail.value < |t|
  {
    var ext := External(q);
    if ext.Some? && d.byIdentity.Some? then
      var id := d.byIdentity.value;
      (t[id := Synced(t[id], q)], Ok(id))
    else if d.byEmail.Some? then
      var id := d.byEmail.value;
      var u := t[id];
      if u.externalId.Some? && !(u.provider == Some(q.providerKey) && ext == u.externalId) then (t, Err(LinkedElsewhere))
      else if ext.Some? && u.externalId.None? then
        (t[id := Synced(u, q).(provider := Some(q.providerKey), externalId := ext)], Ok(id))
      else (t[id := Synced(u, q)], Ok(id))
    else if !q.autoProvision then (t, Err(NoAccount))
    else if !d.inserted then (t, Err(InsertRejected))
    else (t + [NewUser(t, q)], Ok(|t|))
  }

  datatype Event =
    | SignIn(q: Login, replies: Replies)
    | Register(email: string, username: string)
    | EditProfile(id: nat, newEmail: string, newName: string)
    | SoftDelete(id: nat)

  ghost predicate Legal(t: Table, e: Event) {
    match e
    case SignIn(q, d) =>
      && (d.byIdentity.Some? ==> d.byIdentity.value < |t|)
      && (d.byEmail.Some? ==> d.byEmail.value < |t|)
      && Honest(t, q, d)
    case Register(_, _) => true
    case EditProfile(id, _, _) => id < |t|
    case SoftDelete(id) => id < |t|
  }

  function Step(t: Table, e: Event): Table
    requires Legal(t, e)
  {
    match e
    case SignIn(q, d) => Resolve(t, q, d).0
    case Register(email, name) => t + [User(email, name, "member", None, None, false)]
    case EditProfile(id, email, name) => t[id := t[id].(email := email, username := name)]
    case SoftDelete(id) => t[id := t[id].(deleted := true)]
  }

  ghost predicate IsRun(t: Table, es: seq<Event>)
    decreases |es|
  {
    es == [] || (Legal(t, es[0]) && IsRun(Step(t, es[0]), es[1..]))
  }

  ghost function Run(t: Table, es: seq<Event>): Table
    requires IsRun(t, es)
    decreases |es|
  {
    if es == [] then t else Run(Step(t, es[0]), es[1..])
  }

  // ---------------------------------------------------------------------- the object

  class UserTable {
    var users: Table

    constructor ()
      ensures users == []
    {
      users := [];
    }

    method SelectByIdentity(provider: string, ext: string) returns (row: Option<nat>)
      ensures Answers(users, (u: User) => HasIdentity(u, provider, ext), row)
    {
      for i := 0 to |users|
        invariant forall k :: 0 <= k < i ==> !HasIdentity(users[k], provider, ext)
      {
        if HasIdentity(users[i], provider, ext) {
          return Some(i);
        }
      }
      return None;
    }

    method SelectByEmail(email: string) returns (row: Option<nat>)
      ensures Answers(users, (u: User) => HasEmail(u, email), row)
    {
      for i := 0 to |users|
        invariant forall k :: 0 <= k < i ==> !HasEmail(users[k], email)
      {
        if HasEmail(users[i], email) {
          return Some(i);
        }
      }
      return None;
    }

    /** `inserted` says whether the final INSERT goes through. */
    method FindOrCreateUser(q: Login, inserted: bool) returns (r: Result<nat, LoginError>, ghost d: Replies)
      modifies this
      ensures Legal(old(users), SignIn(q, d)) && (users, r) == Resolve(old(users), q, d)
    {
      var ext := External(q);
      var byIdentity: Option<nat> := None;
      if ext.Some? {
        byIdentity := SelectByIdentity(q.providerKey, ext.value);
      }
      if byIdentity.Some? {
        var id := byIdentity.value;
        users := users[id := Synced(users[id], q)];
        return Ok(id), Replies(byIdentity, None, inserted);
      }

      var byEmail := SelectByEmail(q.email);
      d := Replies(None, byEmail, inserted);
      if byEmail.Some? {
        var id := byEmail.value;
        var u := users[id];
        if u.externalId.Some? {
          var sameProvider := u.provider == Some(q.providerKey);
          var sameExternal := ext == u.externalId;
          if !sameProvider || !sameExternal {
            return Err(LinkedElsewhere), d;
          }
        }
        var updated := Synced(u, q);
        if ext.Some? && u.externalId.None? {
          updated := updated.(provider := Some(q.providerKey), externalId := ext);
        }
        users := users[id := updated];
        return Ok(id), d;
      }
      if !q.autoProvision {
        return Err(NoAccount), d;
      }
      var name, _ := Usernames.GenerateUniqueUsername(Names(users), q.baseName, q.suffix);
      if !inserted {
        return Err(InsertRejected), d;
      }
      var role := if q.desiredRole == "" then q.defaultRole else q.desiredRole;
      users := users + [User(q.email, name, role, Some(q.providerKey), ext, false)];
      return Ok(|users| - 1), d;
    }
  }

  // ------------------------------------------------------------------------- theorems

  /** No two live users share an identity. */
  ghost predicate NoSharedIdentity(t: Table) {
    forall i, j :: 0 <= i < j < |t| && !t[i].deleted && !t[j].deleted && t[i].externalId.Some? ==>
      t[i].provider != t[j].provider || t[i].externalId != t[j].externalId
  }

  lemma {:induction false} StepKeeps(t: Table, e: Event)
    requires Legal(t, e) && NoSharedIdentity(t)
    ensures NoSharedIdentity(Step(t, e))
  {
  }

  /** In every run no two live users share an identity. */
  lemma {:induction false} IdentitiesUnique(t: Table, es: seq<Event>)
    requires IsRun(t, es) && NoSharedIdentity(t)
    ensures NoSharedIdentity(Run(t, es))
    decreases |es|
  {
    if es != [] {
      StepKeeps(t, es[0]);
      IdentitiesUnique(Step(t, es[0]), es[1..]);
    }
  }

  /** A link, once set, is never changed, and only deletion takes the row away. */
  lemma {:induction false} LinkNeverChanges(t: Table, es: seq<Event>, id: nat)
    requires IsRun(t, es) && id < |t| && t[id].externalId.Some?
    ensures id < |Run(t, es)|
    ensures Run(t, es)[id].provider == t[id].provider && Run(t, es)[id].externalId == t[id].externalId
    ensures !t[id].deleted && (forall i :: 0 <= i < |es| ==> es[i] != SoftDelete(id)) ==> !Run(t, es)[id].deleted
    decreases |es|
  {
    if es != [] {
      var u := Step(t, es[0]);
      assert id < |u| && u[id].provider == t[id].provider && u[id].externalId == t[id].externalId;
      LinkNeverChanges(u, es[1..], id);
    }
  }

  /** A successful login with an identity leaves that identity on the user it returns. */
  lemma {:induction false} LoginEstablishesLink(t: Table, q: Login, d: Replies)
    requires Legal(t, SignIn(q, d)) && External(q).Some? && Resolve(t, q, d).1.Ok?
    ensures var (u, r) := Resolve(t, q, d); r.value < |u| && HasIdentity(u[r.value], q.providerKey, External(q).value)
  {
  }

  /** An account linked to another identity is never taken over by email: the login is refused. */
  lemma {:induction false} LinkedAccountRefused(t: Table, q: Login, d: Replies)
    requires Legal(t, SignIn(q, d)) && d.byEmail.Some? && t[d.byEmail.value].externalId.Some?
    requires !(External(q).Some? && d.byIdentity.Some?)
    ensures Resolve(t, q, d) == (t, Err(LinkedElsewhere))
  {
  }

  lemma {:induction false} IdentityFound(t: Table, q: Login, d: Replies, id: nat)
    requires Legal(t, SignIn(q, d)) && NoSharedIdentity(t) && External(q).Some?
    requires id < |t| && HasIdentity(t[id], q.providerKey, External(q).value)
    ensures Resolve(t, q, d).1 == Ok(id)
  {
  }

  /** An identity that has resolved to a user resolves to that user on every later login, whatever
      email it presents and whatever happens in between, until that user is deleted. */
  lemma {:induction false} IdentityStable(t: Table, q: Login, d: Replies, es: seq<Event>, q': Login, d': Replies)
    requires NoSharedIdentity(t) && Legal(t, SignIn(q, d)) && Resolve(t, q, d).1.Ok?
    requires IsRun(Resolve(t, q, d).0, es)
    requires forall i :: 0 <= i < |es| ==> es[i] != SoftDelete(Resolve(t, q, d).1.value)
    requires Legal(Run(Resolve(t, q, d).0, es), SignIn(q', d'))
    requires q'.providerKey == q.providerKey && External(q') == External(q) && External(q).Some?
    ensures Resolve(Run(Resolve(t, q, d).0, es), q', d').1 == Resolve(t, q, d).1
  {
    var (u, r) := Resolve(t, q, d);
    LoginEstablishesLink(t, q, d);
    StepKeeps(t, SignIn(q, d));
    IdentitiesUnique(u, es);
    LinkNeverChanges(u, es, r.value);
    IdentityFound(Run(u, es), q', d', r.value);
  }

  // --------------------------------------------------------------- what a login changes

  /** No live user has the presented identity. */
  ghost predicate IdentityFree(t: Table, q: Login) {
    External(q).Some? ==>
      forall i :: 0 <= i < |t| && !t[i].deleted ==> t[i].provider != Some(q.providerKey) || t[i].externalId != External(q)
  }

  /** No live user has the presented email, in any case of its ASCII letters. */
  ghost predicate EmailFree(t: Table, q: Login) {
    forall i :: 0 <= i < |t| && !t[i].deleted ==> Lower(t[i].email) != Lower(q.email)
  }

  lemma {:induction false} FreeExactly(t: Table, q: Login, d: Replies)
    requires Legal(t, SignIn(q, d))
    ensures IdentityFree(t, q) <==> !(External(q).Some? && d.byIdentity.Some?)
    ensures IdentityFree(t, q) ==> (EmailFree(t, q) <==> d.byEmail.None?)
  {
    if External(q).Some? {
      if d.byIdentity.Some? {
        assert HasIdentity(t[d.byIdentity.value], q.providerKey, External(q).value);
      } else {
        forall i | 0 <= i < |t| && !t[i].deleted
          ensures t[i].provider != Some(q.providerKey) || t[i].externalId != External(q)
        {
          assert !HasIdentity(t[i], q.providerKey, External(q).value);
        }
      }
    }
    if !(External(q).Some? && d.byIdentity.Some?) {
      if d.byEmail.Some? {
        assert HasEmail(t[d.byEmail.value], q.email);
      } else {
        forall i | 0 <= i < |t| && !t[i].deleted ensures Lower(t[i].email) != Lower(q.email) {
          assert !HasEmail(t[i], q.email);
        }
      }
    }
  }

  /** A login adds a row exactly if no live user has the identity or the email, provisioning is on, and
      the insert goes through; otherwise such a login is refused. */
  lemma {:induction false} ProvisionsExactly(t: Table, q: Login, d: Replies)
    requires Legal(t, SignIn(q, d))
    ensures var (u, r) := Resolve(t, q, d);
            && (|u| > |t| <==> IdentityFree(t, q) && EmailFree(t, q) && q.autoProvision && d.inserted)
            && (|u| > |t| ==> |u| == |t| + 1 && u[..|t|] == t && r == Ok(|t|))
            && (IdentityFree(t, q) && EmailFree(t, q) && !q.autoProvision ==> u == t && r == Err(NoAccount))
            && (IdentityFree(t, q) && EmailFree(t, q) && q.autoProvision && !d.inserted ==> u == t && r == Err(InsertRejected))
  {
    FreeExactly(t, q, d);
  }

  /** A user found by identity, or by email without a link, is the answer. */
  lemma {:induction false} FoundIsReturned(t: Table, q: Login, d: Replies)
    requires Legal(t, SignIn(q, d))
    ensures External(q).Some? && d.byIdentity.Some? ==> Resolve(t, q, d).1 == Ok(d.byIdentity.value)
    ensures IdentityFree(t, q) && d.byEmail.Some? && t[d.byEmail.value].externalId.None? ==>
              Resolve(t, q, d).1 == Ok(d.byEmail.value)
  {
    FreeExactly(t, q, d);
  }

  /** The row that a login adds. */
  lemma {:induction false} ProvisionedUser(t: Table, q: Login, d: Replies)
    requires Legal(t, SignIn(q, d)) && |Resolve(t, q, d).0| > |t|
    ensures var u := Resolve(t, q, d).0[|t|];
            && u.email == q.email && !u.deleted
            && u.role == (if q.desiredRole == "" then q.defaultRole else q.desiredRole)
            && u.provider == Some(q.providerKey) && u.externalId == External(q)
            && (|Names(t)| < 1000 ==> forall i :: 0 <= i < |t| ==> t[i].username != u.username)
  {
    ProvisionsExactly(t, q, d);
    if |Names(t)| < 1000 {
      var k := Usernames.UnusedByPigeonhole(Names(t), q.baseName, q.suffix);
    }
  }

  function Registrations(es: seq<Event>): nat {
    if es == [] then 0 else (if es[0].Register? then 1 else 0) + Registrations(es[1..])
  }

  /** Without provisioning the table grows exactly by the registrations. */
  lemma {:induction false} ClosedServer(t: Table, es: seq<Event>)
    requires IsRun(t, es) && forall i :: 0 <= i < |es| && es[i].SignIn? ==> !es[i].q.autoProvision
    ensures |Run(t, es)| == |t| + Registrations(es)
    decreases |es|
  {
    if es != [] {
      if es[0].SignIn? {
        assert !es[0].q.autoProvision;
        ProvisionsExactly(t, es[0].q, es[0].replies);
        LoginChangesOnly(t, es[0].q, es[0].replies, 0);
      }
      ClosedServer(Step(t, es[0]), es[1..]);
    }
  }

  /** Of a row that was there, a login can change the role, if the provider is an OIDC one with a role to
      give, and set a link that was missing; both only in the row that it returns. */
  lemma {:induction false} LoginChangesOnly(t: Table, q: Login, d: Replies, i: nat)
    requires Legal(t, SignIn(q, d))
    ensures |Resolve(t, q, d).0| >= |t|
    ensures i < |t| ==>
              var (u, r) := Resolve(t, q, d);
              var mine := r == Ok(i);
              && u[i].email == t[i].email && u[i].username == t[i].username && u[i].deleted == t[i].deleted
              && u[i].role == (if mine && q.oidc && q.desiredRole != "" then q.desiredRole else t[i].role)
              && (if mine && External(q).Some? && t[i].externalId.None?
                  then u[i].provider == Some(q.providerKey) && u[i].externalId == External(q)
                  else u[i].provider == t[i].provider && u[i].externalId == t[i].externalId)
  {
    if External(q).Some? && d.byIdentity.Some? {
      assert HasIdentity(t[d.byIdentity.value], q.providerKey, External(q).value);
    }
  }

  /** The presented identifier counts without the white space around it, and not at all if nothing is left. */
  lemma {:induction false} ExternalIs(q: Login, before: string, core: string, after: string)
    requires Blank(before) && Tight(core) && Blank(after) && q.externalId == Some(before + core + after)
    ensures External(q) == if core == "" then None else Some(core)
  {
    TrimIs(before, core, after);
  }
}
