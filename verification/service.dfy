/**
 * The whole backend as one state machine: each request is a pure
 * transition over the two collections, and a run is a sequence of them.
 */
module Service {
  import opened Common
  import opened Records
  import opened Crypto
  import opened Http
  import opened Auth
  import opened Manage
  import Header

  /** The five routes with the request parts they read. */
  datatype Request =
    | SignupRequest(username: string, email: string, password: string)
    | LoginRequest(email: string, password: string)
    | CreateRequest(authorization: Option<string>, site: string, username: string, password: string)
    | ListRequest(authorization: Option<string>)
    | DeleteRequest(authorization: Option<string>, id: Option<Id>)

  /** A request with the clock reading and bcrypt salt of its moment. */
  datatype Call = Call(request: Request, now: int, salt: Salt)

  function Handle(st: Store, p: Primitives, c: Call): Outcome
  {
    match c.request
    case SignupRequest(username, email, password) => Signup(st, p, c.salt, username, email, password)
    case LoginRequest(email, password) => Login(st, p, c.now, email, password)
    case CreateRequest(authorization, site, username, password) =>
      CreateRoute(st, p, c.now, authorization, site, username, password)
    case ListRequest(authorization) => ListRoute(st, p, c.now, authorization)
    case DeleteRequest(authorization, id) => DeleteRoute(st, p, c.now, authorization, id)
  }

  /** The `_id` a vault request acts as: the one in its verified token.
      Account requests and refused vault requests act as nobody. */
  function Actor(p: Primitives, c: Call): Option<Id>
  {
    match c.request
    case CreateRequest(authorization, _, _, _) => ActorOf(Authenticate(p, c.now, authorization))
    case ListRequest(authorization) => ActorOf(Authenticate(p, c.now, authorization))
    case DeleteRequest(authorization, _) => ActorOf(Authenticate(p, c.now, authorization))
    case _ => None
  }

  function ActorOf(g: Gate): Option<Id>
  {
    if g.Caller? then Some(g.claims.id) else None
  }

  /** Every request keeps `_id`s and emails unique. */
  lemma HandleKeepsValid(st: Store, p: Primitives, c: Call)
    requires Valid(st)
    ensures Valid(Handle(st, p, c).store)
  {
  }

  /** Isolation, on the store: a request leaves the listing of every owner
      it does not act as exactly as it was. */
  lemma HandleIsolation(st: Store, p: Primitives, c: Call, owner: Id)
    requires Valid(st)
    requires Actor(p, c) != Some(owner)
    ensures OwnedBy(Handle(st, p, c).store.entries, owner) == OwnedBy(st.entries, owner)
  {
    match c.request
    case SignupRequest(_, _, _) =>
    case LoginRequest(_, _) =>
    case CreateRequest(authorization, site, username, password) =>
      var g := Authenticate(p, c.now, authorization);
      if g.Caller? && Create(st, g.claims, site, username, password).status == Ok {
        CreateThenList(st, g.claims, site, username, password, owner);
      }
    case ListRequest(_) =>
    case DeleteRequest(authorization, id) =>
      var g := Authenticate(p, c.now, authorization);
      if g.Caller? && id.Some? && Delete(st, g.claims, id).status == Ok {
        DeleteOwnedOnly(st, g.claims, id.value);
      }
  }

  /** Isolation, on what a request sees and removes: every entry sent back
      and every entry removed belongs to the request's actor, and only
      vault requests touch the entries at all. */
  lemma HandleScope(st: Store, p: Primitives, c: Call)
    requires Valid(st)
    ensures var r := Handle(st, p, c);
            && (r.body.EntryList? ==> Actor(p, c).Some? && forall e :: e in r.body.data ==> e.userId == Actor(p, c).value)
            && (r.body.Saved? ==> Actor(p, c).Some? && r.body.newdata.userId == Actor(p, c).value)
            && (forall e :: e in st.entries && e !in r.store.entries ==> Actor(p, c) == Some(e.userId))
            && (Actor(p, c).None? ==> r.store.entries == st.entries)
  {
  }

  /** The store after handling the calls one after another. */
  function Run(st: Store, p: Primitives, calls: seq<Call>): Store
    decreases |calls|
  {
    if |calls| == 0 then st else Run(Handle(st, p, calls[0]).store, p, calls[1..])
  }

  /** Uniqueness of `_id`s and emails holds after any sequence of requests. */
  lemma {:induction false} RunKeepsValid(st: Store, p: Primitives, calls: seq<Call>)
    requires Valid(st)
    ensures Valid(Run(st, p, calls))
    decreases |calls|
  {
    if |calls| > 0 {
      HandleKeepsValid(st, p, calls[0]);
      RunKeepsValid(Handle(st, p, calls[0]).store, p, calls[1..]);
    }
  }

  /** The bound on issued entry `_id`s never goes down, so an `_id` once
      given out is never given out again by any later request. */
  lemma {:induction false} RunKeepsIssued(st: Store, p: Primitives, calls: seq<Call>)
    ensures st.issued <= Run(st, p, calls).issued
    decreases |calls|
  {
    if |calls| > 0 {
      RunKeepsIssued(Handle(st, p, calls[0]).store, p, calls[1..]);
    }
  }

  /** An owner's entries change only through requests that act as that owner. */
  lemma {:induction false} RunIsolation(st: Store, p: Primitives, calls: seq<Call>, owner: Id)
    requires Valid(st)
    requires forall i :: 0 <= i < |calls| ==> Actor(p, calls[i]) != Some(owner)
    ensures OwnedBy(Run(st, p, calls).entries, owner) == OwnedBy(st.entries, owner)
    decreases |calls|
  {
    if |calls| > 0 {
      HandleIsolation(st, p, calls[0], owner);
      HandleKeepsValid(st, p, calls[0]);
      RunIsolation(Handle(st, p, calls[0]).store, p, calls[1..], owner);
    }
  }

  /** Accounts are never removed or altered: every run only appends to them. */
  lemma {:induction false} RunKeepsAccounts(st: Store, p: Primitives, calls: seq<Call>)
    ensures var accounts := Run(st, p, calls).accounts;
            |st.accounts| <= |accounts| && accounts[..|st.accounts|] == st.accounts
    decreases |calls|
  {
    if |calls| > 0 {
      var next := Handle(st, p, calls[0]).store;
      assert |st.accounts| <= |next.accounts| && next.accounts[..|st.accounts|] == st.accounts;
      RunKeepsAccounts(next, p, calls[1..]);
      var accounts := Run(st, p, calls).accounts;
      assert accounts[..|st.accounts|] == accounts[..|next.accounts|][..|st.accounts|];
    }
  }

  /** The end-to-end walk: alice signs up, logs in, saves a github
      credential with the issued token, sees it listed, deletes it by its
      `_id`, then lists nothing, and a repeated delete of that `_id`
      answers 404. Her account is still there and no entry remains. */
  lemma AliceScenario(p: Primitives, salt: Salt, now: int)
    requires Sound(p)
    ensures var s0 := Store([], [], 0);
            var signup := Signup(s0, p, salt, "alice", "a@x.com", "pw1");
            var login := Login(signup.store, p, now, "a@x.com", "pw1");
            var header := Some("Bearer" + [Header.Space] + login.body.token);
            var create := CreateRoute(signup.store, p, now, header, "github", "alice", "secret");
            && signup.status == Ok
            && login.status == Ok && login.body.LoginSuccess?
            && create.status == Ok && create.body.Saved?
            && var saved := create.body.newdata;
               var listed := ListRoute(create.store, p, now, header);
               var deleted := DeleteRoute(create.store, p, now, header, Some(saved.id));
               var relisted := ListRoute(deleted.store, p, now, header);
               && saved.userId == login.body.userid
               && listed == Outcome(Ok, EntryList([saved]), create.store)
               && deleted.status == Ok
               && deleted.store.accounts == signup.store.accounts && deleted.store.entries == []
               && relisted == Outcome(Ok, EntryList([]), deleted.store)
               && DeleteRoute(deleted.store, p, now, header, Some(saved.id)).status == NotFound
  {
    var s0 := Store([], [], 0);
    var signup := Signup(s0, p, salt, "alice", "a@x.com", "pw1");
    assert !EmailTaken(s0.accounts, "a@x.com");
    SignupThenLogin(s0, p, salt, now, "alice", "a@x.com", "pw1");
    var login := Login(signup.store, p, now, "a@x.com", "pw1");
    var account := signup.store.accounts[0];
    var claims := TokenClaims(account, now);
    assert login.body.token == p.sign(claims);
    var header := Some("Bearer" + [Header.Space] + login.body.token);
    IssuedTokenGate(p, now, "Bearer", claims);
    assert Authenticate(p, now, header) == Caller(claims);
    var create := CreateRoute(signup.store, p, now, header, "github", "alice", "secret");
    assert create == Create(signup.store, claims, "github", "alice", "secret");
    CreateThenList(signup.store, claims, "github", "alice", "secret", claims.id);
    assert OwnedBy(signup.store.entries, claims.id) == [];
    CreateThenDelete(signup.store, claims, "github", "alice", "secret");
    var deleted := Delete(create.store, claims, Some(create.body.newdata.id));
    assert deleted.store.entries == [];
    assert !HasOwned(deleted.store.entries, create.body.newdata.id, claims.id);
  }
}
