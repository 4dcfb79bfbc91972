/**
 * The vault routes (routes/manage.js): a token gate in front of
 * owner-scoped create, list and delete of `password` entries.
 */
module Manage {
  import opened Common
  import opened Records
  import opened Crypto
  import opened Http
  import Header

  /** What `verifyToken` decides: no token (401), a token that does not
      verify (403), or the decoded claims handed on as `req.user`. */
  datatype Gate = NoToken | BadToken | Caller(claims: Claims)

  /** `verifyToken` (routes/manage.js:7-18). */
  function Authenticate(p: Primitives, now: int, authorization: Option<string>): (g: Gate)
    ensures g.NoToken? <==> Header.BearerToken(authorization).None?
    ensures g.Caller? ==> p.verify(Header.BearerToken(authorization).value, now) == Some(g.claims)
    ensures g.BadToken? ==> p.verify(Header.BearerToken(authorization).value, now).None?
  {
    match Header.BearerToken(authorization)
    case None => NoToken
    case Some(token) =>
      match p.verify(token, now)
      case None => BadToken
      case Some(claims) => Caller(claims)
  }

  /** A token signed over some claims and presented behind any scheme word
      admits exactly those claims before their `exp`, and 403 from then on. */
  lemma IssuedTokenGate(p: Primitives, now: int, scheme: string, c: Claims)
    requires TokenSound(p)
    requires Header.Space !in scheme
    ensures var g := Authenticate(p, now, Some(scheme + [Header.Space] + p.sign(c)));
            && (now < c.exp ==> g == Caller(c))
            && (now >= c.exp ==> g == BadToken)
  {
    Header.SchemeIgnored(scheme, p.sign(c));
  }

  /** The response `verifyToken` sends when it does not call `next()`. */
  function Deny(g: Gate, st: Store): Outcome
    requires !g.Caller?
  {
    if g.NoToken? then Outcome(Unauthorized, Message("Unauthorized"), st)
    else Outcome(Forbidden, Message("Invalid token"), st)
  }

  /** The POST /manage handler for an authenticated caller (routes/manage.js:20-39). */
  function Create(st: Store, caller: Claims, site: string, username: string, password: string): (r: Outcome)
    ensures r.store.accounts == st.accounts
    ensures r.status in {Ok, ServerError}
    ensures r.status != Ok ==> r.store == st && r.body == Failure
    ensures r.status == Ok <==> Present(site) && Present(username) && Present(password)
    ensures r.status == Ok ==>
              && r.body.Saved?
              && r.body.message == "Saved successfully"
              && r.store.entries == st.entries + [r.body.newdata]
              && r.body.newdata.userId == caller.id
              && r.body.newdata.site == site
              && r.body.newdata.username == username
              && r.body.newdata.password == password
              && (forall i :: 0 <= i < |st.entries| ==> st.entries[i].id != r.body.newdata.id)
              && st.issued <= r.body.newdata.id < r.store.issued
  {
    var entry := Entry(NextEntryId(st), site, caller.id, username, password);
    if !EntryValid(entry) then Outcome(ServerError, Failure, st)
    else Outcome(Ok, Saved(entry, "Saved successfully"), st.(entries := st.entries + [entry], issued := entry.id + 1))
  }

  /** The GET /retrive handler for an authenticated caller (routes/manage.js:42-52). */
  function List(st: Store, caller: Claims): (r: Outcome)
    ensures r.status == Ok && r.store == st
    ensures r.body.EntryList?
    ensures forall e :: e in r.body.data <==> e in st.entries && e.userId == caller.id
    ensures forall e :: multiset(r.body.data)[e] == if e.userId == caller.id then multiset(st.entries)[e] else 0
  {
    OwnedByCounts(st.entries, caller.id);
    Outcome(Ok, EntryList(OwnedBy(st.entries, caller.id)), st)
  }

  /** The DELETE /manage/:id handler for an authenticated caller
      (routes/manage.js:55-73). `id` is `None` when the path segment is not
      an ObjectId, on which the store query throws. */
  function Delete(st: Store, caller: Claims, id: Option<Id>): (r: Outcome)
    ensures r.store.accounts == st.accounts && r.store.issued == st.issued
    ensures r.status in {Ok, NotFound, ServerError}
    ensures r.status != Ok ==> r.store == st
    ensures r.status == ServerError <==> id.None?
    ensures r.status == NotFound <==> id.Some? && !HasOwned(st.entries, id.value, caller.id)
    ensures r.status == NotFound ==> r.body == Message("Password entry not found or unauthorized")
    ensures r.status == Ok ==>
              && r.body == Message("Password entry deleted successfully")
              && exists k :: 0 <= k < |st.entries|
                   && st.entries[k].id == id.value
                   && (forall j :: 0 <= j < k ==> st.entries[j].id != id.value)
                   && r.store.entries == st.entries[..k] + st.entries[k + 1..]
  {
    match id
    case None => Outcome(ServerError, Failure, st)
    case Some(i) =>
      if !HasOwned(st.entries, i, caller.id) then
        Outcome(NotFound, Message("Password entry not found or unauthorized"), st)
      else
        match IndexOfId(st.entries, i)
        case None => assert false; Outcome(ServerError, Failure, st)
        case Some(k) =>
          Outcome(Ok, Message("Password entry deleted successfully"), st.(entries := RemoveAt(st.entries, k)))
  }

  /** With unique `_id`s a successful delete removes exactly the caller's
      entry with that id: one entry fewer, the id gone, every other entry
      kept in order, and nobody else's listing touched. */
  lemma DeleteOwnedOnly(st: Store, caller: Claims, id: Id)
    requires UniqueEntryIds(st.entries)
    requires Delete(st, caller, Some(id)).status == Ok
    ensures var after := Delete(st, caller, Some(id)).store.entries;
            && |after| == |st.entries| - 1
            && UniqueEntryIds(after)
            && (forall e :: e in after ==> e.id != id)
            && (forall e :: e in st.entries && e.id != id ==> e in after)
            && (forall e :: e in st.entries && e.id == id ==> e.userId == caller.id)
            && (forall u :: u != caller.id ==> OwnedBy(after, u) == OwnedBy(st.entries, u))
  {
    var k := DeletedIndex(st, caller, id);
    var after := Delete(st, caller, Some(id)).store.entries;
    RemoveKeepsUnique(st.entries, k);
    forall u | u != caller.id ensures OwnedBy(after, u) == OwnedBy(st.entries, u) {
      RemoveOthers(st.entries, k, u);
    }
  }

  /** The position a successful delete removes holds the caller's entry
      with that `_id`, the only entry with it. */
  lemma DeletedIndex(st: Store, caller: Claims, id: Id) returns (k: nat)
    requires UniqueEntryIds(st.entries)
    requires Delete(st, caller, Some(id)).status == Ok
    ensures k < |st.entries|
    ensures st.entries[k].id == id && st.entries[k].userId == caller.id
    ensures Delete(st, caller, Some(id)).store.entries == RemoveAt(st.entries, k)
  {
    k :| 0 <= k < |st.entries| && st.entries[k].id == id && st.entries[k].userId == caller.id;
    assert IndexOfId(st.entries, id).value == k;
  }

  /** Create and delete are inverse: deleting the entry just created
      restores both collections it was created in; only the bound on
      issued `_id`s stays advanced. */
  lemma CreateThenDelete(st: Store, caller: Claims, site: string, username: string, password: string)
    requires Create(st, caller, site, username, password).status == Ok
    ensures var c := Create(st, caller, site, username, password);
            Delete(c.store, caller, Some(c.body.newdata.id))
              == Outcome(Ok, Message("Password entry deleted successfully"), st.(issued := c.store.issued))
  {
  }

  /** A deleted `_id` is never given out again: after an entry is created
      and deleted, any later create gets another `_id`, so repeating the
      same delete finds nothing and answers 404. */
  lemma StaleDeleteNotFound(st: Store, caller: Claims, site: string, username: string, password: string,
                            site2: string, username2: string, password2: string)
    requires Create(st, caller, site, username, password).status == Ok
    ensures var created := Create(st, caller, site, username, password);
            var id := created.body.newdata.id;
            var deleted := Delete(created.store, caller, Some(id));
            var recreated := Create(deleted.store, caller, site2, username2, password2);
            && deleted.status == Ok
            && Delete(recreated.store, caller, Some(id)).status == NotFound
  {
  }

  /** The same for an entry already in a `Valid` store: once the caller
      deletes it, no later create reissues its `_id`, so repeating the
      delete answers 404. */
  lemma DeletedIdNeverReissued(st: Store, caller: Claims, id: Id, site: string, username: string, password: string)
    requires Valid(st)
    requires HasOwned(st.entries, id, caller.id)
    ensures var deleted := Delete(st, caller, Some(id));
            var created := Create(deleted.store, caller, site, username, password);
            && deleted.status == Ok
            && Delete(created.store, caller, Some(id)).status == NotFound
  {
  }

  /** After a create the caller's listing gains the new entry at its end,
      and every other owner's listing is unchanged. */
  lemma CreateThenList(st: Store, caller: Claims, site: string, username: string, password: string, owner: Id)
    requires Create(st, caller, site, username, password).status == Ok
    ensures var c := Create(st, caller, site, username, password);
            OwnedBy(c.store.entries, owner)
              == OwnedBy(st.entries, owner) + (if owner == caller.id then [c.body.newdata] else [])
  {
    var c := Create(st, caller, site, username, password);
    OwnedByAppend(st.entries, [c.body.newdata], owner);
    assert [c.body.newdata][1..] == [];
  }

  /** POST /manage behind the gate. */
  function CreateRoute(st: Store, p: Primitives, now: int, authorization: Option<string>,
                       site: string, username: string, password: string): Outcome
  {
    var g := Authenticate(p, now, authorization);
    if g.Caller? then Create(st, g.claims, site, username, password) else Deny(g, st)
  }

  /** GET /retrive behind the gate. */
  function ListRoute(st: Store, p: Primitives, now: int, authorization: Option<string>): Outcome
  {
    var g := Authenticate(p, now, authorization);
    if g.Caller? then List(st, g.claims) else Deny(g, st)
  }

  /** DELETE /manage/:id behind the gate. */
  function DeleteRoute(st: Store, p: Primitives, now: int, authorization: Option<string>, id: Option<Id>): Outcome
  {
    var g := Authenticate(p, now, authorization);
    if g.Caller? then Delete(st, g.claims, id) else Deny(g, st)
  }

  /** The gate in front of all three vault routes: without a token every
      route answers 401, with a token that fails verification 403, and in
      both cases the handler never runs and the store is untouched;
      otherwise the handler runs as the decoded claims. */
  lemma GateGuardsRoutes(st: Store, p: Primitives, now: int, authorization: Option<string>,
                         site: string, username: string, password: string, id: Option<Id>)
    ensures var token := Header.BearerToken(authorization);
            var routes := [CreateRoute(st, p, now, authorization, site, username, password),
                           ListRoute(st, p, now, authorization),
                           DeleteRoute(st, p, now, authorization, id)];
            && (token.None? ==> forall i :: 0 <= i < 3 ==>
                  routes[i] == Outcome(Unauthorized, Message("Unauthorized"), st))
            && (token.Some? && p.verify(token.value, now).None? ==> forall i :: 0 <= i < 3 ==>
                  routes[i] == Outcome(Forbidden, Message("Invalid token"), st))
            && (token.Some? && p.verify(token.value, now).Some? ==>
                  var c := p.verify(token.value, now).value;
                  && routes[0] == Create(st, c, site, username, password)
                  && routes[1] == List(st, c)
                  && routes[2] == Delete(st, c, id))
  {
  }
}
