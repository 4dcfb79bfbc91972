/**
 * The two collections (models/user.js, models/password.js) and the store
 * queries the routes issue against them.
 */
module Records {
  import opened Common

  /** A `user` document; the plaintext password is not a field. */
  datatype Account = Account(id: Id, username: string, email: string, passwordHash: string)

  /** A `password` document: a site credential owned by `userId`. */
  datatype Entry = Entry(id: Id, site: string, userId: Id, username: string, password: string)

  /** The database: both collections in insertion order, and a bound
      above every entry `_id` ever issued, so that an ObjectId is never
      given out twice, even after its entry was deleted. */
  datatype Store = Store(accounts: seq<Account>, entries: seq<Entry>, issued: Id)

  /** `required: true` on a string path: mongoose refuses an empty value. */
  predicate Present(s: string)
  {
    s != ""
  }

  predicate AccountValid(a: Account)
  {
    Present(a.username) && Present(a.email) && Present(a.passwordHash)
  }

  predicate EntryValid(e: Entry)
  {
    Present(e.site) && Present(e.username) && Present(e.password)
  }

  /** MongoDB's unique `_id` indexes and the unique `email` index. */
  ghost predicate UniqueAccounts(accounts: seq<Account>)
  {
    forall i, j :: 0 <= i < j < |accounts| ==>
      accounts[i].id != accounts[j].id && accounts[i].email != accounts[j].email
  }

  ghost predicate UniqueEntryIds(entries: seq<Entry>)
  {
    forall i, j :: 0 <= i < j < |entries| ==> entries[i].id != entries[j].id
  }

  /** Every stored entry `_id` was issued, so lies below `issued`. */
  ghost predicate EntryIdsIssued(st: Store)
  {
    forall i :: 0 <= i < |st.entries| ==> st.entries[i].id < st.issued
  }

  ghost predicate Valid(st: Store)
  {
    UniqueAccounts(st.accounts) && UniqueEntryIds(st.entries) && EntryIdsIssued(st)
  }

  /** The `_id` a newly saved document receives: one more than the
      largest identifier in the collection, hence different from all. */
  function NextId<T>(docs: seq<T>, idOf: T -> Id): (next: Id)
    ensures forall i :: 0 <= i < |docs| ==> idOf(docs[i]) < next
    ensures next == 0 || exists i :: 0 <= i < |docs| && next == idOf(docs[i]) + 1
  {
    if |docs| == 0 then 0
    else
      var rest := NextId(docs[1..], idOf);
      if idOf(docs[0]) < rest then rest else idOf(docs[0]) + 1
  }

  /** The `_id` of a new `password` document: at least `issued` and
      different from every stored entry `_id`. In a `Valid` store every
      `_id` ever issued lies below `issued`, so this one is new. */
  function NextEntryId(st: Store): (id: Id)
    ensures id >= st.issued
    ensures forall i :: 0 <= i < |st.entries| ==> st.entries[i].id != id
    ensures Valid(st) ==> id == st.issued
  {
    var above := NextId(st.entries, (e: Entry) => e.id);
    if above < st.issued then st.issued else above
  }

  ghost predicate EmailTaken(accounts: seq<Account>, email: string)
  {
    exists i :: 0 <= i < |accounts| && accounts[i].email == email
  }

  /** `user.findOne({ email })`: the first account with exactly that email. */
  function FindByEmail(accounts: seq<Account>, email: string): (found: Option<Account>)
    ensures found.None? <==> !EmailTaken(accounts, email)
    ensures found.Some? ==> found.value in accounts && found.value.email == email
  {
    if |accounts| == 0 then None
    else if accounts[0].email == email then Some(accounts[0])
    else
      var found := FindByEmail(accounts[1..], email);
      assert EmailTaken(accounts[1..], email) ==> EmailTaken(accounts, email) by {
        if EmailTaken(accounts[1..], email) {
          var i :| 0 <= i < |accounts| - 1 && accounts[1..][i].email == email;
          assert accounts[i + 1].email == email;
        }
      }
      assert EmailTaken(accounts, email) ==> EmailTaken(accounts[1..], email) by {
        if EmailTaken(accounts, email) {
          var i :| 0 <= i < |accounts| && accounts[i].email == email;
          assert i != 0;
          assert accounts[1..][i - 1].email == email;
        }
      }
      found
  }

  /** With unique emails the lookup finds the one account holding the email. */
  lemma FindByEmailUnique(accounts: seq<Account>, a: Account)
    requires UniqueAccounts(accounts)
    requires a in accounts
    ensures FindByEmail(accounts, a.email) == Some(a)
  {
  }

  /** `Password.find({ userId })`: the entries of one owner, in store order. */
  function OwnedBy(entries: seq<Entry>, owner: Id): (mine: seq<Entry>)
    ensures |mine| <= |entries|
    ensures forall e :: e in mine <==> e in entries && e.userId == owner
  {
    if |entries| == 0 then []
    else
      var rest := OwnedBy(entries[1..], owner);
      assert forall e :: e in entries <==> e == entries[0] || e in entries[1..] by {
        assert entries == [entries[0]] + entries[1..];
      }
      (if entries[0].userId == owner then [entries[0]] else []) + rest
  }

  /** The owner filter keeps each of the owner's entries as many times as
      it is stored, and no other entry at all. */
  lemma {:induction false} OwnedByCounts(entries: seq<Entry>, owner: Id)
    ensures forall e :: multiset(OwnedBy(entries, owner))[e]
                          == if e.userId == owner then multiset(entries)[e] else 0
    decreases |entries|
  {
    if |entries| > 0 {
      OwnedByCounts(entries[1..], owner);
      assert entries == [entries[0]] + entries[1..];
      assert multiset(entries) == multiset([entries[0]]) + multiset(entries[1..]);
    }
  }

  /** Filtering by owner distributes over concatenation. */
  lemma {:induction false} OwnedByAppend(a: seq<Entry>, b: seq<Entry>, owner: Id)
    ensures OwnedBy(a + b, owner) == OwnedBy(a, owner) + OwnedBy(b, owner)
    decreases |a|
  {
    if |a| == 0 {
      assert a + b == b;
    } else {
      assert (a + b)[0] == a[0];
      assert (a + b)[1..] == a[1..] + b;
      OwnedByAppend(a[1..], b, owner);
    }
  }

  /** `Password.findOne({ _id: id, userId })` finds a document. With
      unique `_id`s this test agrees with the target of
      `findByIdAndDelete(id)`: it exists and belongs to the owner. */
  predicate HasOwned(entries: seq<Entry>, id: Id, owner: Id): (found: bool)
    ensures found <==> exists e :: e in entries && e.id == id && e.userId == owner
    ensures UniqueEntryIds(entries) ==>
              (found <==> IndexOfId(entries, id).Some? && entries[IndexOfId(entries, id).value].userId == owner)
  {
    exists k :: 0 <= k < |entries| && entries[k].id == id && entries[k].userId == owner
  }

  /** The position of the first entry with the given `_id`, the document
      `findByIdAndDelete` removes. */
  function IndexOfId(entries: seq<Entry>, id: Id): (k: Option<nat>)
    ensures k.Some? ==> k.value < |entries| && entries[k.value].id == id
    ensures k.Some? ==> forall j :: 0 <= j < k.value ==> entries[j].id != id
    ensures k.None? ==> forall j :: 0 <= j < |entries| ==> entries[j].id != id
  {
    if |entries| == 0 then None
    else if entries[0].id == id then Some(0)
    else
      match IndexOfId(entries[1..], id)
      case None => None
      case Some(j) => Some(j + 1)
  }

  /** `findByIdAndDelete` on the entry at position `k`: it is gone and
      the others close up in order. */
  function RemoveAt(entries: seq<Entry>, k: nat): (rest: seq<Entry>)
    requires k < |entries|
    ensures |rest| == |entries| - 1
    ensures forall i :: 0 <= i < |rest| ==> rest[i] == entries[if i < k then i else i + 1]
  {
    entries[..k] + entries[k + 1..]
  }

  /** Removing an entry of someone else leaves an owner's listing as it was. */
  lemma RemoveOthers(entries: seq<Entry>, k: nat, owner: Id)
    requires k < |entries|
    requires entries[k].userId != owner
    ensures OwnedBy(RemoveAt(entries, k), owner) == OwnedBy(entries, owner)
  {
    var pre, single, post := entries[..k], [entries[k]], entries[k + 1..];
    assert entries == pre + (single + post);
    assert OwnedBy(single, owner) == [] by {
      assert single[1..] == [];
    }
    calc {
      OwnedBy(entries, owner);
      { OwnedByAppend(pre, single + post, owner); }
      OwnedBy(pre, owner) + OwnedBy(single + post, owner);
      { OwnedByAppend(single, post, owner); }
      OwnedBy(pre, owner) + (OwnedBy(single, owner) + OwnedBy(post, owner));
      OwnedBy(pre, owner) + OwnedBy(post, owner);
      { OwnedByAppend(pre, post, owner); }
      OwnedBy(pre + post, owner);
    }
  }

  /** Removing one entry of a store with unique `_id`s: one entry fewer,
      its `_id` gone, every other entry kept. */
  lemma RemoveKeepsUnique(entries: seq<Entry>, k: nat)
    requires k < |entries|
    requires UniqueEntryIds(entries)
    ensures UniqueEntryIds(RemoveAt(entries, k))
    ensures |RemoveAt(entries, k)| == |entries| - 1
    ensures forall e :: e in RemoveAt(entries, k) ==> e.id != entries[k].id
    ensures forall e :: e in entries && e.id != entries[k].id ==> e in RemoveAt(entries, k)
  {
  }
}
