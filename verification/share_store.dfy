/** The share-record table (the TinyDB table of main.py): records kept in
    insertion order, `search` returning every match in that order. */
module ShareStore {
  import opened Clock

  /** One share link. `owner` and `repo` are stored in plain text; only the
      access token is encrypted. */
  datatype Record = Record(
    shareId: string,
    encryptedToken: string,
    owner: string,
    repo: string,
    createdAt: Instant,
    expiry: Instant)

  type Store = seq<Record>

  /** `db.search(Query().share_id == id)`: every record with that id, in order. */
  function Search(store: Store, id: string): (found: seq<Record>)
    ensures |found| <= |store|
    ensures forall r :: r in found <==> r in store && r.shareId == id
  {
    if |store| == 0 then []
    else (if store[0].shareId == id then [store[0]] else []) + Search(store[1..], id)
  }

  /** `db.insert(record)`: the record joins the end of the table. */
  function Insert(store: Store, r: Record): (store': Store)
    ensures |store'| == |store| + 1 && store <= store' && store'[|store|] == r
  {
    store + [r]
  }

  /** The ids present in the table. */
  ghost function Ids(store: Store): set<string>
  {
    set r | r in store :: r.shareId
  }

  /** `store[k]` is the earliest record carrying `id`. */
  ghost predicate IsFirstMatch(store: Store, id: string, k: int)
  {
    && 0 <= k < |store|
    && store[k].shareId == id
    && forall j :: 0 <= j < k ==> store[j].shareId != id
  }

  /** No two records share an id. */
  ghost predicate UniqueIds(store: Store)
  {
    forall i, j :: 0 <= i < j < |store| ==> store[i].shareId != store[j].shareId
  }

  /** Searching a concatenation searches each part in turn. */
  lemma {:induction false} SearchConcat(a: Store, b: Store, id: string)
    ensures Search(a + b, id) == Search(a, id) + Search(b, id)
    decreases |a|
  {
    if |a| == 0 {
      assert a + b == b;
    } else {
      assert (a + b)[1..] == a[1..] + b;
      SearchConcat(a[1..], b, id);
    }
  }

  /** The search comes back empty exactly when no record has the id. */
  lemma SearchEmpty(store: Store, id: string)
    ensures |Search(store, id)| == 0 <==> id !in Ids(store)
  {
    if id in Ids(store) {
      var r :| r in store && r.shareId == id;
      assert r in Search(store, id);
    }
  }

  /** The head of the search is the earliest record with the id. */
  lemma {:induction false} SearchHead(store: Store, id: string, k: int)
    requires IsFirstMatch(store, id, k)
    ensures |Search(store, id)| > 0 && Search(store, id)[0] == store[k]
    decreases |store|
  {
    if k > 0 {
      SearchHead(store[1..], id, k - 1);
    }
  }

  /** Every id present has an earliest record. */
  lemma {:induction false} FirstMatchExists(store: Store, id: string) returns (k: int)
    requires id in Ids(store)
    ensures IsFirstMatch(store, id, k)
    decreases |store|
  {
    if store[0].shareId == id {
      k := 0;
    } else {
      assert id in Ids(store[1..]) by {
        var r :| r in store && r.shareId == id;
        assert r in store[1..];
      }
      var k' := FirstMatchExists(store[1..], id);
      k := k' + 1;
    }
  }

  /** Appending a record whose id is fresh keeps the ids unique. */
  lemma InsertKeepsIdsUnique(store: Store, r: Record)
    requires UniqueIds(store) && r.shareId !in Ids(store)
    ensures UniqueIds(Insert(store, r))
  {
    var s := Insert(store, r);
    forall i, j | 0 <= i < j < |s|
      ensures s[i].shareId != s[j].shareId
    {
      if j == |store| {
        assert s[i] in store;
      }
    }
  }
}
