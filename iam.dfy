/**
 * The identity directory as the core reads it: for each user, the pages the
 * `list_ssh_public_keys` paginator returns (each a list of key records with an id and an
 * optional status), and the body `get_ssh_public_key` returns for a (user, key id) pair.
 * A user or key the directory does not know makes the call raise NoSuchEntity.
 */
module Iam {
  import opened Wrappers

  /** One entry of a page's `SSHPublicKeys`: its `SSHPublicKeyId` and `key.get('Status')`. */
  datatype KeyRecord = KeyRecord(keyId: string, status: Option<string>)

  type Page = seq<KeyRecord>

  datatype DirectoryError = NoSuchEntity(name: string)

  datatype Directory = Directory(keyPages: map<string, seq<Page>>, keyBodies: map<(string, string), string>)

  const ACTIVE := "Active"

  /** `key.get('Status') == 'Active'`: a record without a status is not active. */
  predicate IsActive(k: KeyRecord)
  {
    k.status == Some(ACTIVE)
  }

  /** The ids of the active records of one page, in page order, as the inner append loop collects them. */
  function ActiveInPage(page: Page): seq<string>
  {
    if page == [] then []
    else ActiveInPage(page[..|page| - 1]) + (if IsActive(page[|page| - 1]) then [page[|page| - 1].keyId] else [])
  }

  /** The ids of the active records of all pages, page after page, as the outer loop collects them. */
  function ActiveIds(pages: seq<Page>): seq<string>
  {
    if pages == [] then [] else ActiveIds(pages[..|pages| - 1]) + ActiveInPage(pages[|pages| - 1])
  }

  // An independent description of the same list: the whole listing, filtered, then projected to ids.

  /** Every record of every page, in listing order. */
  function Listing(pages: seq<Page>): (records: seq<KeyRecord>)
    ensures forall r :: r in records <==> exists p :: 0 <= p < |pages| && r in pages[p]
  {
    if pages == [] then []
    else
      var records := pages[0] + Listing(pages[1..]);
      assert forall r :: r in records <==> exists p :: 0 <= p < |pages| && r in pages[p] by {
        forall r | r in records ensures exists p :: 0 <= p < |pages| && r in pages[p] {
          if r !in pages[0] {
            var p :| 0 <= p < |pages[1..]| && r in pages[1..][p];
            assert r in pages[p + 1];
          }
        }
        forall r, p | 0 <= p < |pages| && r in pages[p] ensures r in records {
          if p > 0 { assert r in pages[1..][p - 1]; }
        }
      }
      records
  }

  /** The active records of a listing, order kept. */
  function FilterActive(records: seq<KeyRecord>): (active: seq<KeyRecord>)
    ensures forall r :: r in active <==> r in records && IsActive(r)
  {
    if records == [] then []
    else (if IsActive(records[0]) then [records[0]] else []) + FilterActive(records[1..])
  }

  function IdsOf(records: seq<KeyRecord>): (ids: seq<string>)
    ensures |ids| == |records| && forall i :: 0 <= i < |records| ==> ids[i] == records[i].keyId
  {
    seq(|records|, i requires 0 <= i < |records| => records[i].keyId)
  }

  lemma {:induction false} FilterActiveAppend(a: seq<KeyRecord>, b: seq<KeyRecord>)
    ensures FilterActive(a + b) == FilterActive(a) + FilterActive(b)
  {
    if a == [] {
      assert a + b == b;
    } else {
      assert (a + b)[1..] == a[1..] + b;
      FilterActiveAppend(a[1..], b);
    }
  }

  lemma {:induction false} ListingAppend(pages: seq<Page>, page: Page)
    ensures Listing(pages + [page]) == Listing(pages) + page
  {
    if pages == [] {
      assert Listing([page]) == page + Listing([]);
    } else {
      assert (pages + [page])[1..] == pages[1..] + [page];
      ListingAppend(pages[1..], page);
    }
  }

  lemma {:induction false} ActiveInPageIsFilter(page: Page)
    ensures ActiveInPage(page) == IdsOf(FilterActive(page))
  {
    if page != [] {
      var front, last := page[..|page| - 1], page[|page| - 1];
      ActiveInPageIsFilter(front);
      assert page == front + [last];
      FilterActiveAppend(front, [last]);
    }
  }

  /** The collected ids are exactly the listing filtered for active records, in listing order. */
  lemma {:induction false} ActiveIdsIsFilteredListing(pages: seq<Page>)
    ensures ActiveIds(pages) == IdsOf(FilterActive(Listing(pages)))
  {
    if pages != [] {
      var front, last := pages[..|pages| - 1], pages[|pages| - 1];
      ActiveIdsIsFilteredListing(front);
      ActiveInPageIsFilter(last);
      assert pages == front + [last];
      ListingAppend(front, last);
      FilterActiveAppend(Listing(front), last);
    }
  }

  /** An id is collected exactly when some page holds an active record with that id. */
  lemma ActiveIdsMembership(pages: seq<Page>, id: string)
    ensures id in ActiveIds(pages) <==>
      exists p, k :: 0 <= p < |pages| && 0 <= k < |pages[p]| && pages[p][k].keyId == id && IsActive(pages[p][k])
  {
    ActiveIdsIsFilteredListing(pages);
    var active := FilterActive(Listing(pages));
    if id in ActiveIds(pages) {
      var i :| 0 <= i < |active| && IdsOf(active)[i] == id;
      assert active[i] in active;
      var p :| 0 <= p < |pages| && active[i] in pages[p];
      var k :| 0 <= k < |pages[p]| && pages[p][k] == active[i];
    }
    if exists p, k :: 0 <= p < |pages| && 0 <= k < |pages[p]| && pages[p][k].keyId == id && IsActive(pages[p][k]) {
      var p, k :| 0 <= p < |pages| && 0 <= k < |pages[p]| && pages[p][k].keyId == id && IsActive(pages[p][k]);
      assert pages[p][k] in pages[p];
      assert pages[p][k] in active;
      var i :| 0 <= i < |active| && active[i] == pages[p][k];
      assert IdsOf(active)[i] == id;
    }
  }

  /** `_get_ssh_public_key_ids`: NoSuchEntity for an unknown user, otherwise the active ids. */
  function ListActiveKeyIds(dir: Directory, user: string): (r: Result<seq<string>, DirectoryError>)
    ensures r.Err? <==> user !in dir.keyPages
  {
    if user in dir.keyPages then Ok(ActiveIds(dir.keyPages[user])) else Err(NoSuchEntity(user))
  }

  /** One `get_ssh_public_key` call per id, in order; the first unknown id raises NoSuchEntity. */
  function KeyBodies(dir: Directory, user: string, ids: seq<string>): (r: Result<seq<string>, DirectoryError>)
    ensures r.Ok? <==> forall i :: 0 <= i < |ids| ==> (user, ids[i]) in dir.keyBodies
    ensures r.Ok? ==> |r.value| == |ids| && forall i :: 0 <= i < |ids| ==> r.value[i] == dir.keyBodies[(user, ids[i])]
  {
    if ids == [] then Ok([])
    else
      var id := ids[|ids| - 1];
      match KeyBodies(dir, user, ids[..|ids| - 1])
      case Err(e) => Err(e)
      case Ok(bodies) =>
        if (user, id) in dir.keyBodies then Ok(bodies + [dir.keyBodies[(user, id)]]) else Err(NoSuchEntity(id))
  }

  /** Once an id is missing, the later ids are never asked for: the error of a prefix is the error of the whole. */
  lemma {:induction false} KeyBodiesStopsAtFirstMissing(dir: Directory, user: string, ids: seq<string>, k: nat)
    requires k <= |ids| && KeyBodies(dir, user, ids[..k]).Err?
    ensures KeyBodies(dir, user, ids) == KeyBodies(dir, user, ids[..k])
    decreases |ids| - k
  {
    if k < |ids| {
      KeyBodiesStopsAtFirstMissing(dir, user, ids, k + 1);
      assert ids[..k + 1][..k] == ids[..k];
    } else {
      assert ids[..k] == ids;
    }
  }

  /** `_get_ssh_public_keys`: the bodies of the active keys, in listing order. */
  function PublicKeys(dir: Directory, user: string): Result<seq<string>, DirectoryError>
  {
    match ListActiveKeyIds(dir, user)
    case Err(e) => Err(e)
    case Ok(ids) => KeyBodies(dir, user, ids)
  }

  /** A user whose listing holds no active key has no public keys, and that is not an error. */
  lemma NoActiveKeysNoBodies(dir: Directory, user: string)
    requires user in dir.keyPages
    requires forall p, k :: 0 <= p < |dir.keyPages[user]| && 0 <= k < |dir.keyPages[user][p]| ==> !IsActive(dir.keyPages[user][p][k])
    ensures PublicKeys(dir, user) == Ok([])
  {
    var ids := ActiveIds(dir.keyPages[user]);
    if ids != [] {
      ActiveIdsMembership(dir.keyPages[user], ids[0]);
    }
  }

  /** Two active keys and an inactive one in a single page: exactly the two active bodies, in listing order. */
  lemma TwoActiveOneInactive(b1: string, b2: string, b3: string)
    ensures var dir := Directory(
        map["alice" := [[KeyRecord("K1", Some("Active")), KeyRecord("K2", Some("Active")), KeyRecord("K3", Some("Inactive"))]]],
        map[("alice", "K1") := b1, ("alice", "K2") := b2, ("alice", "K3") := b3]);
      PublicKeys(dir, "alice") == Ok([b1, b2])
  {
    var page := [KeyRecord("K1", Some("Active")), KeyRecord("K2", Some("Active")), KeyRecord("K3", Some("Inactive"))];
    assert page[..2][..1] == [page[0]];
    assert ActiveInPage(page[..2][..1]) == ["K1"];
    assert ActiveInPage(page[..2]) == ["K1", "K2"];
    assert ActiveInPage(page) == ["K1", "K2"];
    var pages: seq<Page> := [page];
    assert pages[..0] == [];
    assert ActiveIds([page]) == ["K1", "K2"];
    var dir := Directory(map["alice" := [page]], map[("alice", "K1") := b1, ("alice", "K2") := b2, ("alice", "K3") := b3]);
    var ids := ["K1", "K2"];
    assert ListActiveKeyIds(dir, "alice") == Ok(ids);
    assert ("alice", ids[0]) in dir.keyBodies && ("alice", ids[1]) in dir.keyBodies;
    var r := KeyBodies(dir, "alice", ids);
    assert r.Ok? && r.value[0] == b1 && r.value[1] == b2;
    assert r.value == [b1, b2];
  }
}
