/** The Docker app's process-wide `permission_cache`: fetched snapshots keyed
    by `tuple(sorted(domains))`, cleared after every write. The key is sorted
    but keeps duplicates. */
module SnapshotCache {
  import opened Wrappers
  import opened Store
  import StringOrder

  type Key = seq<string>

  type Cache = map<Key, Snapshot>

  /** `tuple(sorted(domains))`. */
  function KeyOf(domains: seq<string>): (k: Key)
    ensures StringOrder.Sorted(k)
    ensures multiset(k) == multiset(domains)
    ensures |k| == |domains|
  {
    StringOrder.Sort(domains)
  }

  /** Two domain lists share a cache entry exactly when one is a rearrangement
      of the other; a list with a repeated domain does not share the entry of
      the list without the repetition. */
  lemma {:induction false} SameKeyIffPermutation(a: seq<string>, b: seq<string>)
    ensures KeyOf(a) == KeyOf(b) <==> multiset(a) == multiset(b)
  {
    if multiset(a) == multiset(b) {
      StringOrder.SortedUnique(KeyOf(a), KeyOf(b));
    }
  }

  /** Result of a cache lookup: the snapshot (or the error the query raised),
      the cache afterwards, and whether the store was queried. */
  datatype Lookup = Lookup(result: Result<Snapshot, StoreError>, cache: Cache, queried: bool)

  /** `fetch_permissions` in the Docker app: a hit answers from the cache
      without a query; a miss queries and, if the query succeeds, stores the
      snapshot under the key. */
  function Get(cache: Cache, db: Db, domains: seq<string>): (r: Lookup)
    ensures KeyOf(domains) in cache ==> !r.queried && r.cache == cache && r.result == Success(cache[KeyOf(domains)])
    ensures KeyOf(domains) !in cache ==> r.queried && r.result == Fetch(db, domains)
    ensures KeyOf(domains) !in cache && r.result.Success? ==> r.cache == cache[KeyOf(domains) := r.result.value]
    ensures r.result.Failure? ==> r.cache == cache
  {
    var key := KeyOf(domains);
    if key in cache then Lookup(Success(cache[key]), cache, false)
    else
      match Fetch(db, domains)
      case Success(snapshot) => Lookup(Success(snapshot), cache[key := snapshot], true)
      case Failure(e) => Lookup(Failure(e), cache, true)
  }

  /** Every entry holds exactly what the query for its key returns from the current rows. */
  ghost predicate Coherent(cache: Cache, rows: seq<Permission>) {
    forall k :: k in cache ==> |k| > 0 && cache[k] == Select(rows, k)
  }

  /** On a coherent cache a lookup answers exactly what an uncached query
      would, and leaves the cache coherent. */
  lemma {:induction false} GetIsTransparent(cache: Cache, db: Db, domains: seq<string>)
    requires Coherent(cache, db.rows)
    requires db.online
    ensures Get(cache, db, domains).result == Fetch(db, domains)
    ensures Coherent(Get(cache, db, domains).cache, db.rows)
  {
    var key := KeyOf(domains);
    assert forall d :: d in key <==> d in domains by {
      forall d ensures d in key <==> d in domains {
        assert d in key <==> d in multiset(key);
        assert d in domains <==> d in multiset(domains);
      }
    }
    SelectSameDomains(db.rows, key, domains);
    if key in cache {
      assert |domains| == |key| > 0;
    }
  }

  /** A second lookup with the same domains, in any order, is a hit and
      returns the snapshot the first one produced. */
  lemma {:induction false} SecondLookupHits(cache: Cache, db: Db, first: seq<string>, second: seq<string>)
    requires multiset(first) == multiset(second)
    requires Get(cache, db, first).result.Success?
    ensures var r1 := Get(cache, db, first);
            var r2 := Get(r1.cache, db, second);
            !r2.queried && r2.cache == r1.cache && r2.result == r1.result
  {
    SameKeyIffPermutation(first, second);
  }

  /** The cache a write leaves behind: `permission_cache.clear()`. After it,
      every lookup queries the store again. */
  function Cleared(): (c: Cache)
    ensures forall d :: KeyOf(d) !in c
    ensures forall rows :: Coherent(c, rows)
  {
    map[]
  }
}
