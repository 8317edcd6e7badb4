/**
 * The local restaurant store and the fetch-all primitive built on it:
 * read the cached restaurants, deliver them if there are any, then ask the
 * network; on success deliver the fetched list unless the cache already
 * answered, put every fetched restaurant into the store and trim the store
 * to the 15 entries with the largest ids; on a non-200 status deliver an
 * error.
 */
module RestaurantCache {
  import opened Outcomes
  import opened Decimal
  import opened Restaurants

  /** How many entries the trim keeps (`cursor.advance(15)`). */
  const MaxCached: nat := 15

  /** The HTTP status the request counts as success. */
  const StatusOk: int := 200

  /** What the network side produces for the one request of a fetch. */
  datatype Response =
    | NoResponse                                   // the load event never fires (connection failure)
    | Loaded(status: int, body: Option<seq<Restaurant>>) // body None: the response text is not JSON

  /** The records are in strictly ascending key order, as the object store keeps them. */
  predicate SortedById(rs: seq<Restaurant>)
  {
    forall a, b :: 0 <= a < b < |rs| ==> rs[a].id < rs[b].id
  }

  /** The ids of a sequence of records. */
  function Ids(rs: seq<Restaurant>): set<int>
  {
    set r | r in rs :: r.id
  }

  /** The key-to-record map a key-ordered record sequence stands for. */
  function MapOf(rs: seq<Restaurant>): map<int, Restaurant>
    decreases |rs|
  {
    if rs == [] then map[] else MapOf(rs[1..])[rs[0].id := rs[0]]
  }

  /** The keys of the map are the ids of the records. */
  lemma {:induction false} MapOfKeys(rs: seq<Restaurant>)
    ensures MapOf(rs).Keys == Ids(rs)
    decreases |rs|
  {
    if rs != [] {
      MapOfKeys(rs[1..]);
      assert Ids(rs) == {rs[0].id} + Ids(rs[1..]) by {
        assert rs == [rs[0]] + rs[1..];
      }
    }
  }

  /** A key-ordered record sequence holds each of its records under its id, one entry per record. */
  lemma {:induction false} MapOfSorted(rs: seq<Restaurant>)
    requires SortedById(rs)
    ensures MapOf(rs).Keys == Ids(rs) && |MapOf(rs)| == |rs|
    ensures forall i :: 0 <= i < |rs| ==> MapOf(rs)[rs[i].id] == rs[i]
    decreases |rs|
  {
    MapOfKeys(rs);
    if rs != [] {
      var tail := rs[1..];
      assert SortedById(tail);
      MapOfSorted(tail);
      assert rs[0].id !in Ids(tail);
      forall i | 0 <= i < |rs| ensures MapOf(rs)[rs[i].id] == rs[i] {
        if i > 0 {
          assert tail[i - 1] == rs[i];
        }
      }
    }
  }

  /** The key-ordered records after `put(r)`: `r` replaces the record with its id or is inserted in order. */
  function PutSorted(rs: seq<Restaurant>, r: Restaurant): (t: seq<Restaurant>)
    ensures forall x :: x in t ==> x in rs || x == r
    ensures SortedById(rs) ==> SortedById(t)
  {
    if rs == [] then [r]
    else if r.id < rs[0].id then [r] + rs
    else if r.id == rs[0].id then [r] + rs[1..]
    else
      var rest := PutSorted(rs[1..], r);
      assert SortedById(rs) ==> SortedById([rs[0]] + rest) by {
        if SortedById(rs) {
          forall x | x in rest ensures rs[0].id < x.id {
            if x != r {
              var j :| 0 <= j < |rs[1..]| && rs[1..][j] == x;
              assert rs[j + 1] == x;
            }
          }
        }
      }
      [rs[0]] + rest
  }

  /** `put(r)` on the records is an update of the map they stand for. */
  lemma {:induction false} PutSortedMap(rs: seq<Restaurant>, r: Restaurant)
    requires SortedById(rs)
    ensures MapOf(PutSorted(rs, r)) == MapOf(rs)[r.id := r]
    decreases |rs|
  {
    if rs != [] {
      if r.id < rs[0].id {
        assert ([r] + rs)[1..] == rs;
      } else if r.id == rs[0].id {
        assert ([r] + rs[1..])[1..] == rs[1..];
      } else {
        var rest := PutSorted(rs[1..], r);
        PutSortedMap(rs[1..], r);
        assert ([rs[0]] + rest)[1..] == rest;
      }
    }
  }

  /** The result of `put`ting the restaurants of `rs` into `m`, one after another. */
  function PutAll(m: map<int, Restaurant>, rs: seq<Restaurant>): (r: map<int, Restaurant>)
    ensures r.Keys == m.Keys + Ids(rs)
    decreases |rs|
  {
    if rs == [] then m
    else
      var init := rs[..|rs| - 1];
      var last := rs[|rs| - 1];
      assert rs == init + [last];
      assert Ids(rs) == Ids(init) + {last.id};
      PutAll(m, init)[last.id := last]
  }

  /** `j` is the last position of `rs` holding a restaurant with id `rs[j].id`. */
  ghost predicate LastWithItsId(rs: seq<Restaurant>, j: int)
  {
    0 <= j < |rs| && forall j' :: j < j' < |rs| ==> rs[j'].id != rs[j].id
  }

  /** The last restaurant put under an id is the one stored there. */
  lemma {:induction false} PutAllLastWins(m: map<int, Restaurant>, rs: seq<Restaurant>)
    ensures forall j :: LastWithItsId(rs, j) ==> PutAll(m, rs)[rs[j].id] == rs[j]
    decreases |rs|
  {
    if rs != [] {
      var init := rs[..|rs| - 1];
      PutAllLastWins(m, init);
      forall j | LastWithItsId(rs, j) ensures PutAll(m, rs)[rs[j].id] == rs[j] {
        if j < |rs| - 1 {
          assert LastWithItsId(init, j);
        }
      }
    }
  }

  /** The entries under keys no fetched restaurant has are left as they were. */
  lemma {:induction false} PutAllKeepsOthers(m: map<int, Restaurant>, rs: seq<Restaurant>)
    ensures forall k :: k in m && k !in Ids(rs) ==> PutAll(m, rs)[k] == m[k]
    decreases |rs|
  {
    if rs != [] {
      var init := rs[..|rs| - 1];
      var last := rs[|rs| - 1];
      PutAllKeepsOthers(m, init);
      assert rs == init + [last];
      assert Ids(rs) == Ids(init) + {last.id};
    }
  }

  /**
   * After the puts every fetched restaurant is stored under its id, a later
   * restaurant with the same id having overwritten an earlier one, and the
   * entries under other keys are as before.
   */
  lemma {:induction false} PutAllContents(m: map<int, Restaurant>, rs: seq<Restaurant>)
    ensures PutAll(m, rs).Keys == m.Keys + Ids(rs)
    ensures forall j :: LastWithItsId(rs, j) ==> PutAll(m, rs)[rs[j].id] == rs[j]
    ensures forall k :: k in m && k !in Ids(rs) ==> PutAll(m, rs)[k] == m[k]
  {
    PutAllLastWins(m, rs);
    PutAllKeepsOthers(m, rs);
  }

  /** The keys of the store larger than `k`. */
  function LargerKeys(keys: set<int>, k: int): set<int>
  {
    set j | j in keys && j > k
  }

  /** The store after the trim: the entries with fewer than 15 larger keys. */
  function Trimmed(m: map<int, Restaurant>): (t: map<int, Restaurant>)
    ensures t.Keys <= m.Keys
    ensures forall k :: k in t ==> t[k] == m[k]
  {
    map k | k in m && |LargerKeys(m.Keys, k)| < MaxCached :: m[k]
  }

  lemma {:induction false} SubsetCard(a: set<int>, b: set<int>)
    requires a <= b
    ensures |a| <= |b|
  {
    assert b == a + (b - a);
    assert a * (b - a) == {};
  }

  lemma {:induction false} LargerKeysAreLater(rs: seq<Restaurant>, i: nat)
    requires SortedById(rs) && i < |rs|
    ensures LargerKeys(Ids(rs), rs[i].id) <= Ids(rs[i + 1..])
  {
    var later := rs[i + 1..];
    forall k | k in LargerKeys(Ids(rs), rs[i].id) ensures k in Ids(later) {
      var r :| r in rs && r.id == k;
      var j :| 0 <= j < |rs| && rs[j] == r;
      assert j > i;
      assert later[j - i - 1] == r;
    }
  }

  lemma {:induction false} LaterKeysAreLarger(rs: seq<Restaurant>, i: nat)
    requires SortedById(rs) && i < |rs|
    ensures Ids(rs[i + 1..]) <= LargerKeys(Ids(rs), rs[i].id)
  {
    var later := rs[i + 1..];
    forall k | k in Ids(later) ensures k in LargerKeys(Ids(rs), rs[i].id) {
      var r :| r in later && r.id == k;
      var j :| 0 <= j < |later| && later[j] == r;
      assert rs[i + 1 + j] == r;
    }
  }

  /** In key-ordered records, the key at position `i` has exactly the later keys above it. */
  lemma {:induction false} RankInSorted(rs: seq<Restaurant>, i: nat)
    requires SortedById(rs) && i < |rs|
    ensures |LargerKeys(Ids(rs), rs[i].id)| == |rs| - 1 - i
  {
    var later := rs[i + 1..];
    LargerKeysAreLater(rs, i);
    LaterKeysAreLarger(rs, i);
    assert LargerKeys(Ids(rs), rs[i].id) == Ids(later);
    assert SortedById(later);
    MapOfSorted(later);
  }

  /** A record survives the trim exactly when it is among the last 15 in key order. */
  lemma {:induction false} KeptIffLate(rs: seq<Restaurant>, i: nat)
    requires SortedById(rs) && i < |rs|
    ensures rs[i].id in Trimmed(MapOf(rs)) <==> i >= |rs| - MaxCached
  {
    MapOfSorted(rs);
    RankInSorted(rs, i);
  }

  /** The records from position `start` on, where `start` skips all but the last 15. */
  function LastCached(rs: seq<Restaurant>): seq<Restaurant>
  {
    if |rs| <= MaxCached then rs else rs[|rs| - MaxCached..]
  }

  lemma {:induction false} LastCachedSorted(rs: seq<Restaurant>)
    requires SortedById(rs)
    ensures SortedById(LastCached(rs))
  {
    var start := |rs| - |LastCached(rs)|;
    assert LastCached(rs) == rs[start..];
    forall a, b | 0 <= a < b < |LastCached(rs)| ensures LastCached(rs)[a].id < LastCached(rs)[b].id {
      assert LastCached(rs)[a] == rs[start + a] && LastCached(rs)[b] == rs[start + b];
    }
  }

  /** The record at position `i` of key-ordered records is stored under its id. */
  lemma {:induction false} MapOfAt(rs: seq<Restaurant>, i: nat)
    requires SortedById(rs) && i < |rs|
    ensures rs[i].id in MapOf(rs) && MapOf(rs)[rs[i].id] == rs[i]
  {
    MapOfSorted(rs);
  }

  /** Every key of the map is the id of some record. */
  lemma {:induction false} KeyHasPosition(rs: seq<Restaurant>, k: int)
    requires k in MapOf(rs)
    ensures exists i :: 0 <= i < |rs| && rs[i].id == k
  {
    MapOfKeys(rs);
    var r :| r in rs && r.id == k;
    var i :| 0 <= i < |rs| && rs[i] == r;
  }

  /** One kept key: it is among the last 15 records, with the same record. */
  lemma {:induction false} TrimmedKeyWithinLast(rs: seq<Restaurant>, k: int)
    requires SortedById(rs) && k in Trimmed(MapOf(rs))
    ensures k in MapOf(LastCached(rs)) && Trimmed(MapOf(rs))[k] == MapOf(LastCached(rs))[k]
  {
    var start := |rs| - |LastCached(rs)|;
    var suffix := LastCached(rs);
    assert suffix == rs[start..];
    KeyHasPosition(rs, k);
    var i :| 0 <= i < |rs| && rs[i].id == k;
    KeptIffLate(rs, i);
    assert suffix[i - start] == rs[i];
    LastCachedSorted(rs);
    MapOfAt(suffix, i - start);
    MapOfAt(rs, i);
  }

  lemma {:induction false} TrimmedWithinLast(rs: seq<Restaurant>)
    requires SortedById(rs)
    ensures forall k :: k in Trimmed(MapOf(rs)) ==> k in MapOf(LastCached(rs)) && Trimmed(MapOf(rs))[k] == MapOf(LastCached(rs))[k]
  {
    forall k | k in Trimmed(MapOf(rs)) ensures k in MapOf(LastCached(rs)) && Trimmed(MapOf(rs))[k] == MapOf(LastCached(rs))[k] {
      TrimmedKeyWithinLast(rs, k);
    }
  }

  /** One key of the last 15 records: the trim keeps it. */
  lemma {:induction false} LastKeyWithinTrimmed(rs: seq<Restaurant>, k: int)
    requires SortedById(rs) && k in MapOf(LastCached(rs))
    ensures k in Trimmed(MapOf(rs))
  {
    var start := |rs| - |LastCached(rs)|;
    var suffix := LastCached(rs);
    assert suffix == rs[start..];
    KeyHasPosition(suffix, k);
    var j :| 0 <= j < |suffix| && suffix[j].id == k;
    assert rs[start + j] == suffix[j];
    KeptIffLate(rs, start + j);
  }

  lemma {:induction false} LastWithinTrimmed(rs: seq<Restaurant>)
    requires SortedById(rs)
    ensures forall k :: k in MapOf(LastCached(rs)) ==> k in Trimmed(MapOf(rs))
  {
    forall k | k in MapOf(LastCached(rs)) ensures k in Trimmed(MapOf(rs)) {
      LastKeyWithinTrimmed(rs, k);
    }
  }

  /**
   * Trimming the map of key-ordered records keeps the map of the last 15
   * records: what the descending cursor leaves after skipping 15.
   */
  lemma {:induction false} TrimmedSuffix(rs: seq<Restaurant>)
    requires SortedById(rs)
    ensures Trimmed(MapOf(rs)) == MapOf(LastCached(rs))
  {
    var t := Trimmed(MapOf(rs));
    var target := MapOf(LastCached(rs));
    TrimmedWithinLast(rs);
    LastWithinTrimmed(rs);
    assert forall k :: k in t <==> k in target;
    assert forall k :: k in t ==> t[k] == target[k];
  }

  /** The records the trim keeps are key-ordered and stand for the trimmed store. */
  lemma {:induction false} TrimKeepsLast(rs: seq<Restaurant>)
    requires SortedById(rs)
    ensures SortedById(LastCached(rs)) && MapOf(LastCached(rs)) == Trimmed(MapOf(rs))
  {
    LastCachedSorted(rs);
    TrimmedSuffix(rs);
  }

  /** The trim leaves min(|store|, 15) entries. */
  lemma {:induction false} TrimmedSize(rs: seq<Restaurant>)
    requires SortedById(rs)
    ensures |Trimmed(MapOf(rs))| == if |rs| <= MaxCached then |rs| else MaxCached
  {
    TrimmedSuffix(rs);
    if |rs| > MaxCached {
      MapOfSorted(rs[|rs| - MaxCached..]);
    } else {
      MapOfSorted(rs);
    }
  }

  /** Every kept key is larger than every removed key: the largest ids survive. */
  lemma {:induction false} TrimmedKeepsLargest(m: map<int, Restaurant>, kept: int, removed: int)
    requires kept in Trimmed(m)
    requires removed in m && removed !in Trimmed(m)
    ensures removed < kept
  {
    if kept < removed {
      SubsetCard(LargerKeys(m.Keys, removed), LargerKeys(m.Keys, kept));
    }
  }

  /** A non-empty key set has a least key. */
  lemma {:induction false} LeastKey(keys: set<int>) returns (least: int)
    requires keys != {}
    ensures least in keys && forall k :: k in keys ==> least <= k
    decreases |keys|
  {
    assert exists k :: k in keys by {
      if forall k :: k !in keys {
        assert false;
      }
    }
    var k :| k in keys;
    if keys == {k} {
      least := k;
    } else {
      var rest := LeastKey(keys - {k});
      least := if k < rest then k else rest;
      forall j | j in keys ensures least <= j {
        if j != k {
          assert j in keys - {k};
        }
      }
    }
  }

  /** Keys that each have fewer than `bound` larger keys among them number at most `bound`. */
  lemma {:induction false} FewLargerBounded(keys: set<int>, bound: nat)
    requires forall k :: k in keys ==> |LargerKeys(keys, k)| < bound
    ensures |keys| <= bound
  {
    if keys != {} {
      var least := LeastKey(keys);
      assert LargerKeys(keys, least) == keys - {least};
    }
  }

  /** Whatever the store held, the trim leaves at most 15 entries. */
  lemma {:induction false} TrimmedAtMost(m: map<int, Restaurant>)
    ensures |Trimmed(m)| <= MaxCached
  {
    var kept := Trimmed(m).Keys;
    forall k | k in kept ensures |LargerKeys(kept, k)| < MaxCached {
      SubsetCard(LargerKeys(kept, k), LargerKeys(m.Keys, k));
    }
    FewLargerBounded(kept, MaxCached);
    assert |Trimmed(m)| == |kept|;
  }

  /** A store of at most 15 entries is left as it is. */
  lemma {:induction false} TrimmedSmallUnchanged(m: map<int, Restaurant>)
    requires |m| <= MaxCached
    ensures Trimmed(m) == m
  {
    forall k | k in m ensures |LargerKeys(m.Keys, k)| < MaxCached {
      SubsetCard(LargerKeys(m.Keys, k), m.Keys - {k});
    }
  }

  /** The text every status error starts with. */
  const StatusPrefix := "Request failed. Returned status of "

  /** The error text for a non-200 status: the prefix, then the status in decimal. */
  function StatusMessage(status: int): (e: string)
    ensures StatusPrefix <= e && |e| > |StatusPrefix|
    ensures AllDigits(e[|StatusPrefix|..]) || e[|StatusPrefix|] == '-'
    ensures ParseInteger(e[|StatusPrefix|..]) == Some(status)
  {
    var e := StatusPrefix + IntToString(status);
    assert e[|StatusPrefix|..] == IntToString(status);
    ParseIntToString(status);
    e
  }

  /** Different statuses give different error texts, so the status can be read back. */
  lemma {:induction false} StatusMessageDistinct(a: int, b: int)
    requires StatusMessage(a) == StatusMessage(b)
    ensures a == b
  {
    assert StatusMessage(a)[|StatusPrefix|..] == IntToString(a);
    assert StatusMessage(b)[|StatusPrefix|..] == IntToString(b);
    IntToStringInjective(a, b);
  }

  /** How many deliveries are successes. */
  function SuccessCount<T>(d: seq<Reply<T>>): nat
  {
    if d == [] then 0 else (if d[0].Ok? then 1 else 0) + SuccessCount(d[1..])
  }

  /**
   * What the fetch-all callback receives, in order, when the cache read
   * yields `cached` and the network side yields `response`.
   */
  function Deliveries(cached: seq<Restaurant>, response: Response): (d: seq<Reply<seq<Restaurant>>>)
    ensures |d| <= 2 && SuccessCount(d) <= 1
    ensures |cached| > 0 ==> |d| >= 1 && d[0] == Ok(cached) && forall i :: 1 <= i < |d| ==> d[i].Err?
    ensures |cached| == 0 && response.Loaded? && response.status == StatusOk && response.body.Some? ==>
              d == [Ok(response.body.value)]
    ensures response.Loaded? && response.status != StatusOk ==>
              |d| >= 1 && d[|d| - 1] == Err(StatusMessage(response.status))
    ensures forall i :: 0 <= i < |d| && d[i].Err? ==>
              response.Loaded? && response.status != StatusOk && d[i] == Err(StatusMessage(response.status))
    ensures forall i :: 0 <= i < |d| && d[i].Err? ==> i == |d| - 1
    ensures response.Loaded? && response.status != StatusOk ==> |d| == (if |cached| > 0 then 2 else 1)
    ensures forall i :: 0 <= i < |d| && d[i].Ok? ==>
              (i == 0 && |cached| > 0 && d[i].value == cached) ||
              (|cached| == 0 && response.Loaded? && response.status == StatusOk && response.body == Some(d[i].value))
    ensures |cached| == 0 && !(response.Loaded? && response.status == StatusOk && response.body.Some?) &&
              !(response.Loaded? && response.status != StatusOk) ==>
              d == []
  {
    var fromCache := if |cached| > 0 then [Ok(cached)] else [];
    match response
    case NoResponse => fromCache
    case Loaded(status, body) =>
      if status == StatusOk then
        match body
        case None => fromCache
        case Some(rs) => if |cached| > 0 then fromCache else [Ok(rs)]
      else
        var failure := Err(StatusMessage(status));
        assert SuccessCount([failure]) == 0;
        assert |cached| > 0 ==> SuccessCount([Ok(cached), failure]) == 1 by {
          assert [Ok(cached), failure][1..] == [failure];
        }
        fromCache + [failure]
  }

  /** The store after the network side's `response`. */
  function StoreAfter(m: map<int, Restaurant>, response: Response): map<int, Restaurant>
  {
    match response
    case Loaded(status, Some(rs)) =>
      if status == StatusOk then Trimmed(PutAll(m, rs)) else m
    case _ => m
  }

  /**
   * Only a parsed 200 response changes the store, and then it holds at most
   * 15 entries, each an old key or a fetched id, with every entry kept when
   * old and fetched keys together number at most 15.
   */
  lemma {:induction false} StoreAfterShape(m: map<int, Restaurant>, response: Response)
    ensures !(response.Loaded? && response.status == StatusOk && response.body.Some?) ==> StoreAfter(m, response) == m
    ensures response.Loaded? && response.status == StatusOk && response.body.Some? ==>
              |StoreAfter(m, response)| <= MaxCached &&
              StoreAfter(m, response).Keys <= m.Keys + Ids(response.body.value) &&
              (|m.Keys + Ids(response.body.value)| <= MaxCached ==>
                 StoreAfter(m, response) == PutAll(m, response.body.value))
  {
    if response.Loaded? && response.status == StatusOk && response.body.Some? {
      var written := PutAll(m, response.body.value);
      TrimmedAtMost(written);
      if |m.Keys + Ids(response.body.value)| <= MaxCached {
        assert |written| == |written.Keys|;
        TrimmedSmallUnchanged(written);
      }
    }
  }

  /** Deleting the record at `pos`, below the kept ones, leaves one fewer record before them. */
  lemma {:induction false} DeleteBeforeKept(rs: seq<Restaurant>, pos: nat, keep: nat)
    requires pos < keep <= |rs|
    ensures var t := rs[..pos + 1] + rs[keep..]; t[..pos] + t[pos + 1..] == rs[..pos] + rs[keep..]
  {
    var t := rs[..pos + 1] + rs[keep..];
    assert t[..pos] == rs[..pos];
    assert t[pos + 1..] == rs[keep..];
  }

  /**
   * The cursor walk of the trim: going down from the top key, skip 15
   * records and delete each one after that.
   */
  method DeleteBelowLast(all: seq<Restaurant>) returns (kept: seq<Restaurant>)
    ensures kept == LastCached(all)
  {
    kept := all;
    var n := |all|;
    if n > MaxCached {
      var pos := n - 1 - MaxCached;
      while pos >= 0
        invariant -1 <= pos < n - MaxCached
        invariant kept == all[..pos + 1] + all[n - MaxCached..]
      {
        DeleteBeforeKept(all, pos, n - MaxCached);
        kept := kept[..pos] + kept[pos + 1..];
        pos := pos - 1;
      }
      assert all[..0] == [];
    }
  }

  /**
   * The browser's restaurant store (the object store `restaurants`, key
   * path `id`), holding its records in key order.
   */
  class RestaurantDb {
    var records: seq<Restaurant>

    ghost predicate Valid()
      reads this
    {
      SortedById(records)
    }

    /** The store as a map from id to record. */
    function Store(): map<int, Restaurant>
      reads this
    {
      MapOf(records)
    }

    constructor ()
      ensures Valid() && records == []
    {
      records := [];
    }

    /** `restaurantStore.put(restaurant)`. */
    method Put(r: Restaurant)
      requires Valid()
      modifies this
      ensures Valid()
      ensures Store() == old(Store())[r.id := r]
    {
      PutSortedMap(records, r);
      records := PutSorted(records, r);
    }

    /** `restaurants.forEach(restaurant => restaurantStore.put(restaurant))`. */
    method PutAllOf(rs: seq<Restaurant>)
      requires Valid()
      modifies this
      ensures Valid()
      ensures Store() == PutAll(old(Store()), rs)
    {
      for i := 0 to |rs|
        invariant Valid()
        invariant Store() == PutAll(old(Store()), rs[..i])
      {
        assert rs[..i + 1][..i] == rs[..i];
        Put(rs[i]);
      }
      assert rs[..|rs|] == rs;
    }

    /**
     * Open a cursor in descending key order, advance it past 15 records and
     * delete every record it visits after that.
     */
    method Trim()
      requires Valid()
      modifies this
      ensures Valid()
      ensures records == LastCached(old(records))
      ensures Store() == Trimmed(old(Store()))
      ensures |records| <= MaxCached && |Store()| <= MaxCached
    {
      var kept := DeleteBelowLast(records);
      TrimKeepsLast(records);
      TrimmedAtMost(Store());
      records := kept;
    }

    /**
     * `fetchRestaurants`: the cache read, then the network's `response`.
     * Returns what the callback receives, in order.
     */
    method FetchRestaurants(response: Response) returns (delivered: seq<Reply<seq<Restaurant>>>)
      requires Valid()
      modifies this
      ensures Valid()
      ensures delivered == Deliveries(old(records), response)
      ensures Store() == StoreAfter(old(Store()), response)
      ensures response.Loaded? && response.status == StatusOk && response.body.Some? ==>
                |records| <= MaxCached && |Store()| <= MaxCached
    {
      var cached := records;
      var callbackSent := false;
      delivered := [];
      if |cached| > 0 {
        callbackSent := true;
        delivered := delivered + [Ok(cached)];
      }
      match response
      case NoResponse =>
      case Loaded(status, body) =>
        if status == StatusOk {
          match body
          case None =>
          case Some(rs) =>
            if !callbackSent {
              delivered := delivered + [Ok(rs)];
            }
            PutAllOf(rs);
            Trim();
        } else {
          delivered := delivered + [Err(StatusMessage(status))];
        }
    }
  }
}
