/**
 The reading side of a RAMP client. Replies of the servers are parameters; the loops visit keys
 in any order, as the parallel loops of the program do.
 */
module Handler {
  import opened Data
  import opened Slot
  import opened Store
  import opened Ramp
  import opened RampSafety
  import opened RampReads

  // ---- the sibling check -----------------------------------------------------------------

  /** `v_latest`: per key, the newest timestamp under which some returned item names it. */
  method CheckMissingVersions(ret: map<Key, Item>) returns (vLatest: map<Key, Timestamp>)
    ensures IsVLatest(ret, vLatest)
  {
    vLatest := map[];
    var todo := ret.Keys;
    while todo != {}
      invariant todo <= ret.Keys
      invariant forall x, y :: x in ret && x !in todo && y in ret[x].trxKeys ==> !Lookup(vLatest, y).Less(ret[x].ts)
      invariant Attained(ret, vLatest) && NotNegative(vLatest)
      decreases |todo|
    {
      var k :| k in todo;
      todo := todo - {k};
      vLatest := Announce(ret, vLatest, k);
    }
  }

  ghost predicate NotNegative(v: map<Key, Timestamp>) {
    forall y :: !Lookup(v, y).Less(ZERO)
  }

  ghost predicate Attained(ret: map<Key, Item>, v: map<Key, Timestamp>) {
    forall y :: Lookup(v, y) != ZERO ==> exists x :: x in ret && y in ret[x].trxKeys && ret[x].ts == Lookup(v, y)
  }

  lemma AttainedUpdate(ret: map<Key, Item>, v: map<Key, Timestamp>, key: Key, k: Key)
    requires Attained(ret, v) && NotNegative(v) && k in ret && key in ret[k].trxKeys && Lookup(v, key).Less(ret[k].ts)
    ensures Attained(ret, v[key := ret[k].ts]) && NotNegative(v[key := ret[k].ts])
  {
    var v' := v[key := ret[k].ts];
    assert !Lookup(v, key).Less(ZERO);
    forall y
      ensures !Lookup(v', y).Less(ZERO)
    {
      assert y != key ==> Lookup(v', y) == Lookup(v, y);
    }
    forall y | Lookup(v', y) != ZERO
      ensures exists x :: x in ret && y in ret[x].trxKeys && ret[x].ts == Lookup(v', y)
    {
      if y != key {
        assert Lookup(v', y) == Lookup(v, y);
      }
    }
  }

  /** One item tells all its siblings about its timestamp. */
  method Announce(ret: map<Key, Item>, v: map<Key, Timestamp>, k: Key) returns (v': map<Key, Timestamp>)
    requires k in ret && Attained(ret, v) && NotNegative(v)
    ensures Attained(ret, v') && NotNegative(v')
    ensures forall y :: !Lookup(v', y).Less(Lookup(v, y))
    ensures forall y :: y in ret[k].trxKeys ==> !Lookup(v', y).Less(ret[k].ts)
  {
    v' := v;
    var item := ret[k];
    var siblings := item.trxKeys;
    while siblings != {}
      invariant siblings <= item.trxKeys
      invariant Attained(ret, v') && NotNegative(v')
      invariant forall y :: !Lookup(v', y).Less(Lookup(v, y))
      invariant forall y :: y in item.trxKeys && y !in siblings ==> !Lookup(v', y).Less(item.ts)
      decreases |siblings|
    {
      var key :| key in siblings;
      siblings := siblings - {key};
      if Lookup(v', key).Less(item.ts) {
        AttainedUpdate(ret, v', key, k);
        v' := v'[key := item.ts];
      }
    }
  }

  /** The order in which items are visited cannot matter: there is only one answer. */
  lemma VLatestIsUnique(ret: map<Key, Item>, v: map<Key, Timestamp>, w: map<Key, Timestamp>, key: Key)
    requires IsVLatest(ret, v) && IsVLatest(ret, w)
    ensures Lookup(v, key) == Lookup(w, key)
  {
    if Lookup(v, key) != ZERO {
      var x :| x in ret && key in ret[x].trxKeys && ret[x].ts == Lookup(v, key);
      assert !Lookup(w, key).Less(ret[x].ts);
    }
    if Lookup(w, key) != ZERO {
      var x :| x in ret && key in ret[x].trxKeys && ret[x].ts == Lookup(w, key);
      assert !Lookup(v, key).Less(ret[x].ts);
    }
  }

  // ---- the second round ------------------------------------------------------------------

  /** Fetches every version that the first round showed to be missing. */
  method RepairAll(first: map<Key, Item>, getVersion: (Key, Timestamp) -> Item)
    returns (ret: map<Key, Item>, vLatest: map<Key, Timestamp>)
    ensures IsVLatest(first, vLatest) && Repaired(first, getVersion, vLatest, ret)
  {
    vLatest := CheckMissingVersions(first);
    ret := first;
    var todo := first.Keys;
    while todo != {}
      invariant todo <= first.Keys && ret.Keys == first.Keys
      invariant forall k :: k in first ==>
                  ret[k] == if k !in todo && Lookup(vLatest, k).Greater(first[k].ts)
                            then getVersion(k, Lookup(vLatest, k)) else first[k]
      decreases |todo|
    {
      var key :| key in todo;
      todo := todo - {key};
      if Lookup(vLatest, key).Greater(ret[key].ts) {
        ret := ret[key := getVersion(key, Lookup(vLatest, key))];
      }
    }
  }

  /**
   What the servers owe the second round: whoever is announced as a sibling has been prepared.
   It holds of every first round that `RampSafety` allows.
   */
  ghost predicate SiblingsPrepared(first: map<Key, Item>, getVersion: (Key, Timestamp) -> Item) {
    forall x, y :: x in first && y in first && y in first[x].trxKeys ==>
      getVersion(y, first[x].ts).ts == first[x].ts && getVersion(y, first[x].ts).trxKeys == first[x].trxKeys
  }

  /** What the second round returns for a key, given the first round and the sibling check. */
  ghost predicate Repaired(first: map<Key, Item>, getVersion: (Key, Timestamp) -> Item, v: map<Key, Timestamp>, ret: map<Key, Item>) {
    && ret.Keys == first.Keys
    && forall k :: k in first ==>
         ret[k] == if Lookup(v, k).Greater(first[k].ts) then getVersion(k, Lookup(v, k)) else first[k]
  }

  /** A repaired key has the announced timestamp and the announcer's siblings. */
  lemma RepairedKey(first: map<Key, Item>, getVersion: (Key, Timestamp) -> Item, ret: map<Key, Item>, v: map<Key, Timestamp>, k: Key)
    returns (z: Key)
    requires IsVLatest(first, v) && SiblingsPrepared(first, getVersion) && Repaired(first, getVersion, v, ret)
    requires forall x :: x in first ==> !first[x].ts.Less(ZERO)
    requires k in first
    ensures z in first && ret[k].trxKeys == first[z].trxKeys && ret[k].ts == first[z].ts
    ensures ret[k].ts == if Lookup(v, k).Greater(first[k].ts) then Lookup(v, k) else first[k].ts
  {
    if Lookup(v, k).Greater(first[k].ts) {
      z :| z in first && k in first[z].trxKeys && first[z].ts == Lookup(v, k);
    } else {
      z := k;
    }
  }

  /** One repair round suffices: a second sibling check over the final result finds nothing. */
  lemma OneRepairRoundSuffices(first: map<Key, Item>, getVersion: (Key, Timestamp) -> Item,
                               ret: map<Key, Item>, v: map<Key, Timestamp>)
    requires IsVLatest(first, v) && SiblingsPrepared(first, getVersion) && Repaired(first, getVersion, v, ret)
    requires forall k :: k in first ==> !first[k].ts.Less(ZERO)
    ensures Unfractured(ret)
    ensures forall k :: k in first ==> ret[k].ts == if Lookup(v, k).Greater(first[k].ts) then Lookup(v, k) else first[k].ts
  {
    forall k | k in first
      ensures ret[k].ts == if Lookup(v, k).Greater(first[k].ts) then Lookup(v, k) else first[k].ts
    {
      var z := RepairedKey(first, getVersion, ret, v, k);
    }
    forall x, y | x in ret && y in ret && y in ret[x].trxKeys
      ensures !ret[y].ts.Less(ret[x].ts)
    {
      var z := RepairedKey(first, getVersion, ret, v, x);
      assert !Lookup(v, y).Less(first[z].ts);
    }
  }

  /** Unfractured results are exactly those in which another sibling check finds nothing. */
  lemma NothingLeftToRepair(ret: map<Key, Item>, again: map<Key, Timestamp>)
    requires IsVLatest(ret, again) && forall k :: k in ret ==> !ret[k].ts.Less(ZERO)
    ensures Unfractured(ret) <==> forall k :: k in ret ==> !Lookup(again, k).Greater(ret[k].ts)
  {
    if Unfractured(ret) {
      forall k | k in ret
        ensures !Lookup(again, k).Greater(ret[k].ts)
      {
        if Lookup(again, k) != ZERO {
          var x :| x in ret && k in ret[x].trxKeys && ret[x].ts == Lookup(again, k);
        }
      }
    }
    if forall k :: k in ret ==> !Lookup(again, k).Greater(ret[k].ts) {
      forall x, y | x in ret && y in ret && y in ret[x].trxKeys
        ensures !ret[y].ts.Less(ret[x].ts)
      {
        assert !Lookup(again, y).Less(ret[x].ts);
      }
    }
  }

  // ---- a repair that comes back empty --------------------------------------------------------

  /** Versions are stored under their own timestamp. */
  ghost predicate Stamped(st: Store) {
    forall t, j :: 0 <= j < |Versions(st, t)| ==> Versions(st, t)[j].ts == t
  }

  lemma RunsAreStamped(c: Config, run: seq<State>, i: nat, server: nat)
    requires ValidConfig(c) && IsRun(c, run) && i < |run| && server < c.servers
    ensures |run[i].stores| == c.servers && Stamped(run[i].stores[server])
  {
    InvAlong(c, run, i);
    var st := run[i].stores[server];
    forall t, j | 0 <= j < |Versions(st, t)|
      ensures Versions(st, t)[j].ts == t
    {
      assert VersionOk(c, run[i], server, t, Versions(st, t)[j]);
    }
  }

  predicate Wrote(st: Store, t: Timestamp, k: Key) {
    exists j :: 0 <= j < |Versions(st, t)| && Versions(st, t)[j].key == k
  }

  lemma EmptyIffNotWritten(st: Store, k: Key, t: Timestamp)
    requires Stamped(st) && t != ZERO
    ensures GetByVersion(st, k, t) == EMPTY_ITEM <==> !Wrote(st, t, k)
  {
    if GetByVersion(st, k, t) != EMPTY_ITEM {
      var j := FindIsThere(Versions(st, t), k);
    }
    if j :| 0 <= j < |Versions(st, t)| && Versions(st, t)[j].key == k {
      var i := FindsOne(Versions(st, t), k, j);
      assert Versions(st, t)[i].ts == t;
    }
  }

  lemma {:induction false} FindsOne(versions: seq<Item>, k: Key, j: nat) returns (i: nat)
    requires j < |versions| && versions[j].key == k
    ensures i < |versions| && Find(versions, k) == versions[i]
  {
    if versions[0].key == k {
      i := 0;
    } else {
      i := FindsOne(versions[1..], k, j - 1);
      i := i + 1;
    }
  }

  /** Of the items that name `y` as a sibling, `x`'s is the newest. */
  ghost predicate NewestAnnouncer(first: map<Key, Item>, x: Key, y: Key) {
    && x in first && y in first[x].trxKeys
    && forall z :: z in first && y in first[z].trxKeys ==> !first[x].ts.Less(first[z].ts)
  }

  /**
   Exactly when a read loses an item that its first round had found: its newest announcer is newer
   and did not write it. `home` tells the store that is asked for a key.
   */
  lemma RepairEmptiesIff(home: Key -> Store, first: map<Key, Item>, v: map<Key, Timestamp>, ret: map<Key, Item>, y: Key)
    requires Stamped(home(y)) && IsVLatest(first, v) && Repaired(first, (k: Key, t: Timestamp) => GetByVersion(home(k), k, t), v, ret)
    requires y in first && first[y] != EMPTY_ITEM && !first[y].ts.Less(ZERO)
    ensures ret[y] == EMPTY_ITEM <==>
            exists x :: NewestAnnouncer(first, x, y) && first[x].ts.Greater(first[y].ts) && !Wrote(home(y), first[x].ts, y)
  {
    if Lookup(v, y).Greater(first[y].ts) {
      EmptyIffNotWritten(home(y), y, Lookup(v, y));
      var x := AnnouncedByNewest(first, v, y);
    }
    forall x | NewestAnnouncer(first, x, y) && first[x].ts.Greater(first[y].ts)
      ensures Lookup(v, y) == first[x].ts
    {
      NewestIsAnnounced(first, v, x, y);
    }
  }

  lemma NewestIsAnnounced(first: map<Key, Item>, v: map<Key, Timestamp>, x: Key, y: Key)
    requires IsVLatest(first, v) && NewestAnnouncer(first, x, y) && ZERO.Less(first[x].ts)
    ensures Lookup(v, y) == first[x].ts
  {
    assert !Lookup(v, y).Less(first[x].ts);
    var z :| z in first && y in first[z].trxKeys && first[z].ts == Lookup(v, y);
  }

  lemma AnnouncedByNewest(first: map<Key, Item>, v: map<Key, Timestamp>, y: Key) returns (x: Key)
    requires IsVLatest(first, v) && Lookup(v, y) != ZERO
    ensures NewestAnnouncer(first, x, y) && first[x].ts == Lookup(v, y)
  {
    x :| x in first && y in first[x].trxKeys && first[x].ts == Lookup(v, y);
  }

  // ---- GET and the one-sided first round -------------------------------------------------

  method AskAll(readSet: set<Key>, get: Key -> Item) returns (first: map<Key, Item>)
    ensures first.Keys == readSet && forall k :: k in readSet ==> first[k] == get(k)
  {
    first := map[];
    var todo := readSet;
    while todo != {}
      invariant todo <= readSet && first.Keys == readSet - todo
      invariant forall k :: k in first ==> first[k] == get(k)
      decreases |todo|
    {
      var key :| key in todo;
      todo := todo - {key};
      first := first[key := get(key)];
    }
  }

  /** RAMP-Fast: both rounds ask the servers; `first` is what the first round returned. */
  method GetAll(readSet: set<Key>, get: Key -> Item, getVersion: (Key, Timestamp) -> Item)
    returns (ret: map<Key, Item>, first: map<Key, Item>)
    ensures ret.Keys == first.Keys == readSet && forall k :: k in readSet ==> first[k] == get(k)
    ensures SiblingsPrepared(first, getVersion) && (forall k :: k in readSet ==> !first[k].ts.Less(ZERO)) ==>
              Unfractured(ret) && forall k :: k in readSet ==> !ret[k].ts.Less(get(k).ts)
  {
    first := AskAll(readSet, get);
    var vLatest;
    ret, vLatest := RepairAll(first, getVersion);
    if SiblingsPrepared(first, getVersion) && forall k :: k in first ==> !first[k].ts.Less(ZERO) {
      OneRepairRoundSuffices(first, getVersion, ret, vLatest);
    }
  }

  /** The debt is paid: a completed first round without torn slot reads finds all announced siblings prepared. */
  lemma FirstRoundSiblingsArePrepared(c: Config, run: seq<State>, i: nat, id: nat)
    requires ValidConfig(c) && IsRun(c, run) && i < |run| && UntornUntil(c, run, i, id)
    requires id in run[i].readers && run[i].readers[id].phase != FirstRound
    ensures |run[i].stores| == c.servers
    ensures forall k :: k in run[i].readers[id].first ==> !run[i].readers[id].first[k].ts.Less(ZERO)
    ensures SiblingsPrepared(run[i].readers[id].first, AskServers(c, run[i]))
  {
    InvAlong(c, run, i);
    UntornIsTrue(c, run, i, id);
    TruthAlong(c, run, i, id);
    var s, first := run[i], run[i].readers[id].first;
    forall x | x in first
      ensures !first[x].ts.Less(ZERO)
    {
      GenuineIsPlausible(s, x, first[x]);
    }
    forall x, y | x in first && y in first && y in first[x].trxKeys
      ensures var item := AskServers(c, s)(y, first[x].ts); item.ts == first[x].ts && item.trxKeys == first[x].trxKeys
    {
      assert Genuine(s, x, first[x]);
      GenuineVersion(c, s, y, first[x].ts);
    }
  }

  function AskServers(c: Config, s: State): (Key, Timestamp) -> Item
    requires ValidConfig(c) && |s.stores| == c.servers
  {
    (k: Key, t: Timestamp) => GetByVersion(s.stores[Home(c, k)], k, t)
  }

  /** How the one-sided first round ends. */
  datatype FirstRoundEnd =
    | Done(items: map<Key, Item>)
    | PollsForever    // a message that never arrives
    | RunsPast        // a slot whose announced size leads out of the packet that was read

  predicate Ends(view: View<Item>) {
    view.Waiting? || view.Overrun?
  }

  /** The RDMA variant remembers slot addresses and reads slots without asking the server. */
  class OneSidedReader {
    var addrCache: map<Key, nat>

    constructor ()
      ensures addrCache == map[]
    {
      addrCache := map[];
    }

    /**
     `readSlot` is a one-sided read of an address, `getWithAddr` a GET_WITH_ADDR reply. Keys are
     visited in any order, so of two bad slots either may end the round.
     */
    method ReadAll(readSet: set<Key>, readSlot: nat -> View<Item>, getWithAddr: Key -> (Item, nat))
      returns (first: FirstRoundEnd)
      modifies this
      ensures first.Done? <==> forall k :: k in readSet && k in old(addrCache) ==> !Ends(readSlot(old(addrCache[k])))
      ensures first.PollsForever? ==> exists k :: k in readSet && k in old(addrCache) && readSlot(old(addrCache[k])).Waiting?
      ensures first.RunsPast? ==> exists k :: k in readSet && k in old(addrCache) && readSlot(old(addrCache[k])).Overrun?
      ensures first.Done? ==> first.items.Keys == readSet
      ensures first.Done? ==> forall k :: k in readSet ==>
                if k in old(addrCache) && readSlot(old(addrCache[k])).Got?
                then first.items[k] == readSlot(old(addrCache[k])).item && k in addrCache && addrCache[k] == old(addrCache[k])
                else k in addrCache && (first.items[k], addrCache[k]) == getWithAddr(k)
      ensures forall k :: k !in readSet ==> (k in addrCache <==> k in old(addrCache)) && (k in addrCache ==> addrCache[k] == old(addrCache[k]))
    {
      var ret: map<Key, Item> := map[];
      var todo := readSet;
      while todo != {}
        invariant todo <= readSet && ret.Keys == readSet - todo
        invariant forall k :: k in readSet - todo && k in old(addrCache) ==> !Ends(readSlot(old(addrCache[k])))
        invariant forall k :: k in readSet - todo ==>
                    if k in old(addrCache) && readSlot(old(addrCache[k])).Got?
                    then ret[k] == readSlot(old(addrCache[k])).item && k in addrCache && addrCache[k] == old(addrCache[k])
                    else k in addrCache && (ret[k], addrCache[k]) == getWithAddr(k)
        invariant forall k :: k !in readSet - todo ==>
                    (k in addrCache <==> k in old(addrCache)) && (k in addrCache ==> addrCache[k] == old(addrCache[k]))
        decreases |todo|
      {
        var key :| key in todo;
        todo := todo - {key};
        if key in addrCache {
          var view := readSlot(addrCache[key]);
          if Ends(view) {
            return if view.Waiting? then PollsForever else RunsPast;
          }
          if view.Got? {
            ret := ret[key := view.item];
          }
        }
        if key !in ret {
          var reply := getWithAddr(key);
          ret := ret[key := reply.0];
          addrCache := addrCache[key := reply.1];
        }
      }
      first := Done(ret);
    }
  }
}
