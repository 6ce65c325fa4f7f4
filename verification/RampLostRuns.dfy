/**
 The condition of `RampHarmless` is necessary: with exclusive commits, and whatever harmful mixture
 a torn slot can show, some read misses a write that had returned before it began.
 */
module RampLostRuns {
  import opened Data
  import opened Slot
  import opened Store
  import opened Ramp
  import opened RampSafety
  import opened RampTears
  import opened RampScripts
  import opened RampReturns
  import opened RampTornRuns
  import opened RampVisibility
  import opened RampHarmless

  // ---- a transaction that runs from start to end -------------------------------------------------

  lemma BegunIsSolo(c: Config, s: State, s': State, k: Key, w: Item)
    requires ValidConfig(c) && OnlyBegins(c, s, s', w.ts) && w.ts !in s.writers && (forall u :: u in s.writers ==> Calm(s.writers[u]))
    requires Stands(c, s', w.ts, k, w, Job(0, Check)) && s.changing == map[]
    ensures Solo(c, s', k, w, Job(0, Check), Latest(s.stores[Home(c, k)], k), s'.stores[Home(c, k)].slots[k], map[])
  {
    forall u | u in s'.writers && u != w.ts
      ensures Calm(s'.writers[u])
    {
      assert u in s.writers && s'.writers[u] == s.writers[u];
    }
  }

  lemma SoloCommits(c: Config, s: State, k: Key, a: Item, latest: Timestamp, view: View<Item>) returns (s': State)
    requires ValidConfig(c) && Reachable(c, s) && Solo(c, s, k, a, Job(0, Check), latest, view, map[]) && latest.Less(a.ts)
    ensures Reachable(c, s') && Advances(s, s', a.ts, k) && Solo(c, s', k, a, Job(1, Check), a.ts, Got(a), map[])
  {
    var s1 := SoloCopies(c, s, k, a, latest, view);
    s' := SoloMoves(c, s1, k, a, Writing, a.ts, view, map[k := a]);
    assert map[k := a] - {k} == map[];
    AdvancesChains(s, s1, s', a.ts, k);
  }

  /** `t` has come and gone: it has returned, and whatever it changed, it changed to itself. */
  ghost predicate Came(c: Config, s: State, s': State, t: Timestamp, writes: map<Key, Values>)
    requires ValidConfig(c)
  {
    && Reachable(c, s') && |s'.stores| == |s.stores| == c.servers && s'.readers == s.readers && s'.changing == map[]
    && t in s'.writers && s'.writers == s.writers[t := s'.writers[t]]
    && s'.writers[t].phase == Returned && s'.writers[t].writes == writes && (forall u :: u in s'.writers ==> Calm(s'.writers[u]))
    && (forall m, j :: 0 <= m < c.servers ==> Latest(s'.stores[m], j) == Latest(s.stores[m], j) || Latest(s'.stores[m], j) == t)
    && (forall m, j :: 0 <= m < c.servers && j !in writes ==> Latest(s'.stores[m], j) == Latest(s.stores[m], j))
  }

  lemma SoloIsUndisturbed(c: Config, s: State, k: Key, a: Item, view: View<Item>)
    requires ValidConfig(c) && Reachable(c, s) && Solo(c, s, k, a, Job(1, Check), a.ts, view, map[]) && s.writers[a.ts].jobs.Keys == {Home(c, k)}
    ensures Undisturbed(c, s, a.ts) && PastKey(c, s, a.ts, k)
  {
    assert Calm(s.writers[a.ts]);
  }

  lemma RunsAlone(c: Config, s: State, t: Timestamp, writes: map<Key, Values>, k: Key) returns (s': State)
    requires ValidConfig(c) && c.exclusive && Reachable(c, s) && ReadyFor(c, s, t) && ZERO.Less(t) && k in writes
    requires Latest(s.stores[Home(c, k)], k).Less(t)
    ensures Came(c, s, s', t, writes) && Latest(s'.stores[Home(c, k)], k) == t
  {
    var item := WrittenItem(t, writes, k);
    var s1 := Begins(c, s, t, writes, k);
    BegunIsSolo(c, s, s1, k, item);
    var view := s1.stores[Home(c, k)].slots[k];
    var s2 := SoloCommits(c, s1, k, item, Latest(s.stores[Home(c, k)], k), view);
    SoloIsUndisturbed(c, s2, k, item, Got(item));
    s' := Returns(c, s2, t, k);
    HasCome(c, s, s1, s2, s', t, writes, k);
  }

  lemma HasCome(c: Config, s: State, s1: State, s2: State, s': State, t: Timestamp, writes: map<Key, Values>, k: Key)
    requires ValidConfig(c) && OnlyBegins(c, s, s1, t) && Advances(s1, s2, t, k) && OnlyFinishes(s2, s', t, k) && t !in s.writers
    requires s1.writers[t].writes == writes && k in writes && Latest(s2.stores[Home(c, k)], k) == t
    requires Reachable(c, s') && s'.changing == map[] && s'.writers[t].phase == Returned && forall u :: u in s'.writers ==> Calm(s'.writers[u])
    ensures Came(c, s, s', t, writes) && Latest(s'.stores[Home(c, k)], k) == t
  {
    OnlyNewWriter(c, s, s1, s2, s', t, k);
    forall m, j | 0 <= m < c.servers
      ensures Latest(s'.stores[m], j) == Latest(s.stores[m], j) || Latest(s'.stores[m], j) == t
      ensures j !in writes ==> Latest(s'.stores[m], j) == Latest(s.stores[m], j)
    {
      LatestComes(c, s, s1, s2, s', t, k, m, j);
    }
    LatestComes(c, s, s1, s2, s', t, k, Home(c, k), k);
  }

  lemma OnlyNewWriter(c: Config, s: State, s1: State, s2: State, s': State, t: Timestamp, k: Key)
    requires ValidConfig(c) && OnlyBegins(c, s, s1, t) && Advances(s1, s2, t, k) && OnlyFinishes(s2, s', t, k) && t !in s.writers
    ensures s'.writers == s.writers[t := s'.writers[t]] && s'.readers == s.readers && s'.writers[t].writes == s1.writers[t].writes
  {
  }

  lemma LatestComes(c: Config, s: State, s1: State, s2: State, s': State, t: Timestamp, k: Key, m: nat, j: Key)
    requires ValidConfig(c) && OnlyBegins(c, s, s1, t) && Advances(s1, s2, t, k) && OnlyFinishes(s2, s', t, k) && m < c.servers
    ensures Latest(s'.stores[m], j) == Latest(s.stores[m], j) || Latest(s'.stores[m], j) == t
    ensures j != k && j !in s2.writers[t].writes ==> Latest(s'.stores[m], j) == Latest(s.stores[m], j)
    ensures j == k ==> Latest(s'.stores[m], j) == Latest(s2.stores[m], j)
  {
    assert OnlyTouches(s2.stores[m], s'.stores[m], t, s2.writers[t].writes.Keys, k);
    assert Latest(s1.stores[m], j) == Latest(s.stores[m], j);
  }

  // ---- two items meet, and the older one's transaction has returned --------------------------------

  /** Compared with before, only `y` and `x` are new, `y` has returned, and of other keys only `y`'s have changed. */
  ghost predicate Met(c: Config, s0: State, s: State, k: Key, y: Item, x: Item)
    requires ValidConfig(c)
  {
    && |s.stores| == |s0.stores| == c.servers && s.writers.Keys == s0.writers.Keys + {y.ts, x.ts}
    && (forall u :: u in s0.writers && u != y.ts && u != x.ts ==> s.writers[u] == s0.writers[u])
    && s.writers[y.ts].phase == Returned && s.writers[y.ts].writes == WritesOf(y) && s.writers[x.ts].writes == WritesOf(x)
    && (forall m, j :: 0 <= m < c.servers && j != k ==>
          Latest(s.stores[m], j) == Latest(s0.stores[m], j) || (Latest(s.stores[m], j) == y.ts && j in y.trxKeys))
  }

  lemma PairIsUndisturbed(c: Config, s: State, k: Key, y: Item, x: Item)
    requires ValidConfig(c) && Reachable(c, s) && Pair(c, s, k, y, Job(1, Check), x, Job(0, Check), y.ts, Got(y), map[])
    requires s.writers[y.ts].jobs.Keys == {Home(c, k)} && s.writers[x.ts].jobs.Keys == {Home(c, k)}
    ensures Undisturbed(c, s, y.ts) && PastKey(c, s, y.ts, k)
  {
    assert Calm(s.writers[y.ts]) && Calm(s.writers[x.ts]);
  }

  lemma NextIsSolo(c: Config, s: State, s': State, k: Key, y: Item, x: Item)
    requires ValidConfig(c) && Pair(c, s, k, y, Job(1, Check), x, Job(0, Check), y.ts, Got(y), map[]) && OnlyFinishes(s, s', y.ts, k)
    requires s'.changing == map[] && forall u :: u in s'.writers ==> Calm(s'.writers[u])
    ensures Solo(c, s', k, x, Job(0, Check), y.ts, Got(y), map[])
  {
    assert OnlyTouches(s.stores[Home(c, k)], s'.stores[Home(c, k)], y.ts, s.writers[y.ts].writes.Keys, k);
  }

  lemma HaveMet(c: Config, s0: State, s1: State, s2: State, s3: State, s: State, k: Key, y: Item, x: Item)
    requires ValidConfig(c) && Overwrites(c, k, y, x) && |s0.stores| == c.servers && y.ts !in s0.writers && x.ts !in s0.writers
    requires s1.writers == s0.writers[y.ts := Begun(c, WritesOf(y), k)][x.ts := Begun(c, WritesOf(x), k)] && SameLatest(s0, s1)
    requires Advances(s1, s2, y.ts, k) && OnlyFinishes(s2, s3, y.ts, k) && Advances(s3, s, x.ts, k) && s3.writers[y.ts].phase == Returned
    ensures Met(c, s0, s, k, y, x)
  {
    OnlyTwoWriters(s1, s2, s3, s, k, y.ts, x.ts);
    AllOldMoves(s0, s1, s2, s3, s, k, y, x);
    TwoNew(c, s0.writers, s1.writers, s.writers, k, y, x);
  }

  lemma TwoNew(c: Config, had: map<Timestamp, Writer>, begun: map<Timestamp, Writer>, now: map<Timestamp, Writer>, k: Key, y: Item, x: Item)
    requires ValidConfig(c) && y.ts != x.ts && y.ts !in had && x.ts !in had
    requires begun == had[y.ts := Begun(c, WritesOf(y), k)][x.ts := Begun(c, WritesOf(x), k)] && now.Keys == begun.Keys
    requires forall v :: v in begun && v != y.ts && v != x.ts ==> now[v] == begun[v]
    ensures now.Keys == had.Keys + {y.ts, x.ts} && forall v :: v in had && v != y.ts && v != x.ts ==> now[v] == had[v]
    ensures begun[y.ts].writes == WritesOf(y) && begun[x.ts].writes == WritesOf(x)
  {
  }

  lemma AllOldMoves(s0: State, s1: State, s2: State, s3: State, s: State, k: Key, y: Item, x: Item)
    requires SameLatest(s0, s1) && Advances(s1, s2, y.ts, k) && OnlyFinishes(s2, s3, y.ts, k) && Advances(s3, s, x.ts, k)
    requires s1.writers[y.ts].writes == WritesOf(y)
    ensures |s.stores| == |s0.stores|
    ensures forall m, j :: 0 <= m < |s0.stores| && j != k ==>
              Latest(s.stores[m], j) == Latest(s0.stores[m], j) || (Latest(s.stores[m], j) == y.ts && j in y.trxKeys)
  {
    forall m, j | 0 <= m < |s0.stores| && j != k
      ensures Latest(s.stores[m], j) == Latest(s0.stores[m], j) || (Latest(s.stores[m], j) == y.ts && j in y.trxKeys)
    {
      OnlyOldMoves(s0, s1, s2, s3, s, k, y, x, m, j);
    }
  }

  /** Of keys other than `k`, only `y`'s commit may have moved the latest version, and to its own. */
  lemma OnlyOldMoves(s0: State, s1: State, s2: State, s3: State, s: State, k: Key, y: Item, x: Item, m: nat, j: Key)
    requires m < |s0.stores| && SameLatest(s0, s1) && Advances(s1, s2, y.ts, k) && OnlyFinishes(s2, s3, y.ts, k) && Advances(s3, s, x.ts, k)
    requires j != k && s1.writers[y.ts].writes == WritesOf(y)
    ensures Latest(s.stores[m], j) == Latest(s0.stores[m], j) || (Latest(s.stores[m], j) == y.ts && j in y.trxKeys)
  {
    assert OnlyTouches(s2.stores[m], s3.stores[m], y.ts, s2.writers[y.ts].writes.Keys, k);
    assert Latest(s.stores[m], j) == Latest(s3.stores[m], j) && Latest(s2.stores[m], j) == Latest(s1.stores[m], j);
  }

  lemma OnlyTwoWriters(s1: State, s2: State, s3: State, s: State, k: Key, t: Timestamp, u: Timestamp)
    requires t != u && u in s1.writers && Advances(s1, s2, t, k) && OnlyFinishes(s2, s3, t, k) && Advances(s3, s, u, k)
    ensures s.writers.Keys == s1.writers.Keys && forall v :: v in s1.writers && v != t && v != u ==> s.writers[v] == s1.writers[v]
    ensures s.writers[t] == s3.writers[t] && s3.writers[t].writes == s1.writers[t].writes && s.writers[u].writes == s1.writers[u].writes
  {
  }

  lemma Meets(c: Config, s0: State, k: Key, y: Item, x: Item) returns (s: State)
    requires ValidConfig(c) && c.exclusive && Overwrites(c, k, y, x) && Reachable(c, s0) && s0.readers == map[]
    requires ReadyFor(c, s0, y.ts) && ReadyFor(c, s0, x.ts) && Latest(s0.stores[Home(c, k)], k).Less(y.ts)
    ensures Copying(c, s, k, y, x) && Met(c, s0, s, k, y, x)
  {
    var s1, view := PairBegins(c, s0, k, y, x, WritesOf(y), WritesOf(x));
    var s2 := PairCommits(c, s1, k, y, x, Job(0, Check), Latest(s0.stores[Home(c, k)], k), view);
    PairIsUndisturbed(c, s2, k, y, x);
    var s3 := Returns(c, s2, y.ts, k);
    NextIsSolo(c, s2, s3, k, y, x);
    s := SoloCopies(c, s3, k, x, y.ts, Got(y));
    HaveMet(c, s0, s1, s2, s3, s, k, y, x);
  }

  // ---- a write is lost -----------------------------------------------------------------------------

  /** A finished read misses a write that had returned before it began. */
  ghost predicate Lost(c: Config, s: State, t: Timestamp, j: Key)
    requires ValidConfig(c)
  {
    Reachable(c, s) && MustSee(s, 0, t, j) && !Sees(s, 0, t, j)
  }

  lemma IsLost(c: Config, s0: State, s: State, keys: set<Key>, result: map<Key, Item>, t: Timestamp, j: Key)
    requires ValidConfig(c) && Reachable(c, s) && OnlyReads(s0, s) && Ended(s, keys, result, AllReturned(s0))
    requires t in s0.writers && s0.writers[t].phase == Returned && j in s0.writers[t].writes
    requires j in keys && j in result && result[j].ts.Less(t)
    ensures Lost(c, s, t, j)
  {
    assert s.readers[0].result == result;
  }

  /** The mixture is older than `y`, and the second round does not notice. */
  lemma OldMixtureLoses(c: Config, k: Key, y: Item, x: Item, z: Item) returns (s: State)
    requires ValidConfig(c) && c.exclusive && Overwrites(c, k, y, x) && c.mixes(y, x, z) && !z.ts.Less(ZERO) && z.ts.Less(y.ts)
    ensures Lost(c, s, y.ts, k)
  {
    BothReady(c, y.ts);
    BothReady(c, x.ts);
    var s0 := Meets(c, Start(c), k, y, x);
    s := MixtureAlone(c, s0, k, y, x, z);
    IsLost(c, s0, s, {k}, map[k := z], y.ts, k);
  }

  lemma TableAnswer(c: Config, s: State, j: Key, item: Item)
    requires ValidConfig(c) && Reachable(c, s) && |s.stores| == c.servers
    requires item == GetByVersion(s.stores[Home(c, j)], j, Latest(s.stores[Home(c, j)], j))
    ensures item.ts == Latest(s.stores[Home(c, j)], j) && !item.ts.Less(ZERO)
  {
    ReachableInv(c, s);
    assert GenuineTs(s, j, Latest(s.stores[Home(c, j)], j));
    GenuineVersion(c, s, j, Latest(s.stores[Home(c, j)], j));
    assert item.ts in s.writers ==> WriterOk(item.ts, s.writers[item.ts]);
  }

  lemma NotWritten(c: Config, s: State, t: Timestamp, j: Key)
    requires ValidConfig(c) && Reachable(c, s) && !WroteKey(s, t, j)
    ensures |s.stores| == c.servers && GetByVersion(s.stores[Home(c, j)], j, t) == EMPTY_ITEM
  {
    ReachableInv(c, s);
    NotWrittenNotFound(c, s, t, j);
  }

  /** The mixture announces `j` under a timestamp of which there is no version, and hides one that is there. */
  lemma HidesSibling(c: Config, s0: State, k: Key, y: Item, x: Item, z: Item, j: Key, t: Timestamp) returns (s: State)
    requires ValidConfig(c) && Copying(c, s0, k, y, x) && c.mixes(y, x, z) && j in z.trxKeys && j != k
    requires t in s0.writers && s0.writers[t].phase == Returned && j in s0.writers[t].writes && ZERO.Less(t) && t.Less(z.ts)
    requires Latest(s0.stores[Home(c, j)], j) in {ZERO, t} && !WroteKey(s0, z.ts, j)
    ensures Lost(c, s, t, j)
    ensures Ended(s, {k, j}, map[k := z, j := EMPTY_ITEM], AllReturned(s0)) && s.writers == s0.writers
  {
    var i := GetByVersion(s0.stores[Home(c, j)], j, Latest(s0.stores[Home(c, j)], j));
    TableAnswer(c, s0, j, i);
    NotWritten(c, s0, z.ts, j);
    s := SiblingGoesEmpty(c, s0, k, y, x, z, j, i);
    IsLost(c, s0, s, {k, j}, map[k := z, j := EMPTY_ITEM], t, j);
  }

  /** It hides what `y`'s own transaction wrote. */
  lemma HidesSiblingOfOld(c: Config, k: Key, y: Item, x: Item, z: Item, j: Key) returns (s: State)
    requires ValidConfig(c) && c.exclusive && Overwrites(c, k, y, x) && c.mixes(y, x, z) && j in z.trxKeys && j != k
    requires j in y.trxKeys && y.ts.Less(z.ts) && !(z.ts == x.ts && j in x.trxKeys)
    ensures Lost(c, s, y.ts, j) && s.readers[0].result == map[k := z, j := EMPTY_ITEM]
    ensures s.writers.Keys == {y.ts, x.ts} && s.writers[y.ts].writes == WritesOf(y) && s.writers[x.ts].writes == WritesOf(x)
  {
    BothReady(c, y.ts);
    BothReady(c, x.ts);
    var s0 := Meets(c, Start(c), k, y, x);
    assert Latest(Start(c).stores[Home(c, j)], j) == ZERO;
    s := HidesSibling(c, s0, k, y, x, z, j, y.ts);
  }

  /** Another transaction has come and gone before `y` and `x` begin. */
  lemma ReadyAfter(c: Config, s: State, s': State, t: Timestamp, writes: map<Key, Values>, u: Timestamp)
    requires ValidConfig(c) && Came(c, s, s', t, writes) && u != t && u !in s.writers
    ensures ReadyFor(c, s', u)
  {
    NewHasNoVersion(c, s', u);
  }

  lemma ComesFirst(c: Config, k: Key, y: Item, x: Item, t: Timestamp, writes: map<Key, Values>, j: Key) returns (s0: State, s: State)
    requires ValidConfig(c) && c.exclusive && Overwrites(c, k, y, x) && ZERO.Less(t) && t != y.ts && t != x.ts && j in writes
    requires k in writes ==> t.Less(y.ts)
    ensures Came(c, Start(c), s0, t, writes) && Latest(s0.stores[Home(c, j)], j) == t
    ensures Copying(c, s, k, y, x) && Met(c, s0, s, k, y, x)
  {
    BothReady(c, t);
    s0 := RunsAlone(c, Start(c), t, writes, j);
    ReadyAfter(c, Start(c), s0, t, writes, y.ts);
    ReadyAfter(c, Start(c), s0, t, writes, x.ts);
    s := Meets(c, s0, k, y, x);
  }

  /** It hides what an older transaction wrote. */
  lemma HidesSiblingOfOther(c: Config, k: Key, y: Item, x: Item, z: Item, j: Key, t: Timestamp) returns (s: State)
    requires ValidConfig(c) && c.exclusive && Overwrites(c, k, y, x) && c.mixes(y, x, z) && j in z.trxKeys && j != k
    requires j !in y.trxKeys && !(z.ts == x.ts && j in x.trxKeys) && ZERO.Less(t) && t.Less(z.ts) && t != y.ts && t != x.ts
    ensures Lost(c, s, t, j)
  {
    var s0, s1 := ComesFirst(c, k, y, x, t, map[j := map[]], j);
    StillThere(c, s0, s1, k, y, x, z, j, t);
    s := HidesSibling(c, s1, k, y, x, z, j, t);
  }

  lemma StillThere(c: Config, s0: State, s: State, k: Key, y: Item, x: Item, z: Item, j: Key, t: Timestamp)
    requires ValidConfig(c) && Came(c, Start(c), s0, t, map[j := map[]]) && Met(c, s0, s, k, y, x) && j != k && t != y.ts && t != x.ts
    requires j !in y.trxKeys && !(z.ts == x.ts && j in x.trxKeys) && t.Less(z.ts) && Latest(s0.stores[Home(c, j)], j) == t
    ensures t in s.writers && s.writers[t].phase == Returned && j in s.writers[t].writes
    ensures Latest(s.stores[Home(c, j)], j) == t && !WroteKey(s, z.ts, j)
  {
    assert s.writers[t] == s0.writers[t];
  }

  /** A key longer than all of these. */
  lemma {:induction false} FreshKey(keys: set<Key>) returns (m: Key)
    ensures m != "" && forall q :: q in keys ==> |q| < |m|
  {
    if keys == {} {
      m := "'";
    } else {
      var q :| q in keys;
      m := FreshKey(keys - {q});
      assert forall p :: p in keys ==> p == q || p in keys - {q};
      m := m + q;
    }
  }

  lemma NegativeNamed(k: Key, m: Key, z: Item, i: Item)
    requires z.ts.Less(ZERO) && m != k && ZERO.Less(i.ts) && k in i.trxKeys && m in i.trxKeys
    ensures var first, v := map[k := z][m := i], NamedByTwo(z, i);
            && first.Keys == {k, m} && IsVLatest(first, v) && Lookup(v, k) == i.ts
            && forall q :: q in first ==> (Lookup(v, q).Greater(first[q].ts) <==> q == k)
  {
    var first := map[k := z][m := i];
    assert first[k] == z && first[m] == i;
    TwoAnnounce(first, k, m);
    LookupNamed(z, i, k);
    LookupNamed(z, i, m);
  }

  /** The second round fetches what an older transaction's item announces, which is older than `y`. */
  lemma RepairsBackwards(c: Config, s0: State, k: Key, y: Item, x: Item, z: Item, m: Key, t: Timestamp) returns (s: State)
    requires ValidConfig(c) && Copying(c, s0, k, y, x) && c.mixes(y, x, z) && z.ts.Less(ZERO) && m != k && ZERO.Less(t) && t.Less(y.ts)
    requires WroteKey(s0, t, k) && WroteKey(s0, t, m) && s0.writers[t].phase == Returned && Latest(s0.stores[Home(c, m)], m) == t
    requires s0.writers[y.ts].phase == Returned && k in s0.writers[y.ts].writes
    ensures Lost(c, s, y.ts, k)
  {
    var im, ik := ItemOf(s0.writers[t], t, m), ItemOf(s0.writers[t], t, k);
    FoundUnder(c, s0, t, m);
    FoundUnder(c, s0, t, k);
    var s1, r1 := ReadsMixture(c, s0, k, y, x, z, {k, m});
    SameAnswer(c, s0, s1, m, t);
    var s2, r2 := ReadsTable(c, s1, r1, m, im);
    OnlyReadsChains(s0, s1, s2);
    SameAnswer(c, s0, s2, k, t);
    s := EndsBackwards(c, s2, r2, k, z, m, im, ik);
    OnlyReadsChains(s0, s2, s);
    IsLost(c, s0, s, {k, m}, map[k := z][m := im][k := ik], y.ts, k);
  }

  lemma EndsBackwards(c: Config, s: State, r: Reader, k: Key, z: Item, m: Key, im: Item, ik: Item) returns (s': State)
    requires ValidConfig(c) && |s.stores| == c.servers && Reachable(c, s) && s.readers == map[0 := r]
    requires HasRead(r, {k, m}, map[k := z][m := im], r.returnedBefore) && z.ts.Less(ZERO) && m != k
    requires ZERO.Less(im.ts) && k in im.trxKeys && m in im.trxKeys && ik == GetByVersion(s.stores[Home(c, k)], k, im.ts)
    ensures Reachable(c, s') && OnlyReads(s, s') && Ended(s', {k, m}, map[k := z][m := im][k := ik], r.returnedBefore)
  {
    NegativeNamed(k, m, z, im);
    var v := NamedByTwo(z, im);
    assert r.first.Keys == r.keys && IsVLatest(r.first, v) && Lookup(v, k) == im.ts;
    s' := ConcludesWith(c, s, r, v, k, ik);
  }

  lemma FoundUnder(c: Config, s: State, t: Timestamp, j: Key)
    requires ValidConfig(c) && Reachable(c, s) && WroteKey(s, t, j) && s.writers[t].phase != Preparing
    ensures |s.stores| == c.servers && GetByVersion(s.stores[Home(c, j)], j, t) == ItemOf(s.writers[t], t, j)
  {
    ReachableInv(c, s);
    WrittenIsFound(c, s, t, j);
  }

  /** A negative timestamp makes the second round ask again, and an older transaction is announced. */
  lemma NegativeMixtureLoses(c: Config, k: Key, y: Item, x: Item, z: Item) returns (s: State)
    requires ValidConfig(c) && c.exclusive && Overwrites(c, k, y, x) && c.mixes(y, x, z) && z.ts.Less(ZERO) && y.ts != LOWEST
    ensures Lost(c, s, y.ts, k)
  {
    var m := FreshKey(y.trxKeys + {k});
    var writes: map<Key, Values> := map[k := map[], m := map[]];
    var s0, s1 := ComesFirst(c, k, y, x, LOWEST, writes, m);
    assert s1.writers[LOWEST] == s0.writers[LOWEST];
    s := RepairsBackwards(c, s1, k, y, x, z, m, LOWEST);
  }

  /** Whatever harmful mixture a slot can show, it loses a write in some run. */
  lemma HarmfulMixtureLoses(c: Config, k: Key, y: Item, x: Item, z: Item) returns (s: State, t: Timestamp, j: Key)
    requires ValidConfig(c) && c.exclusive && Overwrites(c, k, y, x) && c.mixes(y, x, z) && !HarmlessMixture(k, y, x, z)
    ensures Lost(c, s, t, j)
  {
    if !NewEnough(y, z) {
      t, j := y.ts, k;
      if z.ts.Less(ZERO) {
        s := NegativeMixtureLoses(c, k, y, x, z);
      } else {
        s := OldMixtureLoses(c, k, y, x, z);
      }
    } else {
      j :| j in z.trxKeys && j != k && !LeadsRight(y, x, z, j);
      t :| OlderWrite(y, x, j, z.ts, t);
      if j in y.trxKeys {
        t := y.ts;
        s := HidesSiblingOfOld(c, k, y, x, z, j);
      } else {
        s := HidesSiblingOfOther(c, k, y, x, z, j, t);
      }
    }
  }
}
