/**
  Restarts. A restarted controller has an empty owner map and a cursor at zero, and learns who owns
  what only from the entries it reconciles. When that is harmless, and exactly when it is not.
 */
module VipRestart {
  import opened Mesh
  import opened Text
  import opened VipPool
  import opened VipAllocator
  import opened VipRuns
  import opened VipRoom

  function Restarted(store: map<ObjectKey, ServiceEntry>): State {
    State(store, map[], 0)
  }

  predicate HasVip(store: map<ObjectKey, ServiceEntry>, key: ObjectKey) {
    key in store && Eligible(store[key]) && store[key].addresses != []
  }

  /** The owner map tells the truth about the entries it names. */
  ghost predicate Faithful(s: State) {
    forall ip :: ip in s.serviceIPs ==> HasVip(s.store, s.serviceIPs[ip]) && s.store[s.serviceIPs[ip]].addresses[0] == ip
  }

  ghost predicate Distinct(store: map<ObjectKey, ServiceEntry>) {
    forall k, k' :: HasVip(store, k) && HasVip(store, k') && k != k' ==> store[k].addresses[0] != store[k'].addresses[0]
  }

  ghost predicate OnlyReconciles(steps: seq<Step>) {
    forall step :: step in steps ==> step.Reconcile?
  }

  // --- No address is ever written ---

  /** No reconcile of the run issues an Update. */
  ghost predicate Quiet(s: State, steps: seq<Step>)
    requires OnlyReconciles(steps)
    decreases |steps|
  {
    steps == [] ||
    (assert steps[0] in steps;
     && !Reallocates(s, steps[0].key, steps[0].faults)
     && Quiet(After(s, steps[0]), steps[1..]))
  }

  /** The reconcile fetches the entry that holds `ip`. */
  predicate Visits(store: map<ObjectKey, ServiceEntry>, step: Step, ip: string) {
    step.Reconcile? && !step.faults.requestGet && HasVip(store, step.key) && store[step.key].addresses[0] == ip
  }

  ghost predicate Visited(store: map<ObjectKey, ServiceEntry>, steps: seq<Step>, ip: string) {
    exists step :: step in steps && Visits(store, step, ip)
  }

  /** With a truthful owner map and different addresses, only entries that wait for an address get one. */
  lemma OnlyWaitingReallocate(s: State, key: ObjectKey, faults: Faults)
    requires Distinct(s.store) && Faithful(s) && Reallocates(s, key, faults)
    ensures key in Waiting(s.store)
  {
  }

  /** Any other reconcile writes nothing; at most it records the owner. */
  lemma TruthfulStep(s: State, step: Step)
    requires Distinct(s.store) && Faithful(s) && step.Reconcile? && !Reallocates(s, step.key, step.faults)
    ensures var t := After(s, step);
            && t.store == s.store && t.maxIP == s.maxIP && Faithful(t)
            && forall ip :: ip in t.serviceIPs <==> ip in s.serviceIPs || Visits(s.store, step, ip)
  {
  }

  lemma {:induction false} DistinctIsQuiet(s: State, steps: seq<Step>)
    requires AllDistinct(s.store) && Faithful(s) && OnlyReconciles(steps)
    ensures Quiet(s, steps) && Runs(s, steps)
    ensures Final(s, steps).store == s.store && Faithful(Final(s, steps))
    ensures forall ip :: ip in Final(s, steps).serviceIPs <==> ip in s.serviceIPs || Visited(s.store, steps, ip)
    decreases |steps|
  {
    if steps != [] {
      assert steps == [steps[0]] + steps[1..];
      if Reallocates(s, steps[0].key, steps[0].faults) {
        OnlyWaitingReallocate(s, steps[0].key, steps[0].faults);
      }
      TruthfulStep(s, steps[0]);
      DistinctIsQuiet(After(s, steps[0]), steps[1..]);
    }
  }

  /** If every eligible entry already has an address of its own, then after a restart any sequence of
      reconciles, with any faults, writes nothing and rebuilds the owner map: it holds exactly the
      addresses of the entries fetched, each sent to the entry that has it. */
  lemma {:induction false} RestartRebuilds(store: map<ObjectKey, ServiceEntry>, steps: seq<Step>)
    requires AllDistinct(store) && OnlyReconciles(steps)
    ensures Quiet(Restarted(store), steps) && Runs(Restarted(store), steps)
    ensures var t := Final(Restarted(store), steps);
            && t.store == store
            && (forall ip :: ip in t.serviceIPs <==> Visited(store, steps, ip))
            && (forall ip :: ip in t.serviceIPs ==> HasVip(store, t.serviceIPs[ip]) && store[t.serviceIPs[ip]].addresses[0] == ip)
  {
    DistinctIsQuiet(Restarted(store), steps);
  }

  /** Otherwise one or two faultless reconciles already issue an Update. */
  lemma NotDistinctNotQuiet(store: map<ObjectKey, ServiceEntry>) returns (steps: seq<Step>)
    requires !AllDistinct(store)
    ensures OnlyReconciles(steps) && !Quiet(Restarted(store), steps)
  {
    var s := Restarted(store);
    if k :| k in store && Eligible(store[k]) && store[k].addresses == [] {
      steps := [Reconcile(k, NO_FAULTS)];
      assert Reallocates(s, steps[0].key, steps[0].faults);
    } else {
      var a, b :| HasVip(store, a) && HasVip(store, b) && a != b && store[a].addresses[0] == store[b].addresses[0];
      assert HasVip(store, a) && HasVip(store, b);
      steps := [Reconcile(a, NO_FAULTS), Reconcile(b, NO_FAULTS)];
      assert Registers(s, a, NO_FAULTS) && After(s, steps[0]).serviceIPs == map[store[a].addresses[0] := a];
      assert Reallocates(After(s, steps[0]), steps[1..][0].key, NO_FAULTS);
      assert !Quiet(After(s, steps[0]), steps[1..]);
    }
  }

  lemma RestartQuietIffDistinct(store: map<ObjectKey, ServiceEntry>)
    ensures AllDistinct(store) <==> forall steps :: OnlyReconciles(steps) ==> Quiet(Restarted(store), steps)
  {
    if AllDistinct(store) {
      forall steps | OnlyReconciles(steps)
        ensures Quiet(Restarted(store), steps)
      {
        DistinctIsQuiet(Restarted(store), steps);
      }
    } else {
      var _ := NotDistinctNotQuiet(store);
    }
  }

  // --- No address that was given out is ever taken back ---

  /** Every entry that had an address still has it. */
  ghost predicate Keeps(store: map<ObjectKey, ServiceEntry>, store': map<ObjectKey, ServiceEntry>) {
    forall k :: HasVip(store, k) ==> k in store' && store'[k] == store[k]
  }

  predicate Moves(store: map<ObjectKey, ServiceEntry>, store': map<ObjectKey, ServiceEntry>, key: ObjectKey) {
    HasVip(store, key) && HasVip(store', key) && store'[key].addresses[0] != store[key].addresses[0]
  }

  function Waiting(store: map<ObjectKey, ServiceEntry>): set<ObjectKey> {
    set k | k in store && Eligible(store[k]) && store[k].addresses == []
  }

  /** How many addresses the restarted cursor may give out while an entry can still be moved. */
  function Head(store: map<ObjectKey, ServiceEntry>): nat {
    if |Waiting(store)| < POOL_SIZE - 1 then |Waiting(store)| else POOL_SIZE - 1
  }

  /** No entry holds one of the addresses that the restarted cursor prints, from the `from`-th on and
      before the `to`-th. */
  ghost predicate HeadIsFree(store: map<ObjectKey, ServiceEntry>, from: nat, to: nat) {
    forall k, j: nat :: HasVip(store, k) && from <= j < to ==> store[k].addresses[0] != Address(Emitted(0, j))
  }

  /** The update of the reconcile, if it makes one, does not fail. */
  predicate Clean(step: Step) {
    step.Reconcile? && !step.faults.update
  }

  /** The cursor has printed `served` addresses, and those that are left have no owner. */
  ghost predicate Serving(s: State, served: nat) {
    && served <= POOL_SIZE && s.maxIP == CursorAfter(0, served)
    && forall j: nat :: served <= j < POOL_SIZE ==> Address(Emitted(0, j)) !in s.serviceIPs
  }

  lemma HeadDiffers(i: nat, j: nat)
    requires i < j < POOL_SIZE
    ensures Address(Emitted(0, i)) != Address(Emitted(0, j))
  {
    if Address(Emitted(0, i)) == Address(Emitted(0, j)) {
      AddressInjective(Emitted(0, i), Emitted(0, j));
      CursorInRange(0, i);
      OneCycle(0, Emitted(0, i));
    }
  }

  lemma AllDiffer(served: nat)
    requires served < POOL_SIZE
    ensures forall j: nat :: j < POOL_SIZE && j != served ==> Address(Emitted(0, j)) != Address(Emitted(0, served))
  {
    forall j: nat | j < POOL_SIZE && j != served
      ensures Address(Emitted(0, j)) != Address(Emitted(0, served))
    {
      if j < served {
        HeadDiffers(j, served);
      } else {
        HeadDiffers(served, j);
      }
    }
  }

  /** A search gets the next address at its first try if that has no owner. */
  lemma FoundNext(s: State, served: nat, searchGet: nat -> bool)
    requires s.maxIP == CursorAfter(0, served) && Address(Emitted(0, served)) !in s.serviceIPs
    ensures SearchEnds(s, searchGet) && Stop(s, searchGet) == 0
    ensures FoundIP(s, searchGet) == Address(Emitted(0, served))
    ensures AfterSearch(s, searchGet) == s.(maxIP := CursorAfter(0, served + 1))
  {
    assert CursorAfter(s.maxIP, 0) == s.maxIP;
    assert Takes(s, searchGet, 0);
    assert CursorAfter(0, served + 1) == CursorAfter(s.maxIP, 1);
    assert s.serviceIPs - {Address(Emitted(0, served))} == s.serviceIPs;
  }

  /** A waiting entry is given that address. */
  lemma ServeNext(s: State, served: nat, key: ObjectKey, faults: Faults)
    requires s.maxIP == CursorAfter(0, served) && Address(Emitted(0, served)) !in s.serviceIPs
    requires key in Waiting(s.store) && Reallocates(s, key, faults) && !faults.update
    ensures Returns(s, key, faults)
    ensures var t, ip := Reconciled(s, key, faults), Address(Emitted(0, served));
            && t == State(s.store[key := WithFirstAddress(s.store[key], ip)], s.serviceIPs[ip := key], CursorAfter(0, served + 1))
            && HasVip(t.store, key) && Waiting(t.store) == Waiting(s.store) - {key}
  {
    FoundNext(s, served, faults.searchGet);
    AddressHasPrefix(Emitted(0, served));
  }

  /** Giving a waiting entry an address that nobody has keeps the owner map truthful and the addresses
      different, and takes nothing back. */
  lemma GiveFresh(s: State, t: State, key: ObjectKey, ip: string)
    requires Faithful(s) && Distinct(s.store) && key in Waiting(s.store) && HasPrefix(ip, "240.240")
    requires forall k :: HasVip(s.store, k) ==> s.store[k].addresses[0] != ip
    requires t.store == s.store[key := WithFirstAddress(s.store[key], ip)] && t.serviceIPs == s.serviceIPs[ip := key]
    ensures Faithful(t) && Distinct(t.store) && Keeps(s.store, t.store)
  {
    assert forall k :: HasVip(t.store, k) <==> k == key || HasVip(s.store, k);
  }

  /** The owner map is truthful, the addresses differ, the printed addresses have live owners, and the next
      ones, as many as may still be given out, belong to nobody. */
  ghost predicate Calm(s: State, served: nat) {
    && Faithful(s) && Distinct(s.store)
    && served < POOL_SIZE && s.maxIP == CursorAfter(0, served)
    && (forall j: nat :: j < served ==> OwnedLive(s, Address(Emitted(0, j))))
    && HeadIsFree(s.store, served, CalmLimit(s, served))
  }

  function CalmLimit(s: State, served: nat): nat {
    if served + |Waiting(s.store)| < POOL_SIZE - 1 then served + |Waiting(s.store)| else POOL_SIZE - 1
  }

  /** Every pool address has a live owner. */
  ghost predicate Full(s: State) {
    s.Valid() && forall j: nat :: j < POOL_SIZE ==> OwnedLive(s, Address(Emitted(0, j)))
  }

  /** In a full pool no search stops, and a reconcile that returns writes nothing. */
  lemma FullStep(s: State, step: Step)
    requires Full(s) && step.Reconcile? && Enabled(s, step)
    ensures Full(After(s, step)) && After(s, step).store == s.store
  {
    if Reallocates(s, step.key, step.faults) {
      var stop := Stop(s, step.faults.searchGet);
      CursorInRange(s.maxIP, stop);
      OneCycle(0, Emitted(s.maxIP, stop));
      FoundIsFree(s, step.faults.searchGet);
    }
  }

  lemma ServedStaysCalm(s: State, served: nat, key: ObjectKey, faults: Faults)
    requires Calm(s, served) && served < POOL_SIZE - 1 && Reallocates(s, key, faults) && !faults.update
    ensures Returns(s, key, faults)
    ensures Calm(Reconciled(s, key, faults), served + 1) && Keeps(s.store, Reconciled(s, key, faults).store)
  {
    var ip := Address(Emitted(0, served));
    OnlyWaitingReallocate(s, key, faults);
    assert served < CalmLimit(s, served);
    ServeNext(s, served, key, faults);
    var t := Reconciled(s, key, faults);
    AddressHasPrefix(Emitted(0, served));
    GiveFresh(s, t, key, ip);
    assert |Waiting(t.store)| == |Waiting(s.store)| - 1;
    assert forall k :: HasVip(t.store, k) ==> k == key || HasVip(s.store, k);
    AllDiffer(served);
  }

  /** The last address, 240.240.0.0, fills the pool. */
  lemma LastServed(s: State, served: nat, key: ObjectKey, faults: Faults)
    requires Calm(s, served) && served == POOL_SIZE - 1 && Reallocates(s, key, faults) && !faults.update && Returns(s, key, faults)
    ensures Full(Reconciled(s, key, faults)) && Keeps(s.store, Reconciled(s, key, faults).store)
  {
    OnlyWaitingReallocate(s, key, faults);
    var stop := Stop(s, faults.searchGet);
    CursorInRange(0, served);
    CursorInRange(s.maxIP, stop);
    CursorInRange(s.maxIP, stop + 1);
    var found := Emitted(s.maxIP, stop);
    OneCycle(0, found);
    FoundIsFree(s, faults.searchGet);
    assert StepsTo(0, found) == served;
    AllDiffer(served);
  }

  /** From such a state, a clean reconcile that returns takes nothing back. */
  lemma CalmStep(s: State, served: nat, step: Step) returns (served': nat)
    requires Calm(s, served) && Clean(step) && Enabled(s, step)
    ensures Keeps(s.store, After(s, step).store)
    ensures Calm(After(s, step), served') || Full(After(s, step))
  {
    served' := served;
    if !Reallocates(s, step.key, step.faults) {
      TruthfulStep(s, step);
      assert forall ip :: OwnedLive(s, ip) ==> OwnedLive(After(s, step), ip);
    } else if served < POOL_SIZE - 1 {
      ServedStaysCalm(s, served, step.key, step.faults);
      served' := served + 1;
    } else {
      LastServed(s, served, step.key, step.faults);
    }
  }

  lemma {:induction false} CalmKeeps(s: State, served: nat, steps: seq<Step>)
    requires (Calm(s, served) || Full(s)) && Runs(s, steps) && forall step :: step in steps ==> Clean(step)
    ensures Keeps(s.store, Final(s, steps).store)
    decreases |steps|
  {
    if steps != [] {
      assert steps[0] in steps;
      var served' := served;
      if Calm(s, served) {
        served' := CalmStep(s, served, steps[0]);
      } else {
        FullStep(s, steps[0]);
      }
      CalmKeeps(After(s, steps[0]), served', steps[1..]);
    }
  }

  /** Appending a step to a run. */
  lemma {:induction false} RunThen(s: State, steps: seq<Step>, step: Step)
    requires Runs(s, steps) && Enabled(Final(s, steps), step)
    ensures Runs(s, steps + [step]) && Final(s, steps + [step]) == After(Final(s, steps), step)
    decreases |steps|
  {
    if steps == [] {
      assert steps + [step] == [step] && [step][1..] == [];
      assert StateAt(After(s, step), [], 0) == After(s, step);
    } else {
      assert (steps + [step])[1..] == steps[1..] + [step];
      RunThen(After(s, steps[0]), steps[1..], step);
    }
  }

  lemma ServeOneMore(store: map<ObjectKey, ServiceEntry>, t: State, n: nat, key: ObjectKey)
    requires n + 1 < POOL_SIZE && Serving(t, n) && key in Waiting(t.store) && Waiting(t.store) <= Waiting(store) && Keeps(store, t.store)
    ensures Returns(t, key, NO_FAULTS)
    ensures var u, ip := Reconciled(t, key, NO_FAULTS), Address(Emitted(0, n));
            && Serving(u, n + 1) && Waiting(u.store) == Waiting(t.store) - {key} && Keeps(store, u.store)
            && OwnedLive(u, ip) && !HasVip(store, u.serviceIPs[ip])
  {
    ServeNext(t, n, key, NO_FAULTS);
    AllDiffer(n);
  }

  /** Clean reconciles can serve `n` waiting entries before anything else is reconciled. */
  lemma {:induction false} ServeFirst(store: map<ObjectKey, ServiceEntry>, n: nat) returns (steps: seq<Step>)
    requires n <= |Waiting(store)| && n < POOL_SIZE
    ensures (forall step :: step in steps ==> Clean(step)) && Runs(Restarted(store), steps)
    ensures var t := Final(Restarted(store), steps);
            && Serving(t, n)
            && Waiting(t.store) <= Waiting(store) && |Waiting(t.store)| == |Waiting(store)| - n
            && Keeps(store, t.store)
            && (n > 0 ==> var ip := Address(Emitted(0, n - 1)); OwnedLive(t, ip) && !HasVip(store, t.serviceIPs[ip]))
  {
    steps := [];
    if n > 0 {
      steps := ServeFirst(store, n - 1);
      var t := Final(Restarted(store), steps);
      var key :| key in Waiting(t.store);
      ServeOneMore(store, t, n - 1, key);
      RunThen(Restarted(store), steps, Reconcile(key, NO_FAULTS));
      steps := steps + [Reconcile(key, NO_FAULTS)];
    }
  }

  /** An entry that holds one of those addresses loses it to a waiting entry served before it. */
  lemma HolderLoses(store: map<ObjectKey, ServiceEntry>, key: ObjectKey, n: nat) returns (steps: seq<Step>)
    requires HasVip(store, key) && n < Head(store) && store[key].addresses[0] == Address(Emitted(0, n))
    ensures (forall step :: step in steps ==> Clean(step)) && Runs(Restarted(store), steps)
    ensures Moves(store, Final(Restarted(store), steps).store, key)
  {
    steps := ServeFirst(store, n + 1);
    var t := Final(Restarted(store), steps);
    assert t.store[key] == store[key];
    assert Reallocates(t, key, NO_FAULTS);
    FoundNext(t, n + 1, NO_FAULTS.searchGet);
    HeadDiffers(n, n + 1);
    AddressHasPrefix(Emitted(0, n + 1));
    RunThen(Restarted(store), steps, Reconcile(key, NO_FAULTS));
    steps := steps + [Reconcile(key, NO_FAULTS)];
  }

  /** Of two entries that share an address, the one reconciled later loses it. */
  lemma SharerLoses(store: map<ObjectKey, ServiceEntry>, key: ObjectKey, key': ObjectKey) returns (steps: seq<Step>)
    requires HasVip(store, key) && HasVip(store, key') && key != key'
    requires store[key].addresses[0] == store[key'].addresses[0]
    ensures (forall step :: step in steps ==> Clean(step)) && Runs(Restarted(store), steps)
    ensures Moves(store, Final(Restarted(store), steps).store, key')
  {
    var s := Restarted(store);
    steps := [Reconcile(key, NO_FAULTS)];
    RunThen(s, [], steps[0]);
    assert [] + steps == steps;
    var t := Final(s, steps);
    assert LiveOwned(s) == {};
    ReconcileAddsAtMostOne(s, key, NO_FAULTS);
    SearchEndsIffRoom(t, NO_FAULTS.searchGet);
    FoundIsFree(t, NO_FAULTS.searchGet);
    RunThen(s, steps, Reconcile(key', NO_FAULTS));
    steps := steps + [Reconcile(key', NO_FAULTS)];
  }

  /** After a restart, every run of reconciles whose updates succeed leaves every address where it was if
      and only if no two entries share an address and no entry holds one of the first n addresses that
      the cursor prints, where n is the number of entries that wait for an address, or all but the last
      address of the pool if more entries wait. */
  lemma RestartKeepsVipsIff(store: map<ObjectKey, ServiceEntry>)
    ensures Distinct(store) && HeadIsFree(store, 0, Head(store)) <==>
            forall steps :: (forall step :: step in steps ==> Clean(step)) && Runs(Restarted(store), steps)
                            ==> Keeps(store, Final(Restarted(store), steps).store)
  {
    if !Distinct(store) {
      var k, k' :| HasVip(store, k) && HasVip(store, k') && k != k' && store[k].addresses[0] == store[k'].addresses[0];
      var _ := SharerLoses(store, k, k');
    } else if !HeadIsFree(store, 0, Head(store)) {
      var k, j: nat :| HasVip(store, k) && j < Head(store) && store[k].addresses[0] == Address(Emitted(0, j));
      var _ := HolderLoses(store, k, j);
    } else {
      forall steps | (forall step :: step in steps ==> Clean(step)) && Runs(Restarted(store), steps)
        ensures Keeps(store, Final(Restarted(store), steps).store)
      {
        assert Calm(Restarted(store), 0);
        CalmKeeps(Restarted(store), 0, steps);
      }
    }
  }

  // --- With failing updates ---

  /** An entry whose address is one that the cursor prints. */
  ghost predicate HoldsPoolAddress(store: map<ObjectKey, ServiceEntry>, key: ObjectKey) {
    HasVip(store, key) && exists slot :: InPool(slot) && store[key].addresses[0] == Address(slot)
  }

  /** The owner map is truthful, the addresses differ, and every pool address that is held is on record. */
  ghost predicate Steady(s: State) {
    && s.Valid() && Faithful(s) && Distinct(s.store)
    && forall k :: HoldsPoolAddress(s.store, k) ==> Settled(s, k)
  }

  /** An address found from such a state is held by nobody and has no owner. */
  lemma FoundIsUnheld(s: State, searchGet: nat -> bool)
    requires Steady(s) && SearchEnds(s, searchGet)
    ensures FoundIP(s, searchGet) !in s.serviceIPs
    ensures forall k :: HasVip(s.store, k) ==> s.store[k].addresses[0] != FoundIP(s, searchGet)
    ensures AfterSearch(s, searchGet).Valid() && HasPrefix(FoundIP(s, searchGet), "240.240")
  {
    CursorInRange(s.maxIP, Stop(s, searchGet));
    CursorInRange(s.maxIP, Stop(s, searchGet) + 1);
    FoundIsFree(s, searchGet);
    forall k | HasVip(s.store, k)
      ensures s.store[k].addresses[0] != FoundIP(s, searchGet)
    {
      if s.store[k].addresses[0] == FoundIP(s, searchGet) {
        assert HoldsPoolAddress(s.store, k);
      }
    }
  }

  lemma SteadyStep(s: State, step: Step)
    requires Steady(s) && step.Reconcile? && Enabled(s, step)
    ensures Steady(After(s, step)) && Keeps(s.store, After(s, step).store)
  {
    var t := After(s, step);
    if Reallocates(s, step.key, step.faults) {
      OnlyWaitingReallocate(s, step.key, step.faults);
      FoundIsUnheld(s, step.faults.searchGet);
      var ip := FoundIP(s, step.faults.searchGet);
      assert s.serviceIPs - {ip} == s.serviceIPs;
      if !step.faults.update {
        GiveFresh(s, t, step.key, ip);
      }
    } else {
      TruthfulStep(s, step);
    }
    forall k | HoldsPoolAddress(t.store, k)
      ensures Settled(t, k)
    {
      if HasVip(s.store, k) {
        assert t.store[k] == s.store[k] && HoldsPoolAddress(s.store, k);
        StepKeepsSettled(s, step, k);
      }
    }
  }

  lemma {:induction false} SteadyKeeps(s: State, steps: seq<Step>)
    requires Steady(s) && OnlyReconciles(steps) && Runs(s, steps)
    ensures Keeps(s.store, Final(s, steps).store)
    decreases |steps|
  {
    if steps != [] {
      assert steps[0] in steps;
      SteadyStep(s, steps[0]);
      SteadyKeeps(After(s, steps[0]), steps[1..]);
    }
  }

  const FAILED_UPDATE := Faults(false, false, (i: nat) => false, true)

  /** Reconciles of a waiting entry whose updates fail move the cursor and nothing else. */
  lemma {:induction false} MoveCursor(store: map<ObjectKey, ServiceEntry>, waiting: ObjectKey, n: nat) returns (steps: seq<Step>)
    requires waiting in Waiting(store)
    ensures OnlyReconciles(steps) && Runs(Restarted(store), steps)
    ensures Final(Restarted(store), steps) == State(store, map[], CursorAfter(0, n))
  {
    steps := [];
    if n > 0 {
      steps := MoveCursor(store, waiting, n - 1);
      FoundNext(Final(Restarted(store), steps), n - 1, FAILED_UPDATE.searchGet);
      RunThen(Restarted(store), steps, Reconcile(waiting, FAILED_UPDATE));
      steps := steps + [Reconcile(waiting, FAILED_UPDATE)];
    }
  }

  /** So any holder of a pool address can lose it to an entry that waits. */
  lemma HolderLosesUnderFaults(store: map<ObjectKey, ServiceEntry>, key: ObjectKey, waiting: ObjectKey, slot: nat) returns (steps: seq<Step>)
    requires HasVip(store, key) && waiting in Waiting(store) && InPool(slot) && store[key].addresses[0] == Address(slot)
    ensures OnlyReconciles(steps) && Runs(Restarted(store), steps)
    ensures Moves(store, Final(Restarted(store), steps).store, key)
  {
    OneCycle(0, slot);
    var n := StepsTo(0, slot);
    steps := MoveCursor(store, waiting, n);
    var s := Final(Restarted(store), steps);
    ServeNext(s, n, waiting, NO_FAULTS);
    RunThen(Restarted(store), steps, Reconcile(waiting, NO_FAULTS));
    steps := steps + [Reconcile(waiting, NO_FAULTS)];
    var t := Final(Restarted(store), steps);
    LosesToOwner(s, t, key, waiting, slot);
    RunThen(Restarted(store), steps, Reconcile(key, NO_FAULTS));
    steps := steps + [Reconcile(key, NO_FAULTS)];
  }

  lemma LosesToOwner(s: State, t: State, key: ObjectKey, waiting: ObjectKey, slot: nat)
    requires HasVip(s.store, key) && waiting in Waiting(s.store) && s.store[key].addresses[0] == Address(slot)
    requires s.Valid() && s.serviceIPs == map[] && Returns(s, waiting, NO_FAULTS) && t == Reconciled(s, waiting, NO_FAULTS)
    requires key in t.store && t.store[key] == s.store[key] && t.serviceIPs == map[Address(slot) := waiting]
    ensures Returns(t, key, NO_FAULTS) && Moves(s.store, Reconciled(t, key, NO_FAULTS).store, key)
  {
    assert LiveOwned(s) == {};
    ReconcileAddsAtMostOne(s, waiting, NO_FAULTS);
    SearchEndsIffRoom(t, NO_FAULTS.searchGet);
    FoundIsFree(t, NO_FAULTS.searchGet);
  }

  /** With failing updates allowed: every run of reconciles leaves every address where it was if and only
      if no two entries share an address and either no entry waits for one or no entry holds an address
      of the pool. */
  lemma RestartKeepsVipsUnderFaultsIff(store: map<ObjectKey, ServiceEntry>)
    ensures Distinct(store) && (Waiting(store) == {} || forall k :: !HoldsPoolAddress(store, k)) <==>
            forall steps :: OnlyReconciles(steps) && Runs(Restarted(store), steps) ==> Keeps(store, Final(Restarted(store), steps).store)
  {
    if !Distinct(store) {
      var k, k' :| HasVip(store, k) && HasVip(store, k') && k != k' && store[k].addresses[0] == store[k'].addresses[0];
      var steps := SharerLoses(store, k, k');
      assert OnlyReconciles(steps);
    } else if w, k :| w in Waiting(store) && HoldsPoolAddress(store, k) {
      var slot :| InPool(slot) && store[k].addresses[0] == Address(slot);
      var _ := HolderLosesUnderFaults(store, k, w, slot);
    } else {
      forall steps | OnlyReconciles(steps) && Runs(Restarted(store), steps)
        ensures Keeps(store, Final(Restarted(store), steps).store)
      {
        if Waiting(store) == {} {
          assert forall k :: k in store && Eligible(store[k]) && store[k].addresses == [] ==> k in Waiting(store);
          DistinctIsQuiet(Restarted(store), steps);
        } else {
          SteadyKeeps(Restarted(store), steps);
        }
      }
    }
  }

  /** The shortest such loss: `held` owns 240.240.0.1 and is never edited, the controller restarts,
      reconciles the new entry first, and `held` is moved. */
  lemma RestartMovesAVip(held: ObjectKey, newcomer: ObjectKey)
    requires held != newcomer
    ensures exists s: State, steps :: && s.Valid() && Settled(s, held) && Runs(s, steps)
                               && (forall step :: step in steps ==> step == Restart || Clean(step))
                               && Moves(s.store, Final(s, steps).store, held)
  {
    var vip := Address(Emitted(0, 0));
    var store := map[held := ServiceEntry(["a.com"], [vip], [], STATIC), newcomer := ServiceEntry(["b.com"], [], [], STATIC)];
    AddressHasPrefix(Emitted(0, 0));
    assert newcomer in Waiting(store) && Waiting(store) <= {newcomer};
    assert Waiting(store) == {newcomer};
    var tail := HolderLoses(store, held, 0);
    var s := State(store, map[vip := held], 2);
    var steps := [Restart] + tail;
    assert After(s, Restart) == Restarted(store) && steps[1..] == tail;
    assert Runs(s, steps) && Final(s, steps) == Final(Restarted(store), tail);
  }
}
