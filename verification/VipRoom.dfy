/**
  Room in the address pool: when the unbounded free-address search stops, what it finds, and how
  many reconciles a mesh can run before the pool is full. With room, every mesh converges.
 */
module VipRoom {
  import opened Mesh
  import opened VipPool
  import opened VipAllocator
  import opened VipRuns

  predicate OwnedLive(s: State, ip: string) {
    ip in s.serviceIPs && s.serviceIPs[ip] in s.store
  }

  /** The pool slots, by number, whose address belongs to a live entry. */
  ghost function LiveOwned(s: State): set<nat> {
    set i: nat | i < POOL_SIZE && OwnedLive(s, Address(SlotAt(i)))
  }

  ghost function Upto(n: nat): (all: set<nat>)
    ensures |all| == n && forall i: nat :: i in all <==> i < n
  {
    if n == 0 then {} else Upto(n - 1) + {n - 1}
  }

  lemma {:induction false} SubsetSize<T>(a: set<T>, b: set<T>)
    requires a <= b
    ensures |a| <= |b|
    decreases a
  {
    if a != {} {
      var x :| x in a;
      SubsetSize(a - {x}, b - {x});
    }
  }

  /** Fewer than n numbers below n: one is missing. */
  lemma FindFree(owned: set<nat>, n: nat) returns (i: nat)
    requires |owned| < n
    ensures i < n && i !in owned
  {
    var all := Upto(n);
    if all <= owned {
      SubsetSize(all, owned);
    }
    i :| i in all && i !in owned;
  }

  lemma OneMissing(owned: set<nat>, i: nat, n: nat)
    requires forall j :: j in owned ==> j < n
    requires i < n && i !in owned
    ensures |owned| < n
  {
    SubsetSize(owned, Upto(n) - {i});
  }

  lemma RoomEndsSearch(s: State, searchGet: nat -> bool)
    requires s.Valid() && |LiveOwned(s)| < POOL_SIZE && forall i: nat :: i < POOL_SIZE ==> !searchGet(i)
    ensures SearchEnds(s, searchGet) && Stop(s, searchGet) < POOL_SIZE
  {
    var i := FindFree(LiveOwned(s), POOL_SIZE);
    OneCycle(s.maxIP, SlotAt(i));
    assert Takes(s, searchGet, StepsTo(s.maxIP, SlotAt(i)));
  }

  lemma EndedSearchHadRoom(s: State, searchGet: nat -> bool)
    requires s.Valid() && SearchEnds(s, searchGet)
    ensures |LiveOwned(s)| < POOL_SIZE
  {
    var slot := Emitted(s.maxIP, Stop(s, searchGet));
    CursorInRange(s.maxIP, Stop(s, searchGet));
    PoolNumbering(slot, 0);
    FoundIsFree(s, searchGet);
    OneMissing(LiveOwned(s), IndexOf(slot), POOL_SIZE);
  }

  /** When the lookups of one round do not fail, the search stops exactly when the pool has room:
      some address has no owner or a deleted one. */
  lemma {:induction false} SearchEndsIffRoom(s: State, searchGet: nat -> bool)
    requires s.Valid() && forall i: nat :: i < POOL_SIZE ==> !searchGet(i)
    ensures SearchEnds(s, searchGet) <==> |LiveOwned(s)| < POOL_SIZE
    ensures SearchEnds(s, searchGet) ==> Stop(s, searchGet) < POOL_SIZE
  {
    if SearchEnds(s, searchGet) {
      EndedSearchHadRoom(s, searchGet);
    }
    if |LiveOwned(s)| < POOL_SIZE {
      RoomEndsSearch(s, searchGet);
    }
  }

  /** The search returns the first free address in the cursor's cyclic order within one round: every
      address it passes over belongs to a live entry. It forgets at most one owner, and only one
      that is gone. */
  lemma {:induction false} SearchFindsFirstFree(s: State, searchGet: nat -> bool, slot: nat)
    requires s.Valid() && forall i: nat :: i < POOL_SIZE ==> !searchGet(i)
    requires |LiveOwned(s)| < POOL_SIZE && InPool(slot)
    ensures SearchEnds(s, searchGet)
    ensures var found := Emitted(s.maxIP, Stop(s, searchGet));
            && InPool(found) && StepsTo(s.maxIP, found) == Stop(s, searchGet)
            && FoundIP(s, searchGet) == Address(found) && !OwnedLive(s, Address(found))
            && (StepsTo(s.maxIP, slot) < StepsTo(s.maxIP, found) ==> OwnedLive(s, Address(slot)))
            && AfterSearch(s, searchGet).serviceIPs == s.serviceIPs - {Address(found)}
  {
    SearchEndsIffRoom(s, searchGet);
    FoundIsFree(s, searchGet);
    var found := Emitted(s.maxIP, Stop(s, searchGet));
    CursorInRange(s.maxIP, Stop(s, searchGet));
    OneCycle(s.maxIP, found);
    OneCycle(s.maxIP, slot);
    if StepsTo(s.maxIP, slot) < StepsTo(s.maxIP, found) {
      assert !Takes(s, searchGet, StepsTo(s.maxIP, slot));
    }
  }

  // --- How fast the pool fills ---

  /** A reconcile gives at most one more address to a live entry, and changes neither which entries
      exist nor which are eligible. */
  lemma ReconcileAddsAtMostOne(s: State, key: ObjectKey, faults: Faults)
    requires s.Valid() && Returns(s, key, faults)
    ensures var t := Reconciled(s, key, faults);
            && t.Valid() && |LiveOwned(t)| <= |LiveOwned(s)| + 1
            && t.store.Keys == s.store.Keys
            && forall k :: k in s.store ==> Eligible(t.store[k]) == Eligible(s.store[k])
  {
    var t := Reconciled(s, key, faults);
    if Reallocates(s, key, faults) {
      FoundIsFree(s, faults.searchGet);
      CursorInRange(s.maxIP, Stop(s, faults.searchGet) + 1);
      assert t.store.Keys == s.store.Keys;
    }
    if key in s.store && t != s {
      var ip := if Reallocates(s, key, faults) then FoundIP(s, faults.searchGet) else s.store[key].addresses[0];
      assert forall ip' :: ip' != ip && OwnedLive(t, ip') ==> OwnedLive(s, ip');
      var added := set i | i in LiveOwned(t) && Address(SlotAt(i)) == ip;
      SubsetSize(LiveOwned(t), LiveOwned(s) + added);
      OneSlotPerAddress(added, ip);
    }
  }

  lemma OneSlotPerAddress(slots: set<nat>, ip: string)
    requires forall i :: i in slots ==> i < POOL_SIZE && Address(SlotAt(i)) == ip
    ensures |slots| <= 1
  {
    if slots != {} {
      var i :| i in slots;
      forall j | j in slots
        ensures j == i
      {
        AddressInjective(SlotAt(i), SlotAt(j));
        PoolNumbering(0, i);
        PoolNumbering(0, j);
      }
      assert slots == {i};
    }
  }

  /** The entries that may still need an address: eligible, and not on record as the owner of theirs. */
  function Unsettled(s: State): set<ObjectKey> {
    set k | k in s.store && Eligible(s.store[k]) && !Settled(s, k)
  }

  /** Settled entries stay settled, and no entry becomes eligible. */
  lemma UnsettledShrinks(s: State, key: ObjectKey, faults: Faults)
    requires s.Valid() && Returns(s, key, faults)
    ensures Unsettled(Reconciled(s, key, faults)) <= Unsettled(s)
  {
    ReconcileAddsAtMostOne(s, key, faults);
    forall k | Settled(s, k)
      ensures Settled(Reconciled(s, key, faults), k)
    {
      StepKeepsSettled(s, Reconcile(key, faults), k);
    }
  }

  /** When a reconcile writes down an owner, its entry was unsettled and is settled then; otherwise no
      address gets a live owner. */
  lemma OwnerWrittenOrNot(s: State, key: ObjectKey, faults: Faults)
    requires s.Valid() && Returns(s, key, faults)
    ensures var t := Reconciled(s, key, faults);
            (key in Unsettled(s) && key !in Unsettled(t)) || LiveOwned(t) == LiveOwned(s)
  {
    if Reallocates(s, key, faults) {
      FoundIsFree(s, faults.searchGet);
    }
  }

  /** The addresses with a live owner and the unsettled entries, taken together, never become more. */
  lemma {:induction false} DemandNeverGrows(s: State, key: ObjectKey, faults: Faults)
    requires s.Valid() && Returns(s, key, faults)
    ensures var t := Reconciled(s, key, faults);
            t.Valid() && |LiveOwned(t)| + |Unsettled(t)| <= |LiveOwned(s)| + |Unsettled(s)|
  {
    var t := Reconciled(s, key, faults);
    ReconcileAddsAtMostOne(s, key, faults);
    UnsettledShrinks(s, key, faults);
    OwnerWrittenOrNot(s, key, faults);
    if key in Unsettled(s) && key !in Unsettled(t) {
      SubsetSize(Unsettled(t), Unsettled(s) - {key});
    } else {
      SubsetSize(Unsettled(t), Unsettled(s));
    }
  }

  /** The searches of the reconcile do not fail for one round. */
  ghost predicate Searches(step: Step) {
    step.Reconcile? && forall i: nat :: i < POOL_SIZE ==> !step.faults.searchGet(i)
  }

  /** If the pool has an address for every unsettled entry, every reconcile of every run returns. */
  lemma {:induction false} RoomToRun(s: State, steps: seq<Step>)
    requires s.Valid() && |LiveOwned(s)| + |Unsettled(s)| <= POOL_SIZE
    requires forall step :: step in steps ==> Searches(step)
    ensures Runs(s, steps)
    decreases |steps|
  {
    if steps != [] {
      var step := steps[0];
      assert Searches(step);
      if Reallocates(s, step.key, step.faults) {
        assert step.key in Unsettled(s);
        SearchEndsIffRoom(s, step.faults.searchGet);
      }
      DemandNeverGrows(s, step.key, step.faults);
      RoomToRun(After(s, step), steps[1..]);
    }
  }

  lemma {:induction false} EligibleThroughout(s: State, steps: seq<Step>, i: nat, key: ObjectKey)
    requires s.Valid() && Runs(s, steps) && i <= |steps|
    requires forall step :: step in steps ==> step.Reconcile?
    ensures key in StateAt(s, steps, i).store <==> key in s.store
    ensures key in s.store ==> Eligible(StateAt(s, steps, i).store[key]) == Eligible(s.store[key])
    decreases |steps|
  {
    if i > 0 {
      assert steps[0] in steps;
      ReconcileAddsAtMostOne(s, steps[0].key, steps[0].faults);
      EligibleThroughout(After(s, steps[0]), steps[1..], i - 1, key);
    }
  }

  /** Every eligible entry has an address, and no two share one. */
  predicate AllDistinct(store: map<ObjectKey, ServiceEntry>) {
    && (forall k :: k in store && Eligible(store[k]) ==> store[k].addresses != [])
    && (forall k, k' :: k in store && k' in store && k != k' && Eligible(store[k]) && Eligible(store[k'])
                        ==> store[k].addresses[0] != store[k'].addresses[0])
  }

  /** Every eligible entry is reconciled at least once without faults. */
  ghost predicate ServesAll(store: map<ObjectKey, ServiceEntry>, steps: seq<Step>) {
    && (forall step :: step in steps ==> step.Reconcile?)
    && forall k :: k in store && Eligible(store[k]) ==>
         exists i :: 0 <= i < |steps| && steps[i].key == k && Faultless(steps[i].faults)
  }

  /** From any store and any owner map: reconciles that serve every eligible entry at least once without
      faults, in any order and with any number of faulty ones between, leave every eligible entry with
      an address of its own, provided each of them returns. */
  lemma Convergence(s: State, steps: seq<Step>)
    requires s.Valid() && ServesAll(s.store, steps) && Runs(s, steps)
    ensures AllDistinct(Final(s, steps).store)
    ensures forall k :: k in Final(s, steps).store && Eligible(Final(s, steps).store[k]) ==> Settled(Final(s, steps), k)
  {
    var t := Final(s, steps);
    forall k | k in t.store && Eligible(t.store[k])
      ensures Settled(t, k)
    {
      EligibleThroughout(s, steps, |steps|, k);
      var i :| 0 <= i < |steps| && steps[i].key == k && Faultless(steps[i].faults);
      EligibleThroughout(s, steps, i, k);
      assert steps[i] in steps;
      assert forall j :: i < j < |steps| ==> steps[j] in steps;
      ServedIsSettled(s, steps, k, i);
    }
  }

  /** They do return when the pool has an address for every unsettled entry. */
  lemma ConvergenceWithRoom(s: State, steps: seq<Step>)
    requires s.Valid() && ServesAll(s.store, steps) && |LiveOwned(s)| + |Unsettled(s)| <= POOL_SIZE
    requires forall step :: step in steps ==> Searches(step)
    ensures Runs(s, steps) && AllDistinct(Final(s, steps).store)
  {
    RoomToRun(s, steps);
    Convergence(s, steps);
  }
}
