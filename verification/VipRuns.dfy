/**
  Whole runs of the ServiceEntry controller: reconciles with any network faults, interleaved with
  users creating, editing and deleting entries, and with restarts that lose the owner map.
 */
module VipRuns {
  import opened Mesh
  import opened Text
  import opened VipPool
  import opened VipAllocator

  datatype Step =
    | Reconcile(key: ObjectKey, faults: Faults)
    | UserPut(key: ObjectKey, entry: ServiceEntry)
    | UserDelete(key: ObjectKey)
    | Restart

  ghost predicate Enabled(s: State, step: Step) {
    step.Reconcile? ==> Returns(s, step.key, step.faults)
  }

  ghost function After(s: State, step: Step): State
    requires Enabled(s, step)
  {
    match step
    case Reconcile(key, faults) => Reconciled(s, key, faults)
    case UserPut(key, entry) => s.(store := s.store[key := entry])
    case UserDelete(key) => s.(store := s.store - {key})
    case Restart => State(s.store, map[], 0)
  }

  /** Every step of the run can be taken: each reconcile returns. */
  ghost predicate Runs(s: State, steps: seq<Step>)
    decreases |steps|
  {
    steps == [] || (Enabled(s, steps[0]) && Runs(After(s, steps[0]), steps[1..]))
  }

  /** The state after the first `i` steps. */
  ghost function StateAt(s: State, steps: seq<Step>, i: nat): State
    requires Runs(s, steps) && i <= |steps|
    decreases |steps|
  {
    if i == 0 then s else StateAt(After(s, steps[0]), steps[1..], i - 1)
  }

  ghost function Final(s: State, steps: seq<Step>): State
    requires Runs(s, steps)
  {
    StateAt(s, steps, |steps|)
  }

  // --- Ownership ---

  /** A live entry whose first 240.240 address the owner map sends back to it. */
  predicate Settled(s: State, key: ObjectKey) {
    && key in s.store
    && s.store[key].addresses != []
    && var vip := s.store[key].addresses[0];
    && HasPrefix(vip, "240.240")
    && vip in s.serviceIPs
    && s.serviceIPs[vip] == key
  }

  /** The step takes `key` out of the controller's hands. */
  predicate Disturbs(step: Step, key: ObjectKey) {
    step.Restart? || (!step.Reconcile? && step.key == key)
  }

  predicate Faultless(faults: Faults) {
    !faults.requestGet && !faults.ownerGet && !faults.update
  }

  lemma FoundIsFree(s: State, searchGet: nat -> bool)
    requires SearchEnds(s, searchGet)
    ensures var ip := FoundIP(s, searchGet);
            && HasPrefix(ip, "240.240")
            && (ip in s.serviceIPs ==> s.serviceIPs[ip] !in s.store)
  {
    assert Takes(s, searchGet, Stop(s, searchGet));
    AddressHasPrefix(Emitted(s.maxIP, Stop(s, searchGet)));
  }

  /** No step but a restart or a user's own edit unsettles or moves a settled entry, whatever the
      faults. */
  lemma {:induction false} StepKeepsSettled(s: State, step: Step, key: ObjectKey)
    requires Settled(s, key) && Enabled(s, step) && !Disturbs(step, key)
    ensures Settled(After(s, step), key) && After(s, step).store[key] == s.store[key]
  {
    if step.Reconcile? && Reallocates(s, step.key, step.faults) {
      FoundIsFree(s, step.faults.searchGet);
    }
  }

  lemma {:induction false} RunKeepsSettled(s: State, steps: seq<Step>, key: ObjectKey)
    requires Settled(s, key) && Runs(s, steps)
    requires forall step :: step in steps ==> !Disturbs(step, key)
    ensures Settled(Final(s, steps), key) && Final(s, steps).store[key] == s.store[key]
    decreases |steps|
  {
    if steps != [] {
      StepKeepsSettled(s, steps[0], key);
      RunKeepsSettled(After(s, steps[0]), steps[1..], key);
    }
  }

  /** The entry is as it was but for its first address, which is `ip`. */
  predicate FirstAddressSet(se: ServiceEntry, se': ServiceEntry, ip: string) {
    && se'.hosts == se.hosts && se'.ports == se.ports && se'.resolution == se.resolution
    && |se'.addresses| == (if |se.addresses| == 0 then 1 else |se.addresses|)
    && se'.addresses[0] == ip && forall i :: 1 <= i < |se.addresses| ==> se'.addresses[i] == se.addresses[i]
  }

  /** What a reconcile writes, whatever fails: at most the first address of its own entry, and then one
      that no live entry owned. */
  lemma {:induction false} ReconcileWrites(s: State, key: ObjectKey, faults: Faults)
    requires Returns(s, key, faults)
    ensures var t := Reconciled(s, key, faults);
            && t.store.Keys == s.store.Keys
            && (forall k :: k in s.store && k != key ==> t.store[k] == s.store[k])
            && (key in s.store && t.store[key] != s.store[key] ==>
                  && t.store[key].addresses != []
                  && var ip := t.store[key].addresses[0];
                  && FirstAddressSet(s.store[key], t.store[key], ip)
                  && HasPrefix(ip, "240.240") && (ip in s.serviceIPs ==> s.serviceIPs[ip] !in s.store))
  {
    if Reallocates(s, key, faults) {
      FoundIsFree(s, faults.searchGet);
    }
  }

  /** What is left alone: an entry without resolution, one whose first address is not in 240.240, one that
      cannot be fetched, and one whose address belongs to another entry that cannot be looked up. */
  lemma ReconcileLeavesAlone(s: State, key: ObjectKey, faults: Faults)
    requires key in s.store
    requires var se := s.store[key];
             || se.resolution == NONE
             || (se.addresses != [] && !HasPrefix(se.addresses[0], "240.240"))
             || faults.requestGet
             || (&& faults.ownerGet && se.addresses != []
                 && se.addresses[0] in s.serviceIPs && s.serviceIPs[se.addresses[0]] != key)
    ensures Returns(s, key, faults) && Reconciled(s, key, faults) == s
  {
  }

  /** An entry with resolution, and with no address or one in 240.240, is settled by its own reconcile when
      its calls succeed; nothing but its first address is written, and no other entry is touched. */
  lemma ReconcileSettles(s: State, key: ObjectKey, faults: Faults)
    requires key in s.store && s.store[key].resolution != NONE
    requires s.store[key].addresses == [] || HasPrefix(s.store[key].addresses[0], "240.240")
    requires !faults.requestGet && !faults.ownerGet && !faults.update && Returns(s, key, faults)
    ensures var t := Reconciled(s, key, faults);
            && Settled(t, key)
            && t.store.Keys == s.store.Keys && (forall k :: k in s.store && k != key ==> t.store[k] == s.store[k])
            && FirstAddressSet(s.store[key], t.store[key], t.store[key].addresses[0])
  {
    ReconcileWrites(s, key, faults);
    if Reallocates(s, key, faults) {
      FoundIsFree(s, faults.searchGet);
    }
  }

  /** At step `i` the entry is reconciled without faults, and nobody disturbs it afterwards. */
  ghost predicate ServedAt(s: State, steps: seq<Step>, key: ObjectKey, i: nat)
    requires Runs(s, steps)
  {
    && i < |steps|
    && steps[i].Reconcile? && steps[i].key == key && Faultless(steps[i].faults)
    && key in StateAt(s, steps, i).store && Eligible(StateAt(s, steps, i).store[key])
    && forall j :: i < j < |steps| ==> !Disturbs(steps[j], key)
  }

  lemma {:induction false} ServedIsSettled(s: State, steps: seq<Step>, key: ObjectKey, i: nat)
    requires Runs(s, steps) && ServedAt(s, steps, key, i)
    ensures Settled(Final(s, steps), key)
    decreases |steps|
  {
    var t := After(s, steps[0]);
    if i == 0 {
      ReconcileSettles(s, key, steps[0].faults);
      RunKeepsSettled(t, steps[1..], key);
    } else {
      assert ServedAt(t, steps[1..], key, i - 1);
      ServedIsSettled(t, steps[1..], key, i - 1);
    }
  }

  /** In every run, however users and faults interleave, two entries that have been served and left
      alone since have different addresses. */
  lemma ServedVipsDiffer(s: State, steps: seq<Step>, key: ObjectKey, i: nat, key': ObjectKey, i': nat)
    requires Runs(s, steps)
    requires ServedAt(s, steps, key, i) && ServedAt(s, steps, key', i') && key != key'
    ensures var t := Final(s, steps);
            && key in t.store && key' in t.store
            && t.store[key].addresses != [] && t.store[key'].addresses != []
            && t.store[key].addresses[0] != t.store[key'].addresses[0]
  {
    ServedIsSettled(s, steps, key, i);
    ServedIsSettled(s, steps, key', i');
  }
}
