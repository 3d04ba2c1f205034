/**
  What a push of the generated EnvoyFilters achieves, for every store, every generated set, every
  listing and walking order, and every pattern of failed calls.
 */
module FilterConvergence {
  import opened Mesh
  import opened Text
  import opened FilterNames
  import opened FilterDiff

  /** The generated map files every filter under its own key. */
  predicate WellKeyed(generated: Generated) {
    forall key :: key in generated ==> Key(IdOf(generated[key])) == key
  }

  predicate Concerned(store: Store, generated: Generated, id: ObjectKey) {
    (id in store && store[id].managed) || (Key(id) in generated && IdOf(generated[Key(id)]) == id)
  }

  /** Among the managed and the generated filters, the key tells them apart. */
  ghost predicate KeysTellApart(store: Store, generated: Generated) {
    forall id, id' :: Concerned(store, generated, id) && Concerned(store, generated, id') && Key(id) == Key(id') ==> id == id'
  }

  /** The spec the managed filter `id` should have, if there should be one. */
  function Wanted(generated: Generated, id: ObjectKey): Option<EnvoyFilter> {
    if Key(id) in generated && IdOf(generated[Key(id)]) == id then Some(generated[Key(id)].spec) else None
  }

  function ManagedSpec(store: Store, id: ObjectKey): Option<EnvoyFilter> {
    if id in store && store[id].managed then Some(store[id].spec) else None
  }

  /** The managed filters are the generated ones, in namespace, name and spec. */
  ghost predicate Converged(store: Store, generated: Generated) {
    forall id :: ManagedSpec(store, id) == Wanted(generated, id)
  }

  // --- The plan, call by call ---

  /** The one call a filter needs, read off what is stored and what is wanted. */
  function Needed(store: Store, generated: Generated, id: ObjectKey): Option<Call> {
    match (ManagedSpec(store, id), Wanted(generated, id))
    case (Some(_), None) => Some(Delete(id))
    case (Some(old_), Some(new_)) => if old_ == new_ then None else Some(Update(id, new_, store[id].version))
    case (None, Some(new_)) => Some(Create(id, new_))
    case (None, None) => None
  }

  ghost predicate KeysDiffer(items: seq<Item>) {
    forall i, j :: 0 <= i < j < |items| ==> Key(items[i].id) != Key(items[j].id)
  }

  predicate OneCallPerKey(calls: seq<Call>) {
    forall i, j :: 0 <= i < j < |calls| ==> Key(calls[i].id) != Key(calls[j].id)
  }

  lemma ConcatOnce(a: seq<Call>, b: seq<Call>)
    requires OneCallPerKey(a) && OneCallPerKey(b)
    requires forall c, d :: c in a && d in b ==> Key(c.id) != Key(d.id)
    ensures OneCallPerKey(a + b)
  {
  }

  predicate Drops(item: Item, generated: Generated, call: Call) {
    Key(item.id) !in generated && call == Delete(item.id)
  }

  lemma {:induction false} DeletesExact(items: seq<Item>, generated: Generated)
    requires KeysDiffer(items)
    ensures forall c :: c in Deletes(items, generated) <==> exists item :: item in items && Drops(item, generated, c)
    ensures OneCallPerKey(Deletes(items, generated))
  {
    if items != [] {
      var first, rest := items[0], Deletes(items[1..], generated);
      assert items == [first] + items[1..];
      DeletesExact(items[1..], generated);
      assert forall item :: item in items[1..] ==> Key(item.id) != Key(first.id);
      if Key(first.id) !in generated {
        assert Drops(first, generated, Delete(first.id));
        ConcatOnce([Delete(first.id)], rest);
      }
    }
  }

  predicate Revises(item: Item, generated: Generated, call: Call) {
    && Key(item.id) in generated
    && var wrapper := generated[Key(item.id)];
    && wrapper.spec != item.spec
    && call == Update(IdOf(wrapper), wrapper.spec, item.version)
  }

  lemma {:induction false} UpdatesExact(items: seq<Item>, generated: Generated)
    requires KeysDiffer(items) && WellKeyed(generated)
    ensures forall c :: c in Updates(items, generated) <==> exists item :: item in items && Revises(item, generated, c)
    ensures OneCallPerKey(Updates(items, generated))
  {
    if items != [] {
      var first, rest := items[0], items[1..];
      var key := Key(first.id);
      assert items == [first] + rest;
      UpdatesExact(rest, generated - {key});
      UpdatesExact(rest, generated);
      assert forall item :: item in rest ==> Key(item.id) != key;
      assert forall item, c :: item in rest ==> (Revises(item, generated, c) <==> Revises(item, generated - {key}, c));
      if key in generated && generated[key].spec != first.spec {
        var call := Update(IdOf(generated[key]), generated[key].spec, first.version);
        assert Revises(first, generated, call);
        ConcatOnce([call], Updates(rest, generated - {key}));
      }
    }
  }

  lemma {:induction false} RestExact(items: seq<Item>, generated: Generated)
    ensures forall key :: key in Rest(items, generated) <==>
              key in generated && !exists item :: item in items && Key(item.id) == key
    ensures forall key :: key in Rest(items, generated) ==> Rest(items, generated)[key] == generated[key]
  {
    if items != [] {
      assert items == [items[0]] + items[1..];
      RestExact(items[1..], generated - {Key(items[0].id)});
    }
  }

  lemma {:induction false} CreatesExact(order: seq<string>, rest: Generated)
    requires WellKeyed(rest) && forall key :: key in order ==> key in rest
    requires forall i, j :: 0 <= i < j < |order| ==> order[i] != order[j]
    ensures forall c :: c in Creates(order, rest) <==>
              exists key :: key in order && c == Create(IdOf(rest[key]), rest[key].spec)
    ensures OneCallPerKey(Creates(order, rest))
  {
    if order != [] {
      var init, last := order[..|order| - 1], order[|order| - 1];
      assert order == init + [last];
      CreatesExact(init, rest);
      ConcatOnce(Creates(init, rest), [Create(IdOf(rest[last]), rest[last].spec)]);
    }
  }

  lemma ThreePasses(d: seq<Call>, u: seq<Call>, c: seq<Call>)
    requires OneCallPerKey(d) && OneCallPerKey(u) && OneCallPerKey(c)
    requires forall x, y :: x in d && y in u ==> Key(x.id) != Key(y.id)
    requires forall x, y :: x in d && y in c ==> Key(x.id) != Key(y.id)
    requires forall x, y :: x in u && y in c ==> Key(x.id) != Key(y.id)
    ensures OneCallPerKey(d + u + c)
  {
    ConcatOnce(d, u);
    ConcatOnce(d + u, c);
  }

  /** A push that saw the list, against a store where keys tell filters apart. */
  ghost predicate FullPush(store: Store, generated: Generated, push: Push) {
    && IsPush(store, generated, push) && push.listed
    && WellKeyed(generated) && KeysTellApart(store, generated)
  }

  /** The calls are, for each filter, exactly the one it needs, and so at most one. */
  ghost predicate Follows(store: Store, generated: Generated, calls: seq<Call>) {
    && (forall c :: c in calls <==> Needed(store, generated, c.id) == Some(c))
    && OneCallPerKey(calls)
  }

  /** Deletions come first, then updates, then creations. */
  lemma {:induction false} PlanOrder(items: seq<Item>, generated: Generated, order: seq<string>, i: nat, j: nat)
    requires Enumerates(order, Rest(items, generated)) && i < j < |Plan(items, generated, order)|
    ensures var plan := Plan(items, generated, order);
            (plan[j].Delete? ==> plan[i].Delete?) && (plan[i].Create? ==> plan[j].Create?)
  {
    DeletesOnly(items, generated);
    UpdatesOnly(items, generated);
    CreatesOnly(order, Rest(items, generated));
    var d, u, c := Deletes(items, generated), Updates(items, generated), Creates(order, Rest(items, generated));
    forall k | 0 <= k < |d + u + c|
      ensures if k < |d| then (d + u + c)[k].Delete? else if k < |d| + |u| then (d + u + c)[k].Update? else (d + u + c)[k].Create?
    {
      assert (d + u + c)[k] == if k < |d| then d[k] else if k < |d| + |u| then u[k - |d|] else c[k - |d| - |u|];
    }
  }

  lemma {:induction false} DeletesOnly(items: seq<Item>, generated: Generated)
    ensures forall k :: 0 <= k < |Deletes(items, generated)| ==> Deletes(items, generated)[k].Delete?
  {
    if items != [] {
      DeletesOnly(items[1..], generated);
    }
  }

  lemma {:induction false} UpdatesOnly(items: seq<Item>, generated: Generated)
    ensures forall k :: 0 <= k < |Updates(items, generated)| ==> Updates(items, generated)[k].Update?
  {
    if items != [] {
      UpdatesOnly(items[1..], generated);
      UpdatesOnly(items[1..], generated - {Key(items[0].id)});
    }
  }

  lemma {:induction false} CreatesOnly(order: seq<string>, generated: Generated)
    requires forall key :: key in order ==> key in generated
    ensures forall k :: 0 <= k < |Creates(order, generated)| ==> Creates(order, generated)[k].Create?
  {
    if order != [] {
      CreatesOnly(order[..|order| - 1], generated);
    }
  }

  lemma ListedKeysDiffer(store: Store, generated: Generated, items: seq<Item>)
    requires Snapshot(store, items) && KeysTellApart(store, generated)
    ensures KeysDiffer(items)
  {
    forall i, j | 0 <= i < j < |items|
      ensures Key(items[i].id) != Key(items[j].id)
    {
      assert Concerned(store, generated, items[i].id) && Concerned(store, generated, items[j].id);
    }
  }

  /** The call comes from one of the three passes over what was listed. */
  ghost predicate Planned(items: seq<Item>, generated: Generated, call: Call) {
    || (exists item :: item in items && Drops(item, generated, call))
    || (exists item :: item in items && Revises(item, generated, call))
    || (exists key :: && key in generated && (!exists item :: item in items && Key(item.id) == key)
                      && call == Create(IdOf(generated[key]), generated[key].spec))
  }

  lemma PlanIsPlanned(items: seq<Item>, generated: Generated, order: seq<string>, call: Call)
    requires KeysDiffer(items) && WellKeyed(generated) && Enumerates(order, Rest(items, generated))
    ensures call in Plan(items, generated, order) <==> Planned(items, generated, call)
  {
    DeletesExact(items, generated);
    UpdatesExact(items, generated);
    RestExact(items, generated);
    CreatesExact(order, Rest(items, generated));
  }

  lemma PlanOnce(items: seq<Item>, generated: Generated, order: seq<string>)
    requires KeysDiffer(items) && WellKeyed(generated) && Enumerates(order, Rest(items, generated))
    ensures OneCallPerKey(Plan(items, generated, order))
  {
    DeletesExact(items, generated);
    UpdatesExact(items, generated);
    RestExact(items, generated);
    CreatesExact(order, Rest(items, generated));
    ThreePasses(Deletes(items, generated), Updates(items, generated), Creates(order, Rest(items, generated)));
  }

  lemma PlanExact(store: Store, generated: Generated, push: Push)
    requires FullPush(store, generated, push)
    ensures Follows(store, generated, Calls(push.log))
  {
    ListedKeysDiffer(store, generated, push.items);
    PlanOnce(push.items, generated, push.order);
    forall call: Call
      ensures call in Plan(push.items, generated, push.order) <==> Needed(store, generated, call.id) == Some(call)
    {
      PlanIsPlanned(push.items, generated, push.order, call);
      PlannedIsNeeded(store, generated, push.items, call);
    }
  }

  lemma PlannedIsNeeded(store: Store, generated: Generated, items: seq<Item>, call: Call)
    requires Snapshot(store, items) && WellKeyed(generated) && KeysTellApart(store, generated)
    ensures Needed(store, generated, call.id) == Some(call) <==> Planned(items, generated, call)
  {
    assert forall item :: item in items ==> Concerned(store, generated, item.id) && IsItemOf(store, item);
    assert forall key :: key in generated ==> Concerned(store, generated, IdOf(generated[key]));
    if Needed(store, generated, call.id) == Some(call) {
      NeededIsPlanned(store, generated, items, call);
    }
  }

  lemma NeededIsPlanned(store: Store, generated: Generated, items: seq<Item>, call: Call)
    requires Snapshot(store, items) && WellKeyed(generated) && KeysTellApart(store, generated)
    requires Needed(store, generated, call.id) == Some(call)
    ensures Planned(items, generated, call)
  {
    var id := call.id;
    assert forall item :: item in items ==> Concerned(store, generated, item.id) && IsItemOf(store, item);
    assert forall key :: key in generated ==> Concerned(store, generated, IdOf(generated[key]));
    if id in store && store[id].managed {
      var item := Item(id, store[id].spec, store[id].version);
      assert item in items;
      assert call.Update? ==> Revises(item, generated, call);
    }
  }

  // --- Replaying the plan ---

  predicate CallsOn(log: seq<Done>, id: ObjectKey) {
    exists i :: 0 <= i < |log| && log[i].call.id == id
  }

  lemma {:induction false} Untouched(store: Store, log: seq<Done>, id: ObjectKey)
    requires !CallsOn(log, id)
    ensures At(Replay(store, log), id) == At(store, id)
  {
    if log != [] {
      Untouched(store, log[..|log| - 1], id);
    }
  }

  /** The only call on a filter decides what becomes of it. */
  lemma {:induction false} Touched(store: Store, log: seq<Done>, i: nat)
    requires i < |log| && OneCallPerKey(Calls(log)) && Honest(store, log)
    ensures var id := log[i].call.id;
            && At(Replay(store, log), id) == At(if log[i].ok then Perform(store, log[i].call) else store, id)
            && (log[i].ok ==> Accepts(store, log[i].call))
  {
    var init, id := log[..|log| - 1], log[i].call.id;
    if i == |log| - 1 {
      FirstOnItsFilter(log, i);
      Untouched(store, init, id);
      AcceptsLooksAtOne(Replay(store, init), store, log[i].call);
    } else {
      assert forall j :: 0 <= j < |init| ==> Calls(init)[j] == Calls(log)[j] && init[..j] == log[..j];
      assert Key(Calls(log)[i].id) != Key(Calls(log)[|log| - 1].id);
      Touched(store, init, i);
    }
  }

  predicate AllOk(log: seq<Done>) {
    forall i :: 0 <= i < |log| ==> log[i].ok
  }

  /** A needed call is for a filter that is not as wanted, and would make it so. */
  lemma NeededRepairs(store: Store, generated: Generated, id: ObjectKey)
    requires Needed(store, generated, id).Some?
    ensures var call := Needed(store, generated, id).value;
            && call.id == id
            && ManagedSpec(store, id) != Wanted(generated, id)
            && ManagedSpec(Perform(store, call), id) == Wanted(generated, id)
  {
  }

  /** Filter by filter: after the calls it is as wanted, or its call failed and it is as before. */
  lemma FollowedAt(store: Store, generated: Generated, log: seq<Done>, id: ObjectKey) returns (i: nat)
    requires Follows(store, generated, Calls(log)) && Honest(store, log)
    ensures var store' := Replay(store, log);
            match Needed(store, generated, id)
            case None => At(store', id) == At(store, id) && ManagedSpec(store', id) == Wanted(generated, id)
            case Some(call) =>
              && i < |log| && log[i].call == call
              && (log[i].ok ==> Accepts(store, call) && ManagedSpec(store', id) == Wanted(generated, id))
              && (!log[i].ok ==> At(store', id) == At(store, id) && ManagedSpec(store', id) != Wanted(generated, id))
  {
    i := 0;
    match Needed(store, generated, id) {
      case None =>
        assert forall j :: 0 <= j < |log| ==> Calls(log)[j] in Calls(log);
        Untouched(store, log, id);
      case Some(call) =>
        NeededRepairs(store, generated, id);
        assert call in Calls(log);
        i :| 0 <= i < |log| && Calls(log)[i] == call;
        Touched(store, log, i);
    }
  }

  lemma FollowedConvergesIff(store: Store, generated: Generated, log: seq<Done>)
    requires Follows(store, generated, Calls(log)) && Honest(store, log)
    ensures Converged(Replay(store, log), generated) <==> AllOk(log)
  {
    var store' := Replay(store, log);
    if AllOk(log) {
      forall id
        ensures ManagedSpec(store', id) == Wanted(generated, id)
      {
        var _ := FollowedAt(store, generated, log, id);
      }
    } else {
      var i :| 0 <= i < |log| && !log[i].ok;
      var call := Calls(log)[i];
      assert call in Calls(log);
      var k := FollowedAt(store, generated, log, call.id);
      assert Calls(log)[k] == Calls(log)[i];
      assert i == k;
    }
  }

  lemma FollowedFrame(store: Store, generated: Generated, log: seq<Done>, id: ObjectKey)
    requires Follows(store, generated, Calls(log)) && Honest(store, log)
    ensures var store' := Replay(store, log);
            && (id in store && !store[id].managed ==> id in store' && store'[id] == store[id])
            && (Concerned(store', generated, id) ==> Concerned(store, generated, id))
  {
    var _ := FollowedAt(store, generated, log, id);
    assert id in store && !store[id].managed ==> At(Replay(store, log), id) == At(store, id);
  }

  /** The diff refines replacement: the managed filters end up equal to the generated set if and only
      if every call succeeded. */
  lemma ConvergedIffAllOk(store: Store, generated: Generated, push: Push)
    requires FullPush(store, generated, push)
    ensures Converged(Replay(store, push.log), generated) <==> AllOk(push.log)
  {
    PlanExact(store, generated, push);
    FollowedConvergesIff(store, generated, push.log);
  }

  /** Whatever fails, a push that saw the list leaves unmanaged filters alone, writes each filter at
      most once, and makes managed no filter that was not generated. */
  lemma PushFrame(store: Store, generated: Generated, push: Push)
    requires FullPush(store, generated, push)
    ensures var store' := Replay(store, push.log);
            && (forall id :: id in store && !store[id].managed ==> id in store' && store'[id] == store[id])
            && (forall i, j :: 0 <= i < j < |push.log| ==> push.log[i].call.id != push.log[j].call.id)
            && (forall id :: Concerned(store', generated, id) ==> Concerned(store, generated, id))
            && KeysTellApart(store', generated)
  {
    PlanExact(store, generated, push);
    assert forall i :: 0 <= i < |push.log| ==> Calls(push.log)[i] == push.log[i].call;
    forall id {
      FollowedFrame(store, generated, push.log, id);
    }
  }

  /** A push whose listing failed only creates: nothing stored changes, and what is new is wanted. */
  lemma {:induction false} OnlyCreates(store: Store, generated: Generated, log: seq<Done>, id: ObjectKey)
    requires Honest(store, log)
    requires forall i :: 0 <= i < |log| ==> log[i].call.Create? && Wanted(generated, log[i].call.id).Some?
    ensures var store' := Replay(store, log);
            if id in store then At(store', id) == At(store, id) else id in store' ==> Wanted(generated, id).Some?
  {
    if log != [] {
      var init := log[..|log| - 1];
      assert forall i :: 0 <= i < |init| ==> init[..i] == log[..i];
      OnlyCreates(store, generated, init, id);
    }
  }

  /** The frame of any push, listed or not. */
  lemma AnyPushFrame(store: Store, generated: Generated, push: Push)
    requires IsPush(store, generated, push) && WellKeyed(generated) && KeysTellApart(store, generated)
    ensures var store' := Replay(store, push.log);
            && (forall id :: id in store && !store[id].managed ==> id in store' && store'[id] == store[id])
            && (forall id :: Concerned(store', generated, id) ==> Concerned(store, generated, id))
            && KeysTellApart(store', generated)
  {
    if push.listed {
      PushFrame(store, generated, push);
    } else {
      var log := push.log;
      CreatesExact(push.order, generated);
      forall i | 0 <= i < |log|
        ensures log[i].call.Create? && Wanted(generated, log[i].call.id).Some?
      {
        assert Calls(log)[i] in Creates(push.order, generated);
      }
      forall id {
        OnlyCreates(store, generated, log, id);
      }
      assert forall id :: id in store ==> At(Replay(store, log), id) == At(store, id);
    }
  }

  lemma FirstCallIsNeeded(store: Store, generated: Generated, push: Push) returns (id: ObjectKey)
    requires FullPush(store, generated, push) && push.log != []
    ensures ManagedSpec(store, id) != Wanted(generated, id)
  {
    PlanExact(store, generated, push);
    id := Calls(push.log)[0].id;
    assert Calls(push.log)[0] in Calls(push.log);
  }

  /** A push into a store that has converged issues no call. */
  lemma ConvergedIsQuiet(store: Store, generated: Generated, push: Push)
    requires FullPush(store, generated, push) && Converged(store, generated)
    ensures push.log == []
  {
    if push.log != [] {
      var _ := FirstCallIsNeeded(store, generated, push);
    }
  }

  /** After a push in which any calls failed, the listing included, a later push whose calls all succeed converges, and the
      one after that is quiet. */
  lemma RecoversAfterFailures(store: Store, generated: Generated, faulty: Push, clean: Push, third: Push)
    requires IsPush(store, generated, faulty) && WellKeyed(generated) && KeysTellApart(store, generated)
    requires IsPush(Replay(store, faulty.log), generated, clean) && clean.listed && AllOk(clean.log)
    requires IsPush(Replay(Replay(store, faulty.log), clean.log), generated, third) && third.listed
    ensures Converged(Replay(Replay(store, faulty.log), clean.log), generated)
    ensures third.log == []
  {
    var s1 := Replay(store, faulty.log);
    AnyPushFrame(store, generated, faulty);
    ConvergedIffAllOk(s1, generated, clean);
    PushFrame(s1, generated, clean);
    ConvergedIsQuiet(Replay(s1, clean.log), generated, third);
  }

  /** No call fails for a reason of the network's. */
  predicate Unfaulted(store: Store, log: seq<Done>) {
    forall i :: 0 <= i < |log| ==> log[i].ok == Accepts(Replay(store, log[..i]), log[i].call)
  }

  lemma FirstOnItsFilter(log: seq<Done>, i: nat)
    requires OneCallPerKey(Calls(log)) && i < |log|
    ensures !CallsOn(log[..i], log[i].call.id)
  {
    assert forall j :: 0 <= j < i ==> Key(Calls(log)[j].id) != Key(Calls(log)[i].id);
  }

  lemma AcceptsLooksAtOne(store: Store, store': Store, call: Call)
    requires At(store, call.id) == At(store', call.id)
    ensures Accepts(store, call) <==> Accepts(store', call)
  {
  }

  /** As no filter is written twice, a call meets its filter as it was listed. */
  lemma UnfaultedOutcome(store: Store, generated: Generated, log: seq<Done>, i: nat)
    requires Follows(store, generated, Calls(log)) && Unfaulted(store, log) && i < |log|
    ensures log[i].ok <==> Accepts(store, log[i].call)
    ensures Needed(store, generated, log[i].call.id) == Some(log[i].call)
  {
    assert Calls(log)[i] in Calls(log);
    FirstOnItsFilter(log, i);
    Untouched(store, log[..i], log[i].call.id);
    AcceptsLooksAtOne(Replay(store, log[..i]), store, log[i].call);
  }

  lemma UnfaultedAllOkIff(store: Store, generated: Generated, log: seq<Done>)
    requires Follows(store, generated, Calls(log)) && Unfaulted(store, log)
    ensures AllOk(log) <==> forall id :: id in store && Wanted(generated, id).Some? ==> store[id].managed
  {
    if id :| id in store && Wanted(generated, id).Some? && !store[id].managed {
      var call := Create(id, Wanted(generated, id).value);
      assert Needed(store, generated, call.id) == Some(call);
      var i :| 0 <= i < |log| && Calls(log)[i] == call;
      UnfaultedOutcome(store, generated, log, i);
    } else {
      forall i | 0 <= i < |log|
        ensures log[i].ok
      {
        UnfaultedOutcome(store, generated, log, i);
      }
    }
  }

  /** Without network faults a push converges exactly when no unmanaged filter sits where a generated
      one belongs; in particular none of its updates is refused for a stale version. */
  lemma UnfaultedConvergesIff(store: Store, generated: Generated, push: Push)
    requires FullPush(store, generated, push) && Unfaulted(store, push.log)
    ensures Converged(Replay(store, push.log), generated) <==>
            forall id :: id in store && Wanted(generated, id).Some? ==> store[id].managed
  {
    PlanExact(store, generated, push);
    ConvergedIffAllOk(store, generated, push);
    UnfaultedAllOkIff(store, generated, push.log);
  }

  // --- What a nil error means ---

  /** Every filter but this one is as wanted. */
  ghost predicate OthersAsWanted(store: Store, generated: Generated, id: ObjectKey) {
    forall other :: other != id ==> ManagedSpec(store, other) == Wanted(generated, other)
  }

  /** Whether a nil error can be trusted, read off what is stored, generated and planned before the
      first call. If the filters could be listed: there is at most one call, or the last one cannot
      succeed, so that nil cannot be returned. If not, everything generated is created again: nothing is
      generated and nothing has to go, or the last call cannot succeed, or only its filter is missing. */
  ghost predicate Trusted(store: Store, generated: Generated, listed: bool, plan: seq<Call>) {
    if listed then |plan| <= 1 || !Accepts(store, plan[|plan| - 1])
    else if plan == [] then Converged(store, generated)
    else !Accepts(store, plan[|plan| - 1]) || OthersAsWanted(store, generated, plan[|plan| - 1].id)
  }

  /** The outcome in which only the last call succeeds. */
  function LastOnly(plan: seq<Call>): (log: seq<Done>)
    ensures |log| == |plan| && Calls(log) == plan
  {
    seq(|plan|, i requires 0 <= i < |plan| => Done(plan[i], i == |plan| - 1))
  }

  lemma {:induction false} FailuresChangeNothing(store: Store, log: seq<Done>)
    requires forall i :: 0 <= i < |log| ==> !log[i].ok
    ensures Replay(store, log) == store
  {
    if log != [] {
      FailuresChangeNothing(store, log[..|log| - 1]);
    }
  }

  lemma LastOnlyHappens(store: Store, plan: seq<Call>)
    requires plan != [] && Accepts(store, plan[|plan| - 1])
    ensures Honest(store, LastOnly(plan)) && !ReturnsError(LastOnly(plan))
    ensures Replay(store, LastOnly(plan)) == Perform(store, plan[|plan| - 1])
  {
    var log := LastOnly(plan);
    FailuresChangeNothing(store, log[..|log| - 1]);
  }

  lemma TrustedListed(store: Store, generated: Generated, push: Push)
    requires FullPush(store, generated, push) && !ReturnsError(push.log)
    requires Trusted(store, generated, true, Calls(push.log))
    ensures Converged(Replay(store, push.log), generated)
  {
    PlanExact(store, generated, push);
    ConvergedIffAllOk(store, generated, push);
    if |push.log| > 1 {
      Touched(store, push.log, |push.log| - 1);
    }
  }

  /** The plan of a push that could not list: one creation for each generated filter. */
  lemma UnlistedPlan(generated: Generated, order: seq<string>, log: seq<Done>)
    requires WellKeyed(generated) && Enumerates(order, generated) && Calls(log) == Creates(order, generated)
    ensures OneCallPerKey(Calls(log))
    ensures forall i :: 0 <= i < |log| ==> log[i].call.Create? && Wanted(generated, log[i].call.id) == Some(log[i].call.spec)
  {
    CreatesExact(order, generated);
    forall i | 0 <= i < |log|
      ensures log[i].call.Create? && Wanted(generated, log[i].call.id) == Some(log[i].call.spec)
    {
      assert Calls(log)[i] in Creates(order, generated);
    }
  }

  lemma TrustedUnlisted(store: Store, generated: Generated, order: seq<string>, log: seq<Done>)
    requires WellKeyed(generated) && Enumerates(order, generated) && Calls(log) == Creates(order, generated)
    requires Honest(store, log) && !ReturnsError(log) && Trusted(store, generated, false, Calls(log))
    ensures Converged(Replay(store, log), generated)
  {
    UnlistedPlan(generated, order, log);
    if log != [] {
      var n := |log| - 1;
      var last := log[n].call;
      Touched(store, log, n);
      forall id
        ensures ManagedSpec(Replay(store, log), id) == Wanted(generated, id)
      {
        OnlyCreates(store, generated, log, id);
        if id != last.id {
          assert ManagedSpec(store, id) == Wanted(generated, id);
          assert id in store ==> At(Replay(store, log), id) == At(store, id);
        } else {
          assert At(Replay(store, log), id) == At(Perform(store, last), id);
        }
      }
    }
  }

  /** Exactly then: with what was listed and the order in which the map was walked fixed, every outcome
      that returns nil leaves the managed filters equal to the generated ones if and only if nil can be
      trusted. */
  lemma NilIsTrustedIff(store: Store, generated: Generated, listed: bool, items: seq<Item>, order: seq<string>)
    requires WellKeyed(generated) && KeysTellApart(store, generated)
    requires (if listed then Snapshot(store, items) else items == []) && Enumerates(order, Rest(items, generated))
    ensures Trusted(store, generated, listed, Plan(items, generated, order)) <==>
            forall log :: IsPush(store, generated, Push(listed, items, order, log)) && !ReturnsError(log)
                          ==> Converged(Replay(store, log), generated)
  {
    var plan := Plan(items, generated, order);
    if Trusted(store, generated, listed, plan) {
      forall log | IsPush(store, generated, Push(listed, items, order, log)) && !ReturnsError(log)
        ensures Converged(Replay(store, log), generated)
      {
        if listed {
          TrustedListed(store, generated, Push(listed, items, order, log));
        } else {
          assert Plan(items, generated, order) == Creates(order, generated);
          TrustedUnlisted(store, generated, order, log);
        }
      }
    } else {
      var _ := StaleOutcome(store, generated, listed, items, order);
    }
  }

  lemma StaleListed(store: Store, generated: Generated, push: Push)
    requires FullPush(store, generated, push) && |push.log| > 1 && push.log == LastOnly(Calls(push.log))
    ensures !Converged(Replay(store, push.log), generated)
  {
    assert !push.log[0].ok;
    ConvergedIffAllOk(store, generated, push);
  }

  lemma StaleUnlisted(store: Store, generated: Generated, last: Call)
    requires last.Create? && !OthersAsWanted(store, generated, last.id)
    ensures !Converged(Perform(store, last), generated)
  {
    var other :| other != last.id && ManagedSpec(store, other) != Wanted(generated, other);
    assert At(Perform(store, last), other) == At(store, other);
  }

  /** Where nil cannot be trusted, the outcome in which only the last call succeeds is the witness. */
  lemma StaleOutcome(store: Store, generated: Generated, listed: bool, items: seq<Item>, order: seq<string>) returns (log: seq<Done>)
    requires WellKeyed(generated) && KeysTellApart(store, generated)
    requires (if listed then Snapshot(store, items) else items == []) && Enumerates(order, Rest(items, generated))
    requires !Trusted(store, generated, listed, Plan(items, generated, order))
    ensures IsPush(store, generated, Push(listed, items, order, log)) && !ReturnsError(log)
    ensures !Converged(Replay(store, log), generated)
  {
    var plan := Plan(items, generated, order);
    log := LastOnly(plan);
    if plan != [] {
      LastOnlyHappens(store, plan);
      if listed {
        StaleListed(store, generated, Push(listed, items, order, log));
      } else {
        assert plan == Creates(order, generated);
        UnlistedPlan(generated, order, log);
        assert Calls(log)[|log| - 1] == plan[|plan| - 1];
        StaleUnlisted(store, generated, plan[|plan| - 1]);
      }
    }
  }

  /** The returned error does not say whether the push worked: with two filters to delete, a failed
      first call and a successful second one return no error, and the store has not converged. */
  lemma NilErrorHidesAFailure(a: ObjectKey, b: ObjectKey, spec: EnvoyFilter)
    requires Key(a) != Key(b)
    ensures var store := map[a := Stored(true, spec, 1), b := Stored(true, spec, 1)];
            exists push :: FullPush(store, map[], push) && !ReturnsError(push.log) && !Converged(Replay(store, push.log), map[])
  {
    var store := map[a := Stored(true, spec, 1), b := Stored(true, spec, 1)];
    var items := [Item(a, spec, 1), Item(b, spec, 1)];
    var log := [Done(Delete(a), false), Done(Delete(b), true)];
    var none: Generated := map[];
    assert none - {Key(a)} == none && none - {Key(b)} == none;
    assert items[1..] == [Item(b, spec, 1)] && items[1..][1..] == [];
    assert Deletes(items[1..][1..], map[]) == [] && Updates(items[1..][1..], map[]) == [] && Rest(items[1..][1..], map[]) == map[];
    assert Deletes(items[1..], map[]) == [Delete(b)] && Updates(items[1..], map[]) == [] && Rest(items[1..], map[]) == map[];
    assert Deletes(items, map[]) == [Delete(a), Delete(b)] && Updates(items, map[]) == [] && Rest(items, map[]) == map[];
    var push := Push(true, items, [], log);
    assert items[0].id == a && items[1].id == b;
    assert Snapshot(store, items);
    assert Calls(log) == [Delete(a), Delete(b)] == Plan(items, map[], []);
    assert log[..1] == [log[0]] && log[..1][..0] == [] && Replay(store, []) == store && Replay(store, log[..1]) == store;
    assert Honest(store, log);
    assert FullPush(store, map[], push);
    assert !log[0].ok;
    ConvergedIffAllOk(store, map[], push);
  }

  /** Generated names and namespaces without `-aeraki` meet the condition on keys. */
  lemma AerakiNamesTellApart(store: Store, generated: Generated)
    requires WellKeyed(generated)
    requires forall id :: Concerned(store, generated, id) ==> HasPrefix(id.name, "aeraki-") && !Contains(id.namespace, "-aeraki")
    ensures KeysTellApart(store, generated)
  {
    forall id, id' | Concerned(store, generated, id) && Concerned(store, generated, id') && Key(id) == Key(id')
      ensures id == id'
    {
      KeysIdentifyWithoutAeraki({id.namespace, id'.namespace});
    }
  }
}
