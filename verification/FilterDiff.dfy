/**
  Pushing the generated EnvoyFilters to the API server: a three-pass diff that deletes, updates and
  creates, whatever each call's outcome.

  The calls are fixed by what was listed and generated before the first of them is issued, so a push
  is a plan of calls with an outcome for each. The theorems say what any plan, with any outcomes,
  does to the API server's store.
 */
module FilterDiff {
  import opened Mesh
  import opened FilterNames

  /** An EnvoyFilter in the API server; `managed` says it carries the label manager=Aeraki. */
  datatype Stored = Stored(managed: bool, spec: EnvoyFilter, version: nat)

  type Store = map<ObjectKey, Stored>
  type Generated = map<string, EnvoyFilterWrapper>

  datatype Item = Item(id: ObjectKey, spec: EnvoyFilter, version: nat)

  datatype Call =
    | Delete(id: ObjectKey)
    | Update(id: ObjectKey, spec: EnvoyFilter, version: nat)
    | Create(id: ObjectKey, spec: EnvoyFilter)

  datatype Done = Done(call: Call, ok: bool)

  function Key(id: ObjectKey): string {
    MapKey(id.name, id.namespace)
  }

  function IdOf(wrapper: EnvoyFilterWrapper): ObjectKey {
    ObjectKey(wrapper.namespace, wrapper.name)
  }

  // --- The API server ---

  function At(store: Store, id: ObjectKey): Option<Stored> {
    if id in store then Some(store[id]) else None
  }

  /** The API server can carry out the call: the object exists and has the version the caller saw,
      or, for a creation, does not exist. */
  predicate Accepts(store: Store, call: Call) {
    match call
    case Delete(id) => id in store
    case Update(id, _, version) => id in store && store[id].version == version
    case Create(id, _) => id !in store
  }

  function Perform(store: Store, call: Call): Store {
    match call
    case Delete(id) => store - {id}
    case Update(id, spec, version) => store[id := Stored(true, spec, version + 1)]
    case Create(id, spec) => store[id := Stored(true, spec, 1)]
  }

  function Replay(store: Store, log: seq<Done>): Store {
    if log == [] then store
    else
      var before, last := Replay(store, log[..|log| - 1]), log[|log| - 1];
      if last.ok then Perform(before, last.call) else before
  }

  /** Calls reported as successful are calls the API server could carry out. Others may have failed
      for any reason. */
  predicate Honest(store: Store, log: seq<Done>) {
    forall i :: 0 <= i < |log| && log[i].ok ==> Accepts(Replay(store, log[..i]), log[i].call)
  }

  class ApiServer {
    var store: Store

    /** One write; the network may fail it at will. */
    method Issue(call: Call) returns (ok: bool)
      modifies this
      ensures ok ==> Accepts(old(store), call)
      ensures store == if ok then Perform(old(store), call) else old(store)
    {
      ok := *;
      ok := ok && Accepts(store, call);
      if ok {
        store := Perform(store, call);
      }
    }

    /** The managed filters, in any order; the caller ignores a failure and sees an empty list. */
    method List() returns (listed: bool, items: seq<Item>)
      ensures if listed then Snapshot(store, items) else items == []
    {
      listed := *;
      items := [];
      if !listed {
        return;
      }
      var left := store.Keys;
      while left != {}
        invariant left <= store.Keys
        invariant forall i :: 0 <= i < |items| ==> items[i].id in store.Keys - left && IsItemOf(store, items[i])
        invariant forall i, j :: 0 <= i < j < |items| ==> items[i].id != items[j].id
        invariant forall id :: id in store.Keys - left && store[id].managed ==> exists i :: 0 <= i < |items| && items[i].id == id
        decreases left
      {
        var id :| id in left;
        left := left - {id};
        ghost var before := items;
        if store[id].managed {
          items := items + [Item(id, store[id].spec, store[id].version)];
          assert items[|before|].id == id;
        }
        forall id' | id' in store.Keys - left && store[id'].managed
          ensures exists i :: 0 <= i < |items| && items[i].id == id'
        {
          if id' != id {
            var i :| 0 <= i < |before| && before[i].id == id';
            assert items[i].id == id';
          }
        }
      }
    }
  }

  predicate IsItemOf(store: Store, item: Item) {
    item.id in store && store[item.id] == Stored(true, item.spec, item.version)
  }

  /** The list holds each managed filter of the store once, and nothing else. */
  ghost predicate Snapshot(store: Store, items: seq<Item>) {
    && (forall i :: 0 <= i < |items| ==> IsItemOf(store, items[i]))
    && (forall i, j :: 0 <= i < j < |items| ==> items[i].id != items[j].id)
    && (forall id :: id in store && store[id].managed ==> exists i :: 0 <= i < |items| && items[i].id == id)
  }

  // --- The plan ---

  function Deletes(items: seq<Item>, generated: Generated): seq<Call> {
    if items == [] then []
    else (if Key(items[0].id) in generated then [] else [Delete(items[0].id)]) + Deletes(items[1..], generated)
  }

  function Updates(items: seq<Item>, generated: Generated): seq<Call> {
    if items == [] then []
    else
      var key := Key(items[0].id);
      if key !in generated then Updates(items[1..], generated)
      else
        (if generated[key].spec == items[0].spec then []
         else [Update(IdOf(generated[key]), generated[key].spec, items[0].version)])
        + Updates(items[1..], generated - {key})
  }

  /** What is left to create once the listed filters have been taken out. */
  function Rest(items: seq<Item>, generated: Generated): Generated {
    if items == [] then generated else Rest(items[1..], generated - {Key(items[0].id)})
  }

  function Creates(order: seq<string>, generated: Generated): seq<Call>
    requires forall key :: key in order ==> key in generated
  {
    if order == [] then []
    else
      var last := generated[order[|order| - 1]];
      Creates(order[..|order| - 1], generated) + [Create(IdOf(last), last.spec)]
  }

  /** `order` visits every key of the map once. */
  ghost predicate Enumerates(order: seq<string>, generated: Generated) {
    && (forall key :: key in order <==> key in generated)
    && (forall i, j :: 0 <= i < j < |order| ==> order[i] != order[j])
  }

  ghost function Plan(items: seq<Item>, generated: Generated, order: seq<string>): seq<Call>
    requires Enumerates(order, Rest(items, generated))
  {
    Deletes(items, generated) + Updates(items, generated) + Creates(order, Rest(items, generated))
  }

  function Calls(log: seq<Done>): (calls: seq<Call>)
    ensures |calls| == |log| && forall i :: 0 <= i < |log| ==> calls[i] == log[i].call
  {
    seq(|log|, i requires 0 <= i < |log| => log[i].call)
  }

  /** One push: what was listed, the order in which the map of new filters was walked, and the calls
      with their outcomes. */
  datatype Push = Push(listed: bool, items: seq<Item>, order: seq<string>, log: seq<Done>)

  /** A push that can happen to this store. */
  ghost predicate IsPush(store: Store, generated: Generated, push: Push) {
    && (if push.listed then Snapshot(store, push.items) else push.items == [])
    && Enumerates(push.order, Rest(push.items, generated))
    && Calls(push.log) == Plan(push.items, generated, push.order)
    && Honest(store, push.log)
  }

  /** The error returned is that of the last call issued. */
  predicate ReturnsError(log: seq<Done>) {
    log != [] && !log[|log| - 1].ok
  }

  lemma Extend(store: Store, log: seq<Done>, done: Done)
    requires Honest(store, log)
    requires done.ok ==> Accepts(Replay(store, log), done.call)
    ensures var log' := log + [done];
            && Honest(store, log') && Calls(log') == Calls(log) + [done.call]
            && Replay(store, log') == if done.ok then Perform(Replay(store, log), done.call) else Replay(store, log)
  {
    var log' := log + [done];
    assert log'[..|log|] == log;
    assert forall i :: 0 <= i < |log| ==> log'[..i] == log[..i];
  }

  /** The log so far accounts for the store and for the error variable. */
  ghost predicate Tracks(start: Store, log: seq<Done>, store: Store, failed: bool) {
    Honest(start, log) && store == Replay(start, log) && failed == ReturnsError(log)
  }

  method IssueLogged(api: ApiServer, call: Call, ghost start: Store, ghost log: seq<Done>, failed: bool)
    returns (failed': bool, ghost log': seq<Done>)
    requires Tracks(start, log, api.store, failed)
    modifies api
    ensures Tracks(start, log', api.store, failed') && Calls(log') == Calls(log) + [call]
  {
    var ok := api.Issue(call);
    failed' := !ok;
    log' := log + [Done(call, ok)];
    Extend(start, log, Done(call, ok));
  }

  method DeletePass(api: ApiServer, items: seq<Item>, generated: Generated) returns (failed: bool, ghost log: seq<Done>)
    modifies api
    ensures Tracks(old(api.store), log, api.store, failed)
    ensures Calls(log) == Deletes(items, generated)
  {
    failed, log := false, [];
    for i := 0 to |items|
      invariant Calls(log) + Deletes(items[i..], generated) == Deletes(items, generated)
      invariant Tracks(old(api.store), log, api.store, failed)
    {
      assert items[i..][1..] == items[i + 1..];
      ghost var before := Calls(log);
      if Key(items[i].id) !in generated {
        assert Deletes(items[i..], generated) == [Delete(items[i].id)] + Deletes(items[i + 1..], generated);
        assert before + [Delete(items[i].id)] + Deletes(items[i + 1..], generated) == before + Deletes(items[i..], generated);
        failed, log := IssueLogged(api, Delete(items[i].id), old(api.store), log, failed);
      }
    }
  }

  /** Also takes the listed filters out of the map. */
  method UpdatePass(api: ApiServer, items: seq<Item>, filters: Generated, before: bool, ghost start: Store, ghost log0: seq<Done>)
    returns (failed: bool, generated: Generated, ghost log: seq<Done>)
    requires Tracks(start, log0, api.store, before)
    modifies api
    ensures Tracks(start, log, api.store, failed)
    ensures Calls(log) == Calls(log0) + Updates(items, filters)
    ensures generated == Rest(items, filters)
  {
    failed, generated, log := before, filters, log0;
    for i := 0 to |items|
      invariant Calls(log) + Updates(items[i..], generated) == Calls(log0) + Updates(items, filters)
      invariant Rest(items[i..], generated) == Rest(items, filters)
      invariant Tracks(start, log, api.store, failed)
    {
      assert items[i..][1..] == items[i + 1..];
      var mapKey := Key(items[i].id);
      if mapKey in generated {
        var newFilter := generated[mapKey];
        if newFilter.spec != items[i].spec {
          failed, log := IssueLogged(api, Update(IdOf(newFilter), newFilter.spec, items[i].version), start, log, failed);
        }
        generated := generated - {mapKey};
      } else {
        assert generated - {mapKey} == generated;
      }
    }
  }

  method CreatePass(api: ApiServer, rest: Generated, before: bool, ghost start: Store, ghost log0: seq<Done>)
    returns (failed: bool, ghost order: seq<string>, ghost log: seq<Done>)
    requires Tracks(start, log0, api.store, before)
    modifies api
    ensures Tracks(start, log, api.store, failed)
    ensures Enumerates(order, rest)
    ensures Calls(log) == Calls(log0) + Creates(order, rest)
  {
    failed, order, log := before, [], log0;
    var left := rest.Keys;
    while left != {}
      invariant left <= rest.Keys
      invariant forall key :: key in order <==> key in rest.Keys - left
      invariant forall i, j :: 0 <= i < j < |order| ==> order[i] != order[j]
      invariant Calls(log) == Calls(log0) + Creates(order, rest)
      invariant Tracks(start, log, api.store, failed)
      decreases left
    {
      var mapKey :| mapKey in left;
      var wrapper := rest[mapKey];
      failed, log := IssueLogged(api, Create(IdOf(wrapper), wrapper.spec), start, log, failed);
      assert mapKey !in order && (order + [mapKey])[..|order|] == order;
      order, left := order + [mapKey], left - {mapKey};
    }
  }

  method PushEnvoyFilters2APIServer(api: ApiServer, generated: Generated) returns (failed: bool, ghost push: Push)
    modifies api
    ensures IsPush(old(api.store), generated, push)
    ensures api.store == Replay(old(api.store), push.log)
    ensures failed == ReturnsError(push.log)
  {
    ghost var order, log;
    var rest;
    var listed, items := api.List();
    failed, log := DeletePass(api, items, generated);
    failed, rest, log := UpdatePass(api, items, generated, failed, old(api.store), log);
    failed, order, log := CreatePass(api, rest, failed, old(api.store), log);
    push := Push(listed, items, order, log);
  }
}
