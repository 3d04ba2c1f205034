/**
  The ServiceEntry controller, which gives every eligible ServiceEntry an address of its own from
  240.240.0.0/16.

  The controller and its API client are classes that change in place. Each method is proved equal
  to a step on a State value; what the controller promises is then proved about those steps.
 */
module VipAllocator {
  import opened Mesh
  import opened Text
  import opened VipPool

  datatype GetResult = Live | NotFound | OtherError

  /** The API server's ServiceEntries, the controller's owner map and its cursor. */
  datatype State = State(
    store: map<ObjectKey, ServiceEntry>,
    serviceIPs: map<string, ObjectKey>,
    maxIP: nat)
  {
    ghost predicate Valid() { maxIP <= CURSOR_END }
  }

  /** What goes wrong on the network during one reconcile; `searchGet(i)` is the lookup made in
      iteration `i` of the free-address search. */
  datatype Faults = Faults(requestGet: bool, ownerGet: bool, searchGet: nat -> bool, update: bool)

  const NO_FAULTS := Faults(false, false, (i: nat) => false, false)

  function Get(store: map<ObjectKey, ServiceEntry>, key: ObjectKey, fault: bool): GetResult {
    if fault then OtherError else if key in store then Live else NotFound
  }

  // --- The free-address search ---

  /** Iteration `i` of the search stops it: its address is unowned, or its owner is gone. */
  predicate Takes(s: State, searchGet: nat -> bool, i: nat) {
    var ip := Address(Emitted(s.maxIP, i));
    ip in s.serviceIPs ==> Get(s.store, s.serviceIPs[ip], searchGet(i)) == NotFound
  }

  ghost predicate SearchEnds(s: State, searchGet: nat -> bool) {
    exists i: nat :: Takes(s, searchGet, i)
  }

  ghost function FirstFrom(s: State, searchGet: nat -> bool, from: nat, limit: nat): (i: nat)
    requires from <= limit && Takes(s, searchGet, limit)
    ensures from <= i <= limit && Takes(s, searchGet, i)
    ensures forall j: nat :: from <= j < i ==> !Takes(s, searchGet, j)
    decreases limit - from
  {
    if Takes(s, searchGet, from) then from else FirstFrom(s, searchGet, from + 1, limit)
  }

  /** The iteration at which the search stops. */
  ghost function Stop(s: State, searchGet: nat -> bool): (i: nat)
    requires SearchEnds(s, searchGet)
    ensures Takes(s, searchGet, i)
    ensures forall j: nat :: j < i ==> !Takes(s, searchGet, j)
  {
    var limit: nat :| Takes(s, searchGet, limit);
    FirstFrom(s, searchGet, 0, limit)
  }

  ghost function FoundIP(s: State, searchGet: nat -> bool): string
    requires SearchEnds(s, searchGet)
  {
    Address(Emitted(s.maxIP, Stop(s, searchGet)))
  }

  /** The search forgets the found address's dead owner, if it has one, and moves the cursor. */
  ghost function AfterSearch(s: State, searchGet: nat -> bool): State
    requires SearchEnds(s, searchGet)
  {
    s.(serviceIPs := s.serviceIPs - {FoundIP(s, searchGet)},
       maxIP := CursorAfter(s.maxIP, Stop(s, searchGet) + 1))
  }

  // --- One reconcile ---

  function WithFirstAddress(se: ServiceEntry, ip: string): ServiceEntry {
    se.(addresses := if se.addresses == [] then [ip] else se.addresses[0 := ip])
  }

  /** The API server takes the entry and the controller notes the owner, or neither happens. */
  function AfterUpdate(s: State, key: ObjectKey, se: ServiceEntry, fault: bool): State
    requires se.addresses != []
  {
    if fault then s
    else s.(store := s.store[key := se], serviceIPs := s.serviceIPs[se.addresses[0] := key])
  }

  /** The entry is one the controller gives addresses to. */
  predicate Eligible(se: ServiceEntry) {
    se.resolution != NONE && (se.addresses == [] || HasPrefix(se.addresses[0], "240.240"))
  }

  /** Reconciling `key` ends in an Update call with a newly found address. */
  predicate Reallocates(s: State, key: ObjectKey, faults: Faults) {
    && Get(s.store, key, faults.requestGet) == Live
    && var se := s.store[key];
    && Eligible(se)
    && (se.addresses == [] ||
        (&& se.addresses[0] in s.serviceIPs
         && s.serviceIPs[se.addresses[0]] != key
         && Get(s.store, s.serviceIPs[se.addresses[0]], faults.ownerGet) == Live))
  }

  /** Reconciling `key` writes it down as the owner of the address it already has. */
  predicate Registers(s: State, key: ObjectKey, faults: Faults) {
    && Get(s.store, key, faults.requestGet) == Live
    && var se := s.store[key];
    && Eligible(se)
    && se.addresses != []
    && (se.addresses[0] in s.serviceIPs ==>
          && s.serviceIPs[se.addresses[0]] != key
          && Get(s.store, s.serviceIPs[se.addresses[0]], faults.ownerGet) == NotFound)
  }

  /** The reconcile returns: the unbounded search, if it is started, stops. */
  ghost predicate Returns(s: State, key: ObjectKey, faults: Faults) {
    Reallocates(s, key, faults) ==> SearchEnds(s, faults.searchGet)
  }

  ghost function Reconciled(s: State, key: ObjectKey, faults: Faults): State
    requires Returns(s, key, faults)
  {
    if Reallocates(s, key, faults) then
      AfterUpdate(AfterSearch(s, faults.searchGet), key,
                  WithFirstAddress(s.store[key], FoundIP(s, faults.searchGet)), faults.update)
    else if Registers(s, key, faults) then
      s.(serviceIPs := s.serviceIPs[s.store[key].addresses[0] := key])
    else
      s
  }

  /** The API client, seen through the ServiceEntries the API server holds. */
  class Client {
    var store: map<ObjectKey, ServiceEntry>

    constructor (store: map<ObjectKey, ServiceEntry>)
      ensures this.store == store
    {
      this.store := store;
    }

    method Fetch(key: ObjectKey, fault: bool) returns (result: GetResult, se: Option<ServiceEntry>)
      ensures result == Get(store, key, fault)
      ensures se == if result == Live then Some(store[key]) else None
    {
      if fault {
        return OtherError, None;
      }
      if key in store {
        return Live, Some(store[key]);
      }
      return NotFound, None;
    }

    method Update(key: ObjectKey, se: ServiceEntry, fault: bool) returns (ok: bool)
      modifies this
      ensures ok == !fault
      ensures store == if ok then old(store)[key := se] else old(store)
    {
      ok := !fault;
      if ok {
        store := store[key := se];
      }
    }
  }

  class ServiceEntryController {
    const client: Client
    var serviceIPs: map<string, ObjectKey>
    var maxIP: nat

    ghost function Abstract(): State
      reads this, client
    {
      State(client.store, serviceIPs, maxIP)
    }

    constructor (client: Client)
      ensures this.client == client
      ensures Abstract() == State(client.store, map[], 0)
    {
      this.client := client;
      serviceIPs := map[];
      maxIP := 0;
    }

    method GetNextIP() returns (ip: string)
      modifies this
      ensures ip == Address(Emit(old(maxIP)))
      ensures maxIP == Emit(old(maxIP)) + 1 && serviceIPs == old(serviceIPs)
    {
      if maxIP % 255 == 0 {
        maxIP := maxIP + 1;
      }
      if maxIP >= 255 * 255 {
        maxIP := 0;
      }
      var thirdOctet := maxIP / 255;
      var fourthOctet := maxIP % 255;
      maxIP := maxIP + 1;
      ip := "240.240." + Itoa(thirdOctet) + "." + Itoa(fourthOctet);
    }

    method NextAvailableIP(searchGet: nat -> bool) returns (ip: string)
      requires SearchEnds(Abstract(), searchGet)
      modifies this
      ensures ip == FoundIP(old(Abstract()), searchGet)
      ensures Abstract() == AfterSearch(old(Abstract()), searchGet)
    {
      ghost var s := Abstract();
      ghost var stop := Stop(s, searchGet);
      var i := 0;
      while true
        invariant 0 <= i <= stop
        invariant Abstract() == s.(maxIP := CursorAfter(s.maxIP, i))
        invariant forall j: nat :: j < i ==> !Takes(s, searchGet, j)
        decreases stop - i
      {
        ip := GetNextIP();
        assert ip == Address(Emitted(s.maxIP, i)) && maxIP == CursorAfter(s.maxIP, i + 1);
        if ip in serviceIPs {
          var result, _ := client.Fetch(serviceIPs[ip], searchGet(i));
          if result == NotFound {
            assert Takes(s, searchGet, i) && i == stop;
            serviceIPs := serviceIPs - {ip};
            return;
          }
        } else {
          assert Takes(s, searchGet, i) && i == stop;
          assert serviceIPs - {ip} == serviceIPs;
          return;
        }
        assert !Takes(s, searchGet, i);
        i := i + 1;
      }
    }

    method UpdateServiceEntry(se: ServiceEntry, key: ObjectKey, fault: bool)
      requires se.addresses != []
      modifies this, client
      ensures Abstract() == AfterUpdate(old(Abstract()), key, se, fault)
    {
      var ok := client.Update(key, se, fault);
      if ok {
        serviceIPs := serviceIPs[se.addresses[0] := key];
      }
    }

    method AutoAllocateIP(key: ObjectKey, entry: ServiceEntry, faults: Faults)
      requires Get(client.store, key, faults.requestGet) == Live && client.store[key] == entry
      requires Returns(Abstract(), key, faults)
      modifies this, client
      ensures Abstract() == Reconciled(old(Abstract()), key, faults)
    {
      var se := entry;
      if se.resolution == NONE {
        return;
      }
      if |se.addresses| > 0 {
        if !HasPrefix(se.addresses[0], "240.240") {
          return;
        }
        if se.addresses[0] in serviceIPs {
          var existingKey := serviceIPs[se.addresses[0]];
          if existingKey != key {
            var result, _ := client.Fetch(existingKey, faults.ownerGet);
            if result == Live {
              var ip := NextAvailableIP(faults.searchGet);
              se := se.(addresses := se.addresses[0 := ip]);
              UpdateServiceEntry(se, key, faults.update);
            } else if result == NotFound {
              serviceIPs := serviceIPs[se.addresses[0] := key];
            }
          }
        } else {
          serviceIPs := serviceIPs[se.addresses[0] := key];
        }
      } else {
        var ip := NextAvailableIP(faults.searchGet);
        se := se.(addresses := [ip]);
        UpdateServiceEntry(se, key, faults.update);
      }
    }

    /** The error result is set exactly when the entry could not be fetched. */
    method Reconcile(key: ObjectKey, faults: Faults) returns (failed: bool)
      requires Returns(Abstract(), key, faults)
      modifies this, client
      ensures Abstract() == Reconciled(old(Abstract()), key, faults)
      ensures failed == faults.requestGet
    {
      var result, se := client.Fetch(key, faults.requestGet);
      if result == NotFound {
        return false;
      }
      if result == OtherError {
        return true;
      }
      AutoAllocateIP(key, se.value, faults);
      return false;
    }
  }
}
