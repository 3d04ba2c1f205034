/**
  The address cursor of the ServiceEntry controller (`getNextIP`).

  A slot is the cursor value an address is printed from: slot `255 * t + f` is `240.240.t.f`.
  The cursor never prints `f == 0`, except for 240.240.0.0, which it prints each time it wraps.
 */
module VipPool {
  import opened Text

  const CURSOR_END: nat := 255 * 255
  const POOL_SIZE: nat := 1 + 255 * 254

  function Address(slot: nat): string {
    "240.240." + Itoa(slot / 255) + "." + Itoa(slot % 255)
  }

  predicate InPool(slot: nat) {
    slot < CURSOR_END && (slot == 0 || slot % 255 != 0)
  }

  /** The slot printed when the cursor stands at `maxIP`. */
  function Emit(maxIP: nat): nat {
    var skipped := if maxIP % 255 == 0 then maxIP + 1 else maxIP;
    if skipped >= CURSOR_END then 0 else skipped
  }

  /** The cursor after `k` calls. */
  function CursorAfter(maxIP: nat, k: nat): nat {
    if k == 0 then maxIP else Emit(CursorAfter(maxIP, k - 1)) + 1
  }

  /** The slot printed by the call that `k` other calls preceded. */
  function Emitted(maxIP: nat, k: nat): nat {
    Emit(CursorAfter(maxIP, k))
  }

  // --- The reference: the pool as one cycle of POOL_SIZE numbered slots ---

  function SlotAt(i: nat): (slot: nat)
    ensures i < POOL_SIZE ==> InPool(slot)
  {
    if i == 0 then 0 else 255 * ((i - 1) / 254) + (i - 1) % 254 + 1
  }

  function IndexOf(slot: nat): nat {
    if slot == 0 then 0 else 254 * (slot / 255) + slot % 255
  }

  /** SlotAt numbers the pool: IndexOf is its inverse in both directions. */
  lemma PoolNumbering(slot: nat, i: nat)
    ensures InPool(slot) ==> IndexOf(slot) < POOL_SIZE && SlotAt(IndexOf(slot)) == slot
    ensures i < POOL_SIZE ==> IndexOf(SlotAt(i)) == i
  {
    if InPool(slot) && slot != 0 {
      var t, f := slot / 255, slot % 255;
      assert (254 * t + f - 1) / 254 == t && (254 * t + f - 1) % 254 == f - 1;
    }
    if 0 < i < POOL_SIZE {
      var t, f := (i - 1) / 254, (i - 1) % 254 + 1;
      assert (255 * t + f) / 255 == t && (255 * t + f) % 255 == f;
    }
  }

  /** Counting around the cycle, for sums of less than two rounds. */
  function Around(x: nat): nat {
    if x < POOL_SIZE then x else x - POOL_SIZE
  }

  lemma AroundNext(i: nat, k: nat)
    requires i < POOL_SIZE && 0 < k < POOL_SIZE
    ensures Around(Around(i + (k - 1)) + 1) == Around(i + k)
  {
  }

  /** One call moves to the next slot of the cycle, and keeps the cursor in 0..65025. */
  lemma {:induction false} EmitAdvances(maxIP: nat)
    requires maxIP <= CURSOR_END
    ensures InPool(Emit(maxIP)) && Emit(maxIP) + 1 <= CURSOR_END
    ensures IndexOf(Emit(Emit(maxIP) + 1)) == Around(IndexOf(Emit(maxIP)) + 1)
  {
    var slot := Emit(maxIP);
    PoolNumbering(slot, 0);
    var next := Emit(slot + 1);
    if slot == CURSOR_END - 1 {
      assert next == 0;
    } else if slot % 255 == 254 {
      assert (slot + 2) / 255 == slot / 255 + 1;
      assert next == slot + 2;
    } else {
      assert (slot + 1) / 255 == slot / 255;
      assert next == slot + 1;
    }
  }

  /** However many calls are made, the cursor stays in 0..65025 and prints pool slots only. */
  lemma {:induction false} CursorInRange(maxIP: nat, k: nat)
    requires maxIP <= CURSOR_END
    ensures CursorAfter(maxIP, k) <= CURSOR_END && InPool(Emitted(maxIP, k))
  {
    if k > 0 {
      CursorInRange(maxIP, k - 1);
      EmitAdvances(CursorAfter(maxIP, k - 1));
    }
    EmitAdvances(CursorAfter(maxIP, k));
  }

  lemma NextIndex(maxIP: nat, k: nat)
    requires maxIP <= CURSOR_END
    ensures IndexOf(Emitted(maxIP, k + 1)) == Around(IndexOf(Emitted(maxIP, k)) + 1)
  {
    CursorInRange(maxIP, k);
    EmitAdvances(CursorAfter(maxIP, k));
  }

  lemma {:induction false} EmittedIndex(maxIP: nat, k: nat)
    requires maxIP <= CURSOR_END && k < POOL_SIZE
    ensures IndexOf(Emit(maxIP)) < POOL_SIZE
    ensures IndexOf(Emitted(maxIP, k)) == Around(IndexOf(Emit(maxIP)) + k)
  {
    if k == 0 {
      EmitAdvances(maxIP);
      PoolNumbering(Emit(maxIP), 0);
    } else {
      EmittedIndex(maxIP, k - 1);
      NextIndex(maxIP, k - 1);
      AroundNext(IndexOf(Emit(maxIP)), k);
    }
  }

  /** How many calls pass before `slot` is printed. */
  function StepsTo(maxIP: nat, slot: nat): int {
    var from, to := IndexOf(Emit(maxIP)), IndexOf(slot);
    if from <= to then to - from else to + POOL_SIZE - from
  }

  /** Any POOL_SIZE consecutive calls print each pool slot exactly once. */
  lemma OneCycle(maxIP: nat, slot: nat)
    requires maxIP <= CURSOR_END && InPool(slot)
    ensures 0 <= StepsTo(maxIP, slot) < POOL_SIZE
    ensures Emitted(maxIP, StepsTo(maxIP, slot)) == slot
    ensures forall k: nat :: k < POOL_SIZE && Emitted(maxIP, k) == slot ==> k == StepsTo(maxIP, slot)
  {
    PoolNumbering(slot, 0);
    EmittedIndex(maxIP, 0);
    var n := StepsTo(maxIP, slot);
    EmittedIndex(maxIP, n);
    CursorInRange(maxIP, n);
    PoolNumbering(Emitted(maxIP, n), 0);
    forall k: nat | k < POOL_SIZE && Emitted(maxIP, k) == slot
      ensures k == n
    {
      EmittedIndex(maxIP, k);
    }
  }

  lemma Octets(t: nat, f: nat)
    requires f < 255
    ensures (255 * t + f) / 255 == t && (255 * t + f) % 255 == f
  {
  }

  lemma AddressOctets(t: nat, f: nat)
    requires f < 255
    ensures Address(255 * t + f) == "240.240." + Itoa(t) + "." + Itoa(f)
  {
    Octets(t, f);
  }

  lemma NextSlot(t: nat, f: nat)
    requires t < 255 && f < 255 && (f > 0 || t == 0)
    ensures Emit(255 * t + f + 1) == if f < 254 then 255 * t + (f + 1) else if t < 254 then 255 * (t + 1) + 1 else 0
  {
    if f < 254 {
      Octets(t, f + 1);
    } else {
      Octets(t + 1, 0);
    }
  }

  /** The order of the addresses: after 240.240.t.f comes 240.240.t.(f + 1), after 240.240.t.254 comes
      240.240.(t + 1).1, and after 240.240.254.254 comes 240.240.0.0. */
  lemma NextAddress(t: nat, f: nat)
    requires t < 255 && f < 255 && (f > 0 || t == 0)
    ensures Address(255 * t + f) == "240.240." + Itoa(t) + "." + Itoa(f)
    ensures Address(Emit(255 * t + f + 1)) ==
            if f < 254 then "240.240." + Itoa(t) + "." + Itoa(f + 1)
            else if t < 254 then "240.240." + Itoa(t + 1) + "." + Itoa(1)
            else "240.240." + Itoa(0) + "." + Itoa(0)
  {
    NextSlot(t, f);
    AddressOctets(t, f);
    if f < 254 {
      AddressOctets(t, f + 1);
    } else if t < 254 {
      AddressOctets(t + 1, 1);
    } else {
      AddressOctets(0, 0);
    }
  }

  /** A new cursor starts at 240.240.0.1. */
  lemma FirstAddress()
    ensures Address(Emit(0)) == "240.240." + Itoa(0) + "." + Itoa(1)
  {
    AddressOctets(0, 1);
  }

  /** Different slots print different addresses. */
  lemma AddressInjective(slot: nat, slot': nat)
    requires Address(slot) == Address(slot')
    ensures slot == slot'
  {
    var a, a' := "240.240." + Itoa(slot / 255), "240.240." + Itoa(slot' / 255);
    CutNumber(a, slot % 255, a', slot' % 255, '.');
    assert a[8..] == Itoa(slot / 255) && a'[8..] == Itoa(slot' / 255);
    ItoaInjective(slot / 255, slot' / 255);
  }

  lemma AddressHasPrefix(slot: nat)
    ensures HasPrefix(Address(slot), "240.240")
  {
  }

  /** The calls print the pool's addresses, each exactly once, in any POOL_SIZE consecutive calls. */
  lemma OneCycleOfAddresses(maxIP: nat, address: string)
    requires maxIP <= CURSOR_END
    requires exists slot :: InPool(slot) && Address(slot) == address
    ensures exists k: nat :: k < POOL_SIZE && Address(Emitted(maxIP, k)) == address
                             && forall k': nat :: k' < POOL_SIZE && Address(Emitted(maxIP, k')) == address ==> k' == k
  {
    var slot :| InPool(slot) && Address(slot) == address;
    OneCycle(maxIP, slot);
    var k := StepsTo(maxIP, slot);
    forall k': nat | k' < POOL_SIZE && Address(Emitted(maxIP, k')) == address
      ensures k' == k
    {
      AddressInjective(Emitted(maxIP, k'), slot);
    }
  }
}
