/**
  The EnvoyFilter control loop as a whole: configuration changes, callbacks that push the filters
  generated from the configuration of the moment, and retries. When the loop is at rest, is the API
  server up to date?
 */
module FilterLoop {
  import opened Text
  import opened FilterDiff
  import opened FilterConvergence
  import opened PushLoop

  /** How the last callback ended. A masked one returned nil although a call, or the listing, had failed,
      and its nil could not be trusted when it started: the loop does not see it and does not retry. A
      failed one knows how many have failed in a row. */
  datatype Last = Idle | Clean | Masked | Failed(inARow: nat)
  {
    function Failures(): nat { if Failed? then inARow else 0 }
  }

  datatype System = System(store: Store, generated: Generated, loop: Loop, last: Last)

  datatype Move =
    | Change(generated: Generated)
    | GenerationFails(consumed: nat)
    | Pushes(consumed: nat, push: Push)

  /** Names and namespaces as the controller generates them. */
  ghost predicate WellNamed(store: Store, generated: Generated) {
    && WellKeyed(generated)
    && forall id :: Concerned(store, generated, id) ==> HasPrefix(id.name, "aeraki-") && !Contains(id.namespace, "-aeraki")
  }

  ghost predicate Allowed(s: System, move: Move) {
    match move
    case Change(generated) => WellNamed(s.store, generated)
    case GenerationFails(consumed) => 1 <= consumed <= s.loop.pending
    case Pushes(consumed, push) => 1 <= consumed <= s.loop.pending && IsPush(s.store, s.generated, push)
  }

  ghost function Moved(s: System, move: Move): System
    requires Allowed(s, move)
  {
    match move
    case Change(generated) => s.(generated := generated, loop := Notified(s.loop))
    case GenerationFails(consumed) =>
      s.(loop := CalledBack(s.loop, consumed, true), last := Failed(s.last.Failures() + 1))
    case Pushes(consumed, push) =>
      var failed := ReturnsError(push.log);
      System(Replay(s.store, push.log), s.generated, CalledBack(s.loop, consumed, failed),
             if failed then Failed(s.last.Failures() + 1)
             else if Trusted(s.store, s.generated, push.listed, Calls(push.log)) || (push.listed && AllOk(push.log)) then Clean
             else Masked)
  }

  ghost predicate Trace(s: System, moves: seq<Move>)
    decreases |moves|
  {
    moves == [] || (Allowed(s, moves[0]) && Trace(Moved(s, moves[0]), moves[1..]))
  }

  ghost function End(s: System, moves: seq<Move>): System
    requires Trace(s, moves)
    decreases |moves|
  {
    if moves == [] then s else End(Moved(s, moves[0]), moves[1..])
  }

  /** A store that is not up to date has an event waiting, or the last callback masked a failure or was the
      fourth failure in a row, or a multiple of it. */
  ghost predicate Accounted(s: System) {
    && s.loop.Valid() && s.loop.retries == s.last.Failures() % 4 && WellNamed(s.store, s.generated)
    && (s.loop.pending == 0 ==>
          (s.last.Failed? && s.last.inARow > 0 && s.last.inARow % 4 == 0) || s.last == Masked || Converged(s.store, s.generated))
  }

  lemma NilPush(store: Store, generated: Generated, push: Push)
    requires IsPush(store, generated, push) && WellKeyed(generated) && KeysTellApart(store, generated) && !ReturnsError(push.log)
    ensures Trusted(store, generated, push.listed, Calls(push.log)) ==> Converged(Replay(store, push.log), generated)
    ensures push.listed ==> (Converged(Replay(store, push.log), generated) <==> AllOk(push.log))
  {
    NilIsTrustedIff(store, generated, push.listed, push.items, push.order);
    assert push == Push(push.listed, push.items, push.order, push.log);
    if push.listed {
      ConvergedIffAllOk(store, generated, push);
    }
  }

  lemma MoveAccounted(s: System, move: Move)
    requires Accounted(s) && Allowed(s, move)
    ensures Accounted(Moved(s, move))
  {
    if move.Pushes? {
      AerakiNamesTellApart(s.store, s.generated);
      AnyPushFrame(s.store, s.generated, move.push);
      if !ReturnsError(move.push.log) {
        NilPush(s.store, s.generated, move.push);
      }
    }
  }

  /** In every run of the control loop, whenever nothing is pending the managed EnvoyFilters are the
      generated ones, unless the last callback failed after three retries that failed too, or masked a
      failure: it started where nil cannot be trusted. */
  lemma {:induction false} AtRestUpToDate(s: System, moves: seq<Move>)
    requires Accounted(s) && Trace(s, moves)
    ensures Accounted(End(s, moves))
    decreases |moves|
  {
    if moves != [] {
      MoveAccounted(s, moves[0]);
      AtRestUpToDate(Moved(s, moves[0]), moves[1..]);
    }
  }

  /** That exception is as small as it can be: in any state of the loop, a push with this listing and
      order that returns nil is sure to leave the store up to date if and only if its nil can be trusted,
      and otherwise some outcome leaves it out of date with no retry queued. */
  lemma MaskingIsExact(s: System, consumed: nat, listed: bool, items: seq<Item>, order: seq<string>)
    requires Accounted(s) && 1 <= consumed <= s.loop.pending
    requires (if listed then Snapshot(s.store, items) else items == []) && Enumerates(order, Rest(items, s.generated))
    ensures Trusted(s.store, s.generated, listed, Plan(items, s.generated, order)) <==>
            forall log :: var move := Pushes(consumed, Push(listed, items, order, log));
              Allowed(s, move) && !ReturnsError(log) ==> Converged(Moved(s, move).store, s.generated)
    ensures forall log :: var move := Pushes(consumed, Push(listed, items, order, log));
              Allowed(s, move) && !ReturnsError(log) ==> Moved(s, move).loop == Loop(s.loop.pending - consumed, 0)
  {
    AerakiNamesTellApart(s.store, s.generated);
    NilIsTrustedIff(s.store, s.generated, listed, items, order);
    if !Trusted(s.store, s.generated, listed, Plan(items, s.generated, order)) {
      var log := StaleOutcome(s.store, s.generated, listed, items, order);
      assert Allowed(s, Pushes(consumed, Push(listed, items, order, log)));
    }
  }

  /** What masked means for one push that returned nil: it started where nil cannot be trusted; every
      push that leaves the store out of date is masked; and one that saw the list is masked only then. */
  lemma MaskedIffOutOfDate(s: System, consumed: nat, push: Push)
    requires Accounted(s) && Allowed(s, Pushes(consumed, push)) && !ReturnsError(push.log)
    ensures var t := Moved(s, Pushes(consumed, push));
            && (t.last == Masked ==> !Trusted(s.store, s.generated, push.listed, Calls(push.log)))
            && (!Converged(t.store, t.generated) ==> t.last == Masked)
            && (push.listed && t.last == Masked ==> !Converged(t.store, t.generated))
  {
    AerakiNamesTellApart(s.store, s.generated);
    NilPush(s.store, s.generated, push);
  }
}
