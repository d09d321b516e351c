/** The producer rings of kernel/input/xhci.cpp (the command ring and the interrupt
    endpoint rings), as a protocol between the driver and the host controller.  The
    controller follows the eXtensible Host Controller Interface specification,
    sections 4.9.2, 4.9.3 and 6.4.4.1.  Each store of the driver is a step of its
    own, so the controller may look at the ring between any two of them. */
module XhciRing {
  import opened Division
  import opened Options

  const TRB_TYPE_LINK: nat := 6

  datatype Trb = Trb(parameter: nat, status: nat, control: nat)

  function CycleBit(t: Trb): nat { t.control % 2 }
  function TypeOf(t: Trb): nat { t.control / 0x400 % 64 }
  function ToggleCycle(t: Trb): bool { t.control / 2 % 2 == 1 }

  /** What the driver is asked to enqueue: not a link, cycle bit clear. */
  predicate Payload(t: Trb) {
    t.control % 2 == 0 && TypeOf(t) != TRB_TYPE_LINK
  }

  /** The TRB with the driver's cycle bit or'ed in. */
  function Stamped(t: Trb, cycle: nat): Trb {
    t.(control := t.control + cycle)
  }

  /** `make_ring_link_control`: link type, toggle cycle, cycle bit. */
  function LinkControl(cycle: nat): nat {
    TRB_TYPE_LINK * 0x400 + 2 + cycle
  }

  // --- Steps ---

  /** How far the driver is with the enqueue at hand. */
  datatype Progress =
    | Ready
    | Claimed(t: Trb)        // index++ done
    | HasParameter(t: Trb)
    | HasStatus(t: Trb)
    | Published              // control word, and with it the cycle bit, stored
    | Linked                 // link control word stored

  /** `sent` and `taken` record what the driver published and what the controller
      consumed; `deq` and `ccs` are the controller's dequeue position and consumer
      cycle state; `base` is the ring's address. */
  datatype Ring = Ring(trbs: seq<Trb>, index: nat, cycle: nat, progress: Progress,
                       deq: nat, ccs: nat, base: nat, sent: seq<Trb>, taken: seq<Trb>)

  datatype Step = Claim(t: Trb) | Driver | Controller

  /** 256 zeroed TRBs, `make_ring_link` with cycle bit 1, and both sides at slot 0. */
  function Initial(base: nat): Ring {
    Ring(seq(255, _ => Trb(0, 0, 0)) + [Trb(base, 0, LinkControl(1))], 0, 1, Ready, 0, 1, base, [], [])
  }

  predicate Formed(r: Ring) {
    |r.trbs| == 256 && r.deq < 256 && r.cycle <= 1 && r.ccs <= 1
    && (if r.progress.Ready? then r.index < 255 else 1 <= r.index <= 255)
    && (r.progress.Linked? ==> r.index == 255)
  }

  /** The next store of the driver. */
  function DriverStep(r: Ring): Ring
    requires Formed(r) && !r.progress.Ready?
  {
    var slot := r.index - 1;
    match r.progress
    case Claimed(t) =>
      r.(trbs := r.trbs[slot := r.trbs[slot].(parameter := t.parameter)], progress := HasParameter(t))
    case HasParameter(t) =>
      r.(trbs := r.trbs[slot := r.trbs[slot].(status := t.status)], progress := HasStatus(t))
    case HasStatus(t) =>
      r.(trbs := r.trbs[slot := r.trbs[slot].(control := t.control + r.cycle)], progress := Published, sent := r.sent + [t])
    case Published =>
      if r.index == 255 then
        r.(trbs := r.trbs[255 := r.trbs[255].(control := LinkControl(r.cycle))], progress := Linked)
      else r.(progress := Ready)
    case Linked =>
      r.(cycle := 1 - r.cycle, index := 0, progress := Ready)
  }

  /** The controller owns the TRB at its dequeue position. */
  predicate Owns(r: Ring)
    requires Formed(r)
  {
    CycleBit(r.trbs[r.deq]) == r.ccs
  }

  /** The controller looks at its dequeue position: it stops at a TRB it does not own,
      follows a link (here always to the ring's own base), and consumes the rest. */
  function ControllerStep(r: Ring): Ring
    requires Formed(r)
  {
    var t := r.trbs[r.deq];
    if !Owns(r) then r
    else if TypeOf(t) == TRB_TYPE_LINK then
      r.(deq := if t.parameter == r.base then 0 else r.deq, ccs := if ToggleCycle(t) then 1 - r.ccs else r.ccs)
    else if r.deq < 255 then
      r.(deq := r.deq + 1, taken := r.taken + [t.(control := t.control - CycleBit(t))])
    else r
  }

  /** The driver starts an enqueue only while fewer than `room` TRBs are outstanding. */
  predicate Enabled(r: Ring, step: Step, room: nat) {
    && Formed(r)
    && match step
       case Claim(t) => r.progress.Ready? && Payload(t) && |r.sent| < |r.taken| + room
       case Driver => !r.progress.Ready?
       case Controller => true
  }

  function Next(r: Ring, step: Step): Ring
    requires Formed(r)
  {
    match step
    case Claim(t) => if r.progress.Ready? then r.(index := r.index + 1, progress := Claimed(t)) else r
    case Driver => if r.progress.Ready? then r else DriverStep(r)
    case Controller => ControllerStep(r)
  }

  /** Where `steps` leads from the initial ring; None if one of them is not enabled. */
  function After(base: nat, room: nat, steps: seq<Step>): Option<Ring> {
    if steps == [] then Some(Initial(base))
    else
      match After(base, room, steps[..|steps| - 1])
      case None => None
      case Some(r) => if Enabled(r, steps[|steps| - 1], room) then Some(Next(r, steps[|steps| - 1])) else None
  }

  // --- The invariant: positions as unbounded counters ---

  /** The cycle bit of lap `lap`: 1 on the first. */
  function Cycle(lap: int): nat {
    if lap % 2 == 0 then 1 else 0
  }

  /** The lap in which slot `s` was last published, after `n` TRBs in all; -1 before. */
  function Lap(s: nat, n: nat): int {
    if s < n % 255 then n / 255 else n / 255 - 1
  }

  /** How often the link's control word has been stored by then; it starts out as if
      lap 0 had been linked already. */
  function LinkLap(r: Ring): int {
    var laps := |r.sent| / 255;
    if r.progress.Published? && r.index == 255 then (if laps >= 2 then laps - 2 else 0)
    else if laps >= 1 then laps - 1 else 0
  }

  ghost predicate DriverAt(r: Ring)
    requires |r.trbs| == 256
  {
    var n := |r.sent|;
    match r.progress
    case Ready => r.index == n % 255 && r.cycle == Cycle(n / 255)
    case Claimed(t) => r.index == n % 255 + 1 && r.cycle == Cycle(n / 255) && Payload(t)
    case HasParameter(t) => r.index == n % 255 + 1 && r.cycle == Cycle(n / 255) && Payload(t)
                            && r.trbs[n % 255].parameter == t.parameter
    case HasStatus(t) => r.index == n % 255 + 1 && r.cycle == Cycle(n / 255) && Payload(t)
                         && r.trbs[n % 255].parameter == t.parameter && r.trbs[n % 255].status == t.status
    case Published => n > 0 && r.index == (n - 1) % 255 + 1 && r.cycle == Cycle((n - 1) / 255)
    case Linked => n > 0 && n % 255 == 0 && r.index == 255 && r.cycle == Cycle(n / 255 - 1)
  }

  ghost predicate ControllerAt(r: Ring) {
    var n := |r.taken|;
    || (r.deq == n % 255 && r.ccs == Cycle(n / 255))
    || (r.deq == 255 && n > 0 && n % 255 == 0 && r.ccs == Cycle(n / 255 - 1))
  }

  ghost predicate SlotsHold(r: Ring)
    requires |r.trbs| == 256
  {
    && (forall n {:trigger r.sent[n]} :: |r.taken| <= n < |r.sent| ==>
          Payload(r.sent[n]) && r.trbs[n % 255] == Stamped(r.sent[n], Cycle(n / 255)))
    && (forall s {:trigger r.trbs[s]} :: 0 <= s < 255 ==> CycleBit(r.trbs[s]) == Cycle(Lap(s, |r.sent|)))
    && r.trbs[255] == Trb(r.base, 0, LinkControl(Cycle(LinkLap(r))))
  }

  ghost predicate Inv(r: Ring) {
    && Formed(r) && DriverAt(r) && ControllerAt(r) && SlotsHold(r)
    && r.taken <= r.sent && |r.sent| <= |r.taken| + 255
    && (!r.progress.Ready? && !r.progress.Published? && !r.progress.Linked? ==> |r.sent| < |r.taken| + 255)
  }

  // --- Every step keeps the invariant ---

  lemma InitialInv(base: nat)
    ensures Inv(Initial(base))
  {
  }

  lemma ClaimKeepsInv(r: Ring, t: Trb, room: nat)
    requires Inv(r) && room <= 255 && Enabled(r, Claim(t), room)
    ensures Inv(Next(r, Claim(t)))
  {
  }

  /** Position `n` is written at its own slot, which no outstanding position shares. */
  lemma SlotsDistinct(n: nat, m: nat)
    requires n < m < n + 255
    ensures n % 255 != m % 255
  {
    if n % 255 == m % 255 {
      NonzeroMultiple(m / 255 - n / 255, 255);
    }
  }

  /** The next position, and the one before. */
  lemma NextPosition(n: nat)
    ensures if n % 255 == 254 then (n + 1) % 255 == 0 && (n + 1) / 255 == n / 255 + 1
            else (n + 1) % 255 == n % 255 + 1 && (n + 1) / 255 == n / 255
  {
    if n % 255 == 254 {
      DivModIs(n + 1, 255, n / 255 + 1, 0);
    } else {
      DivModIs(n + 1, 255, n / 255, n % 255 + 1);
    }
  }

  lemma DriverKeepsInv(r: Ring)
    requires Inv(r) && !r.progress.Ready?
    ensures Inv(DriverStep(r))
  {
    match r.progress
    case Claimed(t) => FillKeepsInv(r);
    case HasParameter(t) => FillKeepsInv(r);
    case HasStatus(t) => PublishKeepsInv(r);
    case Published => LinkKeepsInv(r);
    case Linked => WrapKeepsInv(r);
  }

  lemma FillKeepsInv(r: Ring)
    requires Inv(r) && (r.progress.Claimed? || r.progress.HasParameter?)
    ensures Inv(DriverStep(r))
  {
    var r', e := DriverStep(r), |r.sent|;
    forall n {:trigger r'.sent[n]} | |r'.taken| <= n < |r'.sent|
      ensures Payload(r'.sent[n]) && r'.trbs[n % 255] == Stamped(r'.sent[n], Cycle(n / 255))
    {
      assert r.sent[n] == r'.sent[n];
      SlotsDistinct(n, e);
    }
  }

  lemma LapStep(s: nat, n: nat)
    requires s < 255
    ensures Lap(s, n + 1) == if s == n % 255 then n / 255 else Lap(s, n)
  {
    NextPosition(n);
  }

  lemma StampedParts(t: Trb, cycle: nat)
    requires Payload(t) && cycle <= 1
    ensures CycleBit(Stamped(t, cycle)) == cycle && TypeOf(Stamped(t, cycle)) != TRB_TYPE_LINK
    ensures Stamped(t, cycle).(control := Stamped(t, cycle).control - cycle) == t
  {
    var c := t.control;
    assert c % 2 == 0;
    DivModIs(c + cycle, 2, c / 2, cycle);
    DivModIs(c + cycle, 0x400, c / 0x400, c % 0x400 + cycle) by {
      EvenBelow(c);
    }
  }

  lemma EvenBelow(c: nat)
    requires c % 2 == 0
    ensures c % 0x400 < 0x3FF
  {
    if c % 0x400 == 0x3FF {
      DivModIs(c, 2, c / 0x400 * 0x200 + 0x1FF, 1);
    }
  }

  lemma PublishedSlots(r: Ring)
    requires Inv(r) && r.progress.HasStatus?
    ensures SlotsHold(DriverStep(r))
  {
    PublishedTrbs(r);
    PublishedCycles(r);
    NextPosition(|r.sent|);
    hide Stamped, Payload, Lap;
  }

  lemma PublishedTrbs(r: Ring)
    requires Inv(r) && r.progress.HasStatus?
    ensures var r' := DriverStep(r); forall n {:trigger r'.sent[n]} :: |r'.taken| <= n < |r'.sent| ==>
              Payload(r'.sent[n]) && r'.trbs[n % 255] == Stamped(r'.sent[n], Cycle(n / 255))
  {
    hide Payload, Cycle, Lap, LinkLap;
    var r', e := DriverStep(r), |r.sent|;
    forall n {:trigger r'.sent[n]} | |r'.taken| <= n < |r'.sent|
      ensures Payload(r'.sent[n]) && r'.trbs[n % 255] == Stamped(r'.sent[n], Cycle(n / 255))
    {
      if n < e {
        assert r.sent[n] == r'.sent[n];
        SlotsDistinct(n, e);
      }
    }
  }

  lemma PublishedCycles(r: Ring)
    requires Inv(r) && r.progress.HasStatus?
    ensures var r' := DriverStep(r); forall s {:trigger r'.trbs[s]} :: 0 <= s < 255 ==>
              CycleBit(r'.trbs[s]) == Cycle(Lap(s, |r'.sent|))
  {
    var r', e := DriverStep(r), |r.sent|;
    StampedParts(r.progress.t, r.cycle);
    hide Payload, Cycle, LinkLap, CycleBit, Lap;
    forall s {:trigger r'.trbs[s]} | 0 <= s < 255
      ensures CycleBit(r'.trbs[s]) == Cycle(Lap(s, |r'.sent|))
    {
      LapStep(s, e);
      if s != e % 255 {
        assert r'.trbs[s] == r.trbs[s];
      } else {
        assert r'.trbs[s] == Stamped(r.progress.t, r.cycle);
      }
    }
  }

  lemma PublishKeepsInv(r: Ring)
    requires Inv(r) && r.progress.HasStatus?
    ensures Inv(DriverStep(r))
  {
    PublishedSlots(r);
    hide SlotsHold;
  }

  lemma LinkKeepsInv(r: Ring)
    requires Inv(r) && r.progress.Published?
    ensures Inv(DriverStep(r))
  {
    hide Payload, Stamped, CycleBit, Lap;
    NextPosition(|r.sent| - 1);
    if r.index == 255 {
      LinkStored(r);
    }
  }

  lemma LinkStored(r: Ring)
    requires Inv(r) && r.progress.Published? && r.index == 255
    ensures SlotsHold(DriverStep(r))
  {
    hide Payload, Stamped, CycleBit, Lap;
    NextPosition(|r.sent| - 1);
    var r' := DriverStep(r);
    forall n {:trigger r'.sent[n]} | |r'.taken| <= n < |r'.sent|
      ensures Payload(r'.sent[n]) && r'.trbs[n % 255] == Stamped(r'.sent[n], Cycle(n / 255))
    {
      assert r.sent[n] == r'.sent[n];
    }
  }

  lemma WrapKeepsInv(r: Ring)
    requires Inv(r) && r.progress.Linked?
    ensures Inv(DriverStep(r))
  {
  }

  /** What the controller owns at a slot is the oldest outstanding TRB: stale slots
      carry the other cycle bit. */
  lemma OwnedIsNext(r: Ring)
    requires Inv(r) && Owns(r) && r.deq < 255
    ensures |r.taken| < |r.sent| && r.deq == |r.taken| % 255
    ensures r.trbs[r.deq] == Stamped(r.sent[|r.taken|], r.ccs)
  {
    assert CycleBit(r.trbs[r.deq]) == Cycle(Lap(r.deq, |r.sent|));
    assert r.deq == |r.taken| % 255 && |r.taken| < |r.sent|;
    assert Payload(r.sent[|r.taken|]);
  }

  lemma ControllerKeepsInv(r: Ring)
    requires Inv(r)
    ensures Inv(ControllerStep(r))
  {
    if Owns(r) {
      if r.deq < 255 {
        ConsumeKeepsInv(r);
      } else {
        FollowKeepsInv(r);
      }
    }
  }

  lemma ConsumesNext(r: Ring)
    requires Inv(r) && Owns(r) && r.deq < 255
    ensures |r.taken| < |r.sent|
    ensures ControllerStep(r) == r.(deq := r.deq + 1, taken := r.taken + [r.sent[|r.taken|]])
    ensures r.deq == |r.taken| % 255
  {
    OwnedIsNext(r);
    assert Payload(r.sent[|r.taken|]);
    StampedParts(r.sent[|r.taken|], r.ccs);
  }

  lemma ConsumeKeepsInv(r: Ring)
    requires Inv(r) && Owns(r) && r.deq < 255
    ensures Inv(ControllerStep(r))
  {
    ConsumesNext(r);
    NextPosition(|r.taken|);
    var r' := r.(deq := r.deq + 1, taken := r.taken + [r.sent[|r.taken|]]);
    ConsumedSame(r, r');
    ConsumerAt(r, r');
    hide SlotsHold, DriverAt, ControllerAt, Owns, Payload;
  }

  lemma ConsumedSame(r: Ring, r': Ring)
    requires |r.trbs| == 256 && SlotsHold(r) && DriverAt(r) && |r.taken| < |r.sent|
    requires r' == r.(deq := r.deq + 1, taken := r.taken + [r.sent[|r.taken|]])
    ensures SlotsHold(r') && DriverAt(r')
  {
    hide Payload, Stamped, CycleBit, Lap, Cycle;
    assert LinkLap(r') == LinkLap(r);
    hide LinkLap;
  }

  lemma ConsumerAt(r: Ring, r': Ring)
    requires ControllerAt(r) && r.deq < 255 && |r.taken| < |r.sent|
    requires r' == r.(deq := r.deq + 1, taken := r.taken + [r.sent[|r.taken|]])
    ensures ControllerAt(r')
  {
    NextPosition(|r.taken|);
    hide Cycle;
  }

  lemma FollowKeepsInv(r: Ring)
    requires Inv(r) && Owns(r) && r.deq == 255
    ensures Inv(ControllerStep(r))
  {
    LinkParts(Cycle(LinkLap(r)));
  }

  lemma LinkParts(cycle: nat)
    requires cycle <= 1
    ensures LinkControl(cycle) % 2 == cycle && LinkControl(cycle) / 2 % 2 == 1
    ensures LinkControl(cycle) / 0x400 % 64 == TRB_TYPE_LINK
  {
  }

  lemma NextKeepsInv(r: Ring, step: Step, room: nat)
    requires Inv(r) && room <= 255 && Enabled(r, step, room)
    ensures Inv(Next(r, step))
  {
    hide SlotsHold, DriverAt, ControllerAt;
    match step
    case Claim(t) => ClaimKeepsInv(r, t, room);
    case Driver => DriverKeepsInv(r);
    case Controller => ControllerKeepsInv(r);
  }

  lemma {:induction false} ReachableInv(base: nat, room: nat, steps: seq<Step>)
    requires room <= 255 && After(base, room, steps).Some?
    ensures Inv(After(base, room, steps).value)
  {
    hide Inv;
    if steps == [] {
      InitialInv(base);
    } else {
      ReachableInv(base, room, steps[..|steps| - 1]);
      NextKeepsInv(After(base, room, steps[..|steps| - 1]).value, steps[|steps| - 1], room);
    }
  }

  // --- The ring refines an unbounded FIFO ---

  /** In any interleaving, across any number of wraps, with up to 255 TRBs outstanding:
      what the controller has consumed is a prefix of what the driver has published,
      in order and once each. */
  lemma Fifo(base: nat, room: nat, steps: seq<Step>)
    requires room <= 255 && After(base, room, steps).Some?
    ensures var r := After(base, room, steps).value; r.taken <= r.sent && |r.sent| <= |r.taken| + room
  {
    ReachableInv(base, room, steps);
    OutstandingBound(base, room, steps);
  }

  lemma {:induction false} OutstandingBound(base: nat, room: nat, steps: seq<Step>)
    requires room <= 255 && After(base, room, steps).Some?
    ensures var r := After(base, room, steps).value;
            && |r.sent| <= |r.taken| + room
            && (r.progress.Claimed? || r.progress.HasParameter? || r.progress.HasStatus? ==> |r.sent| < |r.taken| + room)
  {
    hide Inv, Owns;
    if steps != [] {
      OutstandingBound(base, room, steps[..|steps| - 1]);
    }
  }

  /** At a slot with something outstanding, the controller owns it and moves on. */
  lemma MovesAtSlot(r: Ring)
    requires Inv(r) && |r.taken| < |r.sent| && r.deq < 255
    ensures ControllerStep(r).deq == r.deq + 1 && |ControllerStep(r).taken| == |r.taken| + 1
  {
    assert Payload(r.sent[|r.taken|]);
    StampedParts(r.sent[|r.taken|], r.ccs);
    assert Owns(r);
    ConsumesNext(r);
  }

  /** At the link, everything depends on which lap the link was last stored for. */
  lemma MovesAtLink(r: Ring)
    requires Inv(r) && r.deq == 255
    ensures ControllerStep(r).taken == r.taken
    ensures ControllerStep(r).deq == if Cycle(LinkLap(r)) == Cycle(|r.taken| / 255 - 1) then 0 else 255
  {
    LinkParts(Cycle(LinkLap(r)));
  }

  lemma LinkLapAt(r: Ring)
    requires Inv(r) && r.deq == 255 && |r.taken| < |r.sent|
    requires r.progress.Ready? || |r.sent| <= |r.taken| + 254
    ensures |r.taken| % 255 == 0
    ensures LinkLap(r) == |r.taken| / 255 - (if |r.sent| == |r.taken| + 255 then 0 else 1)
  {
    hide SlotsHold;
    var k := |r.taken| / 255;
    assert |r.taken| == 255 * k && k >= 1;
    assert |r.sent| / 255 == if |r.sent| == |r.taken| + 255 then k + 1 else k;
  }

  /** While something is outstanding the controller can move, except in one situation:
      255 TRBs are outstanding and the controller has not yet followed the link of the
      lap before, whose cycle bit the driver has meanwhile overwritten. */
  lemma MovesUnless(r: Ring)
    requires Inv(r) && r.progress.Ready? && |r.taken| < |r.sent|
    ensures ControllerStep(r) == r <==> r.deq == 255 && |r.sent| == |r.taken| + 255
  {
    if r.deq < 255 {
      MovesAtSlot(r);
    } else {
      MovesAtLink(r);
      LinkLapAt(r);
    }
  }

  /** With at most 254 outstanding it can always move, whatever the driver is at. */
  lemma AlwaysMoves(r: Ring)
    requires Inv(r) && |r.taken| < |r.sent| <= |r.taken| + 254
    ensures var q := ControllerStep(r);
            |q.taken| > |r.taken| || (q.taken == r.taken && r.deq == 255 && q.deq == 0)
    ensures ControllerStep(r).sent == r.sent
  {
    if r.deq < 255 {
      MovesAtSlot(r);
    } else {
      MovesAtLink(r);
      LinkLapAt(r);
    }
  }

  function ControllerRun(r: Ring, n: nat): Ring
    requires Formed(r)
    decreases n
  {
    if n == 0 then r
    else
      var q := ControllerStep(r);
      if Formed(q) then ControllerRun(q, n - 1) else q
  }

  /** ... so left alone it consumes everything that was published. */
  lemma {:induction false} Drains(r: Ring) returns (n: nat)
    requires Inv(r) && |r.sent| <= |r.taken| + 254
    ensures ControllerRun(r, n).taken == r.sent
    decreases |r.sent| - |r.taken|, r.deq == 255
  {
    hide SlotsHold, DriverAt, ControllerAt, ControllerStep;
    if |r.sent| == |r.taken| {
      n := 0;
    } else {
      AlwaysMoves(r);
      ControllerKeepsInv(r);
      n := Drains(ControllerStep(r));
      n := n + 1;
    }
  }

  // --- Why 254, and not the 255 slots there are ---

  lemma AfterOneMore(base: nat, room: nat, steps: seq<Step>, step: Step)
    requires After(base, room, steps).Some? && Enabled(After(base, room, steps).value, step, room)
    ensures After(base, room, steps + [step]) == Some(Next(After(base, room, steps).value, step))
  {
    assert (steps + [step])[..|steps|] == steps;
  }

  /** How many stores the driver still has to make. */
  function StoresLeft(r: Ring): nat {
    match r.progress
    case Ready => 0
    case Linked => 1
    case Published => 2
    case HasStatus(_) => 3
    case HasParameter(_) => 4
    case Claimed(_) => 5
  }

  function Pending(r: Ring): seq<Trb> {
    match r.progress
    case Claimed(t) => [t]
    case HasParameter(t) => [t]
    case HasStatus(t) => [t]
    case _ => []
  }

  /** The driver can always finish its enqueue. */
  lemma {:induction false} Finish(base: nat, steps: seq<Step>, r: Ring) returns (steps': seq<Step>, r': Ring)
    requires After(base, 255, steps) == Some(r) && Inv(r)
    ensures After(base, 255, steps') == Some(r') && Inv(r') && r'.progress.Ready?
    ensures r'.sent == r.sent + Pending(r) && r'.taken == r.taken && r'.deq == r.deq
    decreases StoresLeft(r)
  {
    hide DriverAt, ControllerAt, SlotsHold, After;
    if r.progress.Ready? {
      return steps, r;
    }
    AfterOneMore(base, 255, steps, Driver);
    DriverKeepsInv(r);
    steps', r' := Finish(base, steps + [Driver], DriverStep(r));
  }

  lemma {:induction false} EnqueueMany(base: nat, steps: seq<Step>, r: Ring, n: nat) returns (steps': seq<Step>, r': Ring)
    requires After(base, 255, steps) == Some(r) && Inv(r) && r.progress.Ready?
    requires |r.sent| + n <= |r.taken| + 255
    ensures After(base, 255, steps') == Some(r') && Inv(r') && r'.progress.Ready?
    ensures |r'.sent| == |r.sent| + n && r'.taken == r.taken && r'.deq == r.deq
    decreases n
  {
    hide DriverAt, ControllerAt, SlotsHold, After;
    if n == 0 {
      return steps, r;
    }
    var t := Trb(0, 0, 0x400);
    AfterOneMore(base, 255, steps, Claim(t));
    ClaimKeepsInv(r, t, 255);
    steps', r' := Finish(base, steps + [Claim(t)], Next(r, Claim(t)));
    steps', r' := EnqueueMany(base, steps', r', n - 1);
  }

  lemma {:induction false} ConsumeMany(base: nat, steps: seq<Step>, r: Ring, n: nat) returns (steps': seq<Step>, r': Ring)
    requires After(base, 255, steps) == Some(r) && Inv(r) && r.progress.Ready?
    requires n <= |r.sent| - |r.taken| && r.deq + n <= 255
    ensures After(base, 255, steps') == Some(r') && Inv(r') && r'.progress.Ready?
    ensures r'.sent == r.sent && |r'.taken| == |r.taken| + n && r'.deq == r.deq + n
    decreases n
  {
    hide DriverAt, ControllerAt, SlotsHold, After;
    if n == 0 {
      return steps, r;
    }
    AfterOneMore(base, 255, steps, Controller);
    MovesAtSlot(r);
    ControllerKeepsInv(r);
    steps', r' := ConsumeMany(base, steps + [Controller], ControllerStep(r), n - 1);
  }

  /** If 255 TRBs may be outstanding, the two sides can deadlock: the controller waits
      at a link it does not own and the driver has no room. */
  lemma FullRingDeadlocks(base: nat) returns (steps: seq<Step>, r: Ring)
    ensures After(base, 255, steps) == Some(r) && |r.sent| == |r.taken| + 255
    ensures forall step :: Enabled(r, step, 255) ==> Next(r, step) == r
  {
    InitialInv(base);
    steps, r := EnqueueMany(base, [], Initial(base), 255);
    steps, r := ConsumeMany(base, steps, r, 255);
    steps, r := EnqueueMany(base, steps, r, 255);
    MovesUnless(r);
  }

  /** One TRB more and the oldest outstanding one is overwritten before the controller
      got to it. */
  lemma OverfullLosesOldest(r: Ring, t: Trb)
    requires Inv(r) && r.progress.Ready? && |r.sent| == |r.taken| + 255 && r.deq < 255 && Payload(t)
    ensures var q := DriverStep(DriverStep(DriverStep(Next(r, Claim(t)))));
            q.sent == r.sent + [t] && q.trbs[r.deq] == Stamped(t, r.cycle) && !Owns(q)
  {
    assert |r.sent| % 255 == |r.taken| % 255 == r.deq;
    assert |r.sent| / 255 == |r.taken| / 255 + 1;
    StampedParts(t, r.cycle);
    hide SlotsHold;
  }

  // --- The driver's own code ---

  class ProducerRing {
    const trbs: array<Trb>
    const base: nat
    var index: nat
    var cycleBit: nat

    ghost predicate Valid()
      reads this, trbs
    {
      trbs.Length == 256 && index < 255 && cycleBit <= 1
    }

    /** A zeroed ring, linked by `make_ring_link`. */
    constructor (ring: array<Trb>, address: nat)
      requires ring.Length == 256 && forall k :: 0 <= k < 256 ==> ring[k] == Trb(0, 0, 0)
      modifies ring
      ensures Valid() && trbs == ring && base == address
      ensures Initial(address).trbs == trbs[..] && Initial(address).index == index && Initial(address).cycle == cycleBit
    {
      trbs, base, index, cycleBit := ring, address, 0, 1;
      new;
      trbs[255] := Trb(base, 0, LinkControl(cycleBit));
    }

    /** The enqueue of `issue_command` and `poll` is the protocol's claim followed by
        all of the driver's stores. */
    method Enqueue(parameter: nat, status: nat, control: nat, ghost r: Ring) returns (ghost r': Ring)
      requires Valid() && Formed(r) && r.progress.Ready? && control % 2 == 0
      requires r.trbs == trbs[..] && r.index == index && r.cycle == cycleBit
      modifies this, trbs
      ensures Valid()
      ensures r' == Enqueued(r, Trb(parameter, status, control))
      ensures r'.progress.Ready? && r'.trbs == trbs[..] && r'.index == index && r'.cycle == cycleBit
    {
      r' := Enqueued(r, Trb(parameter, status, control));
      var slot := index;
      index := index + 1;
      trbs[slot] := trbs[slot].(parameter := parameter);
      trbs[slot] := trbs[slot].(status := status);
      trbs[slot] := trbs[slot].(control := control + cycleBit);
      if index == 255 {
        trbs[255] := trbs[255].(control := 6 * 0x400 + 2 + cycleBit);    // TRB_TYPE_LINK, toggle cycle
        cycleBit := 1 - cycleBit;
        index := 0;
      }
    }
  }

  /** The driver's steps for one enqueue, in a row. */
  ghost function Enqueued(r: Ring, t: Trb): Ring
    requires Formed(r) && r.progress.Ready?
  {
    var p := DriverStep(DriverStep(DriverStep(r.(index := r.index + 1, progress := Claimed(t)))));
    if p.index == 255 then DriverStep(DriverStep(p)) else DriverStep(p)
  }
}
