/** The process table of kernel/process/scheduler.c: round robin, creation, stopping,
    sleeping and waking. */
module Scheduler {
  import opened Counting
  import opened MachineTypes
  import opened Options

  const MAX_PROCS: nat := 16

  datatype State = STOPPED | READY | RUNNING | BLOCKED
  datatype Proc = Proc(id: U16, state: State)
  datatype Tracker = Tracker(pid: U16, timestamp: U64, sleepTime: U64)

  // --- Round robin ---

  /** How many slots `switch_proc` steps from `from` to reach `slot`: 1 to 16. */
  function Distance(from: nat, slot: nat): (d: nat)
    requires from < MAX_PROCS && slot < MAX_PROCS
    ensures 1 <= d <= MAX_PROCS && (from + d) % MAX_PROCS == slot
  {
    if slot > from then slot - from else slot + MAX_PROCS - from
  }

  /** `slot` is the cyclically next READY one after `from`. */
  ghost predicate NextReady(procs: seq<Proc>, from: nat, slot: nat)
    requires |procs| == MAX_PROCS && from < MAX_PROCS
  {
    && slot < MAX_PROCS && procs[slot].state == READY
    && forall other :: 0 <= other < MAX_PROCS && Distance(from, other) < Distance(from, slot) ==> procs[other].state != READY
  }

  lemma DistanceThrough(from: nat, via: nat, slot: nat)
    requires from < MAX_PROCS && via < MAX_PROCS && slot < MAX_PROCS && Distance(from, via) < Distance(from, slot)
    ensures Distance(via, slot) == Distance(from, slot) - Distance(from, via)
  {
  }

  /** Consecutive switches: `procs[k]` is the table at switch `k`, which goes from
      `current[k]` to `current[k + 1]`.  Between switches the table may change freely. */
  ghost predicate Switches(procs: seq<seq<Proc>>, current: seq<nat>) {
    && |current| == |procs| + 1
    && forall k {:trigger procs[k]} :: 0 <= k < |procs| ==>
         |procs[k]| == MAX_PROCS && current[k] < MAX_PROCS && NextReady(procs[k], current[k], current[k + 1])
  }

  /** A slot that is READY at every switch is selected within as many switches as it is
      slots away. */
  lemma {:induction false} WaitBound(procs: seq<seq<Proc>>, current: seq<nat>, slot: nat, bound: nat) returns (k: nat)
    requires Switches(procs, current) && slot < MAX_PROCS && current[0] < MAX_PROCS
    requires Distance(current[0], slot) <= bound <= |procs|
    requires forall k :: 0 <= k < bound ==> |procs[k]| == MAX_PROCS && procs[k][slot].state == READY
    ensures 1 <= k <= bound && current[k] == slot
    decreases bound
  {
    assert NextReady(procs[0], current[0], current[1]);
    if current[1] == slot {
      return 1;
    }
    NotPast(procs[0], current[0], current[1], slot);
    DistanceThrough(current[0], current[1], slot);
    SwitchesTail(procs, current);
    k := WaitBound(procs[1..], current[1..], slot, bound - 1);
    k := k + 1;
  }

  lemma NotPast(procs: seq<Proc>, from: nat, next: nat, slot: nat)
    requires |procs| == MAX_PROCS && from < MAX_PROCS && slot < MAX_PROCS
    requires NextReady(procs, from, next) && procs[slot].state == READY && next != slot
    ensures Distance(from, next) < Distance(from, slot)
  {
  }

  lemma SwitchesTail(procs: seq<seq<Proc>>, current: seq<nat>)
    requires Switches(procs, current) && procs != []
    ensures Switches(procs[1..], current[1..])
  {
    forall k | 0 <= k < |procs| - 1
      ensures |procs[1..][k]| == MAX_PROCS && current[1..][k] < MAX_PROCS
      ensures NextReady(procs[1..][k], current[1..][k], current[1..][k + 1])
    {
      assert procs[1..][k] == procs[k + 1];
    }
  }

  /** Bounded waiting: 16 consecutive switches, whatever the other slots do. */
  lemma BoundedWaiting(procs: seq<seq<Proc>>, current: seq<nat>, slot: nat) returns (k: nat)
    requires Switches(procs, current) && |procs| >= MAX_PROCS && slot < MAX_PROCS
    requires forall k :: 0 <= k < MAX_PROCS ==> |procs[k]| == MAX_PROCS && procs[k][slot].state == READY
    ensures 1 <= k <= MAX_PROCS && current[k] == slot
  {
    assert |procs[0]| == MAX_PROCS && current[0] < MAX_PROCS;
    k := WaitBound(procs, current, slot, MAX_PROCS);
  }

  /** With every slot READY, a switch goes one slot on; so 16 is also needed: the current
      slot is selected again by the 16th switch and not before. */
  lemma AllReadyStep(procs: seq<Proc>, from: nat, slot: nat)
    requires |procs| == MAX_PROCS && from < MAX_PROCS && forall i :: 0 <= i < MAX_PROCS ==> procs[i].state == READY
    ensures NextReady(procs, from, slot) <==> slot == (from + 1) % MAX_PROCS
  {
    var one := (from + 1) % MAX_PROCS;
    assert Distance(from, one) == 1;
    if slot < MAX_PROCS && slot != one {
      assert Distance(from, one) < Distance(from, slot);
    }
  }

  lemma {:induction false} SixteenNeeded(procs: seq<seq<Proc>>, current: seq<nat>, k: nat)
    requires Switches(procs, current) && k <= |procs| && current[0] < MAX_PROCS
    requires forall j, i {:trigger procs[j][i]} :: 0 <= j < |procs| && 0 <= i < |procs[j]| ==> procs[j][i].state == READY
    ensures current[k] == (current[0] + k) % MAX_PROCS
  {
    if k > 0 {
      SixteenNeeded(procs, current, k - 1);
      assert NextReady(procs[k - 1], current[k - 1], current[k]);
      hide NextReady, Switches;
      AllReadyStep(procs[k - 1], current[k - 1], current[k]);
      OneOn(current[0], k);
    }
  }

  lemma OneOn(from: nat, k: nat)
    requires k > 0
    ensures ((from + (k - 1)) % MAX_PROCS + 1) % MAX_PROCS == (from + k) % MAX_PROCS
  {
  }

  // --- Bookkeeping ---

  /** A snapshot; `trackers` are the first `sleep_count` entries of `sleeping`. */
  datatype Table = Table(procs: seq<Proc>, current: nat, count: U16, next: U16, trackers: seq<Tracker>)

  /** How many slots are in use. */
  function Alive(procs: seq<Proc>): nat {
    if procs == [] then 0 else Alive(procs[..|procs| - 1]) + if procs[|procs| - 1].state == STOPPED then 0 else 1
  }

  lemma {:induction false} AliveUpdate(procs: seq<Proc>, i: nat, p: Proc)
    requires i < |procs|
    ensures Alive(procs[i := p]) == Alive(procs) - Weight(procs[i]) + Weight(p)
  {
    var n := |procs| - 1;
    if i < n {
      AliveUpdate(procs[..n], i, p);
      assert procs[i := p][..n] == procs[..n][i := p];
    } else {
      assert procs[i := p][..n] == procs[..n];
    }
  }

  function Weight(p: Proc): nat { if p.state == STOPPED then 0 else 1 }

  /** `get_proc_by_pid`: the first slot with that pid, or |procs|. */
  function SlotOf(procs: seq<Proc>, pid: U16): (i: nat)
    ensures i <= |procs| && (i < |procs| ==> procs[i].id == pid)
    ensures forall j :: 0 <= j < i ==> procs[j].id != pid
    decreases |procs|
  {
    if procs == [] then 0
    else
      var i := SlotOf(procs[..|procs| - 1], pid);
      if i < |procs| - 1 || procs[i].id == pid then i else |procs|
  }

  ghost predicate Asleep(trackers: seq<Tracker>, pid: U16) {
    exists k :: 0 <= k < |trackers| && trackers[k].pid == pid
  }

  /** Non-zero pids are unique, below the next one (0 once it has wrapped), and carried
      by every slot in use; slots the creation index has not reached are untouched. */
  ghost predicate Identified(procs: seq<Proc>, next: U16) {
    && |procs| == MAX_PROCS
    && (forall i, j {:trigger procs[i], procs[j]} ::
          0 <= i < j < MAX_PROCS && procs[i].id == procs[j].id ==> procs[i].id == 0)
    && (forall i :: 0 <= i < MAX_PROCS ==> procs[i].state == STOPPED || procs[i].id != 0)
    && (next != 0 ==> forall i :: 0 <= i < MAX_PROCS ==> procs[i].id < next)
    && (next != 0 ==> forall i :: 1 <= i < MAX_PROCS && next <= i ==> procs[i] == Proc(0, STOPPED))
  }

  /** Apart from slot 0, the BLOCKED slots are exactly those with a live tracker; every
      tracker belongs to a BLOCKED slot, and no two to the same. */
  ghost predicate Sleepers(procs: seq<Proc>, trackers: seq<Tracker>) {
    && AllDozing(procs, trackers)
    && (forall k, m {:trigger trackers[k], trackers[m]} :: 0 <= k < m < |trackers| ==> trackers[k].pid != trackers[m].pid)
    && AllAsleep(procs, trackers)
  }

  ghost predicate AllDozing(procs: seq<Proc>, trackers: seq<Tracker>) {
    forall k :: 0 <= k < |trackers| ==> Dozing(procs, trackers[k].pid)
  }

  ghost predicate AllAsleep(procs: seq<Proc>, trackers: seq<Tracker>) {
    forall i :: 1 <= i < |procs| && procs[i].state == BLOCKED ==> Asleep(trackers, procs[i].id)
  }

  ghost predicate Dozing(procs: seq<Proc>, pid: U16) {
    pid != 0 && SlotOf(procs, pid) < |procs| && procs[SlotOf(procs, pid)].state == BLOCKED
  }

  /** The invariant; `Running` adds that the current slot is in use and awake. */
  ghost predicate Booked(t: Table) {
    && Identified(t.procs, t.next) && t.count == Alive(t.procs)
    && Sleepers(t.procs, t.trackers)
    && (forall i :: 0 <= i < MAX_PROCS ==> t.procs[i].state != RUNNING)
    && t.current < MAX_PROCS
  }

  ghost predicate Running(t: Table)
    requires Booked(t)
  {
    t.procs[t.current].state != STOPPED && !Asleep(t.trackers, t.procs[t.current].id)
  }

  lemma SlotOfOwn(procs: seq<Proc>, next: U16, i: nat)
    requires Identified(procs, next) && i < MAX_PROCS && procs[i].id != 0
    ensures SlotOf(procs, procs[i].id) == i
  {
    var j := SlotOf(procs, procs[i].id);
    assert j <= i;
    assert procs[j].id == procs[i].id;
  }

  lemma SlotOfSameIds(procs: seq<Proc>, procs': seq<Proc>, pid: U16)
    requires |procs'| == |procs| && forall i :: 0 <= i < |procs| ==> procs'[i].id == procs[i].id
    ensures SlotOf(procs', pid) == SlotOf(procs, pid)
  {
    var i, j := SlotOf(procs, pid), SlotOf(procs', pid);
    assert i < |procs| ==> procs'[i].id == procs[i].id;
    assert j < |procs| ==> procs'[j].id == procs[j].id;
  }

  /** `stop_process`, `sleep_process` and `wake_processes` change states and no pids. */
  lemma RestateIdentified(procs: seq<Proc>, next: U16, i: nat, state: State)
    requires Identified(procs, next) && i < MAX_PROCS && procs[i].id != 0
    ensures Identified(procs[i := procs[i].(state := state)], next)
  {
  }

  // --- Creation ---

  /** Where `init_process` puts a process: the slot with the number of the creation
      index while that is below 16, then the first STOPPED slot; 16 for none. */
  function SlotFor(procs: seq<Proc>, next: U16): (i: nat)
    requires |procs| == MAX_PROCS
    ensures i <= MAX_PROCS
  {
    if next >= 16 then FirstStopped(procs, 0) else next
  }

  function FirstStopped(procs: seq<Proc>, from: nat): (i: nat)
    requires from <= |procs|
    ensures from <= i <= |procs| && (i < |procs| ==> procs[i].state == STOPPED)
    ensures forall j :: from <= j < i ==> procs[j].state != STOPPED
    decreases |procs| - from
  {
    if from == |procs| || procs[from].state == STOPPED then from else FirstStopped(procs, from + 1)
  }

  function Created(t: Table): Table
    requires |t.procs| == MAX_PROCS && SlotFor(t.procs, t.next) < MAX_PROCS
  {
    t.(procs := t.procs[SlotFor(t.procs, t.next) := Proc(t.next, READY)],
       next := (t.next + 1) % 0x1_0000, count := (t.count + 1) % 0x1_0000)
  }

  lemma CreatedIdentified(procs: seq<Proc>, next: U16, i: nat)
    requires Identified(procs, next) && next != 0 && i == SlotFor(procs, next) < MAX_PROCS
    ensures procs[i].state == STOPPED && Identified(procs[i := Proc(next, READY)], (next + 1) % 0x1_0000)
  {
  }

  lemma CreatedSleepers(procs: seq<Proc>, trackers: seq<Tracker>, next: U16, i: nat)
    requires Identified(procs, next) && Sleepers(procs, trackers) && next != 0
    requires i < MAX_PROCS && procs[i].state == STOPPED
    ensures Sleepers(procs[i := Proc(next, READY)], trackers)
  {
    var procs' := procs[i := Proc(next, READY)];
    forall k | 0 <= k < |trackers|
      ensures Dozing(procs', trackers[k].pid)
    {
      var pid := trackers[k].pid;
      assert Dozing(procs, pid);
      var j := SlotOf(procs, pid);
      assert procs'[j] == procs[j] && SlotOf(procs', pid) <= j;
    }
  }

  lemma {:induction false} AliveBound(procs: seq<Proc>)
    ensures Alive(procs) <= |procs|
  {
    if procs != [] {
      AliveBound(procs[..|procs| - 1]);
    }
  }

  lemma AliveSpares(procs: seq<Proc>, i: nat)
    requires i < |procs| && procs[i].state == STOPPED
    ensures Alive(procs) < |procs|
  {
    AliveUpdate(procs, i, Proc(1, READY));
    AliveBound(procs[i := Proc(1, READY)]);
  }

  lemma TableSize(procs: seq<Proc>, next: U16)
    requires Identified(procs, next)
    ensures |procs| == MAX_PROCS
  {
  }

  lemma CreatedBooked(t: Table)
    requires Booked(t) && SlotFor(t.procs, t.next) < MAX_PROCS && t.next != 0
    ensures Booked(Created(t))
  {
    hide SlotFor, Identified, Sleepers, Alive;
    TableSize(t.procs, t.next);
    var i := SlotFor(t.procs, t.next);
    CreatedIdentified(t.procs, t.next, i);
    CreatedSleepers(t.procs, t.trackers, t.next, i);
    AliveSpares(t.procs, i);
    AliveUpdate(t.procs, i, Proc(t.next, READY));
  }

  /** Creating a process keeps the books exactly until the 16-bit index has wrapped;
      after that the new process would get pid 0, in slot 0 whoever is there. */
  lemma CreatedExact(t: Table)
    requires Booked(t) && SlotFor(t.procs, t.next) < MAX_PROCS
    ensures Booked(Created(t)) <==> t.next != 0
    ensures t.next != 0 && Running(t) ==> Running(Created(t))
  {
    if t.next != 0 {
      CreatedIdentified(t.procs, t.next, SlotFor(t.procs, t.next));
      hide Identified, Sleepers, SlotFor, Asleep;
      CreatedBooked(t);
    } else {
      assert Created(t).procs[0] == Proc(0, READY);
    }
  }

  // --- Stopping and sleeping ---

  function Stopped(t: Table, i: nat): Table
    requires i < |t.procs| && t.count > 0
  {
    t.(procs := t.procs[i := t.procs[i].(state := STOPPED)], count := t.count - 1)
  }

  lemma DozingElsewhere(procs: seq<Proc>, procs': seq<Proc>, i: nat, pid: U16)
    requires Dozing(procs, pid) && i < |procs| && SlotOf(procs, pid) != i
    requires |procs'| == |procs| && procs' == procs[i := procs[i].(state := procs'[i].state)]
    ensures Dozing(procs', pid)
  {
    SlotOfSameIds(procs, procs', pid);
  }

  lemma AliveMember(procs: seq<Proc>, i: nat)
    requires i < |procs| && procs[i].state != STOPPED
    ensures Alive(procs) > 0
  {
    AliveUpdate(procs, i, procs[i].(state := STOPPED));
  }

  lemma StoppedSleepers(procs: seq<Proc>, trackers: seq<Tracker>, i: nat)
    requires Sleepers(procs, trackers) && i < |procs| && procs[i].state == READY
    ensures Sleepers(procs[i := procs[i].(state := STOPPED)], trackers)
  {
    var procs' := procs[i := procs[i].(state := STOPPED)];
    forall k | 0 <= k < |trackers|
      ensures Dozing(procs', trackers[k].pid)
    {
      assert Dozing(procs, trackers[k].pid);
      DozingElsewhere(procs, procs', i, trackers[k].pid);
    }
  }

  lemma StoppedBooked(t: Table, i: nat)
    requires Booked(t) && i < MAX_PROCS && t.procs[i].state == READY
    ensures t.count > 0 && Booked(Stopped(t, i))
  {
    AliveMember(t.procs, i);
    AliveUpdate(t.procs, i, t.procs[i].(state := STOPPED));
    RestateIdentified(t.procs, t.next, i, STOPPED);
    StoppedSleepers(t.procs, t.trackers, i);
    hide Identified, Sleepers;
  }

  /** The current process goes to sleep under a new tracker. */
  function Slept(t: Table, now: U64, msec: U64): Table
    requires t.current < |t.procs|
  {
    t.(procs := t.procs[t.current := t.procs[t.current].(state := BLOCKED)],
       trackers := t.trackers + [Tracker(t.procs[t.current].id, now, msec)])
  }

  lemma SleptSleepers(procs: seq<Proc>, trackers: seq<Tracker>, next: U16, i: nat, tracker: Tracker)
    requires Identified(procs, next) && Sleepers(procs, trackers) && i < MAX_PROCS && procs[i].id != 0
    requires !Asleep(trackers, procs[i].id) && tracker.pid == procs[i].id
    ensures Sleepers(procs[i := procs[i].(state := BLOCKED)], trackers + [tracker])
  {
    var procs', trackers' := procs[i := procs[i].(state := BLOCKED)], trackers + [tracker];
    SlotOfOwn(procs, next, i);
    SlotOfSameIds(procs, procs', procs[i].id);
    forall k | 0 <= k < |trackers'|
      ensures Dozing(procs', trackers'[k].pid)
    {
      if k < |trackers| {
        assert Dozing(procs, trackers[k].pid);
        DozingElsewhere(procs, procs', i, trackers[k].pid);
      }
    }
    forall j | 1 <= j < |procs'| && procs'[j].state == BLOCKED
      ensures Asleep(trackers', procs'[j].id)
    {
      if j == i {
        assert trackers'[|trackers|].pid == procs'[j].id;
      } else {
        var k :| 0 <= k < |trackers| && trackers[k].pid == procs[j].id;
        assert trackers'[k].pid == procs'[j].id;
      }
    }
  }

  lemma SleptBooked(t: Table, now: U64, msec: U64)
    requires Booked(t) && Running(t)
    ensures Booked(Slept(t, now, msec))
  {
    var i := t.current;
    var tracker := Tracker(t.procs[i].id, now, msec);
    AliveUpdate(t.procs, i, t.procs[i].(state := BLOCKED));
    SleptSleepers(t.procs, t.trackers, t.next, i, tracker);
    RestateIdentified(t.procs, t.next, i, BLOCKED);
    hide Identified, Sleepers, Asleep;
  }

  /** A process that goes to sleep always finds a free tracker. */
  lemma TrackerLeft(t: Table)
    requires Booked(t) && Running(t)
    ensures |t.trackers| < MAX_PROCS
  {
    var slots := seq(|t.trackers|, k requires 0 <= k < |t.trackers| => SlotOf(t.procs, t.trackers[k].pid));
    forall k | 0 <= k < |slots|
      ensures slots[k] < MAX_PROCS && slots[k] != t.current
    {
      assert Dozing(t.procs, t.trackers[k].pid);
      assert t.procs[slots[k]].id == t.trackers[k].pid;
    }
    forall k, m | 0 <= k < m < |slots|
      ensures slots[k] != slots[m]
    {
      assert t.procs[slots[k]].id == t.trackers[k].pid && t.procs[slots[m]].id == t.trackers[m].pid;
    }
    Pigeonhole(slots + [t.current], MAX_PROCS);
  }

  // --- Waking ---

  predicate Due(t: Tracker, now: U64) {
    (t.timestamp + t.sleepTime) % 0x1_0000_0000_0000_0000 <= now
  }

  /** Which trackers are due, the clock being read anew for each. */
  function DueAt(trackers: seq<Tracker>, clock: seq<U64>): (due: seq<bool>)
    requires |clock| == |trackers|
    ensures |due| == |trackers|
  {
    seq(|trackers|, k requires 0 <= k < |trackers| => Due(trackers[k], clock[k]))
  }

  /** How many of the trackers are due. */
  function CountDue(due: seq<bool>): (n: nat)
    ensures n <= |due|
  {
    if due == [] then 0
    else CountDue(due[..|due| - 1]) + if due[|due| - 1] then 1 else 0
  }

  /** The table after the owners of due trackers were made READY. */
  function WokenProcs(procs: seq<Proc>, trackers: seq<Tracker>, due: seq<bool>): (r: seq<Proc>)
    requires |due| == |trackers|
    ensures |r| == |procs| && forall i :: 0 <= i < |procs| ==> r[i].id == procs[i].id
  {
    if trackers == [] then procs
    else
      var n := |trackers| - 1;
      var r := WokenProcs(procs, trackers[..n], due[..n]);
      var i := SlotOf(procs, trackers[n].pid);
      if due[n] && i < |procs| then r[i := r[i].(state := READY)] else r
  }

  /** `wake_processes`: the due processes are woken, and the sleep count is lowered by
      their number, which drops that many trackers from the end whether due or not. */
  function Woken(t: Table, due: seq<bool>): Table
    requires |due| == |t.trackers| {
    t.(procs := WokenProcs(t.procs, t.trackers, due), trackers := t.trackers[..|t.trackers| - CountDue(due)])
  }

  /** The due trackers come after all others. */
  ghost predicate DueLast(due: seq<bool>) {
    forall i, j {:trigger due[i], due[j]} :: 0 <= i < j < |due| && due[i] ==> due[j]
  }

  lemma {:induction false} CountDueAll(due: seq<bool>)
    ensures CountDue(due) == |due| <==> forall i :: 0 <= i < |due| ==> due[i]
    ensures CountDue(due) == 0 <==> forall i :: 0 <= i < |due| ==> !due[i]
  {
    if due != [] {
      var n := |due| - 1;
      CountDueAll(due[..n]);
      assert forall i :: 0 <= i < n ==> due[..n][i] == due[i];
    }
  }

  lemma {:induction false} CountDueSplit(due: seq<bool>, m: nat)
    requires m <= |due|
    ensures CountDue(due) == CountDue(due[..m]) + CountDue(due[m..])
    decreases |due| - m
  {
    if m < |due| {
      var n := |due| - 1;
      CountDueSplit(due[..n], m);
      assert due[..n][..m] == due[..m] && due[m..][..|due[m..]| - 1] == due[..n][m..];
    } else {
      assert due[..m] == due && due[m..] == [];
    }
  }

  lemma NoneDueBefore(due: seq<bool>, m: nat)
    requires m <= |due|
    ensures CountDue(due[..m]) == 0 <==> forall i :: 0 <= i < m ==> !due[i]
  {
    CountDueAll(due[..m]);
    assert forall i :: 0 <= i < m ==> due[i] == due[..m][i];
  }

  lemma AllDueFrom(due: seq<bool>, m: nat)
    requires m <= |due|
    ensures CountDue(due[m..]) == |due| - m <==> forall j :: m <= j < |due| ==> due[j]
  {
    CountDueAll(due[m..]);
    forall j | m <= j < |due|
      ensures due[j] == due[m..][j - m]
    {
    }
  }

  lemma DueLastAfter(due: seq<bool>, m: nat)
    requires m <= |due| && DueLast(due) && CountDue(due[..m]) != 0
    ensures CountDue(due[m..]) == |due| - m
  {
    NoneDueBefore(due, m);
    var i :| 0 <= i < m && due[i];
    AllDueFrom(due, m);
  }

  /** What is kept is exactly what is not due, if and only if what is due comes last. */
  lemma KeptExactly(due: seq<bool>)
    ensures var m := |due| - CountDue(due);
      (DueLast(due) <==> CountDue(due[..m]) == 0)
      && (DueLast(due) ==> CountDue(due[m..]) == |due| - m)
  {
    hide CountDue, DueLast;
    var m := |due| - CountDue(due);
    CountDueSplit(due, m);
    if CountDue(due[..m]) == 0 {
      DueAfter(due, m);
    } else if DueLast(due) {
      DueLastAfter(due, m);
    }
  }

  lemma DueAfter(due: seq<bool>, m: nat)
    requires m <= |due| && CountDue(due[..m]) == 0 && CountDue(due[m..]) == |due| - m
    ensures DueLast(due)
  {
    hide CountDue;
    NoneDueBefore(due, m);
    AllDueFrom(due, m);
  }

  /** Slot `i` belongs to a due tracker. */
  ghost predicate Wakes(procs: seq<Proc>, trackers: seq<Tracker>, due: seq<bool>, i: nat)
    requires |due| == |trackers| {
    exists k :: 0 <= k < |trackers| && due[k] && SlotOf(procs, trackers[k].pid) == i
  }

  lemma {:induction false} WokenAt(procs: seq<Proc>, trackers: seq<Tracker>, due: seq<bool>, i: nat)
    requires |due| == |trackers|
    requires i < |procs|
    ensures WokenProcs(procs, trackers, due)[i].state == if Wakes(procs, trackers, due, i) then READY else procs[i].state
  {
    hide SlotOf;
    if trackers != [] {
      var n := |trackers| - 1;
      WokenAt(procs, trackers[..n], due[..n], i);
      if Wakes(procs, trackers[..n], due[..n], i) {
        var k :| 0 <= k < n && due[..n][k] && SlotOf(procs, trackers[..n][k].pid) == i;
        assert trackers[k] == trackers[..n][k];
      }
      if Wakes(procs, trackers, due, i) && !(due[n] && SlotOf(procs, trackers[n].pid) == i) {
        var k :| 0 <= k < |trackers| && due[k] && SlotOf(procs, trackers[k].pid) == i;
        assert trackers[..n][k] == trackers[k];
      }
    }
  }

  lemma {:induction false} AliveSame(procs: seq<Proc>, procs': seq<Proc>)
    requires |procs'| == |procs| && forall i :: 0 <= i < |procs| ==> Weight(procs'[i]) == Weight(procs[i])
    ensures Alive(procs') == Alive(procs)
  {
    if procs != [] {
      var n := |procs| - 1;
      assert forall i :: 0 <= i < n ==> procs[..n][i] == procs[i] && procs'[..n][i] == procs'[i];
      AliveSame(procs[..n], procs'[..n]);
    }
  }

  /** Only BLOCKED slots are woken. */
  lemma WakesBlocked(procs: seq<Proc>, trackers: seq<Tracker>, due: seq<bool>, i: nat)
    requires |due| == |trackers|
    requires i < |procs| && Sleepers(procs, trackers) && Wakes(procs, trackers, due, i)
    ensures procs[i].state == BLOCKED && procs[i].id != 0
  {
    var k :| 0 <= k < |trackers| && due[k] && SlotOf(procs, trackers[k].pid) == i;
    assert Dozing(procs, trackers[k].pid);
  }

  lemma WokenIdentified(t: Table, due: seq<bool>)
    requires |due| == |t.trackers|
    requires Booked(t)
    ensures Identified(Woken(t, due).procs, t.next) && t.count == Alive(Woken(t, due).procs)
    ensures forall i :: 0 <= i < MAX_PROCS ==> Woken(t, due).procs[i].state != RUNNING
  {
    hide SlotOf, Wakes, Sleepers, WokenProcs;
    var procs' := WokenProcs(t.procs, t.trackers, due);
    forall i | 0 <= i < MAX_PROCS
      ensures procs'[i] == t.procs[i]
           || (t.procs[i].state == BLOCKED && t.procs[i].id != 0 && procs'[i] == t.procs[i].(state := READY))
    {
      WokenAt(t.procs, t.trackers, due, i);
      if Wakes(t.procs, t.trackers, due, i) {
        WakesBlocked(t.procs, t.trackers, due, i);
      }
    }
    AliveSame(t.procs, procs');
  }

  /** A tracker that is not due keeps its slot BLOCKED; a due one does not. */
  lemma DozesOn(procs: seq<Proc>, trackers: seq<Tracker>, due: seq<bool>, k: nat)
    requires |due| == |trackers|
    requires Sleepers(procs, trackers) && k < |trackers|
    ensures Dozing(WokenProcs(procs, trackers, due), trackers[k].pid) <==> !due[k]
  {
    var pid, procs' := trackers[k].pid, WokenProcs(procs, trackers, due);
    assert Dozing(procs, pid);
    var i := SlotOf(procs, pid);
    SlotOfSameIds(procs, procs', pid);
    WokenAt(procs, trackers, due, i);
    if Wakes(procs, trackers, due, i) {
      var m :| 0 <= m < |trackers| && due[m] && SlotOf(procs, trackers[m].pid) == i;
      assert trackers[m].pid == pid;
      assert m == k;
    }
  }

  lemma StillAsleep(procs: seq<Proc>, trackers: seq<Tracker>, next: U16, due: seq<bool>, m: nat, i: nat)
    requires |due| == |trackers|
    requires Identified(procs, next) && Sleepers(procs, trackers) && m <= |trackers|
    requires forall j :: m <= j < |trackers| ==> due[j]
    requires 1 <= i < MAX_PROCS && WokenProcs(procs, trackers, due)[i].state == BLOCKED
    ensures Asleep(trackers[..m], procs[i].id)
  {
    WokenAt(procs, trackers, due, i);
    assert procs[i].state == BLOCKED;
    var k :| 0 <= k < |trackers| && trackers[k].pid == procs[i].id;
    SlotOfOwn(procs, next, i);
    assert !due[k];
    assert trackers[..m][k] == trackers[k];
  }

  lemma WokenDozing(t: Table, due: seq<bool>, m: nat)
    requires |due| == |t.trackers|
    requires Booked(t) && m <= |t.trackers| && forall k :: 0 <= k < m ==> !due[k]
    ensures AllDozing(WokenProcs(t.procs, t.trackers, due), t.trackers[..m])
  {
    hide Dozing, WokenProcs;
    forall k | 0 <= k < m
      ensures Dozing(WokenProcs(t.procs, t.trackers, due), t.trackers[..m][k].pid)
    {
      DozesOn(t.procs, t.trackers, due, k);
    }
  }

  lemma WokenSleepersAt(t: Table, due: seq<bool>, m: nat)
    requires |due| == |t.trackers|
    requires Booked(t) && m <= |t.trackers|
    requires forall k :: 0 <= k < m ==> !due[k]
    requires forall j :: m <= j < |t.trackers| ==> due[j]
    ensures Sleepers(WokenProcs(t.procs, t.trackers, due), t.trackers[..m])
  {
    WokenDozing(t, due, m);
    WokenAsleep(t, due, m);
    hide AllDozing, AllAsleep, WokenProcs, Identified, Sleepers, SlotOf, Alive;
    SleepersPrefix(t.procs, WokenProcs(t.procs, t.trackers, due), t.trackers, m);
  }

  lemma WokenSleepers(t: Table, due: seq<bool>)
    requires |due| == |t.trackers|
    requires Booked(t) && DueLast(due)
    ensures Sleepers(Woken(t, due).procs, Woken(t, due).trackers)
  {
    hide Booked, WokenProcs, CountDue, DueLast, Sleepers;
    var m := |t.trackers| - CountDue(due);
    KeptExactly(due);
    NoneDueBefore(due, m);
    AllDueFrom(due, m);
    WokenSleepersAt(t, due, m);
  }

  lemma SleepersPrefix(procs: seq<Proc>, procs': seq<Proc>, trackers: seq<Tracker>, m: nat)
    requires Sleepers(procs, trackers) && m <= |trackers|
    requires AllDozing(procs', trackers[..m]) && AllAsleep(procs', trackers[..m])
    ensures Sleepers(procs', trackers[..m])
  {
    hide AllDozing, AllAsleep;
  }

  lemma WokenAsleep(t: Table, due: seq<bool>, m: nat)
    requires |due| == |t.trackers|
    requires Booked(t) && m <= |t.trackers| && forall j :: m <= j < |t.trackers| ==> due[j]
    ensures AllAsleep(WokenProcs(t.procs, t.trackers, due), t.trackers[..m])
  {
    hide WokenProcs, SlotOf, Dozing, Asleep;
    var procs' := WokenProcs(t.procs, t.trackers, due);
    forall i | 1 <= i < |procs'| && procs'[i].state == BLOCKED
      ensures Asleep(t.trackers[..m], procs'[i].id)
    {
      StillAsleep(t.procs, t.trackers, t.next, due, m, i);
    }
  }

  lemma WokenRunning(t: Table, due: seq<bool>)
    requires |due| == |t.trackers|
    requires Booked(t) && Running(t) && Booked(Woken(t, due))
    ensures Running(Woken(t, due))
  {
    hide CountDue, WokenProcs;
    WokenAt(t.procs, t.trackers, due, t.current);
  }

  /** `wake_processes` keeps the books exactly if the due trackers come last. */
  lemma WokenExact(t: Table, due: seq<bool>)
    requires |due| == |t.trackers|
    requires Booked(t)
    ensures Booked(Woken(t, due)) <==> DueLast(due)
  {
    hide DueLast, Identified, WokenProcs, CountDue, Dozing;
    WokenIdentified(t, due);
    var m := |t.trackers| - CountDue(due);
    if DueLast(due) {
      WokenSleepers(t, due);
    } else {
      KeptExactly(due);
      NoneDueBefore(due, m);
      var k :| 0 <= k < m && due[k];
      DozesOn(t.procs, t.trackers, due, k);
      assert Woken(t, due).trackers[k] == t.trackers[k];
    }
  }

  // --- Runs ---

  datatype Command = Create | Switch | Stop(pid: U16) | Sleep(now: U64, msec: U64) | Wake(clock: seq<U64>)

  /** A switch, wherever the state it starts from comes from. */
  ghost predicate Switched(t: Table, t': Table) {
    |t.procs| == MAX_PROCS && t.current < MAX_PROCS
    && NextReady(t.procs, t.current, t'.current) && t' == t.(current := t'.current)
  }

  /** One command that ends well: no panic, no search that spins for ever. */
  ghost predicate Step(t: Table, c: Command, t': Table) {
    |t.procs| == MAX_PROCS && t.current < MAX_PROCS &&
    match c
    case Create => SlotFor(t.procs, t.next) < MAX_PROCS && t' == Created(t)
    case Switch => Switched(t, t')
    case Stop(pid) =>
      var i := SlotOf(t.procs, pid);
      i < MAX_PROCS && if t.procs[i].state != READY then t' == t else t.count > 0 && Switched(Stopped(t, i), t')
    case Sleep(now, msec) => Switched(if |t.trackers| < MAX_PROCS then Slept(t, now, msec) else t, t')
    case Wake(clock) => |clock| == |t.trackers| && t' == Woken(t, DueAt(t.trackers, clock))
  }

  /** After `init_main_process` on a zeroed table. */
  ghost predicate Booted(t: Table) {
    t == Table(seq(MAX_PROCS, i => if i == 0 then Proc(1, BLOCKED) else Proc(0, STOPPED)), 0, 1, 2, [])
  }

  lemma {:induction false} AliveNone(procs: seq<Proc>)
    requires forall i :: 0 <= i < |procs| ==> procs[i].state == STOPPED
    ensures Alive(procs) == 0
  {
    if procs != [] {
      AliveNone(procs[..|procs| - 1]);
    }
  }

  lemma BootedBooked(t: Table)
    requires Booted(t)
    ensures Booked(t) && Running(t)
  {
    var blank := t.procs[0 := Proc(0, STOPPED)];
    AliveNone(blank);
    AliveUpdate(blank, 0, Proc(1, BLOCKED));
    assert blank[0 := Proc(1, BLOCKED)] == t.procs;
  }

  lemma ReadyAwake(procs: seq<Proc>, next: U16, trackers: seq<Tracker>, i: nat)
    requires Identified(procs, next) && Sleepers(procs, trackers) && i < MAX_PROCS && procs[i].state == READY
    ensures !Asleep(trackers, procs[i].id)
  {
    SlotOfOwn(procs, next, i);
    assert forall k :: 0 <= k < |trackers| ==> Dozing(procs, trackers[k].pid);
  }

  lemma SwitchedBooked(t: Table, t': Table)
    requires Booked(t) && Switched(t, t')
    ensures Booked(t') && Running(t')
  {
    ReadyAwake(t.procs, t.next, t.trackers, t'.current);
    hide Identified, Sleepers, Asleep;
  }

  /** If it is `wake_processes`, the due trackers come last. */
  ghost predicate InOrder(t: Table, c: Command) {
    c.Wake? ==> |c.clock| == |t.trackers| && DueLast(DueAt(t.trackers, c.clock))
  }

  /** Every command keeps the books, up to the two conditions that are needed for it. */
  lemma StepBooked(t: Table, c: Command, t': Table)
    requires Booked(t) && Running(t) && Step(t, c, t')
    requires c.Create? ==> t.next != 0
    requires InOrder(t, c)
    ensures Booked(t') && Running(t')
  {
    hide Booked, Running, Switched, DueLast, SlotOf, SlotFor;
    match c
    case Create =>
      CreatedExact(t);
    case Switch =>
      SwitchedBooked(t, t');
    case Stop(pid) =>
      StopBooked(t, pid, t');
    case Sleep(now, msec) =>
      TrackerLeft(t);
      SleptBooked(t, now, msec);
      SwitchedBooked(Slept(t, now, msec), t');
    case Wake(clock) =>
      WokenExact(t, DueAt(t.trackers, clock));
      WokenRunning(t, DueAt(t.trackers, clock));
  }

  lemma StopBooked(t: Table, pid: U16, t': Table)
    requires Booked(t) && Running(t) && Step(t, Stop(pid), t')
    ensures Booked(t') && Running(t')
  {
    hide Booked, Running, Switched;
    var i := SlotOf(t.procs, pid);
    if t.procs[i].state == READY {
      StoppedBooked(t, i);
      SwitchedBooked(Stopped(t, i), t');
    }
  }

  function Creations(commands: seq<Command>): nat {
    if commands == [] then 0
    else Creations(commands[..|commands| - 1]) + if commands[|commands| - 1].Create? then 1 else 0
  }

  /** States `run[k]`, command `k` leading from state `k` to the next. */
  ghost predicate Run(run: seq<Table>, commands: seq<Command>) {
    && |run| == |commands| + 1 && Booted(run[0])
    && forall k {:trigger commands[k]} :: 0 <= k < |commands| ==>
         Step(run[k], commands[k], run[k + 1]) && InOrder(run[k], commands[k])
  }

  lemma StepNext(t: Table, c: Command, t': Table)
    requires Step(t, c, t')
    ensures t'.next == if c.Create? then (t.next + 1) % 0x1_0000 else t.next
  {
    hide SlotOf, SlotFor, WokenProcs, CountDue, NextReady;
  }

  /** Over every run with at most 65534 creations after boot in which due trackers come
      last at each wake: `proc_count` is the number of slots in use, pids are unique, and
      the BLOCKED slots other than 0 are those with a live tracker. */
  lemma {:induction false} RunsStayBooked(run: seq<Table>, commands: seq<Command>)
    requires Run(run, commands) && Creations(commands) <= 65534
    ensures Booked(run[|commands|]) && Running(run[|commands|])
    ensures run[|commands|].next == (2 + Creations(commands)) % 0x1_0000
    decreases |commands|
  {
    hide Booked, Running, Step, InOrder, Booted;
    if commands == [] {
      BootedBooked(run[0]);
      BootedNext(run[0]);
    } else {
      var n := |commands| - 1;
      RunPrefix(run, commands);
      RunsStayBooked(run[..n + 1], commands[..n]);
      assert Step(run[n], commands[n], run[n + 1]);
      StepNext(run[n], commands[n], run[n + 1]);
      StepBooked(run[n], commands[n], run[n + 1]);
    }
  }

  lemma BootedNext(t: Table)
    requires Booted(t)
    ensures t.next == 2
  {
  }

  lemma RunPrefix(run: seq<Table>, commands: seq<Command>)
    requires Run(run, commands) && commands != []
    ensures Run(run[..|commands|], commands[..|commands| - 1])
  {
    hide Step, Booted, InOrder;
    forall k | 0 <= k < |commands| - 1
      ensures Step(run[..|commands|][k], commands[..|commands| - 1][k], run[..|commands|][k + 1])
      ensures InOrder(run[..|commands|][k], commands[..|commands| - 1][k])
    {
      assert commands[..|commands| - 1][k] == commands[k];
    }
  }

  // --- How long a process sleeps ---

  /** The process in slot `i` sleeps under tracker `tracker`. */
  ghost predicate SleepsUnder(t: Table, i: nat, tracker: Tracker) {
    && i < |t.procs| && t.procs[i] == Proc(tracker.pid, BLOCKED)
    && tracker in t.trackers
  }

  /** No wake reads a clock of `time` or more. */
  ghost predicate ReadsBefore(c: Command, time: int) {
    c.Wake? ==> forall k :: 0 <= k < |c.clock| ==> c.clock[k] < time
  }

  ghost predicate ReadsFrom(c: Command, time: int) {
    c.Wake? && forall k :: 0 <= k < |c.clock| ==> c.clock[k] >= time
  }

  lemma WakesOwn(t: Table, due: seq<bool>, i: nat, k: nat)
    requires |due| == |t.trackers| && Booked(t) && k < |t.trackers| && SleepsUnder(t, i, t.trackers[k])
    ensures Wakes(t.procs, t.trackers, due, i) <==> due[k]
  {
    hide Alive;
    assert Dozing(t.procs, t.trackers[k].pid);
    SlotOfOwn(t.procs, t.next, i);
  }

  lemma UndueKept(due: seq<bool>, k: nat)
    requires DueLast(due) && k < |due| && !due[k]
    ensures k < |due| - CountDue(due)
  {
    hide CountDue, DueLast;
    var m := |due| - CountDue(due);
    KeptExactly(due);
    AllDueFrom(due, m);
  }

  /** A wake spares a tracker that is not due, and wakes the process of one that is. */
  lemma WokenOrNot(t: Table, due: seq<bool>, i: nat, k: nat)
    requires |due| == |t.trackers| && Booked(t) && DueLast(due)
    requires k < |t.trackers| && SleepsUnder(t, i, t.trackers[k])
    ensures due[k] ==> Woken(t, due).procs[i] == t.procs[i].(state := READY)
    ensures !due[k] ==> SleepsUnder(Woken(t, due), i, t.trackers[k])
  {
    hide Booked, Wakes, WokenProcs, CountDue, DueLast;
    WakesOwn(t, due, i, k);
    WokenAt(t.procs, t.trackers, due, i);
    if !due[k] {
      UndueKept(due, k);
      assert Woken(t, due).trackers[k] == t.trackers[k];
    }
  }

  lemma FallsAsleep(t: Table, now: U64, msec: U64, t': Table)
    requires Booked(t) && Running(t) && Step(t, Sleep(now, msec), t')
    ensures SleepsUnder(t', t.current, Tracker(t.procs[t.current].id, now, msec))
  {
    TrackerLeft(t);
    hide Identified, Sleepers, Alive, NextReady;
    assert t'.trackers[|t.trackers|] == Tracker(t.procs[t.current].id, now, msec);
  }

  lemma StaysAsleep(t: Table, now: U64, msec: U64, t': Table, i: nat, tracker: Tracker)
    requires Booked(t) && Running(t) && Step(t, Sleep(now, msec), t') && SleepsUnder(t, i, tracker)
    ensures SleepsUnder(t', i, tracker)
  {
    TrackerLeft(t);
    hide Identified, Sleepers, Alive, NextReady;
    var k :| 0 <= k < |t.trackers| && t.trackers[k] == tracker;
    assert i != t.current;
    assert t'.trackers[k] == t.trackers[k];
  }

  lemma SleepsThroughCreation(t: Table, i: nat, tracker: Tracker)
    requires Booked(t) && SlotFor(t.procs, t.next) < MAX_PROCS && t.next != 0 && SleepsUnder(t, i, tracker)
    ensures SleepsUnder(Created(t), i, tracker)
  {
    CreatedIdentified(t.procs, t.next, SlotFor(t.procs, t.next));
    hide Identified, Sleepers, SlotFor;
  }

  lemma SleepsThroughStop(t: Table, pid: U16, t': Table, i: nat, tracker: Tracker)
    requires Step(t, Stop(pid), t') && SleepsUnder(t, i, tracker)
    ensures SleepsUnder(t', i, tracker)
  {
    hide SlotOf, NextReady;
  }

  lemma WokenInTime(t: Table, clock: seq<U64>, i: nat, tracker: Tracker)
    requires Booked(t) && |clock| == |t.trackers| && DueLast(DueAt(t.trackers, clock))
    requires SleepsUnder(t, i, tracker) && tracker.timestamp + tracker.sleepTime < 0x1_0000_0000_0000_0000
    ensures var time, t' := tracker.timestamp + tracker.sleepTime, Woken(t, DueAt(t.trackers, clock));
      && (ReadsBefore(Wake(clock), time) ==> SleepsUnder(t', i, tracker))
      && (ReadsFrom(Wake(clock), time) ==> t'.procs[i] == Proc(tracker.pid, READY))
  {
    hide Booked, DueLast, WokenProcs, CountDue;
    var k :| 0 <= k < |t.trackers| && t.trackers[k] == tracker;
    WokenOrNot(t, DueAt(t.trackers, clock), i, k);
  }

  /** Nothing but a wake that finds its tracker due ends a process's sleep. */
  lemma SleepsOn(t: Table, c: Command, t': Table, i: nat, tracker: Tracker)
    requires Booked(t) && Running(t) && Step(t, c, t') && InOrder(t, c)
    requires c.Create? ==> t.next != 0
    requires SleepsUnder(t, i, tracker) && tracker.timestamp + tracker.sleepTime < 0x1_0000_0000_0000_0000
    ensures ReadsBefore(c, tracker.timestamp + tracker.sleepTime) ==> SleepsUnder(t', i, tracker)
    ensures ReadsFrom(c, tracker.timestamp + tracker.sleepTime) ==> i < |t'.procs| && t'.procs[i] == Proc(tracker.pid, READY)
  {
    hide Booked, Running, DueLast, DueAt, WokenProcs, CountDue, SlotOf, SlotFor, NextReady;
    match c
    case Create =>
      SleepsThroughCreation(t, i, tracker);
    case Switch =>
    case Stop(pid) =>
      SleepsThroughStop(t, pid, t', i, tracker);
    case Sleep(now, msec) =>
      StaysAsleep(t, now, msec, t', i, tracker);
    case Wake(clock) =>
      WokenInTime(t, clock, i, tracker);
  }

  lemma {:induction false} CreationsPrefix(commands: seq<Command>, m: nat)
    requires m <= |commands|
    ensures Creations(commands[..m]) <= Creations(commands)
    ensures m < |commands| && commands[m].Create? ==> Creations(commands[..m]) < Creations(commands)
  {
    if m < |commands| {
      var n := |commands| - 1;
      CreationsPrefix(commands[..n], m);
      assert commands[..n][..m] == commands[..m];
      assert m < n ==> commands[..n][m] == commands[m];
    } else {
      assert commands[..m] == commands;
    }
  }

  lemma {:induction false} RunUpTo(run: seq<Table>, commands: seq<Command>, m: nat)
    requires Run(run, commands) && m <= |commands|
    ensures |run| == |commands| + 1 && Run(run[..m + 1], commands[..m])
  {
    hide Step, Booted, InOrder;
    forall k {:trigger commands[..m][k]} | 0 <= k < m
      ensures Step(run[..m + 1][k], commands[..m][k], run[..m + 1][k + 1]) && InOrder(run[..m + 1][k], commands[..m][k])
    {
      assert commands[..m][k] == commands[k];
    }
  }

  lemma RunAt(run: seq<Table>, commands: seq<Command>, m: nat)
    requires Run(run, commands) && m <= |commands|
    ensures |run| == |commands| + 1
    ensures m < |commands| ==> Step(run[m], commands[m], run[m + 1]) && InOrder(run[m], commands[m])
  {
    hide Step, InOrder, Booted;
  }

  lemma BookedAt(run: seq<Table>, commands: seq<Command>, m: nat)
    requires Run(run, commands) && Creations(commands) <= 65534 && m <= |commands|
    ensures |run| == |commands| + 1 && Booked(run[m]) && Running(run[m])
    ensures m < |commands| ==> Step(run[m], commands[m], run[m + 1]) && InOrder(run[m], commands[m])
    ensures m < |commands| && commands[m].Create? ==> run[m].next != 0
  {
    hide Run, Step, InOrder, Booked, Running, Creations;
    RunAt(run, commands, m);
    RunUpTo(run, commands, m);
    CreationsPrefix(commands, m);
    RunsStayBooked(run[..m + 1], commands[..m]);
  }

  /** A process that goes to sleep at `now` for `msec` stays BLOCKED for as long as no wake
      reads a clock of `now + msec` or more, whatever else happens in the run ... */
  lemma {:induction false} SleepsUntil(run: seq<Table>, commands: seq<Command>, k: nat, m: nat, now: U64, msec: U64)
    requires Run(run, commands) && Creations(commands) <= 65534 && k < m <= |commands|
    requires commands[k] == Sleep(now, msec) && now + msec < 0x1_0000_0000_0000_0000
    requires forall j {:trigger commands[j]} :: k < j < m ==> ReadsBefore(commands[j], now + msec)
    ensures |run| == |commands| + 1 && |run[k].procs| == MAX_PROCS && run[k].current < MAX_PROCS
    ensures var i := run[k].current; SleepsUnder(run[m], i, Tracker(run[k].procs[i].id, now, msec))
    decreases m
  {
    hide Booked, Running, Step, InOrder, Run, Creations, ReadsBefore, SleepsUnder;
    BookedAt(run, commands, k);
    CurrentSlot(run[k]);
    if m == k + 1 {
      FallsAsleep(run[k], now, msec, run[m]);
    } else {
      var i := run[k].current;
      BookedAt(run, commands, m - 1);
      SleepsUntil(run, commands, k, m - 1, now, msec);
      SleepsOn(run[m - 1], commands[m - 1], run[m], i, Tracker(run[k].procs[i].id, now, msec));
    }
  }

  lemma CurrentSlot(t: Table)
    requires Booked(t)
    ensures |t.procs| == MAX_PROCS && t.current < MAX_PROCS
  {
  }

  /** ... and the first wake whose readings are that late makes it READY. */
  lemma WakesThen(run: seq<Table>, commands: seq<Command>, k: nat, m: nat, now: U64, msec: U64)
    requires Run(run, commands) && Creations(commands) <= 65534 && k < m < |commands|
    requires commands[k] == Sleep(now, msec) && now + msec < 0x1_0000_0000_0000_0000
    requires forall j {:trigger commands[j]} :: k < j < m ==> ReadsBefore(commands[j], now + msec)
    requires ReadsFrom(commands[m], now + msec)
    ensures |run| == |commands| + 1 && |run[k].procs| == |run[m + 1].procs| == MAX_PROCS && run[k].current < MAX_PROCS
    ensures var i := run[k].current; run[m + 1].procs[i] == Proc(run[k].procs[i].id, READY)
  {
    hide Booked, Running, Step, InOrder, Run, Creations, ReadsBefore, ReadsFrom, SleepsUnder;
    SleepsUntil(run, commands, k, m, now, msec);
    BookedAt(run, commands, m);
    BookedAt(run, commands, m + 1);
    CurrentSlot(run[m + 1]);
    var i := run[k].current;
    SleepsOn(run[m], commands[m], run[m + 1], i, Tracker(run[k].procs[i].id, now, msec));
  }

  // --- Runs that reach the two conditions ---

  lemma RunSnoc(run: seq<Table>, commands: seq<Command>, c: Command, t: Table)
    requires Run(run, commands) && Step(run[|commands|], c, t) && InOrder(run[|commands|], c)
    ensures Run(run + [t], commands + [c])
    ensures Creations(commands + [c]) == Creations(commands) + if c.Create? then 1 else 0
  {
    hide Step, Booted, InOrder;
    var run', commands' := run + [t], commands + [c];
    assert commands'[..|commands|] == commands;
    forall k {:trigger commands'[k]} | 0 <= k < |commands'|
      ensures Step(run'[k], commands'[k], run'[k + 1]) && InOrder(run'[k], commands'[k])
    {
      if k < |commands| {
        assert commands'[k] == commands[k];
      }
    }
  }

  lemma RunLength(run: seq<Table>, commands: seq<Command>)
    requires Run(run, commands)
    ensures |run| == |commands| + 1
  {
  }

  function BootTable(): Table {
    Table(seq(MAX_PROCS, i => if i == 0 then Proc(1, BLOCKED) else Proc(0, STOPPED)), 0, 1, 2, [])
  }

  lemma BootRun()
    ensures Run([BootTable()], []) && Creations([]) == 0
  {
  }

  /** Two processes go to sleep, the first for the shorter time: nothing keeps a run from
      getting where a due tracker is not among the last. */
  lemma EarlyRiser() returns (run: seq<Table>, commands: seq<Command>)
    ensures Run(run, commands) && Creations(commands) == 3
    ensures |run[|commands|].trackers| == 2
    ensures var due := DueAt(run[|commands|].trackers, [20, 20]); !DueLast(due) && !Booked(Woken(run[|commands|], due))
  {
    hide Booked, Run, DueLast, Creations, SlotOf, WokenProcs, CountDue;
    var t0 := BootTable();
    BootRun();
    var t1 := Created(t0);
    RunSnoc([t0], [], Create, t1);
    var t2 := Created(t1);
    RunSnoc([t0] + [t1], [] + [Create], Create, t2);
    var t3 := Created(t2);
    RunSnoc([t0] + [t1] + [t2], [] + [Create] + [Create], Create, t3);
    run, commands := [t0] + [t1] + [t2] + [t3], [] + [Create] + [Create] + [Create];
    run, commands := TwoAsleep(run, commands, t3);
    RunLength(run, commands);
    RunsStayBooked(run, commands);
    WokenExact(run[|commands|], DueAt(run[|commands|].trackers, [20, 20]));
  }

  lemma TwoAsleep(run: seq<Table>, commands: seq<Command>, t: Table) returns (run': seq<Table>, commands': seq<Command>)
    requires Run(run, commands) && run[|commands|] == t && t.current == 0 && t.trackers == [] && |t.procs| == MAX_PROCS
    requires t.procs[2] == Proc(2, READY) && t.procs[3] == Proc(3, READY) && t.procs[4] == Proc(4, READY)
    requires t.procs[1].state == STOPPED
    ensures Run(run', commands') && Creations(commands') == Creations(commands)
    ensures |run'[|commands'|].trackers| == 2 && !DueLast(DueAt(run'[|commands'|].trackers, [20, 20]))
  {
    hide Run, DueLast, Creations;
    RunLength(run, commands);
    var t1 := t.(current := 2);
    RunSnoc(run, commands, Switch, t1);
    var t2 := Slept(t1, 0, 10).(current := 3);
    RunSnoc(run + [t1], commands + [Switch], Sleep(0, 10), t2);
    var t3 := Slept(t2, 0, 1000).(current := 4);
    RunSnoc(run + [t1] + [t2], commands + [Switch] + [Sleep(0, 10)], Sleep(0, 1000), t3);
    run', commands' := run + [t1] + [t2] + [t3], commands + [Switch] + [Sleep(0, 10)] + [Sleep(0, 1000)];
    NotLast(t3.trackers);
  }

  lemma NotLast(trackers: seq<Tracker>)
    requires trackers == [Tracker(2, 0, 10), Tracker(3, 0, 1000)]
    ensures !DueLast(DueAt(trackers, [20, 20]))
  {
    var due := DueAt(trackers, [20, 20]);
    assert due[0] && !due[1];
  }

  /** The table after process 2 was created, and `n` more were, each stopped at once. */
  ghost predicate Cycled(t: Table, n: nat) {
    && |t.procs| == MAX_PROCS && t.procs[0] == Proc(1, BLOCKED) && t.procs[2] == Proc(2, READY)
    && (forall i :: 0 <= i < MAX_PROCS && i != 0 && i != 2 ==> t.procs[i].state == STOPPED && t.procs[i].id < 3 + n)
    && (t.current == 0 || t.current == 2) && t.count == 2 && t.next == (3 + n) % 0x1_0000 && t.trackers == []
  }

  lemma CycleSlot(t: Table, n: nat) returns (i: nat)
    requires Cycled(t, n) && 3 + n < 0x1_0000
    ensures i == SlotFor(t.procs, t.next) < MAX_PROCS && i != 0 && i != 2
    ensures SlotOf(Created(t).procs, t.next) == i
  {
    i := SlotFor(t.procs, t.next);
    assert FirstStopped(t.procs, 0) == 1;
    var procs := t.procs[i := Proc(t.next, READY)];
    assert procs[i].id == t.next;
    assert procs[SlotOf(procs, t.next)].id == t.next;
  }

  lemma CycleStep(t: Table, n: nat) returns (t1: Table, t2: Table)
    requires Cycled(t, n) && 3 + n < 0x1_0000
    ensures Step(t, Create, t1) && Step(t1, Stop(t.next), t2) && Cycled(t2, n + 1)
  {
    hide SlotFor, SlotOf, Switched;
    var i := CycleSlot(t, n);
    t1 := Created(t);
    t2 := Stopped(t1, i).(current := 2);
    OnlySecondReady(Stopped(t1, i), t2);
  }

  lemma OnlySecondReady(t: Table, t': Table)
    requires |t.procs| == MAX_PROCS && t.current < MAX_PROCS && t.procs[2].state == READY && t' == t.(current := 2)
    requires forall i :: 0 <= i < MAX_PROCS && i != 2 ==> t.procs[i].state != READY
    ensures Switched(t, t')
  {
  }

  lemma {:induction false} CycleRun(n: nat) returns (run: seq<Table>, commands: seq<Command>)
    requires 3 + n <= 0x1_0000
    ensures Run(run, commands) && Creations(commands) == n + 1 && Cycled(run[|commands|], n)
  {
    hide Run, Creations, Step;
    if n == 0 {
      var t0 := BootTable();
      BootRun();
      FirstCycle();
      var t1 := Created(t0);
      RunSnoc([t0], [], Create, t1);
      run, commands := [t0] + [t1], [] + [Create];
    } else {
      run, commands := CycleRun(n - 1);
      RunLength(run, commands);
      var t1, t2 := CycleStep(run[|commands|], n - 1);
      RunSnoc(run, commands, Create, t1);
      var stop := Stop(run[|commands|].next);
      RunSnoc(run + [t1], commands + [Create], stop, t2);
      run, commands := run + [t1] + [t2], commands + [Create] + [stop];
    }
  }

  lemma FirstCycle()
    ensures Step(BootTable(), Create, Created(BootTable())) && Cycled(Created(BootTable()), 0)
  {
  }

  /** Nor is the wrapped index out of reach: 65534 creations get there, and the next one
      puts a process with pid 0 over the kernel's own slot. */
  lemma IndexWraps() returns (run: seq<Table>, commands: seq<Command>)
    ensures Run(run, commands) && Creations(commands) == 65534
    ensures var t := run[|commands|];
      && t.next == 0 && SlotFor(t.procs, t.next) == 0 && t.procs[0] == Proc(1, BLOCKED)
      && Booked(t) && Step(t, Create, Created(t)) && !Booked(Created(t))
  {
    run, commands := CycleRun(65533);
    hide Run, Creations, Booked;
    RunsStayBooked(run, commands);
    CreatedExact(run[|commands|]);
  }

  // --- The code ---

  datatype Outcome = Done | Panicked | Spinning | Faulted

  /** How a search for the next process ends: a panic without processes, a loop without
      end if none of them is READY. */
  ghost function Switching(t: Table): Outcome {
    if t.count == 0 then Panicked
    else if exists i :: 0 <= i < |t.procs| && t.procs[i].state == READY then Done
    else Spinning
  }

  class ProcessTable {
    const processes: array<Proc>
    const sleeping: array<Tracker>
    var current: nat
    var count: U16
    var next: U16
    var sleepCount: nat

    ghost predicate Sized()
      reads this
    {
      processes.Length == MAX_PROCS && sleeping.Length == MAX_PROCS && sleepCount <= MAX_PROCS && current < MAX_PROCS
    }

    ghost function Snap(): Table
      requires Sized()
      reads this, processes, sleeping
    {
      Table(processes[..], current, count, next, sleeping[..sleepCount])
    }

    /** The zeroed globals, then `init_main_process`. */
    constructor ()
      ensures Sized() && Booted(Snap()) && fresh(processes) && fresh(sleeping)
    {
      processes := new Proc[MAX_PROCS](i => Proc(0, STOPPED));
      sleeping := new Tracker[MAX_PROCS](i => Tracker(0, 0, 0));
      current, count, next, sleepCount := 0, 0, 1, 0;
      new;
      processes[0] := Proc(next, BLOCKED);
      next := next + 1;
      count := count + 1;
    }

    /** `switch_proc`.  A full round without a READY slot stands for a loop without end. */
    method SwitchProc() returns (r: Outcome)
      requires Sized()
      modifies `current
      ensures Sized()
      ensures r == Switching(old(Snap()))
      ensures r == Done ==> Switched(old(Snap()), Snap())
      ensures r != Done ==> current == old(current)
    {
      assert forall i :: 0 <= i < MAX_PROCS ==> processes[..][i] == processes[i];
      if count == 0 {
        return Panicked;
      }
      var slot: nat := (current + 1) % MAX_PROCS;
      ghost var steps: nat := 1;
      while processes[slot].state != READY
        invariant Sized() && current == old(current)
        invariant 1 <= steps <= MAX_PROCS && slot < MAX_PROCS && Distance(current, slot) == steps
        invariant forall i :: 0 <= i < MAX_PROCS && Distance(current, i) < steps ==> processes[i].state != READY
        decreases MAX_PROCS - steps
      {
        NextSlot(current, slot);
        if slot == current {
          return Spinning;
        }
        slot := (slot + 1) % MAX_PROCS;
        steps := steps + 1;
      }
      current := slot;
      r := Done;
    }

    /** `get_proc_by_pid`. */
    method GetProcByPid(pid: U16) returns (i: nat)
      requires Sized()
      ensures i == SlotOf(processes[..], pid)
    {
      i := 0;
      while i < MAX_PROCS && processes[i].id != pid
        invariant i <= MAX_PROCS && forall j :: 0 <= j < i ==> processes[j].id != pid
      {
        i := i + 1;
      }
      ghost var k := SlotOf(processes[..], pid);
      assert k < MAX_PROCS ==> processes[..][k].id == processes[k].id;
      assert i < MAX_PROCS ==> processes[..][i].id == processes[i].id;
    }

    /** `init_process`; None stands for the panic. */
    method InitProcess() returns (slot: Option<nat>)
      requires Sized()
      modifies this, processes
      ensures Sized()
      ensures var i := SlotFor(old(processes[..]), old(next)); slot == if i < MAX_PROCS then Some(i) else None
      ensures Snap() == if slot.Some? then Created(old(Snap())) else old(Snap())
    {
      var i: nat := next;
      if next >= 16 {
        i := 0;
        while i < MAX_PROCS && processes[i].state != STOPPED
          invariant i <= MAX_PROCS && FirstStopped(processes[..], 0) == FirstStopped(processes[..], i)
        {
          i := i + 1;
        }
        if i == MAX_PROCS {
          return None;
        }
      }
      processes[i] := Proc(next, READY);
      next := (next + 1) % 0x1_0000;
      count := (count + 1) % 0x1_0000;
      return Some(i);
    }

    /** `stop_process`. */
    method StopProcess(pid: U16) returns (r: Outcome)
      requires Sized() && Booked(Snap())
      modifies this, processes
      ensures Sized()
      ensures r == Done ==> Step(old(Snap()), Stop(pid), Snap())
      ensures var t, i := old(Snap()), SlotOf(old(processes[..]), pid);
        if i == MAX_PROCS then r == Faulted && Snap() == t
        else if t.procs[i].state != READY then r == Done
        else t.count > 0 && r == Switching(Stopped(t, i)) && (r != Done ==> Snap() == Stopped(t, i))
    {
      hide Identified, Sleepers, NextReady, Switching;
      var i := GetProcByPid(pid);
      if i == MAX_PROCS {
        return Faulted;
      }
      if processes[i].state != READY {
        return Done;
      }
      AliveMember(processes[..], i);
      processes[i] := processes[i].(state := STOPPED);
      count := count - 1;
      assert Snap() == Stopped(old(Snap()), i);
      r := SwitchProc();
    }

    /** `sleep_process`, apart from the hardware timer. */
    method SleepProcess(now: U64, msec: U64) returns (r: Outcome)
      requires Sized()
      modifies this, processes, sleeping
      ensures Sized()
      ensures r == Done ==> Step(old(Snap()), Sleep(now, msec), Snap())
      ensures var t := old(Snap());
        var slept := if |t.trackers| < MAX_PROCS then Slept(t, now, msec) else t;
        r == Switching(slept) && (r != Done ==> Snap() == slept)
    {
      hide NextReady, Switching;
      if sleepCount < MAX_PROCS {
        processes[current] := processes[current].(state := BLOCKED);
        sleeping[sleepCount] := Tracker(processes[current].id, now, msec);
        sleepCount := sleepCount + 1;
        assert Snap() == Slept(old(Snap()), now, msec);
      }
      r := SwitchProc();
    }

    /** `wake_processes`, apart from the hardware timer; `clock[i]` is what the timer reads
        when it comes to tracker `i`. */
    method WakeProcesses(clock: seq<U64>)
      requires Sized() && Booked(Snap()) && |clock| == sleepCount
      modifies this, processes
      ensures Sized() && Step(old(Snap()), Wake(clock), Snap())
    {
      hide Booked, WokenProcs, CountDue, SlotOf, Sleepers;
      var removed := 0;
      ghost var procs, trackers := processes[..], sleeping[..sleepCount];
      ghost var due := DueAt(trackers, clock);
      NoneWoken(procs, trackers[..0], due[..0]);
      BookedSleepers(Snap());
      for i := 0 to sleepCount
        invariant Sized() && sleepCount == |trackers| && sleeping[..sleepCount] == trackers
        invariant current == old(current) && count == old(count) && next == old(next)
        invariant processes[..] == WokenProcs(procs, trackers[..i], due[..i])
        invariant removed == CountDue(due[..i]) && removed <= i
      {
        WokenNext(procs, trackers, i, due);
        CountNext(due, i);
        assert sleeping[i] == sleeping[..sleepCount][i] == trackers[i];
        var wakeTime: U64 := (sleeping[i].timestamp + sleeping[i].sleepTime) % 0x1_0000_0000_0000_0000;
        assert due[i] <==> wakeTime <= clock[i];
        if wakeTime <= clock[i] {
          var slot := GetProcByPid(sleeping[i].pid);
          SlotOfSameIds(procs, processes[..], sleeping[i].pid);
          TrackerFound(procs, trackers, i);
          processes[slot] := processes[slot].(state := READY);
          removed := removed + 1;
        }
      }
      assert trackers[..sleepCount] == trackers && due[..sleepCount] == due;
      sleepCount := sleepCount - removed;
    }
  }

  lemma NoneWoken(procs: seq<Proc>, trackers: seq<Tracker>, due: seq<bool>)
    requires trackers == [] && due == []
    ensures WokenProcs(procs, trackers, due) == procs && CountDue(due) == 0
  {
  }

  lemma BookedSleepers(t: Table)
    requires Booked(t)
    ensures Sleepers(t.procs, t.trackers)
  {
  }

  lemma WokenNext(procs: seq<Proc>, trackers: seq<Tracker>, i: nat, due: seq<bool>)
    requires |due| == |trackers| && i < |trackers|
    ensures var r, slot := WokenProcs(procs, trackers[..i], due[..i]), SlotOf(procs, trackers[i].pid);
      WokenProcs(procs, trackers[..i + 1], due[..i + 1])
      == if due[i] && slot < |procs| then r[slot := r[slot].(state := READY)] else r
  {
    hide SlotOf;
    var front, flags := trackers[..i + 1], due[..i + 1];
    assert front[..i] == trackers[..i] && flags[..i] == due[..i];
    assert front[i] == trackers[i] && flags[i] == due[i];
  }

  lemma CountNext(due: seq<bool>, i: nat)
    requires i < |due|
    ensures CountDue(due[..i + 1]) == CountDue(due[..i]) + if due[i] then 1 else 0
  {
    assert due[..i + 1][..i] == due[..i];
  }

  lemma TrackerFound(procs: seq<Proc>, trackers: seq<Tracker>, i: nat)
    requires Sleepers(procs, trackers) && i < |trackers|
    ensures SlotOf(procs, trackers[i].pid) < |procs|
  {
    assert Dozing(procs, trackers[i].pid);
  }

  lemma NextSlot(from: nat, slot: nat)
    requires from < MAX_PROCS && slot < MAX_PROCS
    ensures slot != from ==> Distance(from, (slot + 1) % MAX_PROCS) == Distance(from, slot) + 1
    ensures slot == from <==> Distance(from, slot) == MAX_PROCS
    ensures forall i :: 0 <= i < MAX_PROCS && Distance(from, i) == Distance(from, slot) ==> i == slot
  {
  }
}
