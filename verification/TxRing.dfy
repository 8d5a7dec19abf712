/** The transmit ring of the e1000 driver (kernel/src/net/drivers/intel.rs) against a device that
    completes descriptors in order (section 3.4 of the Intel PCI/PCI-X Family of Gigabit Ethernet
    Controllers Software Developer's Manual), one memory or register access of interest per step. */
module TxRing {
  import opened Machine

  const N := 256

  /** The place in the ring of a descriptor number. */
  function Slot(j: int): (i: nat)
    ensures i < N
  {
    j % N
  }

  /** Where `send` stands. A scan looks at the descriptors below `end`, the newest first. */
  datatype Pc =
    | Idle
    | Scanning(packet: nat, flush: bool, end: nat)
    | Filling(packet: nat, flush: bool)

  /** `head`, `tail`, `packets` and the status bits are the driver's; `tdh` and `tdt` the device
      registers. `sent`, `flushed` and `done` are history: the packets sent so far, how many of them
      the device has been told about, and how many it has completed. `released` are the buffers
      given back to the pool, by descriptor number. */
  datatype Ring = Ring(head: nat, tail: nat, status: seq<bool>, packets: seq<Option<nat>>, tdh: nat, tdt: nat, pc: Pc,
                       sent: seq<nat>, flushed: nat, done: nat, released: set<int>)

  ghost predicate Init(r: Ring) {
    && r.head == r.tail == r.tdh == r.tdt == r.flushed == r.done == 0 && r.pc == Idle && r.sent == [] && r.released == {}
    && |r.status| == N && |r.packets| == N
    && (forall i :: 0 <= i < N ==> !r.status[i] && r.packets[i] == None)
  }

  function Loop(r: Ring, packet: nat, flush: bool): Pc {
    if r.tail - r.head >= N - 1 then Scanning(packet, flush, r.tail) else Filling(packet, flush)
  }

  /** A call of `send` reaches the test of its wait loop. */
  ghost predicate Begin(r: Ring, r': Ring, packet: nat, flush: bool) {
    r.pc.Idle? && r' == r.(pc := Loop(r, packet, flush))
  }

  /** One read of a status bit; a set bit moves the head past it, an exhausted scan starts over. */
  ghost predicate Scan(r: Ring, r': Ring) {
    && r.pc.Scanning? && |r.status| == N
    && if r.pc.end <= r.head then r' == r.(pc := Loop(r, r.pc.packet, r.pc.flush))
       else if r.status[Slot(r.pc.end - 1)] then
         var moved := r.(head := r.pc.end);
         r' == moved.(pc := Loop(moved, r.pc.packet, r.pc.flush))
       else r' == r.(pc := r.pc.(end := r.pc.end - 1))
  }

  /** Fill in the descriptor at the tail, release the buffer it replaces, and flush if asked to or if
      the ring is full. */
  ghost predicate Fill(r: Ring, r': Ring) {
    && r.pc.Filling? && |r.status| == N && |r.packets| == N
    && var idx, tail := Slot(r.tail), r.tail + 1;
      var tell := r.pc.flush || tail - r.head == N - 1;
      r' == r.(status := r.status[idx := false], packets := r.packets[idx := Some(r.pc.packet)],
               tail := tail, sent := r.sent + [r.pc.packet],
               released := if r.packets[idx].Some? then r.released + {r.tail - N} else r.released,
               tdt := if tell then Slot(tail) else r.tdt, flushed := if tell then tail else r.flushed, pc := Idle)
  }

  /** The device completes the descriptor at its head register, as long as that is not the tail. */
  ghost predicate Complete(r: Ring, r': Ring) {
    && r.tdh != r.tdt && r.tdh < |r.status|
    && r' == r.(status := r.status[r.tdh := true], tdh := Slot(r.tdh + 1), done := r.done + 1)
  }

  ghost predicate Step(r: Ring, r': Ring) {
    || (exists packet, flush :: Begin(r, r', packet, flush))
    || Scan(r, r') || Fill(r, r') || Complete(r, r')
  }

  ghost predicate Run(states: seq<Ring>) {
    && |states| > 0 && Init(states[0])
    && forall i :: 0 <= i < |states| - 1 ==> Step(states[i], states[i + 1])
  }

  /* ---- The invariant --------------------------------------------------------------------------------- */

  ghost predicate Counters(r: Ring) {
    && |r.status| == N && |r.packets| == N && |r.sent| == r.tail
    && r.head <= r.done <= r.flushed <= r.tail <= r.head + (N - 1)
    && r.tdh == Slot(r.done) && r.tdt == Slot(r.flushed)
  }

  /** The status bit of every descriptor in use says whether the device has completed it. */
  ghost predicate StatusTrue(r: Ring)
    requires |r.status| == N
  {
    forall j :: r.head <= j < r.tail ==> (r.status[Slot(j)] <==> j < r.done)
  }

  /** The last N packets sent are still in their slots, and exactly the ones before them have been released. */
  ghost predicate PacketsKept(r: Ring)
    requires |r.packets| == N && |r.sent| == r.tail
  {
    && (forall j :: 0 <= j < r.tail && r.tail - N <= j ==> r.packets[Slot(j)] == Some(r.sent[j]))
    && (forall i :: r.tail <= i < N ==> r.packets[i] == None)
    && (forall j :: j in r.released <==> 0 <= j < r.tail - N)
  }

  ghost predicate PcInv(r: Ring) {
    match r.pc
    case Idle => r.tail - r.head == N - 1 ==> r.flushed == r.tail
    case Scanning(_, _, end) => r.tail - r.head == N - 1 && r.flushed == r.tail && end <= r.tail
    case Filling(_, _) => r.tail - r.head < N - 1
  }

  ghost predicate Inv(r: Ring) {
    Counters(r) && StatusTrue(r) && PacketsKept(r) && PcInv(r)
  }

  /** Fewer than N apart, two numbers share a slot only if they are equal. */
  lemma SlotsDistinct(i: int, j: int)
    requires Slot(i) == Slot(j) && -N < i - j < N
    ensures i == j
  {
  }

  lemma SlotFacts(j: nat)
    ensures j < N ==> Slot(j) == j
    ensures Slot(Slot(j) + 1) == Slot(j + 1) && Slot(j - N) == Slot(j)
  {
  }

  lemma BeginKeeps(r: Ring, r': Ring, packet: nat, flush: bool)
    requires Inv(r) && Begin(r, r', packet, flush)
    ensures Inv(r')
  {
    hide PacketsKept, StatusTrue;
    SameSlots(r, r');
  }

  /** Slots and counters that are not touched keep their invariant. */
  lemma SameSlots(r: Ring, r': Ring)
    requires Counters(r) && StatusTrue(r) && PacketsKept(r)
    requires r' == r.(pc := r'.pc, head := r'.head) && r.head <= r'.head
    ensures |r'.status| == N && StatusTrue(r') && |r'.packets| == N && |r'.sent| == r'.tail && PacketsKept(r')
  {
  }

  lemma ScanKeeps(r: Ring, r': Ring)
    requires Inv(r) && Scan(r, r')
    ensures Inv(r')
  {
    if r.pc.end > r.head && r.status[Slot(r.pc.end - 1)] {
      assert r.pc.end - 1 < r.done;
    }
    hide PacketsKept, StatusTrue;
    SameSlots(r, r');
  }

  lemma CompleteKeeps(r: Ring, r': Ring)
    requires Inv(r) && Complete(r, r')
    ensures Inv(r')
  {
    hide Slot;
    SlotFacts(r.done);
    forall j | r'.head <= j < r'.tail ensures r'.status[Slot(j)] <==> j < r'.done {
      if Slot(j) == Slot(r.done) { SlotsDistinct(j, r.done); }
    }
  }

  lemma FillKeeps(r: Ring, r': Ring)
    requires Inv(r) && Fill(r, r')
    ensures Inv(r')
  {
    hide Slot;
    forall j | r'.head <= j < r'.tail ensures r'.status[Slot(j)] <==> j < r'.done {
      if j < r.tail && Slot(j) == Slot(r.tail) { SlotsDistinct(j, r.tail); }
    }
    FillKeepsPackets(r, r');
  }

  lemma FillKeepsPackets(r: Ring, r': Ring)
    requires Counters(r) && PacketsKept(r) && PcInv(r) && Fill(r, r')
    ensures |r'.packets| == N && |r'.sent| == r'.tail && PacketsKept(r')
  {
    hide Slot;
    SlotFacts(r.tail);
    forall j | 0 <= j < r'.tail && r'.tail - N <= j ensures r'.packets[Slot(j)] == Some(r'.sent[j]) {
      if j < r.tail && Slot(j) == Slot(r.tail) { SlotsDistinct(j, r.tail); }
    }
  }

  /** There is a run. */
  lemma DriverStarts() returns (r: Ring)
    ensures Run([r])
  {
    r := Ring(0, 0, seq(N, i => false), seq(N, i => None), 0, 0, Idle, [], 0, 0, {});
  }

  lemma {:induction false} RunKeepsInv(states: seq<Ring>, k: nat)
    requires Run(states) && k < |states|
    ensures Inv(states[k])
  {
    if k > 0 {
      RunKeepsInv(states, k - 1);
      var r, r' := states[k - 1], states[k];
      assert Step(r, states[k - 1 + 1]);
      hide Inv;
      if Scan(r, r') { ScanKeeps(r, r'); }
      else if Fill(r, r') { FillKeeps(r, r'); }
      else if Complete(r, r') { CompleteKeeps(r, r'); }
      else {
        var packet, flush :| Begin(r, r', packet, flush);
        BeginKeeps(r, r', packet, flush);
      }
    }
  }

  /* ---- What follows -------------------------------------------------------------------------------------- */

  /** In every reachable state fewer than N descriptors are outstanding, and each packet that the device
      has not completed is still in its slot, its descriptor unchanged and its buffer not released. */
  lemma OutstandingIsSafe(states: seq<Ring>, k: nat, j: nat)
    requires Run(states) && k < |states|
    ensures var r := states[k];
      && r.tail - r.done <= N - 1
      && (r.done <= j < r.tail ==> |r.packets| == N && |r.sent| == r.tail && r.packets[Slot(j)] == Some(r.sent[j]) && j !in r.released
                                   && |r.status| == N && !r.status[Slot(j)])
  {
    RunKeepsInv(states, k);
  }

  /** No buffer is lost: exactly the packets that have left the ring were released, and each of them was
      completed before. */
  lemma ReleasedExactly(states: seq<Ring>, k: nat, j: int)
    requires Run(states) && k < |states|
    ensures var r := states[k]; (j in r.released <==> 0 <= j < r.tail - N) && (j in r.released ==> j < r.head <= r.done)
  {
    RunKeepsInv(states, k);
  }

  /** `send` is never blocked by itself: it can begin whenever it is not under way, with any packet, and otherwise
      its next step can be taken. */
  lemma SendCanGoOn(states: seq<Ring>, k: nat, packet: nat, flush: bool) returns (r': Ring)
    requires Run(states) && k < |states|
    ensures match states[k].pc
      case Idle => Begin(states[k], r', packet, flush)
      case Scanning(_, _, _) => Scan(states[k], r')
      case Filling(_, _) => Fill(states[k], r')
  {
    hide Slot;
    RunKeepsInv(states, k);
    var r := states[k];
    match r.pc
    case Idle => r' := r.(pc := Loop(r, packet, flush));
    case Scanning(p, f, end) =>
      if end <= r.head {
        r' := r.(pc := Loop(r, p, f));
      } else if r.status[Slot(end - 1)] {
        r' := r.(head := end).(pc := Loop(r.(head := end), p, f));
      } else {
        r' := r.(pc := r.pc.(end := end - 1));
      }
    case Filling(p, f) =>
      var tell := f || r.tail + 1 - r.head == N - 1;
      var idx := Slot(r.tail);
      r' := r.(status := r.status[idx := false], packets := r.packets[idx := Some(p)], tail := r.tail + 1, sent := r.sent + [p],
               released := if r.packets[idx].Some? then r.released + {r.tail - N} else r.released,
               tdt := if tell then Slot(r.tail + 1) else r.tdt, flushed := if tell then r.tail + 1 else r.flushed, pc := Idle);
  }

  /** A packet that is replaced was completed before. */
  lemma ReplacesCompletedOnly(states: seq<Ring>, k: nat, r': Ring)
    requires Run(states) && k < |states| && Fill(states[k], r')
    ensures var r := states[k]; r.packets[Slot(r.tail)].Some? ==>
      0 <= r.tail - N < r.done && r.tail == |r.sent| && r.packets[Slot(r.tail)] == Some(r.sent[r.tail - N])
  {
    hide Slot;
    RunKeepsInv(states, k);
    SlotFacts(states[k].tail);
  }

  /** While `send` waits, the whole ring has been handed to the device: either a completed descriptor
      is there to be found, or the device can make progress by itself. */
  lemma WaitIsNotOnUnflushed(states: seq<Ring>, k: nat)
    requires Run(states) && k < |states| && states[k].pc.Scanning?
    ensures var r := states[k]; r.flushed == r.tail && (r.done > r.head || r.tdh != r.tdt)
  {
    RunKeepsInv(states, k);
    var r := states[k];
    if r.done == r.head && r.tdh == r.tdt { SlotsDistinct(r.done, r.flushed); }
  }

  /** A scan that starts when a descriptor has been completed ends the wait: read by read it gets
      closer to a set bit, and never moves the head beyond what the device has completed. */
  lemma ScanMakesProgress(states: seq<Ring>, k: nat, r': Ring)
    requires Run(states) && k < |states| && Scan(states[k], r') && states[k].pc.end > states[k].done > states[k].head
    ensures r'.head <= r'.done
    ensures r'.pc.Scanning? && r'.head == states[k].head && r'.pc.end == states[k].pc.end - 1
  {
    RunKeepsInv(states, k);
  }

  lemma ScanFindsCompleted(states: seq<Ring>, k: nat, r': Ring)
    requires Run(states) && k < |states| && Scan(states[k], r') && states[k].done >= states[k].pc.end > states[k].head
    ensures r'.pc.Filling? && states[k].head < r'.head <= r'.done
  {
    RunKeepsInv(states, k);
  }

  /* ---- The wait ends ------------------------------------------------------------------------------------------ */

  /** How many more reads a scan needs at most once something is completed. */
  ghost function ReadsLeft(r: Ring): nat
    requires r.pc.Scanning?
  {
    if r.pc.end <= r.head then N else r.pc.end - r.head
  }

  /** The number of steps of `send` among the steps from state `k` to state `n`. */
  ghost function Reads(states: seq<Ring>, k: nat, n: nat): nat
    requires k <= n < |states|
    decreases n
  {
    if n == k then 0 else Reads(states, k, n - 1) + if Scan(states[n - 1], states[n]) then 1 else 0
  }

  /** While `send` waits, a step is a read of its own or a completion by the device. */
  lemma WaitStep(r: Ring, r': Ring)
    requires Inv(r) && Step(r, r') && r.pc.Scanning? && r.done > r.head && r'.pc.Scanning?
    ensures r'.done > r'.head && ReadsLeft(r') + (if Scan(r, r') then 1 else 0) <= ReadsLeft(r)
  {
    hide PacketsKept, Slot;
    if Scan(r, r') {
      if r.pc.end > r.head {
        assert r.status[Slot(r.pc.end - 1)] <==> r.pc.end - 1 < r.done;
      }
    } else {
      assert Complete(r, r');
    }
  }

  /** Once a descriptor is completed, the wait ends within N reads of `send`, whatever the device does in
      between: as long as it has not ended, fewer have been made. */
  lemma {:induction false} WaitIsBounded(states: seq<Ring>, k: nat, n: nat)
    requires Run(states) && k <= n < |states| && states[k].pc.Scanning? && states[k].done > states[k].head
    requires forall i :: k <= i <= n ==> states[i].pc.Scanning?
    ensures states[n].done > states[n].head
    ensures Reads(states, k, n) + ReadsLeft(states[n]) <= ReadsLeft(states[k]) <= N && Reads(states, k, n) < N
    decreases n
  {
    hide Inv, Step, Scan;
    RunKeepsInv(states, k);
    ScanInRange(states[k]);
    if n > k {
      WaitIsBounded(states, k, n - 1);
      RunKeepsInv(states, n - 1);
      assert Step(states[n - 1], states[n - 1 + 1]);
      WaitStep(states[n - 1], states[n]);
    }
    RunKeepsInv(states, n);
    ScanInRange(states[n]);
  }

  lemma ScanInRange(r: Ring)
    requires Inv(r) && r.pc.Scanning?
    ensures 0 < ReadsLeft(r) <= N
  {
    hide StatusTrue, PacketsKept, Slot;
  }

  /* ---- Flushing ------------------------------------------------------------------------------------------------ */

  /** Everything sent has been handed to the device. */
  ghost predicate HandedOver(r: Ring) { r.flushed == r.tail && r.tdt == Slot(r.tail) }

  /** From state `k` to state `n` one call of `send` begins and returns. */
  ghost predicate OneSend(states: seq<Ring>, k: nat, n: nat, packet: nat, flush: bool) {
    && k + 1 < n < |states| && Begin(states[k], states[k + 1], packet, flush)
    && (forall i :: k < i < n ==> !states[i].pc.Idle?) && states[n].pc.Idle?
  }

  /** While a call is under way, it remembers its packet and its flag and does not touch the tail register. */
  lemma {:induction false} SendUnderWay(states: seq<Ring>, k: nat, n: nat, packet: nat, flush: bool)
    requires Run(states) && k < n < |states| && Begin(states[k], states[k + 1], packet, flush)
    requires forall i :: k < i <= n ==> !states[i].pc.Idle?
    ensures var r := states[n];
      && r.pc.packet == packet && r.pc.flush == flush
      && r.tail == states[k].tail && r.tdt == states[k].tdt && r.flushed == states[k].flushed && r.sent == states[k].sent
    decreases n
  {
    if n > k + 1 {
      SendUnderWay(states, k, n - 1, packet, flush);
      assert Step(states[n - 1], states[n - 1 + 1]);
    }
  }

  /** The last step of a call fills in the descriptor. */
  lemma SendEndsWithFill(states: seq<Ring>, k: nat, n: nat, packet: nat, flush: bool)
    requires Run(states) && OneSend(states, k, n, packet, flush)
    ensures Fill(states[n - 1], states[n])
    ensures states[n - 1].pc.packet == packet && states[n - 1].pc.flush == flush
    ensures states[n - 1].tail == states[k].tail && states[n - 1].tdt == states[k].tdt && states[n - 1].flushed == states[k].flushed
    ensures states[n - 1].sent == states[k].sent
  {
    SendUnderWay(states, k, n - 1, packet, flush);
    assert Step(states[n - 1], states[n - 1 + 1]);
  }

  /** A call sends exactly its packet. When it returns, everything has been handed to the device if it was asked to
      flush or the ring is full; otherwise the tail register is as before. */
  lemma SendFlushes(states: seq<Ring>, k: nat, n: nat, packet: nat, flush: bool)
    requires Run(states) && OneSend(states, k, n, packet, flush)
    ensures var r := states[n];
      && r.sent == states[k].sent + [packet] && r.tail == states[k].tail + 1
      && (flush || r.tail - r.head == N - 1 ==> HandedOver(r))
      && (!flush && r.tail - r.head != N - 1 ==> r.tdt == states[k].tdt && r.flushed == states[k].flushed)
  {
    hide Slot;
    SendEndsWithFill(states, k, n, packet, flush);
  }

  /** Whatever has been handed over, the device can complete by itself: as many steps as there are packets left, and
      then every packet is done. */
  lemma {:induction false} DeviceFinishes(states: seq<Ring>) returns (more: seq<Ring>)
    requires Run(states) && HandedOver(states[|states| - 1])
    ensures var r, all := states[|states| - 1], states + more;
      && Run(all) && r.done <= r.tail && |more| == r.tail - r.done
      && (forall i :: |states| - 1 <= i < |all| - 1 ==> Complete(all[i], all[i + 1]))
      && all[|all| - 1].done == all[|all| - 1].tail == r.tail && all[|all| - 1].sent == r.sent
    decreases states[|states| - 1].tail - states[|states| - 1].done
  {
    var r := states[|states| - 1];
    RunKeepsInv(states, |states| - 1);
    if r.done == r.tail {
      more := [];
      assert states + more == states;
    } else {
      var r' := CanComplete(r);
      var longer := states + [r'];
      RunExtends(states, r');
      var rest := DeviceFinishes(longer);
      more := [r'] + rest;
      assert longer + rest == states + more;
      forall i | |states| - 1 <= i < |states + more| - 1 ensures Complete((states + more)[i], (states + more)[i + 1]) {
        if i == |states| - 1 { assert (states + more)[i] == r && (states + more)[i + 1] == r'; }
      }
    }
  }

  lemma CanComplete(r: Ring) returns (r': Ring)
    requires Inv(r) && HandedOver(r) && r.done < r.tail
    ensures Complete(r, r') && HandedOver(r') && r'.tail == r.tail && r'.sent == r.sent && r'.done == r.done + 1
  {
    hide PacketsKept, StatusTrue, Slot;
    if Slot(r.done) == Slot(r.tail) { SlotsDistinct(r.done, r.tail); }
    r' := r.(status := r.status[r.tdh := true], tdh := Slot(r.tdh + 1), done := r.done + 1);
  }

  lemma RunExtends(states: seq<Ring>, r': Ring)
    requires Run(states) && Complete(states[|states| - 1], r')
    ensures Run(states + [r'])
  {
    hide Init, Complete;
    var all := states + [r'];
    forall i | 0 <= i < |all| - 1 ensures Step(all[i], all[i + 1]) {
      if i < |states| - 1 {
        assert all[i] == states[i] && all[i + 1] == states[i + 1];
      } else {
        assert all[i] == states[|states| - 1] && all[i + 1] == r';
      }
    }
  }
}
