/** Bringing up the application processors and the check-in barrier (kernel/src/apic/system.rs),
    as a transition system over any set of cores. */
module Bringup {
  datatype ApicState = Online | Launched | Offline

  /** How far a core has come. The bootstrap processor starts in the kernel. */
  datatype Phase = Dead | OnBootStack | InKernel | Marked | Counted | Left

  /** `next` and `waiting` are the position of the bootstrap processor in its launch loop; `checkedIn`
      is the shared counter. */
  datatype System = System(apics: seq<nat>, bsp: nat, state: map<nat, ApicState>, phase: map<nat, Phase>,
                           next: nat, waiting: bool, checkedIn: nat)

  /** After the state array has been set up: distinct identifiers, the bootstrap processor among them. */
  ghost predicate Init(s: System) {
    && 0 < |s.apics| <= 0xFFFF_FFFF && s.bsp in s.apics
    && (forall i, j :: 0 <= i < j < |s.apics| ==> s.apics[i] != s.apics[j])
    && s.state.Keys == s.phase.Keys == (set id | id in s.apics)
    && (forall id :: id in s.apics ==>
          s.state[id] == (if id == s.bsp then Online else Offline) && s.phase[id] == if id == s.bsp then InKernel else Dead)
    && s.next == 0 && !s.waiting && s.checkedIn == 0
  }

  function Total(s: System): nat { |s.apics| }

  /* ---- Steps ---------------------------------------------------------------------------------------- */

  /** The launch loop skips the core it runs on. */
  ghost predicate Skip(s: System, s': System) {
    s.next < |s.apics| && !s.waiting && s.apics[s.next] == s.bsp && s' == s.(next := s.next + 1)
  }

  ghost predicate Launch(s: System, s': System) {
    && s.next < |s.apics| && !s.waiting && s.apics[s.next] != s.bsp
    && s' == s.(state := s.state[s.apics[s.next] := Launched], waiting := true)
  }

  ghost predicate SeeOnline(s: System, s': System) {
    && s.next < |s.apics| && s.waiting && s.apics[s.next] in s.state && s.state[s.apics[s.next]] == Online
    && s' == s.(next := s.next + 1, waiting := false)
  }

  /** A launched core starts on the stack that the bootloader state names, the same for every core. */
  ghost predicate Start(s: System, s': System, id: nat) {
    && id in s.phase && id in s.state && s.phase[id] == Dead && s.state[id] == Launched
    && s' == s.(phase := s.phase[id := OnBootStack])
  }

  /** The bootloader gives it a kernel stack of its own and jumps to the kernel. */
  ghost predicate EnterKernel(s: System, s': System, id: nat) {
    && id in s.phase && s.phase[id] == OnBootStack
    && s' == s.(phase := s.phase[id := InKernel])
  }

  /** `check_in`: the compare-exchange from Launched to Online; the bootstrap processor gets there
      after its launch loop and finds itself online already. */
  ghost predicate Mark(s: System, s': System, id: nat) {
    && id in s.phase && id in s.state && s.phase[id] == InKernel && (id == s.bsp ==> s.next == |s.apics|)
    && (if id == s.bsp then s.state[id] == Online else s.state[id] == Launched)
    && s' == s.(state := s.state[id := Online], phase := s.phase[id := Marked])
  }

  ghost predicate Count(s: System, s': System, id: nat) {
    && id in s.phase && s.phase[id] == Marked
    && s' == s.(checkedIn := (s.checkedIn + 1) % 0x1_0000_0000, phase := s.phase[id := Counted])
  }

  ghost predicate Leave(s: System, s': System, id: nat) {
    && id in s.phase && s.phase[id] == Counted && s.checkedIn == Total(s)
    && s' == s.(phase := s.phase[id := Left])
  }

  ghost predicate Step(s: System, s': System) {
    || Skip(s, s') || Launch(s, s') || SeeOnline(s, s')
    || exists id :: Start(s, s', id) || EnterKernel(s, s', id) || Mark(s, s', id) || Count(s, s', id) || Leave(s, s', id)
  }

  ghost predicate Run(states: seq<System>) {
    && |states| > 0 && Init(states[0])
    && forall i :: 0 <= i < |states| - 1 ==> Step(states[i], states[i + 1])
  }

  /* ---- The invariant ------------------------------------------------------------------------------------ */

  ghost predicate CheckedIn(p: Phase) { p.Counted? || p.Left? }

  function StateOf(s: System, i: nat): ApicState
    requires i < |s.apics|
  {
    if s.apics[i] in s.state then s.state[s.apics[i]] else Offline
  }

  function PhaseOf(s: System, i: nat): Phase
    requires i < |s.apics|
  {
    if s.apics[i] in s.phase then s.phase[s.apics[i]] else Dead
  }

  /** Number of cores among the first `n` that have checked in. */
  ghost function CountIn(s: System, n: nat): (c: nat)
    requires n <= |s.apics|
    ensures c <= n
  {
    if n == 0 then 0 else CountIn(s, n - 1) + if CheckedIn(PhaseOf(s, n - 1)) then 1 else 0
  }

  ghost predicate Shape(s: System) {
    && 0 < |s.apics| <= 0xFFFF_FFFF && s.bsp in s.apics && s.next <= |s.apics|
    && (s.waiting ==> s.next < |s.apics| && s.apics[s.next] != s.bsp)
    && (forall i, j :: 0 <= i < j < |s.apics| ==> s.apics[i] != s.apics[j])
    && s.state.Keys == s.phase.Keys == (set id | id in s.apics)
  }

  /** Where the core at position `i` can be, given how far the launch loop is. */
  ghost predicate Placed(s: System, i: nat)
    requires i < |s.apics|
  {
    var st, ph := StateOf(s, i), PhaseOf(s, i);
    if s.apics[i] == s.bsp then st == Online && ph != Dead && ph != OnBootStack && (s.next < |s.apics| ==> ph == InKernel)
    else
      && (i < s.next ==> st == Online)
      && (i > s.next || (i == s.next && !s.waiting) ==> st == Offline)
      && (i == s.next && s.waiting ==> st != Offline)
      && (st == Offline ==> ph == Dead)
      && (st == Launched <==> st != Offline && (ph == Dead || ph == OnBootStack || ph == InKernel))
  }

  ghost predicate Inv(s: System) {
    && Shape(s)
    && (forall i :: 0 <= i < |s.apics| ==> Placed(s, i))
    && s.checkedIn == CountIn(s, |s.apics|)
    && (forall i :: 0 <= i < |s.apics| && PhaseOf(s, i) == Left ==> s.checkedIn == |s.apics|)
  }

  lemma {:induction false} CountSame(s: System, s': System, n: nat)
    requires s'.apics == s.apics && n <= |s.apics|
    requires forall i :: 0 <= i < |s.apics| ==> CheckedIn(PhaseOf(s', i)) == CheckedIn(PhaseOf(s, i))
    ensures CountIn(s', n) == CountIn(s, n)
  {
    if n > 0 { CountSame(s, s', n - 1); }
  }

  lemma {:induction false} CountOneMore(s: System, s': System, m: nat, n: nat)
    requires s'.apics == s.apics && m < |s.apics| && n <= |s.apics|
    requires !CheckedIn(PhaseOf(s, m)) && CheckedIn(PhaseOf(s', m))
    requires forall i :: 0 <= i < |s.apics| && i != m ==> PhaseOf(s', i) == PhaseOf(s, i)
    ensures CountIn(s', n) == CountIn(s, n) + if m < n then 1 else 0
  {
    if n > 0 { CountOneMore(s, s', m, n - 1); }
  }

  lemma {:induction false} CountFull(s: System, n: nat, i: nat)
    requires n <= |s.apics| && i < n && CountIn(s, n) == n
    ensures CheckedIn(PhaseOf(s, i))
  {
    if i < n - 1 { CountFull(s, n - 1, i); }
  }

  lemma {:induction false} CountNone(s: System, n: nat)
    requires n <= |s.apics| && forall i :: 0 <= i < |s.apics| ==> !CheckedIn(PhaseOf(s, i))
    ensures CountIn(s, n) == 0
  {
    if n > 0 { CountNone(s, n - 1); }
  }

  lemma LoopKeeps(s: System, s': System)
    requires Inv(s) && (Skip(s, s') || Launch(s, s') || SeeOnline(s, s'))
    ensures Inv(s')
  {
    LoopKeepsShape(s, s');
    hide CountIn;
    CountSame(s, s', |s.apics|);
    forall i | 0 <= i < |s.apics| ensures Placed(s', i) {
      LoopKeepsPlaced(s, s', i);
    }
  }

  lemma LoopKeepsShape(s: System, s': System)
    requires Shape(s) && (Skip(s, s') || Launch(s, s') || SeeOnline(s, s'))
    ensures Shape(s')
  {
    if Launch(s, s') {
      assert s.apics[s.next] in s.apics;
      assert s.apics[s.next] in s.state.Keys;
      UpdateKeepsKeys(s.state, s.apics[s.next], Launched);
    }
  }

  lemma LoopKeepsPlaced(s: System, s': System, i: nat)
    requires Shape(s) && i < |s.apics| && Placed(s, i) && (Skip(s, s') || Launch(s, s') || SeeOnline(s, s'))
    ensures Placed(s', i)
  {
  }

  /** A step of the core at position `m` changes the state and phase of that core only. */
  ghost predicate ChangesOnly(s: System, s': System, m: nat) {
    && m < |s.apics| && Shape(s')
    && s'.apics == s.apics && s'.bsp == s.bsp && s'.next == s.next && s'.waiting == s.waiting
    && forall i :: 0 <= i < |s.apics| && i != m ==> StateOf(s', i) == StateOf(s, i) && PhaseOf(s', i) == PhaseOf(s, i)
  }

  lemma UpdateKeepsKeys<V>(m: map<nat, V>, id: nat, v: V)
    requires id in m
    ensures m[id := v].Keys == m.Keys
  {
  }

  lemma CoreStepChanges(s: System, s': System, id: nat) returns (m: nat)
    requires Shape(s)
    requires Start(s, s', id) || EnterKernel(s, s', id) || Mark(s, s', id) || Count(s, s', id) || Leave(s, s', id)
    ensures m < |s.apics| && s.apics[m] == id && ChangesOnly(s, s', m)
    ensures id in s.state && id in s.phase && id in s'.state && id in s'.phase
  {
    hide Shape, ChangesOnly;
    m := FindCore(s, id);
    assert s'.phase == s.phase[id := s'.phase[id]];
    assert s'.state == s.state[id := s'.state[id]];
    hide Start, EnterKernel, Mark, Count, Leave;
    ChangesOne(s, m, s'.state[id], s'.phase[id], s'.checkedIn);
  }

  lemma ChangesOne(s: System, m: nat, st: ApicState, ph: Phase, n: nat)
    requires Shape(s) && m < |s.apics| && s.apics[m] in s.state && s.apics[m] in s.phase
    ensures ChangesOnly(s, s.(state := s.state[s.apics[m] := st], phase := s.phase[s.apics[m] := ph], checkedIn := n), m)
  {
    UpdateKeepsKeys(s.phase, s.apics[m], ph);
    UpdateKeepsKeys(s.state, s.apics[m], st);
  }

  lemma FindCore(s: System, id: nat) returns (m: nat)
    requires Shape(s) && (id in s.phase || id in s.state)
    ensures m < |s.apics| && s.apics[m] == id && id in s.phase && id in s.state
  {
    assert id in (set x | x in s.apics);
    m :| 0 <= m < |s.apics| && s.apics[m] == id;
  }

  lemma StartKeeps(s: System, s': System, id: nat)
    requires Inv(s) && (Start(s, s', id) || EnterKernel(s, s', id) || Mark(s, s', id))
    ensures Inv(s')
  {
    hide CountIn, Shape;
    var m := CoreStepChanges(s, s', id);
    assert Placed(s, m);
    CountSame(s, s', |s.apics|);
    forall i | 0 <= i < |s.apics| ensures Placed(s', i) {
      assert Placed(s, i);
    }
  }

  lemma CountKeeps(s: System, s': System, id: nat)
    requires Inv(s) && Count(s, s', id)
    ensures Inv(s')
  {
    hide Shape;
    var m := CoreStepChanges(s, s', id);
    CountOneMore(s, s', m, |s.apics|);
    assert CountIn(s, |s.apics|) <= |s.apics| - 1;
    assert |s.apics| <= 0xFFFF_FFFF by { ShapeBound(s); }
    hide CountIn;
    forall i | 0 <= i < |s.apics| ensures Placed(s', i) {
      assert Placed(s, i);
    }
  }

  lemma ShapeBound(s: System)
    requires Shape(s)
    ensures |s.apics| <= 0xFFFF_FFFF
  {
  }

  lemma LeaveKeeps(s: System, s': System, id: nat)
    requires Inv(s) && Leave(s, s', id)
    ensures Inv(s')
  {
    hide Shape, CountIn;
    var m := CoreStepChanges(s, s', id);
    CountSame(s, s', |s.apics|);
    forall i | 0 <= i < |s.apics| ensures Placed(s', i) {
      assert Placed(s, i);
    }
  }

  lemma {:induction false} RunKeepsInv(states: seq<System>, k: nat)
    requires Run(states) && k < |states|
    ensures Inv(states[k])
  {
    hide Inv;
    if k == 0 {
      InitInv(states[0]);
    } else {
      RunKeepsInv(states, k - 1);
      var s, s' := states[k - 1], states[k];
      assert Step(s, states[k - 1 + 1]);
      if Skip(s, s') || Launch(s, s') || SeeOnline(s, s') {
        LoopKeeps(s, s');
      } else {
        var id :| Start(s, s', id) || EnterKernel(s, s', id) || Mark(s, s', id) || Count(s, s', id) || Leave(s, s', id);
        if Count(s, s', id) { CountKeeps(s, s', id); }
        else if Leave(s, s', id) { LeaveKeeps(s, s', id); }
        else { StartKeeps(s, s', id); }
      }
    }
  }

  lemma InitInv(s: System)
    requires Init(s)
    ensures Inv(s)
  {
    CountNone(s, |s.apics|);
  }

  /** There is a run for every machine. */
  lemma EveryMachineStarts(apics: seq<nat>, bsp: nat) returns (s: System)
    requires 0 < |apics| <= 0xFFFF_FFFF && bsp in apics && forall i, j :: 0 <= i < j < |apics| ==> apics[i] != apics[j]
    ensures Run([s]) && s.apics == apics && s.bsp == bsp
  {
    s := System(apics, bsp, map id | id in apics :: if id == bsp then Online else Offline,
                map id | id in apics :: if id == bsp then InKernel else Dead, 0, false, 0);
  }

  /** The position of a core. */
  lemma PositionOf(s: System, id: nat) returns (i: nat)
    requires Inv(s) && (id in s.state || id in s.phase)
    ensures i < |s.apics| && s.apics[i] == id && id in s.state && id in s.phase && Placed(s, i)
  {
    hide CountIn;
    i := FindCore(s, id);
  }

  /* ---- What follows ---------------------------------------------------------------------------------------- */

  /** At most one core is ever launched, so the shared boot stack has one user at a time. */
  lemma OneLaunched(states: seq<System>, k: nat, a: nat, b: nat)
    requires Run(states) && k < |states| && a in states[k].state && b in states[k].state
    requires states[k].state[a] == Launched && states[k].state[b] == Launched
    ensures a == b
  {
    RunKeepsInv(states, k);
    var s := states[k];
    var i := PositionOf(s, a);
    var j := PositionOf(s, b);
  }

  lemma OneOnBootStack(states: seq<System>, k: nat, a: nat, b: nat)
    requires Run(states) && k < |states| && a in states[k].phase && b in states[k].phase
    requires states[k].phase[a] == OnBootStack && states[k].phase[b] == OnBootStack
    ensures a == b
  {
    RunKeepsInv(states, k);
    var s := states[k];
    var i := PositionOf(s, a);
    var j := PositionOf(s, b);
    OneLaunched(states, k, a, b);
  }

  /** A core only ever moves from Offline to Launched to Online. */
  ghost function Rank(st: ApicState): nat { if st == Offline then 0 else if st == Launched then 1 else 2 }

  lemma StatesOnlyAdvance(states: seq<System>, k: nat, id: nat)
    requires Run(states) && k + 1 < |states| && id in states[k].state
    ensures id in states[k + 1].state
    ensures var a, b := states[k].state[id], states[k + 1].state[id]; Rank(a) <= Rank(b) <= Rank(a) + 1
  {
    RunKeepsInv(states, k);
    var s, s' := states[k], states[k + 1];
    assert Step(s, s');
    hide Inv, Step;
    if Launch(s, s') {
      LaunchedWasOffline(s);
    } else if m :| Mark(s, s', m) {
      assert s'.state == s.state[m := Online];
    } else {
      OthersKeepStates(s, s');
    }
  }

  lemma OthersKeepStates(s: System, s': System)
    requires Step(s, s') && !Launch(s, s') && forall m :: !Mark(s, s', m)
    ensures s'.state == s.state
  {
    hide Mark, Launch;
  }

  /** The core that the loop launches next was offline. */
  lemma LaunchedWasOffline(s: System)
    requires Inv(s) && s.next < |s.apics| && !s.waiting && s.apics[s.next] != s.bsp
    ensures s.apics[s.next] in s.state && s.state[s.apics[s.next]] == Offline
  {
    hide CountIn;
    assert Placed(s, s.next);
    assert s.apics[s.next] in s.apics;
    assert s.apics[s.next] in s.state.Keys;
  }

  /** The barrier: nobody leaves before everybody has checked in, and the counter never passes the
      total, so that the inequality test of the spin loop cannot miss it. */
  lemma BarrierIsSafe(states: seq<System>, k: nat, a: nat, b: nat)
    requires Run(states) && k < |states| && a in states[k].phase && b in states[k].phase
    ensures states[k].checkedIn <= Total(states[k])
    ensures states[k].phase[a] == Left ==> CheckedIn(states[k].phase[b])
    ensures states[k].checkedIn == Total(states[k]) ==> CheckedIn(states[k].phase[b])
  {
    RunKeepsInv(states, k);
    var s := states[k];
    var i := PositionOf(s, a);
    var j := PositionOf(s, b);
    if s.checkedIn == Total(s) { CountFull(s, |s.apics|, j); }
  }

  /** Once full, the counter stays full: no core waits forever because it looked too late. */
  lemma FullStaysFull(states: seq<System>, k: nat)
    requires Run(states) && k + 1 < |states| && states[k].checkedIn == Total(states[k])
    ensures states[k + 1].checkedIn == Total(states[k + 1])
  {
    RunKeepsInv(states, k);
    var s, s' := states[k], states[k + 1];
    assert Step(s, s');
    if id :| Count(s, s', id) {
      BarrierIsSafe(states, k, id, id);
    }
  }

  /* ---- Everybody gets through ----------------------------------------------------------------------------- */

  function PhaseRank(p: Phase): nat {
    match p case Dead => 0 case OnBootStack => 1 case InKernel => 2 case Marked => 3 case Counted => 4 case Left => 5
  }

  /** How far the first `n` cores have come together. */
  ghost function Work(s: System, n: nat): (w: nat)
    requires n <= |s.apics|
    ensures w <= 5 * n
  {
    if n == 0 then 0 else Work(s, n - 1) + PhaseRank(PhaseOf(s, n - 1))
  }

  ghost function Progress(s: System): nat { 2 * s.next + (if s.waiting then 1 else 0) + Work(s, |s.apics|) }

  lemma {:induction false} WorkSame(s: System, s': System, n: nat)
    requires s'.apics == s.apics && s'.phase == s.phase && n <= |s.apics|
    ensures Work(s', n) == Work(s, n)
  {
    if n > 0 { WorkSame(s, s', n - 1); }
  }

  lemma {:induction false} WorkMore(s: System, s': System, m: nat, n: nat)
    requires s'.apics == s.apics && m < |s.apics| && n <= |s.apics|
    requires PhaseRank(PhaseOf(s, m)) < PhaseRank(PhaseOf(s', m))
    requires forall i :: 0 <= i < |s.apics| && i != m ==> PhaseOf(s', i) == PhaseOf(s, i)
    ensures Work(s', n) >= Work(s, n) + if m < n then 1 else 0
  {
    if n > 0 { WorkMore(s, s', m, n - 1); }
  }

  lemma StepAdvances(s: System, s': System)
    requires Inv(s) && Step(s, s')
    ensures Progress(s') > Progress(s) && s'.apics == s.apics
  {
    hide CountIn, Work, Placed;
    if Skip(s, s') || Launch(s, s') || SeeOnline(s, s') {
      WorkSame(s, s', |s.apics|);
    } else {
      var id :| Start(s, s', id) || EnterKernel(s, s', id) || Mark(s, s', id) || Count(s, s', id) || Leave(s, s', id);
      var m := CoreStepChanges(s, s', id);
      WorkMore(s, s', m, |s.apics|);
    }
  }

  lemma {:induction false} RunAdvances(states: seq<System>, k: nat)
    requires Run(states) && k < |states|
    ensures k <= Progress(states[k]) && states[k].apics == states[0].apics
  {
    hide Inv, Step, Progress;
    if k > 0 {
      RunAdvances(states, k - 1);
      RunKeepsInv(states, k - 1);
      assert Step(states[k - 1], states[k - 1 + 1]);
      StepAdvances(states[k - 1], states[k]);
    }
  }

  /** The cores cannot go on forever: a run has at most seven steps for each core. */
  lemma RunIsBounded(states: seq<System>)
    requires Run(states)
    ensures |states| <= 7 * |states[0].apics| + 1
  {
    RunAdvances(states, |states| - 1);
    RunKeepsInv(states, |states| - 1);
  }

  /** And they do not stop halfway: as long as one of them has not left the barrier, some step can be taken. */
  lemma NeverStuck(states: seq<System>, k: nat, i: nat) returns (s': System)
    requires Run(states) && k < |states| && i < |states[k].apics| && PhaseOf(states[k], i) != Left
    ensures Step(states[k], s')
  {
    hide Inv, Run;
    RunKeepsInv(states, k);
    var s := states[k];
    if s.next < |s.apics| {
      s' := LoopCanGoOn(s);
    } else {
      s' := BarrierCanGoOn(s, i);
    }
  }

  lemma KnownCore(s: System, i: nat)
    requires Inv(s) && i < |s.apics|
    ensures s.apics[i] in s.state && s.apics[i] in s.phase && Placed(s, i)
  {
    hide CountIn;
    assert s.apics[i] in s.apics;
    assert s.apics[i] in s.state.Keys && s.apics[i] in s.phase.Keys;
  }

  lemma LoopCanGoOn(s: System) returns (s': System)
    requires Inv(s) && s.next < |s.apics|
    ensures Step(s, s')
  {
    KnownCore(s, s.next);
    hide CountIn;
    var id := s.apics[s.next];
    if !s.waiting && id == s.bsp {
      s' := s.(next := s.next + 1);
      assert Skip(s, s');
    } else if !s.waiting {
      s' := s.(state := s.state[id := Launched], waiting := true);
      assert Launch(s, s');
    } else if s.state[id] == Online {
      s' := s.(next := s.next + 1, waiting := false);
      assert SeeOnline(s, s');
    } else if s.phase[id] == Dead {
      s' := s.(phase := s.phase[id := OnBootStack]);
      assert Start(s, s', id);
    } else if s.phase[id] == OnBootStack {
      s' := s.(phase := s.phase[id := InKernel]);
      assert EnterKernel(s, s', id);
    } else {
      s' := MarkIt(s, id);
    }
  }

  lemma MarkIt(s: System, id: nat) returns (s': System)
    requires id in s.phase && id in s.state && s.phase[id] == InKernel && (id == s.bsp ==> s.next == |s.apics|)
    requires s.state[id] == if id == s.bsp then Online else Launched
    ensures Step(s, s')
  {
    s' := s.(state := s.state[id := Online], phase := s.phase[id := Marked]);
    assert Mark(s, s', id);
  }

  /** When the loop is through, every core is on its way through the barrier. */
  lemma BarrierCanGoOn(s: System, i: nat) returns (s': System)
    requires Inv(s) && s.next >= |s.apics| && i < |s.apics| && PhaseOf(s, i) != Left
    ensures Step(s, s')
  {
    hide Step;
    KnownCore(s, i);
    var id := s.apics[i];
    if CheckedIn(s.phase[id]) && s.checkedIn == Total(s) {
      s' := s.(phase := s.phase[id := Left]);
      assert Leave(s, s', id);
      LeaveIsStep(s, s', id);
    } else if CheckedIn(s.phase[id]) {
      var j := SomeoneIsMissing(s, |s.apics|);
      s' := CheckInCanGoOn(s, j);
    } else {
      s' := CheckInCanGoOn(s, i);
    }
  }

  lemma LeaveIsStep(s: System, s': System, id: nat)
    requires Leave(s, s', id)
    ensures Step(s, s')
  {
  }

  lemma CheckInCanGoOn(s: System, i: nat) returns (s': System)
    requires Inv(s) && s.next == |s.apics| && i < |s.apics| && !CheckedIn(PhaseOf(s, i))
    ensures Step(s, s')
  {
    KnownCore(s, i);
    hide CountIn;
    var id := s.apics[i];
    if s.phase[id] == Marked {
      s' := s.(checkedIn := (s.checkedIn + 1) % 0x1_0000_0000, phase := s.phase[id := Counted]);
      assert Count(s, s', id);
    } else {
      s' := MarkIt(s, id);
    }
  }

  lemma {:induction false} SomeoneIsMissing(s: System, n: nat) returns (j: nat)
    requires n <= |s.apics| && CountIn(s, n) < n
    ensures j < n && !CheckedIn(PhaseOf(s, j))
  {
    j := n - 1;
    if CheckedIn(PhaseOf(s, n - 1)) { j := SomeoneIsMissing(s, n - 1); }
  }

  /** The assertions of `check_in` hold: a core that reaches it is in the state it expects. */
  lemma CheckInStateIsExpected(states: seq<System>, k: nat, id: nat)
    requires Run(states) && k < |states| && id in states[k].phase && states[k].phase[id] == InKernel
    ensures id in states[k].state && states[k].state[id] == if id == states[k].bsp then Online else Launched
  {
    RunKeepsInv(states, k);
    var s := states[k];
    var i := PositionOf(s, id);
  }
}
