/** The ticket spinlock (shared/spinlock/src/lib.rs) as a transition system over any number of
    processors, with counters that wrap around at 64 bits, and its refinement of a plain queue. */
module TicketLocks {
  import opened Machine

  const WORD := 0x1_0000_0000_0000_0000

  /** What a processor is doing with the lock, and with which ticket. */
  datatype Phase = Idle | Waiting(ticket: u64) | Holding(ticket: u64)

  datatype Lock = Lock(ticket: u64, release: u64, phase: map<nat, Phase>)

  function Next(t: u64): u64 { (t + 1) % WORD }

  /** `lock`: draw a ticket. */
  ghost predicate Draw(l: Lock, l': Lock, p: nat) {
    && p in l.phase && l.phase[p].Idle?
    && l' == Lock(Next(l.ticket), l.release, l.phase[p := Waiting(l.ticket)])
  }

  /** `lock`: the spin loop ends because the ticket is up. */
  ghost predicate Enter(l: Lock, l': Lock, p: nat) {
    && p in l.phase && l.phase[p] == Waiting(l.release)
    && l' == l.(phase := l.phase[p := Holding(l.release)])
  }

  /** Dropping the guard. */
  ghost predicate Release(l: Lock, l': Lock, p: nat) {
    && p in l.phase && l.phase[p].Holding?
    && l' == Lock(l.ticket, Next(l.release), l.phase[p := Idle])
  }

  ghost predicate Step(l: Lock, l': Lock) {
    exists p :: Draw(l, l', p) || Enter(l, l', p) || Release(l, l', p)
  }

  ghost predicate Init(l: Lock) {
    && l.ticket == 0 && l.release == 0 && |l.phase.Keys| < WORD
    && forall p :: p in l.phase ==> l.phase[p].Idle?
  }

  ghost predicate Run(states: seq<Lock>) {
    && |states| > 0 && Init(states[0])
    && forall i :: 0 <= i < |states| - 1 ==> Step(states[i], states[i + 1])
  }

  /** There is a run for every set of processors that the counters can tell apart. */
  lemma EveryLockStarts(processors: set<nat>) returns (l: Lock)
    requires |processors| < WORD
    ensures Run([l]) && l.phase.Keys == processors
  {
    l := Lock(0, 0, map p | p in processors :: Idle);
    assert l.phase.Keys == processors;
  }

  /* ---- The queue it refines ---------------------------------------------------------------------- */

  /** Processors in order of arrival; `entered` says whether the first one holds the lock. */
  datatype Queue<T> = Queue(order: seq<T>, entered: bool)

  ghost predicate QueueStep(q: Queue<nat>, q': Queue<nat>, p: nat) {
    || (p !in q.order && q' == Queue(q.order + [p], q.entered))
    || (q.order != [] && p == q.order[0] && !q.entered && q' == Queue(q.order, true))
    || (q.order != [] && p == q.order[0] && q.entered && q' == Queue(q.order[1..], false))
  }

  /** The ticket `i` places behind the one being served. */
  function TicketAt(release: u64, i: nat): u64 { (release + i) % WORD }

  /** The processors that are not idle are exactly those in the queue, the one at position `i` owns
      the ticket `release + i`, and only the first may hold the lock. */
  ghost predicate Refines(l: Lock, q: Queue<nat>) {
    && |l.phase.Keys| < WORD && |q.order| <= |l.phase.Keys|
    && (forall i, j :: 0 <= i < j < |q.order| ==> q.order[i] != q.order[j])
    && (forall p :: p in l.phase && !l.phase[p].Idle? ==> p in q.order)
    && (forall i :: 0 <= i < |q.order| ==>
          q.order[i] in l.phase &&
          l.phase[q.order[i]] == if i == 0 && q.entered then Holding(TicketAt(l.release, 0)) else Waiting(TicketAt(l.release, i)))
    && (q.entered ==> q.order != [])
    && l.ticket == TicketAt(l.release, |q.order|)
  }

  /** Distinct positions below the word size have distinct tickets. */
  lemma TicketsDistinct(release: u64, i: nat, j: nat)
    requires i < WORD && j < WORD && TicketAt(release, i) == TicketAt(release, j)
    ensures i == j
  {
  }

  lemma TicketShift(release: u64, i: nat)
    ensures TicketAt(Next(release), i) == TicketAt(release, i + 1)
  {
  }

  lemma NextTicket(release: u64, i: nat)
    ensures Next(TicketAt(release, i)) == TicketAt(release, i + 1)
  {
  }

  lemma {:induction false} DistinctCount<T>(s: seq<T>, keys: set<T>)
    requires forall i, j :: 0 <= i < j < |s| ==> s[i] != s[j]
    requires forall i :: 0 <= i < |s| ==> s[i] in keys
    ensures |s| <= |keys|
  {
    if s != [] {
      var n := |s| - 1;
      assert forall i :: 0 <= i < n ==> s[i] != s[n];
      DistinctCount(s[..n], keys - {s[n]});
    }
  }

  /** The distance of a ticket from being served, computed with wrap-around. */
  function Distance(release: u64, t: u64): nat { (t - release) % WORD }

  lemma DistanceIs(release: u64, i: nat)
    requires i < WORD
    ensures Distance(release, TicketAt(release, i)) == i
  {
  }

  lemma TicketOf(release: u64, t: u64)
    ensures Distance(release, t) < WORD && TicketAt(release, Distance(release, t)) == t
  {
  }

  lemma DrawRefines(l: Lock, l': Lock, q: Queue<nat>, p: nat)
    requires Refines(l, q) && Draw(l, l', p)
    ensures var q' := Queue(q.order + [p], q.entered); p !in q.order && Refines(l', q')
  {
    var q' := Queue(q.order + [p], q.entered);
    assert l'.phase.Keys == l.phase.Keys;
    assert p !in q.order;
    DistinctCount(q'.order, l.phase.Keys);
    NextTicket(l.release, |q.order|);
    forall i: nat ensures TicketAt(l'.release, i) == TicketAt(l.release, i) {}
    hide TicketAt, Next;
  }

  lemma EnterRefines(l: Lock, l': Lock, q: Queue<nat>, p: nat)
    requires Refines(l, q) && Enter(l, l', p)
    ensures q.order != [] && p == q.order[0] && !q.entered && Refines(l', Queue(q.order, true))
  {
    assert l'.phase.Keys == l.phase.Keys;
    var i :| 0 <= i < |q.order| && q.order[i] == p;
    assert l.release == TicketAt(l.release, 0);
    assert l.phase[q.order[i]] == Waiting(TicketAt(l.release, i));
    TicketsDistinct(l.release, i, 0);
    forall i: nat ensures TicketAt(l'.release, i) == TicketAt(l.release, i) {}
  }

  lemma ReleaseRefines(l: Lock, l': Lock, q: Queue<nat>, p: nat)
    requires Refines(l, q) && Release(l, l', p)
    ensures q.order != [] && p == q.order[0] && q.entered && Refines(l', Queue(q.order[1..], false))
  {
    hide TicketAt, Next;
    assert l'.phase.Keys == l.phase.Keys;
    var i :| 0 <= i < |q.order| && q.order[i] == p;
    assert i == 0;
    var rest := q.order[1..];
    forall i | 0 <= i < |rest| ensures rest[i] in l'.phase && l'.phase[rest[i]] == Waiting(TicketAt(l'.release, i)) {
      assert rest[i] == q.order[i + 1] && rest[i] != p;
      TicketShift(l.release, i);
    }
    TicketShift(l.release, |rest|);
    OthersStay(l, l', q, p);
  }

  /** Whoever is not idle after a release was in the queue behind its head. */
  lemma OthersStay(l: Lock, l': Lock, q: Queue<nat>, p: nat)
    requires Refines(l, q) && Release(l, l', p) && q.order != [] && p == q.order[0]
    ensures forall r :: r in l'.phase && !l'.phase[r].Idle? ==> r in q.order[1..]
  {
    hide TicketAt, Next;
    assert q.order == [p] + q.order[1..];
  }

  /** Every step of the lock is a step of the queue. */
  lemma StepRefines(l: Lock, l': Lock, q: Queue<nat>)
    requires Refines(l, q) && Step(l, l')
    ensures exists q', p :: QueueStep(q, q', p) && Refines(l', q')
  {
    hide Refines;
    var p :| Draw(l, l', p) || Enter(l, l', p) || Release(l, l', p);
    if Draw(l, l', p) {
      DrawRefines(l, l', q, p);
      assert QueueStep(q, Queue(q.order + [p], q.entered), p);
    } else if Enter(l, l', p) {
      EnterRefines(l, l', q, p);
      assert QueueStep(q, Queue(q.order, true), p);
    } else {
      ReleaseRefines(l, l', q, p);
      assert QueueStep(q, Queue(q.order[1..], false), p);
    }
  }

  lemma {:induction false} RunRefines(states: seq<Lock>, k: nat) returns (q: Queue<nat>)
    requires Run(states) && k < |states|
    ensures Refines(states[k], q)
  {
    if k == 0 {
      q := Queue([], false);
    } else {
      var q0 := RunRefines(states, k - 1);
      assert Step(states[k - 1], states[k - 1 + 1]);
      StepRefines(states[k - 1], states[k], q0);
      q :| (exists p :: QueueStep(q0, q, p)) && Refines(states[k], q);
    }
  }

  /* ---- What follows for the lock ------------------------------------------------------------------ */

  /** Mutual exclusion in every reachable state, whatever the counters wrap to. */
  lemma MutualExclusion(states: seq<Lock>, k: nat, p: nat, r: nat)
    requires Run(states) && k < |states|
    requires p in states[k].phase && states[k].phase[p].Holding? && r in states[k].phase && states[k].phase[r].Holding?
    ensures p == r
  {
    var q := RunRefines(states, k);
    var i :| 0 <= i < |q.order| && q.order[i] == p;
    var j :| 0 <= j < |q.order| && q.order[j] == r;
  }

  /** Outstanding tickets have distinct owners and lie in the window from `release` to `ticket`. */
  lemma TicketWindow(states: seq<Lock>, k: nat, p: nat, r: nat)
    requires Run(states) && k < |states|
    requires var l := states[k]; p in l.phase && !l.phase[p].Idle? && r in l.phase && !l.phase[r].Idle?
    ensures var l := states[k];
      && Distance(l.release, l.phase[p].ticket) < Distance(l.release, l.ticket)
      && (l.phase[p].ticket == l.phase[r].ticket ==> p == r)
  {
    var l := states[k];
    var q := RunRefines(states, k);
    var i :| 0 <= i < |q.order| && q.order[i] == p;
    var j :| 0 <= j < |q.order| && q.order[j] == r;
    assert l.phase[p].ticket == TicketAt(l.release, i) && l.phase[r].ticket == TicketAt(l.release, j);
    DistanceIs(l.release, i);
    DistanceIs(l.release, |q.order|);
    if l.phase[p].ticket == l.phase[r].ticket { TicketsDistinct(l.release, i, j); }
  }

  /** Every ticket of the window is outstanding: no number between `release` and `ticket` is lost. */
  lemma WindowIsFull(states: seq<Lock>, k: nat, d: nat) returns (p: nat)
    requires Run(states) && k < |states| && d < Distance(states[k].release, states[k].ticket)
    ensures var l := states[k]; p in l.phase && !l.phase[p].Idle? && Distance(l.release, l.phase[p].ticket) == d
  {
    var q := RunRefines(states, k);
    DistanceIs(states[k].release, |q.order|);
    p := q.order[d];
    DistanceIs(states[k].release, d);
  }

  /** A release brings every waiter one step closer; the one at distance one becomes next. */
  lemma ReleaseBringsCloser(states: seq<Lock>, k: nat, l': Lock, p: nat, r: nat)
    requires Run(states) && k < |states| && Release(states[k], l', p)
    requires r in states[k].phase && states[k].phase[r].Waiting?
    ensures r in l'.phase && l'.phase[r] == states[k].phase[r]
    ensures Distance(l'.release, l'.phase[r].ticket) == Distance(states[k].release, states[k].phase[r].ticket) - 1
  {
    hide TicketAt, Next, Distance;
    var l := states[k];
    var q := RunRefines(states, k);
    ReleaseRefines(l, l', q, p);
    var i :| 0 <= i < |q.order| && q.order[i] == r;
    assert i > 0;
    DistanceIs(l.release, i);
    DistanceIs(l'.release, i - 1);
    TicketShift(l.release, i - 1);
  }

  /** First come, first served: a processor that enters has the longest outstanding ticket. */
  lemma FirstComeFirstServed(states: seq<Lock>, k: nat, l': Lock, p: nat, r: nat)
    requires Run(states) && k < |states| && Enter(states[k], l', p)
    requires r in states[k].phase && states[k].phase[r].Waiting? && r != p
    ensures Distance(states[k].release, states[k].phase[p].ticket) == 0 < Distance(states[k].release, states[k].phase[r].ticket)
  {
    var l := states[k];
    TicketWindow(states, k, p, r);
    DistanceIs(l.release, 0);
  }

  /** The lock is never stuck: if anybody has a ticket, somebody holds the lock or can enter. */
  lemma NeverStuck(states: seq<Lock>, k: nat, p: nat) returns (r: nat)
    requires Run(states) && k < |states| && p in states[k].phase && !states[k].phase[p].Idle?
    ensures var l := states[k]; r in l.phase && (l.phase[r].Holding? || l.phase[r] == Waiting(l.release))
  {
    var q := RunRefines(states, k);
    r := q.order[0];
  }
}
