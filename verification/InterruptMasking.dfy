/** Spinlocks that mask interrupts, together with nested interrupt disabling and maskable interrupts,
    on any number of cores (shared/spinlock/src/lib.rs, kernel/src/core_locals.rs,
    kernel/src/interrupts/interrupts.rs), one atomic action per step. Locks are the wrapping ticket
    counters themselves; the queue beside them is history that no step looks at.

    Exceptions and non-maskable interrupts are excluded: the source lets them break the locks. */
module InterruptMasking {
  import opened Machine
  import opened TicketLocks

  /** Where a piece of running code stands inside `lock`, the guard's `drop`, `disable_interrupts`,
      `enable_interrupts` or the interrupt entry code. */
  datatype Pc =
    | Running
    | Counted(lock: nat)   // `enter_lock` has counted its request but not masked yet
    | Drawing(lock: nat)   // about to draw a ticket
    | Queued(lock: nat, ticket: u64) // spinning until the ticket is up
    | Released             // the guard has released the lock, `exit_lock` is still to come
    | CountedRaw           // an explicit `disable_interrupts` has counted but not masked yet
    | Uncounted(was: nat)  // `enable_interrupts` has subtracted from `was` but not tested yet
    | Arriving             // interrupt entry, before the depth is raised
    | Departing            // interrupt exit, after the depth is lowered

  /** One piece of code on a core: the locks it holds and its explicit disable requests. */
  datatype Context = Context(held: set<nat>, raw: nat, pc: Pc)

  /** A core runs `top`; `below` are the contexts it interrupted, outermost first. */
  datatype Core = Core(below: seq<Context>, top: Context, flag: bool, requests: nat, depth: nat)

  /** Ownership of a ticket: core and nesting level of the context that drew it. */
  datatype Owner = Owner(core: nat, level: nat)

  /** The two counters of a lock, and the owners of its outstanding tickets in order. */
  datatype Spin = Spin(ticket: u64, release: u64, queue: Queue<Owner>)

  datatype System = System(cores: map<nat, Core>, locks: map<nat, Spin>, noPreempt: set<nat>)

  function LockOf(s: System, l: nat): Spin { if l in s.locks then s.locks[l] else Spin(0, 0, Queue([], false)) }

  function OrderOf(s: System, l: nat): seq<Owner> { LockOf(s, l).queue.order }

  /* ---- Steps of one core ------------------------------------------------------------------------ */

  /** `lock`: a no-preempt lock counts a disable request; any other lock must not be taken in an
      interrupt, or the source panics. */
  ghost predicate LockStart(np: set<nat>, c: Core, c': Core, l: nat) {
    && c.top.pc.Running?
    && if l in np then c' == c.(requests := c.requests + 1, top := c.top.(pc := Counted(l)))
       else c.depth == 0 && c' == c.(top := c.top.(pc := Drawing(l)))
  }

  ghost predicate Mask(c: Core, c': Core) {
    || (c.top.pc.Counted? && c' == c.(flag := false, top := c.top.(pc := Drawing(c.top.pc.lock))))
    || (c.top.pc.CountedRaw? && c' == c.(flag := false, top := c.top.(raw := c.top.raw + 1, pc := Running)))
  }

  /** An explicit `disable_interrupts`. */
  ghost predicate RawDisable(c: Core, c': Core) {
    c.top.pc.Running? && c' == c.(requests := c.requests + 1, top := c.top.(pc := CountedRaw))
  }

  /** The first half of `enable_interrupts`, explicit or from `exit_lock`. */
  ghost predicate Uncount(c: Core, c': Core) {
    && c.requests > 0
    && (c.top.pc.Released? || (c.top.pc.Running? && c.top.raw > 0))
    && c' == c.(requests := c.requests - 1,
                top := c.top.(raw := if c.top.pc.Released? then c.top.raw else c.top.raw - 1, pc := Uncounted(c.requests)))
  }

  /** The second half: unmask when this was the last request and no interrupt is being handled. */
  ghost predicate TestUnmask(c: Core, c': Core) {
    && c.top.pc.Uncounted?
    && c' == c.(flag := c.flag || (c.depth == 0 && c.top.pc.was == 1), top := c.top.(pc := Running))
  }

  /** A maskable interrupt; the interrupt gate masks further ones. */
  ghost predicate Interrupt(c: Core, c': Core) {
    c.flag && c' == c.(below := c.below + [c.top], top := Context({}, 0, Arriving), flag := false)
  }

  ghost predicate EnterHandler(c: Core, c': Core) {
    c.top.pc.Arriving? && c' == c.(depth := c.depth + 1, top := c.top.(pc := Running))
  }

  /** The handler has dropped its guards; the depth guard goes last. */
  ghost predicate LeaveHandler(c: Core, c': Core) {
    && c.below != [] && c.top == Context({}, 0, Running) && c.depth > 0
    && c' == c.(depth := c.depth - 1, top := c.top.(pc := Departing))
  }

  /** IRET restores the flag that was saved when the interrupt was taken. */
  ghost predicate Iret(c: Core, c': Core) {
    && c.below != [] && c.top.pc.Departing?
    && c' == c.(below := c.below[..|c.below| - 1], top := c.below[|c.below| - 1], flag := true)
  }

  ghost predicate LocalStep(np: set<nat>, c: Core, c': Core) {
    || (exists l :: LockStart(np, c, c', l))
    || Mask(c, c') || RawDisable(c, c') || Uncount(c, c') || TestUnmask(c, c')
    || Interrupt(c, c') || EnterHandler(c, c') || LeaveHandler(c, c') || Iret(c, c')
  }

  /* ---- Steps that touch a lock --------------------------------------------------------------------- */

  function Self(id: nat, c: Core): Owner { Owner(id, |c.below|) }

  ghost predicate Draw(s: System, s': System, id: nat, l: nat) {
    && id in s.cores && s.cores[id].top.pc == Drawing(l)
    && var c, k := s.cores[id], LockOf(s, l);
      s' == s.(cores := s.cores[id := c.(top := c.top.(pc := Queued(l, k.ticket)))],
               locks := s.locks[l := Spin(Next(k.ticket), k.release, Queue(k.queue.order + [Self(id, c)], k.queue.entered))])
  }

  /** The spin loop ends when `release` shows the ticket. */
  ghost predicate Acquire(s: System, s': System, id: nat, l: nat) {
    && id in s.cores && s.cores[id].top.pc == Queued(l, LockOf(s, l).release)
    && var c, k := s.cores[id], LockOf(s, l);
      s' == s.(cores := s.cores[id := c.(top := c.top.(pc := Running, held := c.top.held + {l}))],
               locks := s.locks[l := k.(queue := Queue(k.queue.order, true))])
  }

  ghost predicate Unlock(s: System, s': System, id: nat, l: nat) {
    && id in s.cores && s.cores[id].top.pc == Running && l in s.cores[id].top.held
    && var c, k := s.cores[id], LockOf(s, l);
      s' == s.(cores := s.cores[id := c.(top := c.top.(pc := if l in s.noPreempt then Released else Running,
                                                       held := c.top.held - {l}))],
               locks := s.locks[l := Spin(k.ticket, Next(k.release), Queue(Rest(k.queue.order), false))])
  }

  function Rest<T>(order: seq<T>): seq<T> { if order == [] then [] else order[1..] }

  ghost predicate Step(s: System, s': System) {
    || (exists id, c' :: id in s.cores && LocalStep(s.noPreempt, s.cores[id], c') && s' == s.(cores := s.cores[id := c']))
    || (exists id, l :: Draw(s, s', id, l) || Acquire(s, s', id, l) || Unlock(s, s', id, l))
  }

  /** Every core starts with interrupts off and one outstanding explicit request. */
  ghost predicate Init(s: System) {
    && s.locks == map[] && 2 * |s.cores| + 2 < WORD
    && forall id :: id in s.cores ==> s.cores[id] == Core([], Context({}, 1, Running), false, 1, 0)
  }

  ghost predicate Run(states: seq<System>) {
    && |states| > 0 && Init(states[0])
    && forall i :: 0 <= i < |states| - 1 ==> Step(states[i], states[i + 1])
  }

  /* ---- The invariant of a core -------------------------------------------------------------------- */

  /** The code at `pc` stands in `lock` or `drop` of a no-preempt lock, with interrupts masked. */
  ghost predicate InsideMasked(np: set<nat>, pc: Pc) {
    match pc
    case Drawing(l) => l in np
    case Queued(l, _) => l in np
    case Released => true
    case _ => false
  }

  /** Requests that a context has counted and not yet given back. */
  ghost function Outstanding(np: set<nat>, x: Context): nat {
    |x.held * np| + x.raw + if x.pc.Counted? || x.pc.CountedRaw? || InsideMasked(np, x.pc) then 1 else 0
  }

  ghost function Total(np: set<nat>, xs: seq<Context>): nat {
    if xs == [] then 0 else Total(np, xs[..|xs| - 1]) + Outstanding(np, xs[|xs| - 1])
  }

  /** Code that an interrupt may hit: it neither holds nor queues for a no-preempt lock. */
  ghost predicate Interruptible(np: set<nat>, x: Context) {
    && x.held !! np && x.raw == 0 && !InsideMasked(np, x.pc)
    && !x.pc.Uncounted? && !x.pc.Arriving? && !x.pc.Departing?
    && CountsMasking(np, x)
  }

  /** Only no-preempt locks count a request. */
  ghost predicate CountsMasking(np: set<nat>, x: Context) { x.pc.Counted? ==> x.pc.lock in np }

  ghost predicate InHandler(x: Context) { !x.pc.Arriving? && !x.pc.Departing? }

  ghost predicate CoreInv(np: set<nat>, c: Core) {
    && c.requests == Total(np, c.below) + Outstanding(np, c.top)
    && (forall i :: 0 <= i < |c.below| ==> Interruptible(np, c.below[i]))
    && (c.flag ==> Interruptible(np, c.top)) && CountsMasking(np, c.top)
    && |c.below| <= 1 && (c.flag ==> c.below == [])
    && c.depth == (if c.below != [] && InHandler(c.top) then 1 else 0)
    && (c.below == [] ==> InHandler(c.top))
    && (c.top.pc.Uncounted? ==> c.requests == c.top.pc.was - 1)
    && (!InHandler(c.top) ==> c.top.held == {} && c.top.raw == 0)
    && (c.below != [] && (c.top.pc.Drawing? || c.top.pc.Queued?) ==> c.top.pc.lock in np)
    && (c.below == [] && c.requests == 0 && !c.top.pc.Uncounted? ==> c.flag)
  }

  lemma OutstandingNone(np: set<nat>, x: Context)
    requires Outstanding(np, x) == 0 && InHandler(x) && !x.pc.Uncounted?
    ensures Interruptible(np, x)
  {
    assert x.held * np == {};
    assert forall l :: l in x.held && l in np ==> l in x.held * np;
  }

  lemma InterruptKeeps(np: set<nat>, c: Core, c': Core)
    requires CoreInv(np, c) && (Interrupt(c, c') || Iret(c, c'))
    ensures CoreInv(np, c')
  {
    if Interrupt(c, c') {
      assert c'.below[..|c'.below| - 1] == c.below;
      assert c'.top.held * np == {};
    } else {
      assert c.below == c'.below + [c'.top];
      assert c.top.held * np == {};
    }
  }

  /** Unmasking happens only when no request is outstanding on the core at all. */
  lemma UnmaskKeeps(np: set<nat>, c: Core, c': Core)
    requires CoreInv(np, c) && TestUnmask(c, c')
    ensures CoreInv(np, c')
  {
    assert c.top.held * np == c'.top.held * np;
    if c.depth == 0 && c.top.pc.was == 1 {
      assert c.below == [];
      OutstandingNone(np, c'.top);
    }
  }

  lemma CountingKeeps(np: set<nat>, c: Core, c': Core, l: nat)
    requires CoreInv(np, c) && (LockStart(np, c, c', l) || RawDisable(c, c'))
    ensures CoreInv(np, c')
  {
    hide Total;
    assert c'.top.held == c.top.held && c'.below == c.below;
  }

  lemma MaskKeeps(np: set<nat>, c: Core, c': Core)
    requires CoreInv(np, c) && Mask(c, c')
    ensures CoreInv(np, c')
  {
    hide Total;
    assert c'.top.held == c.top.held && c'.below == c.below;
  }

  lemma UncountKeeps(np: set<nat>, c: Core, c': Core)
    requires CoreInv(np, c) && Uncount(c, c')
    ensures CoreInv(np, c')
  {
    hide Total;
    assert c'.top.held == c.top.held && c'.below == c.below;
  }

  lemma HandlerKeeps(np: set<nat>, c: Core, c': Core)
    requires CoreInv(np, c) && (EnterHandler(c, c') || LeaveHandler(c, c'))
    ensures CoreInv(np, c')
  {
    hide Total;
    assert c'.top.held == c.top.held && c'.below == c.below;
  }

  lemma LocalKeeps(np: set<nat>, c: Core, c': Core)
    requires CoreInv(np, c) && LocalStep(np, c, c')
    ensures CoreInv(np, c')
  {
    hide CoreInv, Interrupt, Iret, TestUnmask, Mask, RawDisable, Uncount, EnterHandler, LeaveHandler, LockStart;
    if Interrupt(c, c') || Iret(c, c') {
      InterruptKeeps(np, c, c');
    } else if TestUnmask(c, c') {
      UnmaskKeeps(np, c, c');
    } else if Mask(c, c') {
      MaskKeeps(np, c, c');
    } else if Uncount(c, c') {
      UncountKeeps(np, c, c');
    } else if EnterHandler(c, c') || LeaveHandler(c, c') {
      HandlerKeeps(np, c, c');
    } else if RawDisable(c, c') {
      CountingKeeps(np, c, c', 0);
    } else {
      var l :| LockStart(np, c, c', l);
      CountingKeeps(np, c, c', l);
    }
  }

  /* ---- The invariant of the whole system -------------------------------------------------------------- */

  function ContextAt(c: Core, level: nat): Context
    requires level <= |c.below|
  {
    if level < |c.below| then c.below[level] else c.top
  }

  ghost predicate Exists(s: System, o: Owner) { o.core in s.cores && o.level <= |s.cores[o.core].below| }

  /** The context `o` is spinning for lock `l` with ticket `t`. */
  ghost predicate Waits(s: System, l: nat, o: Owner, t: u64) {
    Exists(s, o) && ContextAt(s.cores[o.core], o.level).pc == Queued(l, t)
  }

  /** The context `o` holds lock `l`. */
  ghost predicate HoldsLock(s: System, l: nat, o: Owner) {
    Exists(s, o) && l in ContextAt(s.cores[o.core], o.level).held
  }

  /** Position of the first ticket that is still waiting. */
  function FirstWaiting<T>(q: Queue<T>): nat { if q.entered then 1 else 0 }

  /** The outstanding tickets are those from `release` to `ticket`, in the order of their owners. Every
      waiting one belongs to a different spinning context, and the one context that holds the lock is
      the owner of an entered lock's first ticket. */
  ghost predicate LockInv(s: System, l: nat) {
    var k, q := LockOf(s, l), LockOf(s, l).queue;
    && |q.order| < WORD && k.ticket == TicketAt(k.release, |q.order|)
    && (q.entered ==> q.order != [] && HoldsLock(s, l, q.order[0]))
    && (forall i :: FirstWaiting(q) <= i < |q.order| ==> Waits(s, l, q.order[i], TicketAt(k.release, i)))
    && (forall i, j :: FirstWaiting(q) <= i < j < |q.order| ==> q.order[i] != q.order[j])
    && (forall o, t :: Waits(s, l, o, t) ==> WaitsAt(q, o, Distance(k.release, t)))
    && (forall o :: HoldsLock(s, l, o) ==> q.entered && q.order[0] == o)
  }

  ghost predicate WaitsAt(q: Queue<Owner>, o: Owner, i: int) { FirstWaiting(q) <= i < |q.order| && q.order[i] == o }

  ghost predicate Inv(s: System) {
    && 2 * |s.cores| + 2 < WORD
    && (forall id :: id in s.cores ==> CoreInv(s.noPreempt, s.cores[id]))
    && (forall l :: LockInv(s, l))
  }

  /** A local step changes nobody's standing with any lock. */
  lemma LocalStanding(s: System, s': System, id: nat, c': Core, l: nat, o: Owner)
    requires id in s.cores && CoreInv(s.noPreempt, s.cores[id]) && LocalStep(s.noPreempt, s.cores[id], c')
    requires s' == s.(cores := s.cores[id := c'])
    ensures forall t :: Waits(s', l, o, t) <==> Waits(s, l, o, t)
    ensures HoldsLock(s', l, o) <==> HoldsLock(s, l, o)
  {
    hide Total, Outstanding, Interruptible;
  }

  /** Who waits for lock `l` with which ticket, and who holds it, is the same in both states. */
  ghost predicate SameStanding(s: System, s': System, l: nat) {
    && (forall o, t :: Waits(s', l, o, t) <==> Waits(s, l, o, t))
    && (forall o :: HoldsLock(s', l, o) <==> HoldsLock(s, l, o))
  }

  lemma SameStandingKeeps(s: System, s': System, l: nat)
    requires LockInv(s, l) && SameStanding(s, s', l) && LockOf(s', l) == LockOf(s, l)
    ensures LockInv(s', l)
  {
    hide Waits, HoldsLock, TicketAt, Distance;
  }

  lemma LocalKeepsLock(s: System, s': System, id: nat, c': Core, l: nat)
    requires Inv(s) && id in s.cores && LocalStep(s.noPreempt, s.cores[id], c') && s' == s.(cores := s.cores[id := c'])
    ensures LockInv(s', l)
  {
    hide CoreInv, LocalStep, LockInv, Waits, HoldsLock;
    assert LockInv(s, l);
    forall o, t ensures Waits(s', l, o, t) <==> Waits(s, l, o, t) { LocalStanding(s, s', id, c', l, o); }
    forall o ensures HoldsLock(s', l, o) <==> HoldsLock(s, l, o) { LocalStanding(s, s', id, c', l, o); }
    SameStandingKeeps(s, s', l);
  }

  /** What the steps on a lock do to the standing of contexts. */
  lemma DrawStanding(s: System, s': System, id: nat, l: nat, m: nat)
    requires Draw(s, s', id, l)
    ensures var self, k := Self(id, s.cores[id]), LockOf(s, l);
      && (forall t :: !Waits(s, m, self, t))
      && (forall o, t :: Waits(s', m, o, t) <==> Waits(s, m, o, t) || (m == l && o == self && t == k.ticket))
      && (forall o :: HoldsLock(s', m, o) <==> HoldsLock(s, m, o))
  {
  }

  lemma AcquireStanding(s: System, s': System, id: nat, l: nat, m: nat)
    requires Acquire(s, s', id, l)
    ensures var self, k := Self(id, s.cores[id]), LockOf(s, l);
      && Waits(s, l, self, k.release)
      && (forall o, t :: Waits(s', m, o, t) <==> Waits(s, m, o, t) && o != self)
      && (forall o :: HoldsLock(s', m, o) <==> HoldsLock(s, m, o) || (m == l && o == self))
  {
  }

  lemma UnlockStanding(s: System, s': System, id: nat, l: nat, m: nat)
    requires Unlock(s, s', id, l)
    ensures var self := Self(id, s.cores[id]);
      && HoldsLock(s, l, self)
      && (forall o, t :: Waits(s', m, o, t) <==> Waits(s, m, o, t))
      && (forall o :: HoldsLock(s', m, o) <==> HoldsLock(s, m, o) && !(m == l && o == self))
  {
  }

  /** The contexts of the cores. */
  ghost function Owners(ids: set<nat>): (r: set<Owner>)
    ensures forall id, level :: Owner(id, level) in r <==> id in ids && 0 <= level <= 1
    ensures |r| <= 2 * |ids|
  {
    if ids == {} then {} else
      var id :| id in ids;
      Owners(ids - {id}) + {Owner(id, 0), Owner(id, 1)}
  }

  /** Waiting tickets have distinct owners, so there is always a ticket number left. */
  lemma RoomForTicket(s: System, l: nat)
    requires Inv(s)
    ensures |OrderOf(s, l)| + 1 < WORD
  {
    hide CoreInv, LockInv;
    assert LockInv(s, l);
    var q := LockOf(s, l).queue;
    var waiting := WaitingOwners(s, l);
    DistinctCount(waiting, Owners(s.cores.Keys));
    assert |s.cores.Keys| == |s.cores|;
  }

  lemma WaitingOwners(s: System, l: nat) returns (waiting: seq<Owner>)
    requires Inv(s)
    ensures |OrderOf(s, l)| <= |waiting| + 1
    ensures forall i, j :: 0 <= i < j < |waiting| ==> waiting[i] != waiting[j]
    ensures forall i :: 0 <= i < |waiting| ==> waiting[i] in Owners(s.cores.Keys)
  {
    hide TicketAt, Distance, Waits, HoldsLock, CoreInv, Owners;
    assert LockInv(s, l);
    var q := LockOf(s, l).queue;
    waiting := q.order[FirstWaiting(q)..];
    forall i | 0 <= i < |waiting| ensures waiting[i] in Owners(s.cores.Keys) {
      var o, t := q.order[FirstWaiting(q) + i], TicketAt(LockOf(s, l).release, FirstWaiting(q) + i);
      assert Waits(s, l, o, t);
      WaiterIsOwner(s, l, o, t);
    }
  }

  lemma WaiterIsOwner(s: System, l: nat, o: Owner, t: u64)
    requires Inv(s) && Waits(s, l, o, t)
    ensures o in Owners(s.cores.Keys)
  {
    hide LockInv, Owners, Total, Outstanding, Interruptible;
    assert CoreInv(s.noPreempt, s.cores[o.core]);
    assert o == Owner(o.core, o.level);
  }

  lemma DrawKeepsLock(s: System, s': System, id: nat, l: nat, m: nat)
    requires LockInv(s, m) && Draw(s, s', id, l) && |OrderOf(s, l)| + 1 < WORD
    ensures LockInv(s', m)
  {
    hide Waits, HoldsLock, TicketAt, Next, Distance, LockInv;
    DrawStanding(s, s', id, l, m);
    if m != l { SameStandingKeeps(s, s', m); } else { LastJoins(s, s', l, Self(id, s.cores[id])); }
  }

  lemma LastJoins(s: System, s': System, l: nat, self: Owner)
    requires LockInv(s, l) && |OrderOf(s, l)| + 1 < WORD && forall t :: !Waits(s, l, self, t)
    requires var k := LockOf(s, l); LockOf(s', l) == Spin(Next(k.ticket), k.release, Queue(k.queue.order + [self], k.queue.entered))
    requires forall o, t :: Waits(s', l, o, t) <==> Waits(s, l, o, t) || (o == self && t == LockOf(s, l).ticket)
    requires forall o :: HoldsLock(s', l, o) <==> HoldsLock(s, l, o)
    ensures LockInv(s', l)
  {
    JoinedInOrder(s, s', l, self);
    JoinedAt(s, s', l, self);
    hide Waits, HoldsLock, TicketAt, Next, Distance, LockOf, WaitsAt;
    NextTicket(LockOf(s, l).release, |OrderOf(s, l)|);
  }

  lemma JoinedInOrder(s: System, s': System, l: nat, self: Owner)
    requires LockInv(s, l) && |OrderOf(s, l)| + 1 < WORD && forall t :: !Waits(s, l, self, t)
    requires var k := LockOf(s, l); LockOf(s', l) == Spin(Next(k.ticket), k.release, Queue(k.queue.order + [self], k.queue.entered))
    requires forall o, t :: Waits(s', l, o, t) <==> Waits(s, l, o, t) || (o == self && t == LockOf(s, l).ticket)
    ensures var k', q' := LockOf(s', l), LockOf(s', l).queue;
      && (forall i :: FirstWaiting(q') <= i < |q'.order| ==> Waits(s', l, q'.order[i], TicketAt(k'.release, i)))
      && (forall i, j :: FirstWaiting(q') <= i < j < |q'.order| ==> q'.order[i] != q'.order[j])
  {
    hide Waits, HoldsLock, TicketAt, Next, Distance, LockOf, WaitsAt;
    var k, q, q' := LockOf(s, l), LockOf(s, l).queue, LockOf(s', l).queue;
    assert q'.order[|q.order|] == self && forall i :: 0 <= i < |q.order| ==> q'.order[i] == q.order[i];
    forall i | FirstWaiting(q) <= i < |q.order| ensures q.order[i] != self {
      assert Waits(s, l, q.order[i], TicketAt(k.release, i));
    }
  }

  lemma JoinedAt(s: System, s': System, l: nat, self: Owner)
    requires LockInv(s, l) && |OrderOf(s, l)| + 1 < WORD && forall t :: !Waits(s, l, self, t)
    requires var k := LockOf(s, l); LockOf(s', l) == Spin(Next(k.ticket), k.release, Queue(k.queue.order + [self], k.queue.entered))
    requires forall o, t :: Waits(s', l, o, t) <==> Waits(s, l, o, t) || (o == self && t == LockOf(s, l).ticket)
    ensures forall o, t :: Waits(s', l, o, t) ==> WaitsAt(LockOf(s', l).queue, o, Distance(LockOf(s', l).release, t))
  {
    hide Waits, HoldsLock, TicketAt, Next, Distance, LockOf;
    var k, q, q' := LockOf(s, l), LockOf(s, l).queue, LockOf(s', l).queue;
    DistanceIs(k.release, |q.order|);
    forall o, t | Waits(s', l, o, t) ensures WaitsAt(q', o, Distance(k.release, t)) {
      if Waits(s, l, o, t) { assert WaitsAt(q, o, Distance(k.release, t)); }
    }
  }

  /** The owner of the ticket that `release` shows is first, and nobody has entered. */
  lemma ServedIsFirst(s: System, l: nat, o: Owner)
    requires LockInv(s, l) && Waits(s, l, o, LockOf(s, l).release)
    ensures var q := LockOf(s, l).queue; q.order != [] && q.order[0] == o && !q.entered
  {
    hide Waits, HoldsLock, TicketAt;
    assert WaitsAt(LockOf(s, l).queue, o, Distance(LockOf(s, l).release, LockOf(s, l).release));
  }

  lemma AcquireKeepsLock(s: System, s': System, id: nat, l: nat, m: nat)
    requires LockInv(s, m) && LockInv(s, l) && Acquire(s, s', id, l)
    ensures LockInv(s', m)
  {
    hide Waits, HoldsLock, TicketAt, Distance;
    var self, k := Self(id, s.cores[id]), LockOf(s, l);
    AcquireStanding(s, s', id, l, m);
    ServedIsFirst(s, l, self);
    if m != l {
      WaitsForOneLock(s, l, m, self, k.release);
      SameStandingKeeps(s, s', m);
    } else {
      FirstEnters(s, s', l, self);
    }
  }

  lemma FirstEnters(s: System, s': System, l: nat, self: Owner)
    requires LockInv(s, l) && LockOf(s, l).queue.order != [] && LockOf(s, l).queue.order[0] == self && !LockOf(s, l).queue.entered
    requires LockOf(s', l) == LockOf(s, l).(queue := Queue(LockOf(s, l).queue.order, true))
    requires forall o, t :: Waits(s', l, o, t) <==> Waits(s, l, o, t) && o != self
    requires forall o :: HoldsLock(s', l, o) <==> HoldsLock(s, l, o) || o == self
    ensures LockInv(s', l)
  {
    hide Waits, HoldsLock, TicketAt, Distance;
  }

  /** A context spins for one lock at a time. */
  lemma WaitsForOneLock(s: System, l: nat, m: nat, o: Owner, t: u64)
    requires Waits(s, l, o, t) && m != l
    ensures forall u :: !Waits(s, m, o, u)
  {
  }

  lemma UnlockKeepsLock(s: System, s': System, id: nat, l: nat, m: nat)
    requires LockInv(s, m) && LockInv(s, l) && Unlock(s, s', id, l)
    ensures LockInv(s', m)
  {
    hide Waits, HoldsLock, TicketAt, Next, Distance;
    UnlockStanding(s, s', id, l, m);
    if m == l { UnlockShifts(s, s', l); } else { SameStandingKeeps(s, s', m); }
  }

  /** Everybody moves up by one. */
  lemma UnlockShifts(s: System, s': System, l: nat)
    requires LockInv(s, l) && LockOf(s, l).queue.entered
    requires var k := LockOf(s, l); LockOf(s', l) == Spin(k.ticket, Next(k.release), Queue(k.queue.order[1..], false))
    requires forall o, t :: Waits(s', l, o, t) <==> Waits(s, l, o, t)
    requires forall o :: HoldsLock(s', l, o) <==> HoldsLock(s, l, o) && o != LockOf(s, l).queue.order[0]
    ensures LockInv(s', l)
  {
    hide Waits, HoldsLock, TicketAt, Next, Distance;
    var k, k' := LockOf(s, l), LockOf(s', l);
    var order, rest := k.queue.order, k'.queue.order;
    TicketShift(k.release, |rest|);
    forall i | 0 <= i < |rest| ensures rest[i] == order[i + 1] && Waits(s', l, rest[i], TicketAt(k'.release, i)) {
      TicketShift(k.release, i);
    }
    forall o, t | Waits(s', l, o, t) ensures WaitsAt(k'.queue, o, Distance(k'.release, t)) {
      assert WaitsAt(k.queue, o, Distance(k.release, t));
      TicketOf(k.release, t);
      TicketShift(k.release, Distance(k.release, t) - 1);
      DistanceIs(k'.release, Distance(k.release, t) - 1);
    }
  }

  lemma DrawCore(np: set<nat>, c: Core, l: nat, t: u64)
    requires CoreInv(np, c) && c.top.pc == Drawing(l)
    ensures CoreInv(np, c.(top := c.top.(pc := Queued(l, t))))
  {
    hide Total;
  }

  lemma AcquireCore(np: set<nat>, c: Core, l: nat, t: u64)
    requires CoreInv(np, c) && c.top.pc == Queued(l, t) && l !in c.top.held
    ensures CoreInv(np, c.(top := c.top.(pc := Running, held := c.top.held + {l})))
  {
    hide Total;
    HeldCount(np, c.top.held, l);
    if Interruptible(np, c.top) { InterruptibleAfter(np, c.top, c.top.(pc := Running, held := c.top.held + {l}), l); }
  }

  lemma UnlockCore(np: set<nat>, c: Core, l: nat)
    requires CoreInv(np, c) && c.top.pc == Running && l in c.top.held
    ensures CoreInv(np, c.(top := c.top.(pc := if l in np then Released else Running, held := c.top.held - {l})))
  {
    hide Total;
    HeldCount(np, c.top.held - {l}, l);
    assert c.top.held - {l} + {l} == c.top.held;
  }

  /** Holding one more lock counts if it is a no-preempt lock. */
  lemma HeldCount(np: set<nat>, held: set<nat>, l: nat)
    requires l !in held
    ensures |(held + {l}) * np| == |held * np| + if l in np then 1 else 0
  {
    if l in np {
      assert (held + {l}) * np == held * np + {l};
    } else {
      assert (held + {l}) * np == held * np;
    }
  }

  lemma InterruptibleAfter(np: set<nat>, x: Context, y: Context, l: nat)
    requires x.pc.Queued? && x.pc.lock == l && y == x.(pc := Running, held := x.held + {l}) && Interruptible(np, x)
    ensures Interruptible(np, y)
  {
  }

  lemma StepKeeps(s: System, s': System)
    requires Inv(s) && Step(s, s')
    ensures Inv(s')
  {
    hide CoreInv, LocalStep, LockInv;
    if id, c' :| id in s.cores && LocalStep(s.noPreempt, s.cores[id], c') && s' == s.(cores := s.cores[id := c']) {
      assert s'.cores.Keys == s.cores.Keys && |s.cores.Keys| == |s.cores| && |s'.cores.Keys| == |s'.cores|;
      LocalKeeps(s.noPreempt, s.cores[id], c');
      forall l ensures LockInv(s', l) { LocalKeepsLock(s, s', id, c', l); }
    } else {
      var id, l :| Draw(s, s', id, l) || Acquire(s, s', id, l) || Unlock(s, s', id, l);
      LockStepKeeps(s, s', id, l);
    }
  }

  lemma LockStepKeeps(s: System, s': System, id: nat, l: nat)
    requires Inv(s) && id in s.cores && (Draw(s, s', id, l) || Acquire(s, s', id, l) || Unlock(s, s', id, l))
    ensures Inv(s')
  {
    hide CoreInv, LockInv, Draw, Acquire, Unlock;
    assert LockInv(s, l) && CoreInv(s.noPreempt, s.cores[id]);
    if Draw(s, s', id, l) {
      RoomForTicket(s, l);
      forall m ensures LockInv(s', m) { DrawKeepsLock(s, s', id, l, m); }
    } else if Acquire(s, s', id, l) {
      forall m ensures LockInv(s', m) { AcquireKeepsLock(s, s', id, l, m); }
    } else {
      forall m ensures LockInv(s', m) { UnlockKeepsLock(s, s', id, l, m); }
    }
    LockStepCore(s, s', id, l);
  }

  /** The core that takes a step on a lock keeps its invariant, and the others are not touched. */
  lemma LockStepCore(s: System, s': System, id: nat, l: nat)
    requires id in s.cores && LockInv(s, l) && CoreInv(s.noPreempt, s.cores[id])
    requires Draw(s, s', id, l) || Acquire(s, s', id, l) || Unlock(s, s', id, l)
    ensures id in s'.cores && s' == s.(cores := s.cores[id := s'.cores[id]], locks := s'.locks)
    ensures CoreInv(s.noPreempt, s'.cores[id]) && |s'.cores| == |s.cores|
  {
    hide CoreInv, LockInv, Waits, HoldsLock;
    var c, k := s.cores[id], LockOf(s, l);
    assert s'.cores.Keys == s.cores.Keys && |s.cores.Keys| == |s.cores| && |s'.cores.Keys| == |s'.cores|;
    if Draw(s, s', id, l) {
      DrawCore(s.noPreempt, c, l, k.ticket);
    } else if Acquire(s, s', id, l) {
      AcquireStanding(s, s', id, l, l);
      ServedIsFirst(s, l, Self(id, c));
      NotYetHeld(s, id, l);
      AcquireCore(s.noPreempt, c, l, k.release);
    } else {
      UnlockCore(s.noPreempt, c, l);
    }
  }

  lemma NotYetHeld(s: System, id: nat, l: nat)
    requires LockInv(s, l) && id in s.cores && !LockOf(s, l).queue.entered
    ensures l !in s.cores[id].top.held
  {
    assert !HoldsLock(s, l, Self(id, s.cores[id]));
  }

  lemma {:induction false} RunKeepsInv(states: seq<System>, k: nat)
    requires Run(states) && k < |states|
    ensures Inv(states[k])
  {
    if k == 0 {
      InitInv(states[0]);
    } else {
      RunKeepsInv(states, k - 1);
      assert Step(states[k - 1], states[k - 1 + 1]);
      StepKeeps(states[k - 1], states[k]);
    }
  }

  lemma InitInv(s: System)
    requires Init(s)
    ensures Inv(s)
  {
    forall id | id in s.cores ensures CoreInv(s.noPreempt, s.cores[id]) {
      assert s.cores[id].top.held * s.noPreempt == {};
    }
  }

  /* ---- What follows -------------------------------------------------------------------------------------- */

  /** In every interleaving, code that an interrupt handler has interrupted neither holds nor queues
      for a no-preempt lock, interrupts are masked while a handler runs, and handlers do not nest. */
  lemma InterruptedCodeIsClean(states: seq<System>, k: nat, id: nat, level: nat, l: nat, t: u64)
    requires Run(states) && k < |states| && id in states[k].cores && level < |states[k].cores[id].below|
    requires l in states[k].noPreempt
    ensures !states[k].cores[id].flag && |states[k].cores[id].below| == 1
    ensures !HoldsLock(states[k], l, Owner(id, level)) && !Waits(states[k], l, Owner(id, level), t)
  {
    hide LockInv, Total, Outstanding;
    RunKeepsInv(states, k);
    assert CoreInv(states[k].noPreempt, states[k].cores[id]);
  }

  /** Interrupts are not left masked: outside of handlers, with no request outstanding and none just being given back,
      they are enabled. */
  lemma UnmaskedWhenIdle(states: seq<System>, k: nat, id: nat)
    requires Run(states) && k < |states| && id in states[k].cores
    requires var c := states[k].cores[id]; c.below == [] && c.requests == 0 && !c.top.pc.Uncounted?
    ensures states[k].cores[id].flag
  {
    hide LockInv, Total, Outstanding, Interruptible;
    RunKeepsInv(states, k);
    assert CoreInv(states[k].noPreempt, states[k].cores[id]);
  }

  /** Nothing that a core has begun gets stuck: code inside `lock`, a guard's `drop`, a request to disable or enable
      interrupts, or the entry and exit of an interrupt can take its next step, unless it spins for a ticket that
      is not up yet. */
  lemma CoreCanGoOn(states: seq<System>, k: nat, id: nat) returns (s': System)
    requires Run(states) && k < |states| && id in states[k].cores
    requires match states[k].cores[id].top.pc
      case Running => false
      case Queued(l, t) => LockOf(states[k], l).release == t
      case _ => true
    ensures Step(states[k], s') && id in s'.cores && s'.cores[id].top.pc != states[k].cores[id].top.pc
  {
    hide Inv, Run, LocalStep, CoreInv;
    RunKeepsInv(states, k);
    var s := states[k];
    assert CoreInv(s.noPreempt, s.cores[id]) by { CoreOf(s, id); }
    if s.cores[id].top.pc.Drawing? || s.cores[id].top.pc.Queued? {
      s' := LockCanGoOn(s, id);
    } else {
      var c' := LocalCanGoOn(s.noPreempt, s.cores[id]);
      s' := s.(cores := s.cores[id := c']);
    }
  }

  lemma CoreOf(s: System, id: nat)
    requires Inv(s) && id in s.cores
    ensures CoreInv(s.noPreempt, s.cores[id])
  {
    hide LockInv, CoreInv;
  }

  lemma LockCanGoOn(s: System, id: nat) returns (s': System)
    requires id in s.cores
    requires match s.cores[id].top.pc
      case Drawing(_) => true
      case Queued(l, t) => LockOf(s, l).release == t
      case _ => false
    ensures Step(s, s') && id in s'.cores && s'.cores[id].top.pc != s.cores[id].top.pc
  {
    hide LocalStep;
    var c := s.cores[id];
    var l := c.top.pc.lock;
    var lock := LockOf(s, l);
    if c.top.pc.Drawing? {
      s' := s.(cores := s.cores[id := c.(top := c.top.(pc := Queued(l, lock.ticket)))],
               locks := s.locks[l := Spin(Next(lock.ticket), lock.release, Queue(lock.queue.order + [Self(id, c)], lock.queue.entered))]);
      assert Draw(s, s', id, l);
    } else {
      s' := s.(cores := s.cores[id := c.(top := c.top.(pc := Running, held := c.top.held + {l}))],
               locks := s.locks[l := lock.(queue := Queue(lock.queue.order, true))]);
      assert Acquire(s, s', id, l);
    }
  }

  lemma LocalCanGoOn(np: set<nat>, c: Core) returns (c': Core)
    requires CoreInv(np, c) && !c.top.pc.Running? && !c.top.pc.Drawing? && !c.top.pc.Queued?
    ensures LocalStep(np, c, c') && c'.top.pc != c.top.pc
  {
    match c.top.pc
    case Counted(l) => c' := c.(flag := false, top := c.top.(pc := Drawing(l)));
    case CountedRaw => c' := c.(flag := false, top := c.top.(raw := c.top.raw + 1, pc := Running));
    case Released => c' := c.(requests := c.requests - 1, top := c.top.(pc := Uncounted(c.requests)));
    case Uncounted(was) => c' := c.(flag := c.flag || (c.depth == 0 && was == 1), top := c.top.(pc := Running));
    case Arriving => c' := c.(depth := c.depth + 1, top := c.top.(pc := Running));
    case Departing => c' := c.(below := c.below[..|c.below| - 1], top := c.below[|c.below| - 1], flag := true);
  }

  /** Code that runs can give back what it has: a lock, a request to disable interrupts, or, if it is a handler that
      has nothing left, the core. */
  lemma RunningCanGiveBack(states: seq<System>, k: nat, id: nat, l: nat)
    requires Run(states) && k < |states| && id in states[k].cores && states[k].cores[id].top.pc == Running
    ensures var s, c := states[k], states[k].cores[id];
      && (l in c.top.held ==> exists s' :: Unlock(s, s', id, l))
      && (c.top.raw > 0 ==> exists c' :: Uncount(c, c'))
      && (c.below != [] && c.top == Context({}, 0, Running) ==> exists c' :: LeaveHandler(c, c'))
  {
    hide Inv, Run;
    RunKeepsInv(states, k);
    var s, c := states[k], states[k].cores[id];
    assert CoreInv(s.noPreempt, c) by { CoreOf(s, id); }
    if l in c.top.held {
      var lock := LockOf(s, l);
      var s' := s.(cores := s.cores[id := c.(top := c.top.(pc := if l in s.noPreempt then Released else Running, held := c.top.held - {l}))],
                   locks := s.locks[l := Spin(lock.ticket, Next(lock.release), Queue(Rest(lock.queue.order), false))]);
      assert Unlock(s, s', id, l);
    }
    if c.top.raw > 0 {
      var c' := c.(requests := c.requests - 1, top := c.top.(raw := c.top.raw - 1, pc := Uncounted(c.requests)));
      assert Uncount(c, c');
    }
    if c.below != [] && c.top == Context({}, 0, Running) {
      var c' := c.(depth := c.depth - 1, top := c.top.(pc := Departing));
      assert LeaveHandler(c, c');
    }
  }

  /** An interrupt leaves no trace: when the handler returns with everything given back, the core is as it was. */
  lemma HandlerLeavesNoTrace(np: set<nat>, c: Core, c1: Core, c2: Core, c3: Core)
    requires CoreInv(np, c) && CoreInv(np, c2) && c.flag
    requires Interrupt(c, c1) && c2.below == c1.below && c2.top == Context({}, 0, Running) && LeaveHandler(c2, c3)
    ensures exists c4 :: Iret(c3, c4) && c4 == c
  {
    var c4 := c3.(below := c3.below[..|c3.below| - 1], top := c3.below[|c3.below| - 1], flag := true);
    assert c3.below == c.below + [c.top];
    assert Total(np, c3.below[..|c3.below| - 1]) == Total(np, c.below);
    assert Iret(c3, c4);
  }

  /** Code that spins for a lock has its ticket where the counters say, and it waits for other cores only,
      exactly when it does not itself hold the lock it spins for. The running code may be a handler or not:
      nothing but a second request by the same code can make a core wait for itself. */
  lemma WaitsForOtherCores(states: seq<System>, k: nat, id: nat, l: nat, t: u64)
    requires Run(states) && k < |states| && id in states[k].cores && states[k].cores[id].top.pc == Queued(l, t)
    ensures var s := states[k]; var p := Distance(LockOf(s, l).release, t);
      && p < |OrderOf(s, l)| && OrderOf(s, l)[p] == Self(id, s.cores[id])
      && ((forall i :: 0 <= i < p ==> OrderOf(s, l)[i].core != id) <==> l !in s.cores[id].top.held)
  {
    hide TicketAt, Distance, Total, Outstanding;
    RunKeepsInv(states, k);
    var s := states[k];
    var c, q, self := s.cores[id], LockOf(s, l).queue, Self(id, s.cores[id]);
    assert LockInv(s, l) && CoreInv(s.noPreempt, c) && ContextAt(c, |c.below|) == c.top;
    assert Waits(s, l, self, t);
    var p := Distance(LockOf(s, l).release, t);
    assert WaitsAt(q, self, p);
    if l in c.top.held {
      assert HoldsLock(s, l, self) && q.order[0] == self;
    }
    forall i | 0 <= i < p && q.order[i].core == id ensures l in c.top.held {
      InFrontIsSelf(s, l, id, i, p);
    }
  }

  /** A ticket of the same core in front of a waiting one belongs to the same code, which holds the lock. */
  lemma InFrontIsSelf(s: System, l: nat, id: nat, i: nat, p: nat)
    requires LockInv(s, l) && id in s.cores && CoreInv(s.noPreempt, s.cores[id])
    requires s.cores[id].top.pc.Queued? && s.cores[id].top.pc.lock == l
    requires i < p < |OrderOf(s, l)| && WaitsAt(LockOf(s, l).queue, Self(id, s.cores[id]), p) && OrderOf(s, l)[i].core == id
    ensures l in s.cores[id].top.held
  {
    hide TicketAt, Distance, Total, Outstanding;
    var c, q := s.cores[id], LockOf(s, l).queue;
    var o := q.order[i];
    assert i < FirstWaiting(q) || Waits(s, l, o, TicketAt(LockOf(s, l).release, i));
    assert o.level < |c.below| ==> Interruptible(s.noPreempt, c.below[o.level]);
  }

  /* ---- A core that waits for itself ----------------------------------------------------------------------- */

  /** A system of one core and one no-preempt lock, number 7. */
  function OneCore(below: seq<Context>, top: Context, flag: bool, requests: nat, depth: nat, locks: map<nat, Spin>): System {
    System(map[0 := Core(below, top, flag, requests, depth)], locks, {7})
  }

  /** A run in which a handler takes a no-preempt lock and then asks for it again. */
  function Reentry(i: nat): System {
    var me := Owner(0, 1);
    var one, held, two := Spin(1, 0, Queue([me], false)), Spin(1, 0, Queue([me], true)), Spin(2, 0, Queue([me, me], true));
    var under := [Context({}, 0, Running)];
    match i
    case 0 => OneCore([], Context({}, 1, Running), false, 1, 0, map[])
    case 1 => OneCore([], Context({}, 0, Uncounted(1)), false, 0, 0, map[])
    case 2 => OneCore([], Context({}, 0, Running), true, 0, 0, map[])
    case 3 => OneCore(under, Context({}, 0, Arriving), false, 0, 0, map[])
    case 4 => OneCore(under, Context({}, 0, Running), false, 0, 1, map[])
    case 5 => OneCore(under, Context({}, 0, Counted(7)), false, 1, 1, map[])
    case 6 => OneCore(under, Context({}, 0, Drawing(7)), false, 1, 1, map[])
    case 7 => OneCore(under, Context({}, 0, Queued(7, 0)), false, 1, 1, map[7 := one])
    case 8 => OneCore(under, Context({7}, 0, Running), false, 1, 1, map[7 := held])
    case 9 => OneCore(under, Context({7}, 0, Counted(7)), false, 2, 1, map[7 := held])
    case 10 => OneCore(under, Context({7}, 0, Drawing(7)), false, 2, 1, map[7 := held])
    case _ => OneCore(under, Context({7}, 0, Queued(7, 1)), false, 2, 1, map[7 := two])
  }

  /** In the end the handler is behind its own ticket: the guard it holds keeps its second ticket from
      ever being served. */
  lemma SecondRequestWaitsForItself() returns (states: seq<System>)
    ensures Run(states)
    ensures var s := states[|states| - 1];
      && 0 in s.cores && s.cores[0].below != [] && s.cores[0].top.pc == Queued(7, 1) && 7 in s.cores[0].top.held
      && OrderOf(s, 7) == [Owner(0, 1), Owner(0, 1)] && LockOf(s, 7).release == 0
  {
    states := seq(12, i requires 0 <= i < 12 => Reentry(i));
    ReentryInit();
    hide Step, Init;
    forall i | 0 <= i < 11 ensures Step(states[i], states[i + 1]) {
      if i < 6 || i == 8 || i == 9 { ReentryLocal(i); } else { ReentryLock(i); }
    }
  }

  lemma ReentryInit()
    ensures Init(Reentry(0))
  {
    assert |Reentry(0).cores.Keys| == 1 && |Reentry(0).cores| == |Reentry(0).cores.Keys|;
  }

  lemma ReentryLocal(i: nat)
    requires i < 6 || i == 8 || i == 9
    ensures Step(Reentry(i), Reentry(i + 1))
  {
    hide Step;
    if i < 4 { ReentryEnters(i); } else { ReentryAsks(i); }
  }

  /** Interrupts are enabled, and one arrives. */
  lemma ReentryEnters(i: nat)
    requires i < 4
    ensures Step(Reentry(i), Reentry(i + 1))
  {
    var s, s' := Reentry(i), Reentry(i + 1);
    assert i == 2 ==> s'.cores[0].below == s.cores[0].below + [s.cores[0].top];
    assert LocalStep({7}, s.cores[0], s'.cores[0]);
    LocalIsStep(s, s');
  }

  /** The handler calls `lock`. */
  lemma ReentryAsks(i: nat)
    requires i == 4 || i == 5 || i == 8 || i == 9
    ensures Step(Reentry(i), Reentry(i + 1))
  {
    var s, s' := Reentry(i), Reentry(i + 1);
    if i == 4 || i == 8 {
      assert LockStart({7}, s.cores[0], s'.cores[0], 7);
    } else {
      assert Mask(s.cores[0], s'.cores[0]);
    }
    LocalIsStep(s, s');
  }

  lemma ReentryLock(i: nat)
    requires i == 6 || i == 7 || i == 10
    ensures Step(Reentry(i), Reentry(i + 1))
  {
    var s, s' := Reentry(i), Reentry(i + 1);
    var me := Owner(0, 1);
    assert s'.cores == s.cores[0 := s'.cores[0]] && s'.locks == s.locks[7 := s'.locks[7]];
    if i == 7 {
      assert {} + {7} == {7};
      assert Acquire(s, s', 0, 7);
    } else {
      assert [] + [me] == [me] && [me] + [me] == [me, me];
      assert Draw(s, s', 0, 7);
    }
  }

  lemma LocalIsStep(s: System, s': System)
    requires 0 in s.cores && 0 in s'.cores && s' == s.(cores := s.cores[0 := s'.cores[0]])
    requires LocalStep(s.noPreempt, s.cores[0], s'.cores[0])
    ensures Step(s, s')
  {
  }
}
