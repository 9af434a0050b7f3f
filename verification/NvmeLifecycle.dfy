/** `nvme_init` and `nvme_shutdown` of `src/nvme.c` as a lifecycle: which resources an attempt takes, which queues
    it hands to the controller, and what the chain of cleanup labels gives back.  Everything the hardware and
    the other drivers answer is an input. */
module NvmeLifecycle {
  import opened Wrappers

  /** Before M4, and from M4 on. */
  datatype Kind = T8103 | T8132

  /** The labels of the cleanup chain of `nvme_init`, in the order in which they follow each other. */
  datatype Exit = Done | DeleteCq | DisableCtrl | ShutdownAsc | FreeRtkit | FreeSart | FreeAsc | FreeIoq
                | FreeAdminq | Reset

  function Level(e: Exit): (n: nat) {
    match e
    case Done => 0
    case DeleteCq => 1
    case DisableCtrl => 2
    case ShutdownAsc => 3
    case FreeRtkit => 4
    case FreeSart => 5
    case FreeAsc => 6
    case FreeIoq => 7
    case FreeAdminq => 8
    case Reset => 9
  }

  /** What the rest of the world says during one call: what the device tree describes, what can be allocated and
      set up, what the controller does in time, and whether the coprocessor runs at the end. */
  datatype Answers = Answers(described: bool, adminMemory: bool, ioMemory: bool, asc: bool, healthy: bool,
                             sart: bool, rtkit: bool, booted: bool, status: bool, disabled: bool,
                             enabled: bool, createdCq: bool, createdSq: bool, running: bool)

  datatype Thing = Asc | Sart | Rtkit | Queue(q: nat)

  /** What can be observed: a resource taken, a queue's memory made known to the controller, in an adopted session
      or not, the coprocessor seen stopped, the coprocessor put to sleep and reset, a resource given back. */
  datatype Event = Got(t: Thing) | Programmed(q: nat, adopted: bool) | Stopped | Slept | Gave(t: Thing)

  // ---------------------------------------------------------------------- one attempt

  /** Where the controller's set-up ends. */
  function SetUp(a: Answers): (e: Exit) {
    if !a.disabled then ShutdownAsc
    else if !a.enabled || !a.createdCq then DisableCtrl
    else if !a.createdSq then DeleteCq
    else Done
  }

  function EarlyExit(a: Answers): (e: Exit) {
    if !a.described || !a.adminMemory then Reset else if !a.ioMemory then FreeAdminq else Done
  }

  /** Where taking the drivers ends; `Done` leads on to the controller. */
  function DriverExit(a: Answers, adopting: bool): (e: Exit) {
    if !a.asc then FreeIoq
    else if adopting then (if a.healthy then Done else FreeAsc)
    else if !a.sart then FreeAsc
    else if !a.rtkit then FreeSart
    else if !a.booted then FreeRtkit
    else if !a.status then ShutdownAsc
    else Done
  }

  function LateExit(a: Answers, adopting: bool): (e: Exit) {
    if DriverExit(a, adopting).Done? then SetUp(a) else DriverExit(a, adopting)
  }

  /** Where an attempt ends. */
  function ExitOf(a: Answers, adopting: bool): (e: Exit) {
    if EarlyExit(a).Done? then LateExit(a, adopting) else EarlyExit(a)
  }

  /** What an attempt takes, in order, when its queues get the numbers from `n` on. */
  function ThingAt(n: nat, k: nat): (t: Thing) {
    if k == 0 then Queue(n) else if k == 1 then Queue(n + 1) else if k == 2 then Asc else if k == 3 then Sart else Rtkit
  }

  /** The controller's set-up is reached. */
  predicate Programs(a: Answers, adopting: bool) {
    EarlyExit(a).Done? && DriverExit(a, adopting).Done?
  }

  /** How many of them it has taken at its exit; an adopted session brings its own last two. */
  function Count(e: Exit, adopting: bool): (k: nat)
    ensures k <= 5
  {
    if e.Reset? then 0 else if e.FreeAdminq? then 1 else if e.FreeIoq? then 2
    else if e.FreeAsc? || adopting then 3 else if e.FreeSart? then 4 else 5
  }

  function GotFirst(n: nat, k: nat): (s: seq<Event>)
    requires k <= 5
    ensures |s| == k && forall i | 0 <= i < k :: s[i] == Got(ThingAt(n, i))
  {
    seq(k, i requires 0 <= i < k => Got(ThingAt(n, i)))
  }

  /** The same given back, in the opposite order. */
  function GaveFirst(n: nat, k: nat): (s: seq<Event>)
    requires k <= 5
    ensures |s| == k && forall i | 0 <= i < k :: s[i] == Gave(ThingAt(n, k - 1 - i))
  {
    seq(k, i requires 0 <= i < k => Gave(ThingAt(n, k - 1 - i)))
  }

  /** A failed attempt keeps everything and asks for a reboot: in an adopted session that reached the controller,
      and on the later kind when the coprocessor still runs. */
  predicate Preserves(kind: Kind, e: Exit, adopting: bool, running: bool) {
    || (adopting && Level(e) <= Level(ShutdownAsc))
    || (kind.T8132? && Level(e) <= Level(FreeRtkit) && running)
  }

  function ProgrammedBoth(n: nat, adopting: bool): (s: seq<Event>) {
    [Programmed(n, adopting), Programmed(n + 1, adopting)]
  }

  /** What the cleanup chain does before it gives anything back. */
  function Halt(kind: Kind, e: Exit): (s: seq<Event>) {
    if kind.T8132? then (if Level(e) <= Level(FreeRtkit) then [Stopped] else [])
    else if Level(e) <= Level(ShutdownAsc) then [Slept] else []
  }

  /** All that can be observed of an attempt: what it takes, the queues made known to the controller, and, if it
      fails and keeps nothing, the halt and everything given back. */
  function Attempt(kind: Kind, a: Answers, adopting: bool, n: nat): (s: seq<Event>) {
    var e := ExitOf(a, adopting);
    var k := Count(e, adopting);
    GotFirst(n, k)
    + (if Programs(a, adopting) then ProgrammedBoth(n, adopting) else [])
    + if e.Done? || Preserves(kind, e, adopting, a.running) then [] else Halt(kind, e) + GaveFirst(n, k)
  }

  // ---------------------------------------------------------------------- the calls

  datatype State = State(initialized: bool, rebootRequired: bool, adoptLive: bool, keepForLinux: bool,
                         adminq: Option<nat>, ioq: Option<nat>, next: nat, trace: seq<Event>)

  /** How many queues an attempt allocates. */
  function Queues(e: Exit): (n: nat) {
    if e.Reset? then 0 else if e.FreeAdminq? then 1 else 2
  }

  function InitSpec(kind: Kind, s: State, a: Answers): (r: (State, bool)) {
    if s.rebootRequired then (s, false)
    else if s.initialized then (s, true)
    else
      var adopting := kind.T8132? && s.adoptLive;
      var e := ExitOf(a, adopting);
      var kept := e.Done? || Preserves(kind, e, adopting, a.running);
      (s.(initialized := e.Done?,
          rebootRequired := kept && !e.Done?,
          adminq := if kept then Some(s.next) else None,
          ioq := if kept then Some(s.next + 1) else None,
          next := s.next + Queues(e),
          trace := s.trace + Attempt(kind, a, adopting, s.next)),
       e.Done?)
  }

  /** On the later kind nothing is given back; a shutdown that is refused or times out leaves all as it is. */
  function ShutdownSpec(kind: Kind, s: State, a: Answers): (r: (State, bool)) {
    if s.rebootRequired then (s, false)
    else if !s.initialized then (s, true)
    else if kind.T8132? then
      if (if s.keepForLinux then a.healthy else a.disabled) then (s.(initialized := false, adoptLive := true), true)
      else (s, false)
    else if s.adminq.Some? && s.ioq.Some? then
      (s.(initialized := false, trace := s.trace + Release(s.adminq.value, s.ioq.value)), true)
    else (s, false)
  }

  function Release(adminq: nat, ioq: nat): (s: seq<Event>) {
    [Slept, Gave(Rtkit), Gave(Sart), Gave(Asc), Gave(Queue(ioq)), Gave(Queue(adminq))]
  }

  class Nvme {
    const kind: Kind
    var initialized: bool
    var rebootRequired: bool
    var adoptLive: bool
    var keepForLinux: bool
    var adminq: Option<nat>
    var ioq: Option<nat>
    var asc: bool
    var sart: bool
    var rtkit: bool
    var next: nat
    var trace: seq<Event>

    ghost function Now(): (s: State)
      reads this
    {
      State(initialized, rebootRequired, adoptLive, keepForLinux, adminq, ioq, next, trace)
    }

    ghost predicate Valid()
      reads this
    {
      initialized && !rebootRequired ==> adminq.Some? && ioq.Some?
    }

    constructor (kind: Kind, adoptLive: bool, keepForLinux: bool)
      ensures Valid() && this.kind == kind
      ensures Now() == State(false, false, adoptLive, keepForLinux, None, None, 0, [])
    {
      this.kind, this.adoptLive, this.keepForLinux := kind, adoptLive, keepForLinux;
      initialized, rebootRequired, asc, sart, rtkit := false, false, false, false, false;
      adminq, ioq, next, trace := None, None, 0, [];
    }

    /** Since `t0` the first `k` things of an attempt were taken. */
    ghost predicate Took(t0: seq<Event>, n: nat, k: nat)
      reads this`trace
    {
      k <= 5 && trace == t0 + GotFirst(n, k)
    }

    method Take(t: Thing, ghost t0: seq<Event>, ghost n: nat, ghost k: nat)
      requires k < 5 && Took(t0, n, k) && t == ThingAt(n, k)
      modifies this`trace
      ensures Took(t0, n, k + 1)
    {
      trace := trace + [Got(t)];
    }

    method Give(t: Thing, ghost goal: seq<Event>, ghost n: nat, ghost k: nat)
      requires 0 < k <= 5 && trace + GaveFirst(n, k) == goal && t == ThingAt(n, k - 1)
      modifies this`trace
      ensures trace + GaveFirst(n, k - 1) == goal
    {
      assert GaveFirst(n, k) == [Gave(t)] + GaveFirst(n, k - 1);
      assert trace + GaveFirst(n, k) == trace + [Gave(t)] + GaveFirst(n, k - 1);
      trace := trace + [Gave(t)];
    }

    /** The allocations at the start of `nvme_init`. */
    method Acquire(a: Answers) returns (exit: Exit)
      modifies this`adminq, this`ioq, this`next, this`trace, this`asc, this`sart, this`rtkit
      ensures exit == EarlyExit(a) && next == old(next) + Queues(exit)
      ensures adminq == (if exit.Reset? then None else Some(old(next)))
      ensures ioq == (if exit.Done? then Some(old(next) + 1) else None)
      ensures Took(old(trace), old(next), Queues(exit))
    {
      ghost var t0, n := trace, next;
      adminq, ioq, asc, sart, rtkit := None, None, false, false, false;
      assert Took(t0, n, 0);
      hide Took;
      if !a.described || !a.adminMemory {
        return Reset;
      }
      Take(Queue(next), t0, n, 0);
      adminq, next := Some(next), next + 1;
      if !a.ioMemory {
        return FreeAdminq;
      }
      Take(Queue(next), t0, n, 1);
      ioq, next := Some(next), next + 1;
      exit := Done;
    }

    /** The rest of the forward part: from the coprocessor to the queues in the controller. */
    method Start(a: Answers, ghost t0: seq<Event>, ghost n: nat) returns (exit: Exit, adopting: bool)
      requires adminq == Some(n) && ioq == Some(n + 1) && Took(t0, n, 2)
      modifies this`adoptLive, this`sart, this`rtkit, this`asc, this`trace
      ensures adoptLive == old(adoptLive)
      ensures var adopts := kind.T8132? && adoptLive;
              && exit == LateExit(a, adopts) && adopting == (adopts && a.asc)
              && trace == t0 + GotFirst(n, Count(exit, adopts))
                          + if DriverExit(a, adopts).Done? then ProgrammedBoth(n, adopts) else []
    {
      hide GotFirst, ThingAt;
      exit, adopting := TakeDrivers(a, t0, n);
      if !exit.Done? {
        assert trace == trace + [];
        return;
      }
      trace := trace + [Programmed(adminq.value, adopting), Programmed(ioq.value, adopting)];
      if !a.disabled {
        exit := ShutdownAsc;
      } else if !a.enabled || !a.createdCq {
        exit := DisableCtrl;
      } else if !a.createdSq {
        exit := DeleteCq;
      }
    }

    method TakeDrivers(a: Answers, ghost t0: seq<Event>, ghost n: nat) returns (exit: Exit, adopting: bool)
      requires Took(t0, n, 2)
      modifies this`adoptLive, this`sart, this`rtkit, this`asc, this`trace
      ensures adoptLive == old(adoptLive)
      ensures var adopts := kind.T8132? && adoptLive;
              && exit == DriverExit(a, adopts) && adopting == (adopts && a.asc)
              && Took(t0, n, Count(exit, adopts))
    {
      hide Took, Level;
      adopting := false;
      if !a.asc {
        return FreeIoq, adopting;
      }
      asc := true;
      Take(Asc, t0, n, 2);
      if kind.T8132? {
        adopting := adoptLive;
      }
      if adopting {
        adoptLive := true;
        return if a.healthy then Done else FreeAsc, adopting;
      }
      exit := TakeOwnDrivers(a, t0, n);
    }

    /** The drivers of a session that is not adopted. */
    method TakeOwnDrivers(a: Answers, ghost t0: seq<Event>, ghost n: nat) returns (exit: Exit)
      requires a.asc && Took(t0, n, 3)
      modifies this`sart, this`rtkit, this`trace
      ensures exit == DriverExit(a, false) && Took(t0, n, Count(exit, false))
    {
      hide Took;
      if !a.sart {
        return FreeAsc;
      }
      sart := true;
      Take(Sart, t0, n, 3);
      if !a.rtkit {
        return FreeSart;
      }
      rtkit := true;
      Take(Rtkit, t0, n, 4);
      if !a.booted {
        return FreeRtkit;
      }
      exit := if a.status then Done else ShutdownAsc;
    }

    /** The cleanup chain, entered at a label and run through to the end or to the label that keeps everything. */
    method Unwind(exit: Exit, adopting: bool, running: bool, ghost n: nat)
      requires !exit.Done? && (adopting ==> kind.T8132? && !exit.FreeRtkit? && !exit.FreeSart?)
      requires adminq == (if exit.Reset? then None else Some(n))
      requires ioq == (if exit.Reset? || exit.FreeAdminq? then None else Some(n + 1))
      modifies this`adminq, this`ioq, this`sart, this`rtkit, this`asc, this`rebootRequired, this`trace
      ensures var kept := Preserves(kind, exit, adopting, running);
              && rebootRequired == (kept || old(rebootRequired))
              && adminq == (if kept then old(adminq) else None) && ioq == (if kept then old(ioq) else None)
              && trace == old(trace) + if kept then [] else Halt(kind, exit) + GaveFirst(n, Count(exit, adopting))
    {
      if Level(exit) <= Level(ShutdownAsc) {
        if adopting {
          rebootRequired := true;
          return;
        }
        if !kind.T8132? {
          trace := trace + [Slept];
        }
      }
      if Level(exit) <= Level(FreeRtkit) && kind.T8132? {
        if running {
          rebootRequired := true;
          return;
        }
        trace := trace + [Stopped];
      }
      assert trace == old(trace) + Halt(kind, exit);
      assert Count(exit, adopting) == Count(exit, false);
      hide GaveFirst, Count, Halt, Level;
      GiveAll(exit, n, trace + GaveFirst(n, Count(exit, false)));
      adminq, ioq, asc, rtkit, sart := None, None, false, false, false;
    }

    /** The labels that give things back. */
    method GiveAll(exit: Exit, ghost n: nat, ghost goal: seq<Event>)
      requires trace + GaveFirst(n, Count(exit, false)) == goal
      requires adminq == (if exit.Reset? then None else Some(n))
      requires ioq == (if exit.Reset? || exit.FreeAdminq? then None else Some(n + 1))
      modifies this`trace
      ensures trace == goal
    {
      hide GaveFirst, Count;
      CountDown(exit);
      if Level(exit) <= Level(FreeRtkit) {
        Give(Rtkit, goal, n, 5);
      }
      if Level(exit) <= Level(FreeSart) {
        Give(Sart, goal, n, 4);
      }
      if Level(exit) <= Level(FreeAsc) {
        Give(Asc, goal, n, 3);
      }
      if Level(exit) <= Level(FreeIoq) {
        Give(Queue(ioq.value), goal, n, 2);
      }
      if Level(exit) <= Level(FreeAdminq) {
        Give(Queue(adminq.value), goal, n, 1);
      }
      assert trace + GaveFirst(n, 0) == goal;
    }

    /** The whole forward part. */
    method Forward(a: Answers) returns (exit: Exit, adopting: bool)
      modifies this`adoptLive, this`adminq, this`ioq, this`next, this`trace, this`asc, this`sart, this`rtkit
      ensures adoptLive == old(adoptLive) && next == old(next) + Queues(exit)
      ensures adminq == (if exit.Reset? then None else Some(old(next)))
      ensures ioq == (if exit.Reset? || exit.FreeAdminq? then None else Some(old(next) + 1))
      ensures var adopts := kind.T8132? && adoptLive;
              && exit == ExitOf(a, adopts) && (adopting == adopts || (!adopting && Level(exit) >= Level(FreeIoq)))
              && (adopting ==> !exit.FreeRtkit? && !exit.FreeSart?)
              && trace == old(trace) + GotFirst(old(next), Count(exit, adopts))
                          + if Programs(a, adopts) then ProgrammedBoth(old(next), adopts) else []
    {
      hide GotFirst, ThingAt;
      ghost var t0, n := trace, next;
      exit := Acquire(a);
      adopting := false;
      if exit.Done? {
        exit, adopting := Start(a, t0, n);
      } else {
        assert trace == trace + [];
      }
    }

    /** `nvme_init`. */
    method Init(a: Answers) returns (ok: bool)
      requires Valid()
      modifies this
      ensures Valid() && (Now(), ok) == InitSpec(kind, old(Now()), a)
    {
      hide ExitOf, Preserves, Attempt, Queues;
      if rebootRequired {
        return false;
      }
      if initialized {
        return true;
      }
      ghost var before := Now();
      ok := Try(a);
      InitOutcome(kind, before, a);
    }

    /** An attempt from the start to `Done` or through the cleanup chain. */
    method Try(a: Answers) returns (ok: bool)
      requires !initialized && !rebootRequired
      modifies this
      ensures adoptLive == old(adoptLive) && keepForLinux == old(keepForLinux)
      ensures var adopts := kind.T8132? && adoptLive;
              var e := ExitOf(a, adopts);
              var kept := e.Done? || Preserves(kind, e, adopts, a.running);
              && ok == initialized == e.Done? && rebootRequired == (kept && !e.Done?)
              && adminq == (if kept then Some(old(next)) else None)
              && ioq == (if kept then Some(old(next) + 1) else None)
              && next == old(next) + Queues(e) && trace == old(trace) + Attempt(kind, a, adopts, old(next))
    {
      hide GotFirst, GaveFirst, ExitOf, Count, Preserves, Halt, Programs, Attempt, Queues;
      ghost var t0, n, adopts := trace, next, kind.T8132? && adoptLive;
      var exit, adopting := Forward(a);
      AttemptTrace(kind, a, adopts, n, t0);
      NothingKeptEarly(kind, exit, adopting, adopts, a.running);
      if exit.Done? {
        initialized := true;
        return true;
      }
      Unwind(exit, adopting, a.running, n);
      ok := false;
    }

    /** `nvme_shutdown`. */
    method Shutdown(a: Answers) returns (ok: bool)
      requires Valid()
      modifies this
      ensures Valid() && (Now(), ok) == ShutdownSpec(kind, old(Now()), a)
    {
      if rebootRequired {
        return false;
      }
      if !initialized {
        return true;
      }
      if kind.T8132? && keepForLinux {
        if !a.healthy {
          return false;
        }
        adoptLive, initialized := true, false;
        return true;
      }
      if kind.T8132? {
        if !a.disabled {
          return false;
        }
        adoptLive, initialized := true, false;
        return true;
      }
      trace := trace + [Slept, Gave(Rtkit), Gave(Sart), Gave(Asc)];
      trace := trace + [Gave(Queue(ioq.value)), Gave(Queue(adminq.value))];
      assert trace == old(trace) + Release(adminq.value, ioq.value);
      initialized := false;
      ok := true;
    }

    /** Any of the calls. */
    method Perform(c: Call) returns (ok: bool)
      requires Valid()
      modifies this
      ensures Valid() && (Now(), ok) == After(kind, old(Now()), c)
    {
      hide InitSpec, ShutdownSpec;
      match c {
        case InitCall(a) => ok := Init(a);
        case ShutdownCall(a) => ok := Shutdown(a);
        case KeepCall(keep) => keepForLinux, ok := keep, true;
        case AdoptCall(adopt) => adoptLive, ok := adopt, true;
      }
    }
  }

  lemma InitOutcome(kind: Kind, s: State, a: Answers)
    requires !s.rebootRequired && !s.initialized
    ensures var adopts := kind.T8132? && s.adoptLive;
            var e := ExitOf(a, adopts);
            var kept := e.Done? || Preserves(kind, e, adopts, a.running);
            InitSpec(kind, s, a) ==
            (State(e.Done?, kept && !e.Done?, s.adoptLive, s.keepForLinux,
                   if kept then Some(s.next) else None, if kept then Some(s.next + 1) else None,
                   s.next + Queues(e), s.trace + Attempt(kind, a, adopts, s.next)), e.Done?)
  {
  }

  lemma CountDown(e: Exit)
    ensures Count(e, false) == if Level(e) <= Level(FreeRtkit) then 5 else 9 - Level(e)
  {
  }

  /** An exit before the coprocessor ends the same, adopted or not; and what is kept includes both queues. */
  lemma NothingKeptEarly(kind: Kind, e: Exit, adopting: bool, adopts: bool, running: bool)
    requires adopting == adopts || (!adopting && Level(e) >= Level(FreeIoq))
    ensures Preserves(kind, e, adopting, running) == Preserves(kind, e, adopts, running)
    ensures Count(e, adopting) == Count(e, adopts)
    ensures Preserves(kind, e, adopting, running) ==> !e.Reset? && !e.FreeAdminq?
  {
  }

  /** The parts of an attempt's trace, behind what was there before. */
  lemma AttemptTrace(kind: Kind, a: Answers, adopting: bool, n: nat, t0: seq<Event>)
    ensures var e := ExitOf(a, adopting);
            var k := Count(e, adopting);
            var known := if Programs(a, adopting) then ProgrammedBoth(n, adopting) else [];
            t0 + Attempt(kind, a, adopting, n) ==
            if e.Done? || Preserves(kind, e, adopting, a.running) then t0 + GotFirst(n, k) + known
            else t0 + GotFirst(n, k) + known + (Halt(kind, e) + GaveFirst(n, k))
  {
    hide GotFirst, GaveFirst, Halt, ExitOf, Count;
  }

  // ---------------------------------------------------------------------- safety

  /** Memory that was made known to the controller is given back only after the coprocessor was seen stopped, and
      never if the session was adopted. */
  ghost predicate Safe(trace: seq<Event>) {
    forall i, j | 0 <= i < j < |trace| && trace[i].Programmed? && trace[j] == Gave(Queue(trace[i].q)) ::
      !trace[i].adopted && StoppedBetween(trace, i, j)
  }

  ghost predicate StoppedBetween(trace: seq<Event>, i: nat, j: nat)
    requires i < j < |trace|
  {
    exists k :: i < k < j && trace[k].Stopped?
  }

  /** No queue with a number from `n` on occurs. */
  ghost predicate Below(trace: seq<Event>, n: nat) {
    forall k | 0 <= k < |trace| :: QueueOf(trace[k]).Some? ==> QueueOf(trace[k]).value < n
  }

  function QueueOf(e: Event): (q: Option<nat>) {
    match e
    case Got(t) => if t.Queue? then Some(t.q) else None
    case Gave(t) => if t.Queue? then Some(t.q) else None
    case Programmed(q, _) => Some(q)
    case _ => None
  }

  /** No queue with a number below `n` occurs. */
  ghost predicate From(trace: seq<Event>, n: nat) {
    forall k | 0 <= k < |trace| :: QueueOf(trace[k]).Some? ==> QueueOf(trace[k]).value >= n
  }

  lemma SafeThen(t: seq<Event>, u: seq<Event>, n: nat)
    requires Safe(t) && Safe(u) && Below(t, n) && From(u, n)
    ensures Safe(t + u)
  {
    var all := t + u;
    forall i, j | 0 <= i < j < |all| && all[i].Programmed? && all[j] == Gave(Queue(all[i].q))
      ensures !all[i].adopted && StoppedBetween(all, i, j)
    {
      if i < |t| {
        assert QueueOf(all[i]) == QueueOf(t[i]) && QueueOf(all[j]) == QueueOf(all[i]);
        assert j < |t|;
        var k :| i < k < j && t[k].Stopped?;
        assert all[k].Stopped?;
      } else {
        var d := |t|;
        assert u[i - d] == all[i] && u[j - d] == all[j];
        var k :| i - d < k < j - d && u[k].Stopped?;
        assert all[d + k].Stopped?;
      }
    }
  }

  /** One attempt on the later kind. */
  lemma AttemptSafe(a: Answers, adopting: bool, n: nat)
    ensures var s := Attempt(T8132, a, adopting, n);
            Safe(s) && From(s, n) && Below(s, n + Queues(ExitOf(a, adopting)))
  {
    var e := ExitOf(a, adopting);
    var k := Count(e, adopting);
    var known := if Programs(a, adopting) then ProgrammedBoth(n, adopting) else [];
    var over := e.Done? || Preserves(T8132, e, adopting, a.running);
    var halt: seq<Event> := if over then [] else Halt(T8132, e);
    AttemptShape(a, adopting);
    hide GotFirst, GaveFirst, Halt, ExitOf, Count, Programs, Safe, From, Below, Preserves, Queues;
    PartsInRange(n, k, known, halt, over, n + Queues(e));
    SafeParts(GotFirst(n, k), known, halt, if over then [] else GaveFirst(n, k));
    assert Attempt(T8132, a, adopting, n) == GotFirst(n, k) + known + halt + if over then [] else GaveFirst(n, k);
  }

  /** An attempt that reached the controller and did not keep everything was not adopted and saw a stop. */
  lemma AttemptShape(a: Answers, adopting: bool)
    ensures var e := ExitOf(a, adopting);
            var k, over := Count(e, adopting), e.Done? || Preserves(T8132, e, adopting, a.running);
            && (Programs(a, adopting) ==> Level(e) <= Level(ShutdownAsc) && Queues(e) == 2)
            && (Programs(a, adopting) && !over ==> !adopting && Halt(T8132, e) == [Stopped])
            && Halt(T8132, e) in [[], [Stopped]]
            && (k >= 1 ==> Queues(e) >= 1) && (k >= 2 ==> Queues(e) == 2)
  {
  }

  /** The queues of an attempt are its own. */
  lemma PartsInRange(n: nat, k: nat, known: seq<Event>, halt: seq<Event>, over: bool, top: nat)
    requires k <= 5 && (k >= 1 ==> top >= n + 1) && (k >= 2 ==> top >= n + 2) && (known != [] ==> top >= n + 2)
    requires forall i | 0 <= i < |known| :: known[i].Programmed? && n <= known[i].q < n + 2
    requires forall i | 0 <= i < |halt| :: halt[i].Stopped? || halt[i].Slept?
    ensures var s := GotFirst(n, k) + known + halt + (if over then [] else GaveFirst(n, k));
            From(s, n) && Below(s, top)
  {
    var s := GotFirst(n, k) + known + halt + (if over then [] else GaveFirst(n, k));
    forall i | 0 <= i < |s| ensures QueueOf(s[i]).Some? ==> n <= QueueOf(s[i]).value < top {
      assert || (i < k && s[i] == GotFirst(n, k)[i])
             || (k <= i < k + |known| && s[i] == known[i - k])
             || (k + |known| <= i < k + |known| + |halt| && s[i] == halt[i - k - |known|])
             || (!over && s[i] == GaveFirst(n, k)[i - k - |known| - |halt|]);
    }
  }

  lemma SafeParts(got: seq<Event>, known: seq<Event>, halt: seq<Event>, gave: seq<Event>)
    requires forall k | 0 <= k < |got| :: got[k].Got?
    requires forall k | 0 <= k < |known| :: known[k].Programmed?
    requires forall k | 0 <= k < |halt| :: halt[k].Stopped? || halt[k].Slept?
    requires forall k | 0 <= k < |gave| :: gave[k].Gave?
    requires known != [] && gave != [] ==> halt == [Stopped] && forall k | 0 <= k < |known| :: !known[k].adopted
    ensures Safe(got + known + halt + gave)
  {
    var s := got + known + halt + gave;
    forall i, j | 0 <= i < j < |s| && s[i].Programmed? && s[j] == Gave(Queue(s[i].q))
      ensures !s[i].adopted && StoppedBetween(s, i, j)
    {
      assert |got| <= i < |got| + |known| && s[i] == known[i - |got|];
      assert j >= |got| + |known| + |halt|;
      assert s[|got| + |known|] == halt[0];
    }
  }

  // ---------------------------------------------------------------------- results in terms of the answers

  /** Both queues could be allocated. */
  predicate HasQueues(a: Answers) {
    a.described && a.adminMemory && a.ioMemory
  }

  /** Everything before the controller's set-up went well. */
  predicate Ready(a: Answers, adopting: bool) {
    HasQueues(a) && a.asc && if adopting then a.healthy else a.sart && a.rtkit && a.booted && a.status
  }

  /** An attempt succeeds exactly when every step of it does; of a live session only its health is asked for. */
  lemma InitSucceedsExactly(kind: Kind, s: State, a: Answers)
    requires !s.rebootRequired && !s.initialized
    ensures var (s', ok) := InitSpec(kind, s, a);
            && (ok <==> Ready(a, kind.T8132? && s.adoptLive) && a.disabled && a.enabled && a.createdCq && a.createdSq)
            && s'.initialized == ok && s'.adoptLive == s.adoptLive && s'.keepForLinux == s.keepForLinux
  {
    hide Attempt;
  }

  /** A failed attempt asks for a reboot exactly on the later kind, when it had reached the controller in an adopted
      session, or had a driver of its own and the coprocessor runs; exactly then, or when it succeeds, the queues are
      kept. */
  lemma LatchesExactly(kind: Kind, s: State, a: Answers)
    requires !s.rebootRequired && !s.initialized
    ensures var (s', ok) := InitSpec(kind, s, a);
            && (s'.rebootRequired <==>
                  && !ok && kind.T8132? && HasQueues(a) && a.asc
                  && if s.adoptLive then a.healthy else a.sart && a.rtkit && a.running)
            && s'.adminq == (if ok || s'.rebootRequired then Some(s.next) else None)
            && s'.ioq == (if ok || s'.rebootRequired then Some(s.next + 1) else None)
  {
    hide Attempt;
  }

  /** What an attempt takes. */
  predicate Takes(a: Answers, adopting: bool, n: nat, t: Thing) {
    match t
    case Queue(q) => a.described && a.adminMemory && (q == n || (q == n + 1 && a.ioMemory))
    case Asc => HasQueues(a) && a.asc
    case Sart => HasQueues(a) && a.asc && !adopting && a.sart
    case Rtkit => HasQueues(a) && a.asc && !adopting && a.sart && a.rtkit
  }

  lemma GotExactly(a: Answers, adopting: bool, n: nat, t: Thing)
    ensures var k := Count(ExitOf(a, adopting), adopting);
            (exists i :: 0 <= i < k && ThingAt(n, i) == t) <==> Takes(a, adopting, n, t)
  {
    var k := Count(ExitOf(a, adopting), adopting);
    hide ExitOf, Count;
    var i := match t case Queue(q) => (if q == n then 0 else 1) case Asc => 2 case Sart => 3 case Rtkit => 4;
    if Takes(a, adopting, n, t) {
      assert ThingAt(n, i) == t && i < k by { CountAtLeast(a, adopting, n, t, i); }
    }
    if j: nat :| j < k && ThingAt(n, j) == t {
      CountAtLeast(a, adopting, n, t, j);
    }
  }

  lemma CountAtLeast(a: Answers, adopting: bool, n: nat, t: Thing, i: nat)
    requires i < 5 && ThingAt(n, i) == t
    ensures i < Count(ExitOf(a, adopting), adopting) <==> Takes(a, adopting, n, t)
  {
  }

  /** What an attempt does to each resource and to each queue: exactly what it takes is taken; the controller learns of
      both queues exactly when its set-up is reached; and what was taken is given back exactly when the attempt fails
      without asking for a reboot. */
  lemma AttemptExactly(kind: Kind, s: State, a: Answers, t: Thing, q: nat)
    requires !s.rebootRequired && !s.initialized
    ensures var adopting := kind.T8132? && s.adoptLive;
            var (s', ok) := InitSpec(kind, s, a);
            var u := Attempt(kind, a, adopting, s.next);
            && s'.trace == s.trace + u
            && (Got(t) in u <==> Takes(a, adopting, s.next, t))
            && (Programmed(q, adopting) in u <==> Ready(a, adopting) && (q == s.next || q == s.next + 1))
            && Programmed(q, !adopting) !in u
            && (Gave(t) in u <==> Takes(a, adopting, s.next, t) && !ok && !s'.rebootRequired)
  {
    var adopting := kind.T8132? && s.adoptLive;
    var e := ExitOf(a, adopting);
    var k, n := Count(e, adopting), s.next;
    var over := e.Done? || Preserves(kind, e, adopting, a.running);
    var known := if Ready(a, adopting) then ProgrammedBoth(n, adopting) else [];
    GotExactly(a, adopting, n, t);
    ReadyPrograms(a, adopting);
    HaltOnly(kind, e);
    hide ExitOf, Count, Programs, Preserves, Takes, Ready, ThingAt, Halt;
    GotOrGave(n, k, t);
    InParts(GotFirst(n, k), known, Halt(kind, e), GaveFirst(n, k), over, t, q, adopting);
  }

  /** Each kind of event comes from its own part of an attempt. */
  lemma InParts(got: seq<Event>, known: seq<Event>, halt: seq<Event>, gave: seq<Event>, over: bool, t: Thing, q: nat,
                adopted: bool)
    requires forall k | 0 <= k < |got| :: got[k].Got?
    requires forall k | 0 <= k < |known| :: known[k].Programmed? && known[k].adopted == adopted
    requires forall k | 0 <= k < |halt| :: halt[k].Stopped? || halt[k].Slept?
    requires forall k | 0 <= k < |gave| :: gave[k].Gave?
    ensures var u := got + known + if over then [] else halt + gave;
            && (Got(t) in u <==> Got(t) in got) && (Gave(t) in u <==> !over && Gave(t) in gave)
            && (Programmed(q, adopted) in u <==> Programmed(q, adopted) in known) && Programmed(q, !adopted) !in u
  {
  }

  lemma ReadyPrograms(a: Answers, adopting: bool)
    ensures Programs(a, adopting) <==> Ready(a, adopting)
  {
  }

  lemma HaltOnly(kind: Kind, e: Exit)
    ensures Halt(kind, e) in [[], [Stopped], [Slept]]
  {
  }

  lemma GotOrGave(n: nat, k: nat, t: Thing)
    requires k <= 5
    ensures Got(t) in GotFirst(n, k) <==> exists i :: 0 <= i < k && ThingAt(n, i) == t
    ensures Gave(t) in GaveFirst(n, k) <==> exists i :: 0 <= i < k && ThingAt(n, i) == t
  {
    hide ThingAt;
    if i: nat :| i < k && ThingAt(n, i) == t {
      assert GotFirst(n, k)[i] == Got(t) && GaveFirst(n, k)[k - 1 - i] == Gave(t);
    }
  }

  /** Before a failed attempt gives anything back, the later kind has seen the coprocessor stopped if it had a driver of
      its own, and the earlier kind has put it to sleep if it had booted it. */
  lemma HaltsFirst(kind: Kind, a: Answers, adopting: bool, n: nat, i: nat)
    requires adopting ==> kind.T8132?
    requires i < |Attempt(kind, a, adopting, n)| && Attempt(kind, a, adopting, n)[i].Gave?
    requires HasQueues(a) && a.asc && a.sart && a.rtkit && (kind.T8132? ==> !adopting) && (kind.T8103? ==> a.booted)
    ensures exists j :: 0 <= j < i && Attempt(kind, a, adopting, n)[j] == if kind.T8132? then Stopped else Slept
  {
    var e := ExitOf(a, adopting);
    var k := Count(e, adopting);
    var known := if Programs(a, adopting) then ProgrammedBoth(n, adopting) else [];
    var u := Attempt(kind, a, adopting, n);
    assert Level(e) <= Level(FreeRtkit) && (a.booted ==> Level(e) <= Level(ShutdownAsc));
    var halt := Halt(kind, e);
    assert halt == [if kind.T8132? then Stopped else Slept];
    hide ExitOf, Count, Halt, Preserves, Programs;
    assert u[..k + |known|] == GotFirst(n, k) + known;
    assert i >= k + |known|;
    assert u == GotFirst(n, k) + known + (halt + GaveFirst(n, k));
    assert u[k + |known|] == halt[0];
  }

  /** When a shutdown succeeds, and what it leaves: the later kind keeps everything for the next session, the
      earlier one has put the coprocessor to sleep before it gives everything back. */
  lemma ShutdownExactly(kind: Kind, s: State, a: Answers)
    requires s.initialized && !s.rebootRequired ==> s.adminq.Some? && s.ioq.Some?
    ensures var (s', ok) := ShutdownSpec(kind, s, a);
            && (ok <==> !s.rebootRequired
                        && (s.initialized && kind.T8132? ==> if s.keepForLinux then a.healthy else a.disabled))
            && (!ok || !s.initialized ==> s' == s)
            && (ok ==> !s'.initialized && !s'.rebootRequired)
            && (ok && s.initialized && kind.T8132? ==> s'.adoptLive && s'.trace == s.trace)
            && (ok && s.initialized && kind.T8103? ==>
                  s'.trace == s.trace + [Slept] + [Gave(Rtkit), Gave(Sart), Gave(Asc)]
                              + [Gave(Queue(s.ioq.value)), Gave(Queue(s.adminq.value))])
  {
  }

  // ---------------------------------------------------------------------- whole runs

  datatype Call = InitCall(a: Answers) | ShutdownCall(a: Answers) | KeepCall(keep: bool) | AdoptCall(adopt: bool)

  /** One call; the last two are the flags that other code sets. */
  function After(kind: Kind, s: State, c: Call): (r: (State, bool)) {
    match c
    case InitCall(a) => InitSpec(kind, s, a)
    case ShutdownCall(a) => ShutdownSpec(kind, s, a)
    case KeepCall(keep) => (s.(keepForLinux := keep), true)
    case AdoptCall(adopt) => (s.(adoptLive := adopt), true)
  }

  function Play(kind: Kind, adopt: bool, keep: bool, calls: seq<Call>): (r: (State, seq<bool>))
    ensures |r.1| == |calls|
    decreases |calls|
  {
    if calls == [] then (State(false, false, adopt, keep, None, None, 0, []), [])
    else
      var n := |calls| - 1;
      var (s, results) := Play(kind, adopt, keep, calls[..n]);
      var (s', ok) := After(kind, s, calls[n]);
      (s', results + [ok])
  }

  /** From M4 on, over every run, a queue is never given back while the controller may use it. */
  lemma {:induction false} AlwaysSafe(adopt: bool, keep: bool, calls: seq<Call>)
    ensures var s := Play(T8132, adopt, keep, calls).0; Safe(s.trace) && Below(s.trace, s.next)
    decreases |calls|
  {
    hide After;
    if calls != [] {
      hide Safe, Below;
      var n := |calls| - 1;
      AlwaysSafe(adopt, keep, calls[..n]);
      StepSafe(Play(T8132, adopt, keep, calls[..n]).0, calls[n]);
    }
  }

  lemma StepSafe(s: State, c: Call)
    requires Safe(s.trace) && Below(s.trace, s.next)
    ensures var s' := After(T8132, s, c).0; Safe(s'.trace) && Below(s'.trace, s'.next)
  {
    hide Attempt, Safe, ExitOf, Preserves;
    if c.InitCall? && !s.rebootRequired && !s.initialized {
      var u := Attempt(T8132, c.a, s.adoptLive, s.next);
      AttemptSafe(c.a, s.adoptLive, s.next);
      SafeThen(s.trace, u, s.next);
      BelowThen(s.trace, u, s.next, s.next + Queues(ExitOf(c.a, s.adoptLive)));
    }
  }

  lemma BelowThen(t: seq<Event>, u: seq<Event>, n: nat, m: nat)
    requires Below(t, n) && Below(u, m) && n <= m
    ensures Below(t + u, m)
  {
    forall k | 0 <= k < |t + u| ensures QueueOf((t + u)[k]).Some? ==> QueueOf((t + u)[k]).value < m {
      assert (t + u)[k] == if k < |t| then t[k] else u[k - |t|];
    }
  }

  /** Once the latch is set it stays, nothing is taken or given any more, and every later init and shutdown returns
      false. */
  lemma {:induction false} LatchStays(kind: Kind, adopt: bool, keep: bool, calls: seq<Call>, i: nat)
    requires i <= |calls| && Play(kind, adopt, keep, calls[..i]).0.rebootRequired
    ensures var (s, results) := Play(kind, adopt, keep, calls);
            && s.rebootRequired && s.trace == Play(kind, adopt, keep, calls[..i]).0.trace
            && forall j | i <= j < |calls| && (calls[j].InitCall? || calls[j].ShutdownCall?) :: !results[j]
    decreases |calls|
  {
    hide After;
    if i == |calls| {
      assert calls[..i] == calls;
    } else {
      var n := |calls| - 1;
      assert calls[..n][..i] == calls[..i];
      LatchStays(kind, adopt, keep, calls[..n], i);
      LatchedStep(kind, Play(kind, adopt, keep, calls[..n]).0, calls[n]);
    }
  }

  lemma LatchedStep(kind: Kind, s: State, c: Call)
    requires s.rebootRequired
    ensures var (s', ok) := After(kind, s, c);
            s'.rebootRequired && s'.trace == s.trace && (c.InitCall? || c.ShutdownCall? ==> !ok)
  {
  }

  /** The results of a run: an init succeeds exactly when nothing latched and it is up already or every step of the
      attempt succeeds. */
  lemma {:induction false} InitResults(kind: Kind, adopt: bool, keep: bool, calls: seq<Call>, i: nat)
    requires i < |calls| && calls[i].InitCall?
    ensures var s, a := Play(kind, adopt, keep, calls[..i]).0, calls[i].a;
            Play(kind, adopt, keep, calls).1[i] <==>
              && !s.rebootRequired
              && (s.initialized
                  || (Ready(a, kind.T8132? && s.adoptLive) && a.disabled && a.enabled && a.createdCq && a.createdSq))
    decreases |calls|
  {
    hide After, Ready;
    var n := |calls| - 1;
    if i < n {
      assert calls[..n][..i] == calls[..i];
      InitResults(kind, adopt, keep, calls[..n], i);
    } else {
      InitStep(kind, Play(kind, adopt, keep, calls[..i]).0, calls[i]);
    }
  }

  lemma InitStep(kind: Kind, s: State, c: Call)
    requires c.InitCall?
    ensures After(kind, s, c).1 <==>
              && !s.rebootRequired
              && (s.initialized
                  || (Ready(c.a, kind.T8132? && s.adoptLive)
                      && c.a.disabled && c.a.enabled && c.a.createdCq && c.a.createdSq))
  {
    hide Ready, Attempt, ExitOf;
    if !s.rebootRequired && !s.initialized {
      InitSucceedsExactly(kind, s, c.a);
    }
  }

  lemma PlayStep(kind: Kind, adopt: bool, keep: bool, calls: seq<Call>, n: nat)
    requires n < |calls|
    ensures var (s, results) := Play(kind, adopt, keep, calls[..n]);
            var (s', ok) := After(kind, s, calls[n]);
            Play(kind, adopt, keep, calls[..n + 1]) == (s', results + [ok])
  {
    hide After;
    assert calls[..n + 1][..n] == calls[..n];
  }

  lemma PlayNothing(kind: Kind, adopt: bool, keep: bool)
    ensures Play(kind, adopt, keep, []) == (State(false, false, adopt, keep, None, None, 0, []), [])
  {
  }

  /** Any sequence of calls, whatever the world answers: results, latch and everything observable are those of the
      specification, and from M4 on the controller never holds memory that was given back. */
  method Run(kind: Kind, adopt: bool, keep: bool, calls: seq<Call>)
      returns (state: State, results: seq<bool>)
    ensures (state, results) == Play(kind, adopt, keep, calls)
    ensures kind.T8132? ==> Safe(state.trace)
  {
    hide After, Safe, Play;
    PlayNothing(kind, adopt, keep);
    var nvme := new Nvme(kind, adopt, keep);
    results := [];
    for n := 0 to |calls|
      invariant nvme.Valid() && fresh(nvme) && nvme.kind == kind
      invariant (nvme.Now(), results) == Play(kind, adopt, keep, calls[..n])
    {
      PlayStep(kind, adopt, keep, calls, n);
      var ok := nvme.Perform(calls[n]);
      results := results + [ok];
    }
    assert calls[..|calls|] == calls;
    if kind.T8132? {
      AlwaysSafe(adopt, keep, calls);
    }
    state := State(nvme.initialized, nvme.rebootRequired, nvme.adoptLive, nvme.keepForLinux, nvme.adminq, nvme.ioq,
                   nvme.next, nvme.trace);
  }
}
