/** The queue protocol of `src/nvme.c`: one command slot, a completion queue read by phase tag (section
    4.6 of the NVM Express Base Specification 1.4), and the latch that retires the slot after a timeout
    or a wrong tag. */
module NvmeQueue {
  import opened Wrappers

  const SIZE := 64   // NVME_QUEUE_SIZE

  /** `status` is the field above the phase bit. */
  datatype Completion = Completion(tag: nat, status: nat, result: nat)
  datatype Cqe = Cqe(c: Completion, phase: nat)
  datatype Command = Command(opcode: nat, prp1: nat, prp2: nat, cdw12: nat)
  datatype Dma = NoData | FromDevice | ToDevice
  datatype Tcb = Tcb(dma: Dma, slot: nat, len: nat, prp1: nat, prp2: nat)

  function TcbFor(cmd: Command): (t: Tcb) {
    Tcb(if cmd.prp1 == 0 then NoData else if cmd.opcode % 2 == 1 then ToDevice else FromDevice,
        0, cmd.cdw12, cmd.prp1, cmd.prp2)
  }

  /** What the NVMMU is told of a command: its own two addresses and its length, in slot 0; the direction is that of the
      opcode, none without data. */
  predicate Maps(t: Tcb, cmd: Command) {
    && t.slot == 0 && t.len == cmd.cdw12 && t.prp1 == cmd.prp1 && t.prp2 == cmd.prp2
    && (t.dma == NoData <==> cmd.prp1 == 0)
    && (t.dma == ToDevice <==> cmd.prp1 != 0 && cmd.opcode % 2 == 1)
  }

  /** A write (0x01) goes to the device, a read (0x02) comes from it. */
  lemma ReadsAndWrites(prp1: nat, prp2: nat, cdw12: nat)
    requires prp1 != 0
    ensures TcbFor(Command(0x01, prp1, prp2, cdw12)) == Tcb(ToDevice, 0, cdw12, prp1, prp2)
    ensures TcbFor(Command(0x02, prp1, prp2, cdw12)) == Tcb(FromDevice, 0, cdw12, prp1, prp2)
    ensures TcbFor(Command(0x02, 0, prp2, cdw12)).dma == NoData
  {
  }

  /** The phase of the `n`-th completion ever posted: it flips each time around the queue. */
  function Phase(n: nat): (p: nat) {
    if n / SIZE % 2 == 0 then 1 else 0
  }

  const BLANK := Cqe(Completion(0, 0, 0), 0)

  /** Each slot holds the last completion posted to it, with its phase, or has never been written. */
  ghost predicate Holds(cqes: seq<Cqe>, posted: seq<Completion>) {
    && |cqes| == SIZE
    && (forall k: nat | k < |posted| && k + SIZE >= |posted| :: cqes[k % SIZE] == Cqe(posted[k], Phase(k)))
    && (forall i: nat | |posted| <= i < SIZE :: cqes[i] == BLANK)
  }

  lemma PostKeepsHolds(cqes: seq<Cqe>, posted: seq<Completion>, c: Completion)
    requires Holds(cqes, posted)
    ensures Holds(cqes[|posted| % SIZE := Cqe(c, Phase(|posted|))], posted + [c])
  {
    var n := |posted|;
    var cqes' := cqes[n % SIZE := Cqe(c, Phase(n))];
    forall k: nat | k < n + 1 && k + SIZE >= n + 1 ensures cqes'[k % SIZE] == Cqe((posted + [c])[k], Phase(k)) {
      if k < n {
        DifferentSlot(k, n);
      }
    }
  }

  lemma DifferentSlot(k: nat, n: nat)
    requires k < n < k + SIZE
    ensures k % SIZE != n % SIZE
  {
  }

  /** The phase tag tells a new completion from a stale one: the entry at the head carries the expected
      phase exactly when it has been posted and not consumed, and then it is the next one. */
  lemma PhaseTellsNew(cqes: seq<Cqe>, posted: seq<Completion>, consumed: nat)
    requires Holds(cqes, posted) && consumed <= |posted| <= consumed + SIZE
    ensures var e := cqes[consumed % SIZE];
            && (e.phase == Phase(consumed) <==> consumed < |posted|)
            && (consumed < |posted| ==> e.c == posted[consumed])
  {
    if consumed < |posted| {
    } else if consumed >= SIZE {
      var k := consumed - SIZE;
      OnceAround(k);
      hide Phase;
      assert cqes[k % SIZE] == Cqe(posted[k], Phase(k));
    } else {
      assert consumed % SIZE == consumed;
    }
  }

  lemma OnceAround(k: nat)
    ensures (k + SIZE) % SIZE == k % SIZE && Phase(k + SIZE) == 1 - Phase(k)
  {
    assert (k + SIZE) / SIZE == k / SIZE + 1;
  }

  /** The host's head and phase after `n` completions. */
  lemma HeadAndPhase(n: nat)
    ensures (n + 1) % SIZE == if n % SIZE + 1 == SIZE then 0 else n % SIZE + 1
    ensures Phase(n + 1) == if n % SIZE + 1 == SIZE then 1 - Phase(n) else Phase(n)
  {
    if n % SIZE + 1 == SIZE {
      assert (n + 1) / SIZE == n / SIZE + 1;
    } else {
      assert (n + 1) / SIZE == n / SIZE;
    }
  }

  // ---------------------------------------------------------------------- the device and the polling loop

  /** What is posted when the device has completions `cs` to post: it stops when the queue is full of
      unconsumed ones. */
  function Posted(posted: seq<Completion>, consumed: nat, cs: seq<Completion>): (p: seq<Completion>)
    requires consumed <= |posted| <= consumed + SIZE
    ensures posted <= p && |p| <= consumed + SIZE && (cs != [] && |posted| == consumed ==> |p| > consumed)
  {
    var free := consumed + SIZE - |posted|;
    posted + if |cs| <= free then cs else cs[..free]
  }

  /** The polling loop: pass `i` happens after the device had `world[i]` to post, and the time runs out after the
      last.  What is posted then, and whether a completion was taken. */
  function Polls(posted: seq<Completion>, consumed: nat, world: seq<seq<Completion>>): (r: (seq<Completion>, bool))
    requires consumed <= |posted| <= consumed + SIZE
    ensures posted <= r.0 && |r.0| <= consumed + SIZE && (r.1 ==> consumed < |r.0|)
    decreases |world|
  {
    if world == [] then (posted, false)
    else
      var p := Posted(posted, consumed, world[0]);
      if consumed < |p| then (p, true) else Polls(p, consumed, world[1..])
  }

  /** The loop times out exactly when it never polled, or nothing was pending and the device had nothing to post
      on any pass. */
  lemma {:induction false} TimesOutExactly(posted: seq<Completion>, consumed: nat, world: seq<seq<Completion>>)
    requires consumed <= |posted| <= consumed + SIZE
    ensures !Polls(posted, consumed, world).1 <==>
              world == [] || (|posted| == consumed && forall i | 0 <= i < |world| :: world[i] == [])
    decreases |world|
  {
    if world != [] {
      var p := Posted(posted, consumed, world[0]);
      if consumed == |p| {
        TimesOutExactly(p, consumed, world[1..]);
        assert forall i | 0 < i < |world| :: world[i] == world[1..][i - 1];
      }
    }
  }

  class Queue {
    const cqes: array<Cqe>
    var head: nat
    var phase: nat
    var failed: bool
    var slot: Command
    var tcb: Tcb
    var posted: seq<Completion>       // by the device, ever
    var submitted: seq<Command>       // doorbells rung, ever
    var consumed: nat                 // completions taken, ever

    ghost predicate Valid()
      reads this, cqes
    {
      && Holds(cqes[..], posted) && consumed <= |posted| <= consumed + SIZE
      && head == consumed % SIZE && phase == Phase(consumed)
      && (submitted != [] ==> slot == submitted[|submitted| - 1] && tcb == TcbFor(slot))
    }

    /** `alloc_queue`. */
    constructor ()
      ensures Valid() && fresh(cqes) && posted == [] && submitted == [] && consumed == 0 && !failed
    {
      cqes := new Cqe[SIZE](_ => BLANK);
      head, phase, failed, consumed := 0, 1, false, 0;
      posted, submitted := [], [];
      slot, tcb := Command(0, 0, 0, 0), Tcb(NoData, 0, 0, 0, 0);
      new;
      assert cqes[..] == seq(SIZE, _ => BLANK);
    }

    /** The device posts a completion, unless the queue is full of unconsumed ones. */
    method Post(c: Completion)
      requires Valid() && |posted| < consumed + SIZE
      modifies this`posted, cqes
      ensures Valid() && posted == old(posted) + [c]
    {
      hide Holds;
      PostKeepsHolds(cqes[..], posted, c);
      assert |cqes[..]| == SIZE by { QueueSize(cqes[..], posted); }
      cqes[|posted| % SIZE] := Cqe(c, Phase(|posted|));
      posted := posted + [c];
    }

    /** One pass of the polling loop. */
    method Poll() returns (c: Option<Completion>)
      requires Valid()
      modifies this`head, this`phase, this`consumed
      ensures Valid()
      ensures c == if old(consumed) < |posted| then Some(posted[old(consumed)]) else None
      ensures consumed == if c.Some? then old(consumed) + 1 else old(consumed)
    {
      hide Holds, Phase;
      QueueSize(cqes[..], posted);
      PhaseTellsNew(cqes[..], posted, consumed);
      HeadAndPhase(consumed);
      var e := cqes[head];
      if e.phase != phase {
        return None;
      }
      head := head + 1;
      if head == SIZE {
        head, phase := 0, 1 - phase;
      }
      consumed := consumed + 1;
      c := Some(e.c);
    }

    /** `nvme_exec_command`, with what the device has to post before each pass of the polling loop. */
    method Exec(cmd: Command, world: seq<seq<Completion>>) returns (ok: bool, result: nat)
      requires Valid()
      modifies this, cqes
      ensures Valid()
      ensures var (s, o, r) := After(old(Now()), cmd, world);
              Now() == s && ok == o && result == r
      ensures if old(failed) then slot == old(slot) && tcb == old(tcb)
              else slot == cmd && Maps(tcb, cmd)
    {
      hide Holds, Phase, Polls;
      ok, result := false, 0;
      if failed {
        return;
      }
      slot, tcb := cmd, TcbFor(cmd);
      submitted := submitted + [cmd];
      var got := Await(world);
      if got.None? || got.value.tag != 0 {
        failed := true;
        return;
      }
      result := got.value.result;
      ok := got.value.status == 0;
    }

    /** The polling loop of `nvme_exec_command`. */
    method Await(world: seq<seq<Completion>>) returns (got: Option<Completion>)
      requires Valid()
      modifies this`head, this`phase, this`consumed, this`posted, cqes
      ensures Valid() && (posted, got.Some?) == Polls(old(posted), old(consumed), world)
      ensures consumed == if got.Some? then old(consumed) + 1 else old(consumed)
      ensures got.Some? ==> got.value == posted[old(consumed)]
    {
      hide Holds, Phase;
      got := None;
      var i := 0;
      assert world[0..] == world;
      while i < |world| && got.None?
        invariant Valid() && i <= |world|
        invariant got.None? ==>
                    && consumed == old(consumed)
                    && Polls(old(posted), consumed, world) == Polls(posted, consumed, world[i..])
        invariant got.Some? ==>
                    && consumed == old(consumed) + 1 && Polls(old(posted), old(consumed), world) == (posted, true)
                    && got.value == posted[old(consumed)]
        decreases |world| - i
      {
        assert world[i..][0] == world[i] && world[i..][1..] == world[i + 1..];
        PostAll(world[i]);
        got := Poll();
        i := i + 1;
      }
    }

    method PostAll(cs: seq<Completion>)
      requires Valid()
      modifies this`posted, cqes
      ensures Valid() && posted == Posted(old(posted), consumed, cs)
    {
      hide Holds, Phase;
      for j := 0 to |cs|
        invariant Valid() && posted == Posted(old(posted), consumed, cs[..j])
      {
        if |posted| < consumed + SIZE {
          Post(cs[j]);
        }
      }
      assert cs[..|cs|] == cs;
    }

    ghost function Now(): (s: State)
      reads this
    {
      State(posted, consumed, submitted, failed)
    }
  }

  /** The queue as seen from outside: completions posted and commands submitted, ever. */
  datatype State = State(posted: seq<Completion>, consumed: nat, submitted: seq<Command>, failed: bool)

  predicate Sane(s: State) {
    s.consumed <= |s.posted| <= s.consumed + SIZE
  }

  /** One command: nothing on a failed queue; otherwise it is submitted and takes the next completion, if there is
      one in time.  None, or one with a wrong tag, retires the queue. */
  function After(s: State, cmd: Command, world: seq<seq<Completion>>): (r: (State, bool, nat))
    requires Sane(s)
    ensures Sane(r.0)
  {
    if s.failed then (s, false, 0)
    else
      var (p, taken) := Polls(s.posted, s.consumed, world);
      var n := if taken then s.consumed + 1 else s.consumed;
      if !taken || p[s.consumed].tag != 0 then (State(p, n, s.submitted + [cmd], true), false, 0)
      else (State(p, n, s.submitted + [cmd], false), p[s.consumed].status == 0, p[s.consumed].result)
  }

  /** The next completion that the loop can see before the time runs out: the oldest one pending, and otherwise
      the first that the device posts. */
  function Next(posted: seq<Completion>, consumed: nat, world: seq<seq<Completion>>): (c: Option<Completion>) {
    if world == [] then None
    else if consumed < |posted| then Some(posted[consumed])
    else if world[0] != [] then Some(world[0][0])
    else Next(posted, consumed, world[1..])
  }

  lemma {:induction false} TakesNext(posted: seq<Completion>, consumed: nat, world: seq<seq<Completion>>)
    requires consumed <= |posted| <= consumed + SIZE
    ensures var (p, taken) := Polls(posted, consumed, world);
            Next(posted, consumed, world) == if taken then Some(p[consumed]) else None
    decreases |world|
  {
    if world != [] && consumed == |posted| && world[0] == [] {
      assert Posted(posted, consumed, world[0]) == posted;
      TakesNext(posted, consumed, world[1..]);
    }
  }

  /** A command succeeds exactly when the next completion comes in time, has its tag and no error; the queue fails
      exactly when none comes or the tag is wrong. */
  lemma ExecExactly(s: State, cmd: Command, world: seq<seq<Completion>>)
    requires Sane(s) && !s.failed
    ensures var (s', ok, result) := After(s, cmd, world);
            var c := Next(s.posted, s.consumed, world);
            && (ok <==> c.Some? && c.value.tag == 0 && c.value.status == 0)
            && (s'.failed <==> c.None? || c.value.tag != 0)
            && (!s'.failed ==> result == c.value.result)
            && s'.submitted == s.submitted + [cmd] && s'.consumed == if c.Some? then s.consumed + 1 else s.consumed
  {
    hide Polls, Next;
    TakesNext(s.posted, s.consumed, world);
  }

  lemma QueueSize(cqes: seq<Cqe>, posted: seq<Completion>)
    requires Holds(cqes, posted)
    ensures |cqes| == SIZE
  {
  }

  /** The `i`-th command was answered by the `i`-th completion the device ever posted. */
  predicate Answered(posted: seq<Completion>, i: nat, ok: bool, result: nat) {
    && i < |posted| && posted[i].tag == 0
    && (ok <==> posted[i].status == 0) && result == posted[i].result
  }

  /** The state and the outcomes after commands on a new queue, with what the device has to post during each. */
  function Play(cmds: seq<Command>, world: seq<seq<seq<Completion>>>): (r: (State, seq<bool>, seq<nat>))
    requires |world| == |cmds|
    ensures Sane(r.0) && |r.1| == |r.2| == |cmds|
    decreases |cmds|
  {
    if cmds == [] then (State([], 0, [], false), [], [])
    else
      var n := |cmds| - 1;
      var (s, oks, results) := Play(cmds[..n], world[..n]);
      var (s', ok, result) := After(s, cmds[n], world[n]);
      (s', oks + [ok], results + [result])
  }

  /** As long as the queue has not failed, every command takes exactly one completion, the next one in the order of
      posting.  The command that finds none, or one with a wrong tag, is the last that is ever submitted, and
      it and all later ones fail. */
  ghost predicate Orderly(s: State, oks: seq<bool>, results: seq<nat>, cmds: seq<Command>)
    requires |oks| == |results| == |cmds|
  {
    && s.submitted <= cmds && s.consumed <= |s.posted|
    && (!s.failed ==> s.submitted == cmds && s.consumed == |cmds|)
    && (s.failed ==> s.submitted != [] && |s.submitted| - 1 <= s.consumed <= |s.submitted|)
    && (s.failed ==> forall i | |s.submitted| - 1 <= i < |cmds| :: !oks[i])
    && (s.failed && s.consumed == |s.submitted| ==> s.posted[s.consumed - 1].tag != 0)
    && (forall i: nat | i < |s.submitted| && (s.failed ==> i < |s.submitted| - 1) ::
          Answered(s.posted, i, oks[i], results[i]))
  }

  lemma {:induction false} AlwaysOrderly(cmds: seq<Command>, world: seq<seq<seq<Completion>>>)
    requires |world| == |cmds|
    ensures var (s, oks, results) := Play(cmds, world); Orderly(s, oks, results, cmds)
    decreases |cmds|
  {
    hide After, Orderly;
    if cmds == [] {
      NothingIsOrderly();
    } else {
      var n := |cmds| - 1;
      AlwaysOrderly(cmds[..n], world[..n]);
      var (s, oks, results) := Play(cmds[..n], world[..n]);
      OrderlyStep(s, oks, results, cmds[..n], cmds[n], world[n]);
      assert cmds == cmds[..n] + [cmds[n]];
    }
  }

  lemma NothingIsOrderly()
    ensures Orderly(State([], 0, [], false), [], [], [])
  {
  }

  lemma OrderlyStep(s: State, oks: seq<bool>, results: seq<nat>, cmds: seq<Command>, cmd: Command,
                    world: seq<seq<Completion>>)
    requires Sane(s) && |oks| == |results| == |cmds| && Orderly(s, oks, results, cmds)
    ensures var (s', ok, result) := After(s, cmd, world);
            Orderly(s', oks + [ok], results + [result], cmds + [cmd])
  {
    hide Polls;
    var (s', ok, result) := After(s, cmd, world);
    var n := |cmds|;
    assert (oks + [ok])[n] == ok && (results + [result])[n] == result;
    forall i: nat | i < |s'.submitted| && (s'.failed ==> i < |s'.submitted| - 1)
      ensures Answered(s'.posted, i, (oks + [ok])[i], (results + [result])[i])
    {
      if i < n {
        assert Answered(s.posted, i, oks[i], results[i]);
      }
    }
  }

  lemma PlayStep(cmds: seq<Command>, world: seq<seq<seq<Completion>>>, n: nat)
    requires |world| == |cmds| && n < |cmds|
    ensures var (s, oks, results) := Play(cmds[..n], world[..n]);
            var (s', ok, result) := After(s, cmds[n], world[n]);
            Play(cmds[..n + 1], world[..n + 1]) == (s', oks + [ok], results + [result])
  {
    hide After;
    assert cmds[..n + 1][..n] == cmds[..n] && world[..n + 1][..n] == world[..n];
  }

  /** Any sequence of commands on a new queue, and a device that has anything to post at any time: state and
      outcomes are what the device's completions say, and orderly. */
  method Run(cmds: seq<Command>, world: seq<seq<seq<Completion>>>)
      returns (state: State, oks: seq<bool>, results: seq<nat>)
    requires |world| == |cmds|
    ensures (state, oks, results) == Play(cmds, world) && Orderly(state, oks, results, cmds)
  {
    hide Holds, Phase, After, Polls, Orderly;
    var q := new Queue();
    oks, results := [], [];
    for n := 0 to |cmds|
      invariant q.Valid() && fresh(q) && fresh(q.cqes)
      invariant (q.Now(), oks, results) == Play(cmds[..n], world[..n])
    {
      PlayStep(cmds, world, n);
      var ok, r := q.Exec(cmds[n], world[n]);
      oks, results := oks + [ok], results + [r];
    }
    assert cmds[..|cmds|] == cmds && world[..|cmds|] == world;
    AlwaysOrderly(cmds, world);
    state := State(q.posted, q.consumed, q.submitted, q.failed);
  }
}
