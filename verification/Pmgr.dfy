/** Switching power domains, `src/pmgr.c`: the recursive walk that enables parents first, and the snapshot
    and rollback around it. */
module Pmgr {
  import opened PmgrSpec
  import opened PmgrTopology
  import opened Wrappers

  /** Protected are the registers of guarded devices, on every die, and no others. */
  lemma GuardedExactly(devs: seq<Device>, dies: nat, x: nat)
    ensures Guarded(devs, dies, x) <==> exists d, die :: d in devs && d.guarded && 0 <= die < dies && Addr(d, die) == x
  {
    if d, die :| d in devs && d.guarded && 0 <= die < dies && Addr(d, die) == x {
      var i :| 0 <= i < |devs| && devs[i] == d;
      assert devs[i].guarded && Addr(devs[i], die) == x;
    }
  }

  predicate AllResolved(devs: seq<Device>, dies: nat) {
    forall d | d in devs :: Resolved(d, dies)
  }

  predicate Real(devs: seq<Device>, a: nat) {
    Find(devs, a).Some? && !Find(devs, a).value.virtual
  }

  /** From `start` on, every device is asked for a mode only after each of its ancestors that has a register got
      there, on the same die and also from `start` on. */
  ghost predicate Ordered(devs: seq<Device>, trace: seq<Event>, start: nat) {
    forall k, a | start <= k < |trace| && trace[k].Step? && Ancestor(devs, trace[k].id, a) && Real(devs, a) ::
      Step(trace[k].die, a, trace[k].mode, true) in trace[start..k]
  }

  /** All of `id` and its ancestors have been switched from `start` on. */
  ghost predicate Switched(devs: seq<Device>, die: nat, id: nat, mode: nat, trace: seq<Event>, start: nat)
    requires start <= |trace|
  {
    forall a | Above(devs, id, a) && Real(devs, a) :: Step(die, a, mode, true) in trace[start..]
  }

  /** From `start` on only `id` and its ancestors were asked, for one mode on one die. */
  ghost predicate OnlyAbove(devs: seq<Device>, die: nat, id: nat, mode: nat, trace: seq<Event>, start: nat) {
    forall k | start <= k < |trace| :: OneAbove(devs, die, id, mode, trace[k])
  }

  ghost predicate OneAbove(devs: seq<Device>, die: nat, id: nat, mode: nat, e: Event) {
    e.Step? && e.die == die && e.mode == mode && Above(devs, id, e.id) && Real(devs, e.id)
  }

  /** All registers of `id` and its ancestors are in the mode. */
  ghost predicate AllIn(devs: seq<Device>, die: nat, id: nat, mode: nat, regs: map<nat, Reg>) {
    forall a | Above(devs, id, a) && Real(devs, a) :: InMode(Addr(Find(devs, a).value, die), mode, regs)
  }

  predicate InMode(addr: nat, mode: nat, regs: map<nat, Reg>) {
    addr in regs && regs[addr].actual == mode
  }

  /** The registers of `id` and its ancestors. */
  ghost predicate Touchable(devs: seq<Device>, die: nat, id: nat, addr: nat) {
    exists a :: Above(devs, id, a) && Real(devs, a) && Addr(Find(devs, a).value, die) == addr
  }

  lemma WalkableUp(devs: seq<Device>, id: nat, path: seq<nat>)
    ensures Walkable(devs, id, path) ==>
              && |path| < MAX_DEPTH && Find(devs, id).Some?
              && forall p | ParentOf(Find(devs, id).value, p) :: Walkable(devs, p, path + [id])
  {
  }

  lemma AncestorSplit(devs: seq<Device>, id: nat, a: nat)
    requires Find(devs, id).Some? && Ancestor(devs, id, a)
    ensures exists p :: ParentOf(Find(devs, id).value, p) && Above(devs, p, a)
  {
    var m: nat :| m > 0 && Reaches(devs, id, a, m);
    var p :| ParentOf(Find(devs, id).value, p) && Reaches(devs, p, a, m - 1);
    assert Above(devs, p, a);
  }

  /** From the two parents to the device. */
  lemma SwitchedParents(devs: seq<Device>, die: nat, id: nat, mode: nat, trace: seq<Event>, start: nat)
    requires start <= |trace| && Find(devs, id).Some?
    requires forall p | ParentOf(Find(devs, id).value, p) :: Switched(devs, die, p, mode, trace, start)
    ensures forall a | Ancestor(devs, id, a) && Real(devs, a) :: Step(die, a, mode, true) in trace[start..]
    ensures forall a | Above(devs, id, a) && Real(devs, a) && a != id :: Step(die, a, mode, true) in trace[start..]
  {
    hide Above, Ancestor;
    forall a | Ancestor(devs, id, a) && Real(devs, a) ensures Step(die, a, mode, true) in trace[start..] {
      AncestorSplit(devs, id, a);
    }
    forall a | Above(devs, id, a) && Real(devs, a) && a != id ensures Step(die, a, mode, true) in trace[start..] {
      AboveSplit(devs, id, a);
    }
  }

  lemma AllInParents(devs: seq<Device>, die: nat, id: nat, mode: nat, regs: map<nat, Reg>)
    requires Find(devs, id).Some? && forall p | ParentOf(Find(devs, id).value, p) :: AllIn(devs, die, p, mode, regs)
    requires Real(devs, id) ==> InMode(Addr(Find(devs, id).value, die), mode, regs)
    ensures AllIn(devs, die, id, mode, regs)
  {
    hide Above, Ancestor;
    forall a | Above(devs, id, a) && Real(devs, a) ensures InMode(Addr(Find(devs, a).value, die), mode, regs) {
      AboveSplit(devs, id, a);
    }
  }

  lemma TouchableUp(devs: seq<Device>, die: nat, id: nat, p: nat, addr: nat)
    requires Find(devs, id).Some? && ParentOf(Find(devs, id).value, p) && Touchable(devs, die, p, addr)
    ensures Touchable(devs, die, id, addr)
  {
    hide Above, Ancestor;
    var a :| Above(devs, p, a) && Real(devs, a) && Addr(Find(devs, a).value, die) == addr;
    AboveSplit(devs, id, a);
  }

  lemma TouchableSelf(devs: seq<Device>, die: nat, id: nat)
    requires Real(devs, id)
    ensures Touchable(devs, die, id, Addr(Find(devs, id).value, die))
  {
    AboveSelf(devs, id);
  }

  lemma OrderedMore(devs: seq<Device>, trace: seq<Event>, start: nat, s: Event)
    requires start <= |trace| && Ordered(devs, trace, start)
    requires s.Step? ==>
               forall a | Ancestor(devs, s.id, a) && Real(devs, a) :: Step(s.die, a, s.mode, true) in trace[start..]
    ensures Ordered(devs, trace + [s], start)
  {
    hide Ancestor;
    var t := trace + [s];
    forall k, a | start <= k < |t| && t[k].Step? && Ancestor(devs, t[k].id, a) && Real(devs, a)
      ensures Step(t[k].die, a, t[k].mode, true) in t[start..k]
    {
      if k < |trace| {
        assert t[start..k] == trace[start..k];
      } else {
        assert t[start..k] == trace[start..];
      }
    }
  }

  /** A walk that is ordered within itself continues an ordered trace. */
  lemma OrderedThen(devs: seq<Device>, t: seq<Event>, t': seq<Event>, start: nat)
    requires start <= |t| && t <= t' && Ordered(devs, t, start) && Ordered(devs, t', |t|)
    ensures Ordered(devs, t', start)
  {
    hide Ancestor;
    forall k, a | start <= k < |t'| && t'[k].Step? && Ancestor(devs, t'[k].id, a) && Real(devs, a)
      ensures Step(t'[k].die, a, t'[k].mode, true) in t'[start..k]
    {
      if k < |t| {
        assert t'[k] == t[k] && t'[start..k] == t[start..k];
      } else {
        assert t'[start..k] == t'[start..|t|] + t'[|t|..k];
      }
    }
  }

  lemma SwitchedMore(devs: seq<Device>, die: nat, id: nat, mode: nat, trace: seq<Event>, trace': seq<Event>, start: nat)
    requires start <= |trace| && Switched(devs, die, id, mode, trace, start) && trace <= trace'
    ensures Switched(devs, die, id, mode, trace', start)
  {
    hide Above;
    assert trace'[start..] == trace[start..] + trace'[|trace|..];
  }

  lemma SwitchedFrom(devs: seq<Device>, die: nat, id: nat, mode: nat, trace: seq<Event>, start: nat, n: nat)
    requires n <= start <= |trace| && Switched(devs, die, id, mode, trace, start)
    ensures Switched(devs, die, id, mode, trace, n)
  {
    hide Above;
    assert trace[n..] == trace[n..start] + trace[start..];
  }

  lemma OnlyAboveUp(devs: seq<Device>, die: nat, id: nat, p: nat, mode: nat, trace: seq<Event>, start: nat)
    requires Find(devs, id).Some? && ParentOf(Find(devs, id).value, p) && OnlyAbove(devs, die, p, mode, trace, start)
    ensures OnlyAbove(devs, die, id, mode, trace, start)
  {
    hide Above, Ancestor;
    forall k | start <= k < |trace| ensures OneAbove(devs, die, id, mode, trace[k]) {
      assert OneAbove(devs, die, p, mode, trace[k]);
      AboveSplit(devs, id, trace[k].id);
    }
  }

  lemma OnlyAboveThen(devs: seq<Device>, die: nat, id: nat, mode: nat, t: seq<Event>, t': seq<Event>, start: nat)
    requires OnlyAbove(devs, die, id, mode, t, start) && OnlyAbove(devs, die, id, mode, t', |t|) && t <= t'
    ensures OnlyAbove(devs, die, id, mode, t', start)
  {
    hide Above, Ancestor;
    forall k | start <= k < |t'| ensures OneAbove(devs, die, id, mode, t'[k]) {
      assert k < |t| ==> t'[k] == t[k];
    }
  }

  // ---------------------------------------------------------------------- the auto-enable bit

  /** The register at `x` was written; a request for a protected register writes nothing. */
  ghost predicate Wrote(devs: seq<Device>, dies: nat, e: Event, x: nat) {
    && !Guarded(devs, dies, x)
    && match e
       case Step(die, id, _, _) => Find(devs, id).Some? && Addr(Find(devs, id).value, die) == x
       case Restored(addr, _, _) => addr == x
  }

  ghost predicate WroteSince(devs: seq<Device>, dies: nat, trace: seq<Event>, n: nat, x: nat) {
    exists k :: n <= k < |trace| && Wrote(devs, dies, trace[k], x)
  }

  /** Since `n` exactly the registers written lost their auto-enable bit, and the others are as they were. */
  ghost predicate AutoExact(devs: seq<Device>, dies: nat, trace: seq<Event>, n: nat,
                            r: map<nat, Reg>, r': map<nat, Reg>) {
    && r'.Keys == r.Keys
    && (forall x | x in r :: r'[x].auto == (r[x].auto && !WroteSince(devs, dies, trace, n, x)))
    && (forall x | x in r && !WroteSince(devs, dies, trace, n, x) :: r'[x] == r[x])
  }

  lemma AutoNone(devs: seq<Device>, dies: nat, trace: seq<Event>, r: map<nat, Reg>)
    ensures AutoExact(devs, dies, trace, |trace|, r, r)
  {
  }

  lemma AutoThen(devs: seq<Device>, dies: nat, t: seq<Event>, t': seq<Event>, n: nat,
                 r0: map<nat, Reg>, r1: map<nat, Reg>, r2: map<nat, Reg>)
    requires n <= |t| && t <= t' && AutoExact(devs, dies, t, n, r0, r1) && AutoExact(devs, dies, t', |t|, r1, r2)
    ensures AutoExact(devs, dies, t', n, r0, r2)
  {
    hide Wrote, WroteSince;
    forall x | x in r0
      ensures r2[x].auto == (r0[x].auto && !WroteSince(devs, dies, t', n, x))
      ensures !WroteSince(devs, dies, t', n, x) ==> r2[x] == r0[x]
    {
      WroteSplit(devs, dies, t, t', n, x);
    }
  }

  lemma WroteSplit(devs: seq<Device>, dies: nat, t: seq<Event>, t': seq<Event>, n: nat, x: nat)
    requires n <= |t| && t <= t'
    ensures WroteSince(devs, dies, t', n, x) <==>
              WroteSince(devs, dies, t, n, x) || WroteSince(devs, dies, t', |t|, x)
  {
    hide Wrote;
    if WroteSince(devs, dies, t, n, x) {
      var k :| n <= k < |t| && Wrote(devs, dies, t[k], x);
      assert t'[k] == t[k];
    }
    if WroteSince(devs, dies, t', n, x) {
      var k :| n <= k < |t'| && Wrote(devs, dies, t'[k], x);
      assert k < |t| ==> t[k] == t'[k];
    }
  }

  lemma AutoStep(devs: seq<Device>, dies: nat, t: seq<Event>, e: Event, r: map<nat, Reg>, r': map<nat, Reg>)
    requires r'.Keys == r.Keys && forall x | x in r :: r'[x].auto == (r[x].auto && !Wrote(devs, dies, e, x))
    requires forall x | x in r && !Wrote(devs, dies, e, x) :: r'[x] == r[x]
    ensures AutoExact(devs, dies, t + [e], |t|, r, r')
  {
    hide Wrote;
    var t' := t + [e];
    forall x | x in r ensures WroteSince(devs, dies, t', |t|, x) <==> Wrote(devs, dies, e, x) {
      assert t'[|t|] == e;
    }
  }

  /** What has been switched was written, unless it is protected. */
  lemma SwitchedWrites(devs: seq<Device>, dies: nat, die: nat, id: nat, mode: nat, trace: seq<Event>, start: nat,
                       x: nat)
    requires start <= |trace| && Switched(devs, die, id, mode, trace, start)
    requires Touchable(devs, die, id, x) && !Guarded(devs, dies, x)
    ensures WroteSince(devs, dies, trace, start, x)
  {
    hide Above, Guarded;
    var a :| Above(devs, id, a) && Real(devs, a) && Addr(Find(devs, a).value, die) == x;
    var k :| 0 <= k < |trace[start..]| && trace[start..][k] == Step(die, a, mode, true);
    assert trace[start + k] == trace[start..][k];
    assert Wrote(devs, dies, trace[start + k], x);
  }

  /** Registers that had reached the mode are still there. */
  ghost predicate Stays(mode: nat, regs: map<nat, Reg>, regs': map<nat, Reg>) {
    forall x | InMode(x, mode, regs) :: InMode(x, mode, regs')
  }

  lemma AllInStays(devs: seq<Device>, die: nat, id: nat, mode: nat, regs: map<nat, Reg>, regs': map<nat, Reg>)
    requires AllIn(devs, die, id, mode, regs) && Stays(mode, regs, regs')
    ensures AllIn(devs, die, id, mode, regs')
  {
    hide Above, InMode;
  }

  /** Only registers of `id` and its ancestors changed, and no protected one. */
  ghost predicate Within(devs: seq<Device>, dies: nat, die: nat, id: nat, regs: map<nat, Reg>, regs': map<nat, Reg>) {
    && regs'.Keys == regs.Keys
    && forall x | x in regs && regs'[x] != regs[x] :: Touchable(devs, die, id, x) && !Guarded(devs, dies, x)
  }

  lemma WithinThen(devs: seq<Device>, dies: nat, die: nat, id: nat, r0: map<nat, Reg>, r1: map<nat, Reg>,
                   r2: map<nat, Reg>)
    requires Within(devs, dies, die, id, r0, r1) && Within(devs, dies, die, id, r1, r2)
    ensures Within(devs, dies, die, id, r0, r2)
  {
    hide Touchable;
  }

  lemma WithinUp(devs: seq<Device>, dies: nat, die: nat, id: nat, p: nat, regs: map<nat, Reg>, regs': map<nat, Reg>)
    requires Find(devs, id).Some? && ParentOf(Find(devs, id).value, p) && Within(devs, dies, die, p, regs, regs')
    ensures Within(devs, dies, die, id, regs, regs')
  {
    forall x | x in regs && regs'[x] != regs[x] ensures Touchable(devs, die, id, x) && !Guarded(devs, dies, x) {
      hide Touchable, Guarded;
      TouchableUp(devs, die, id, p, x);
    }
  }

  /** What a recursive call with a mode other than 0 achieves. */
  ghost predicate Achieved(devs: seq<Device>, die: nat, id: nat, mode: nat, regs: map<nat, Reg>, regs': map<nat, Reg>,
                           trace': seq<Event>, start: nat)
    requires start <= |trace'|
  {
    Stays(mode, regs, regs') && AllIn(devs, die, id, mode, regs') && Switched(devs, die, id, mode, trace', start)
  }

  // ---------------------------------------------------------------------- what the registers answer

  function Asked(e: Event): (mode: nat) {
    match e
    case Step(_, _, mode, _) => mode
    case Restored(_, target, _) => target
  }

  function Place(devs: seq<Device>, e: Event): (addr: nat) {
    match e
    case Step(die, id, _, _) => if Find(devs, id).Some? then Addr(Find(devs, id).value, die) else 0
    case Restored(addr, _, _) => addr
  }

  /** Registers written so far; a request for a protected one writes nothing. */
  function Writes(devs: seq<Device>, dies: nat, trace: seq<Event>): (n: nat) {
    if trace == [] then 0
    else
      Writes(devs, dies, trace[..|trace| - 1]) + if Guarded(devs, dies, Place(devs, trace[|trace| - 1])) then 0 else 1
  }

  /** Event `k` has the outcome that the registers dictate: a protected one is or is not in the mode, any other
      settles as the script says. */
  predicate ToldAt(devs: seq<Device>, dies: nat, script: seq<nat>, regs: map<nat, Reg>, trace: seq<Event>, k: nat)
    requires k < |trace|
  {
    var e := trace[k];
    var x := Place(devs, e);
    && x in regs
    && (e.ok <==>
          if Guarded(devs, dies, x) then regs[x].actual == Asked(e)
          else Settles(script, Writes(devs, dies, trace[..k]), Asked(e)) == Asked(e))
  }

  ghost predicate Told(devs: seq<Device>, dies: nat, script: seq<nat>, regs: map<nat, Reg>, trace: seq<Event>) {
    forall k: nat | k < |trace| :: ToldAt(devs, dies, script, regs, trace, k)
  }

  /** One more event, after which at most its own register has changed, and no protected one. */
  lemma ToldStep(devs: seq<Device>, dies: nat, script: seq<nat>, r: map<nat, Reg>, r': map<nat, Reg>,
                 trace: seq<Event>, e: Event)
    requires Told(devs, dies, script, r, trace) && r'.Keys == r.Keys
    requires forall x | x in r && Guarded(devs, dies, x) :: r'[x] == r[x]
    requires var x := Place(devs, e);
             && x in r'
             && (e.ok <==>
                   if Guarded(devs, dies, x) then r'[x].actual == Asked(e)
                   else Settles(script, Writes(devs, dies, trace), Asked(e)) == Asked(e))
    ensures Told(devs, dies, script, r', trace + [e])
    ensures Writes(devs, dies, trace + [e]) ==
            Writes(devs, dies, trace) + if Guarded(devs, dies, Place(devs, e)) then 0 else 1
  {
    hide Guarded, Place;
    var t := trace + [e];
    assert t[..|trace|] == trace;
    forall k: nat | k < |t| ensures ToldAt(devs, dies, script, r', t, k) {
      if k < |trace| {
        assert ToldAt(devs, dies, script, r, trace, k);
        assert t[..k] == trace[..k] && t[k] == trace[k];
      }
    }
  }

  /** Protected registers decide the same before and after. */
  lemma ToldBefore(devs: seq<Device>, dies: nat, script: seq<nat>, r: map<nat, Reg>, r': map<nat, Reg>,
                   trace: seq<Event>)
    requires Told(devs, dies, script, r', trace) && r'.Keys == r.Keys
    requires forall x | x in r && Guarded(devs, dies, x) :: r'[x] == r[x]
    ensures Told(devs, dies, script, r, trace)
  {
    hide Guarded, Place, Writes;
    forall k: nat | k < |trace| ensures ToldAt(devs, dies, script, r, trace, k) {
      assert ToldAt(devs, dies, script, r', trace, k);
    }
  }

  /** If every written register follows, and the protected ones above the gates are active, no device fails. */
  lemma FollowersNeverFail(devs: seq<Device>, dies: nat, regs: map<nat, Reg>, gates: seq<Gate>, trace: seq<Event>)
    requires Told(devs, dies, [], regs, trace) && StepsOfGates(devs, gates, trace, 0)
    requires forall x | x in regs && GateTouches(devs, gates, x) && Guarded(devs, dies, x) :: regs[x].actual == ACTIVE
    ensures !FailedSince(trace, 0)
  {
    hide Guarded, Above, Writes;
    forall k: nat | k < |trace| && trace[k].Step? ensures trace[k].ok {
      assert ToldAt(devs, dies, [], regs, trace, k) && OfGate(devs, gates, trace[k]);
      var g :| g in gates && OneAbove(devs, g.die, g.id, ACTIVE, trace[k]);
      assert Touchable(devs, g.die, g.id, Place(devs, trace[k]));
      assert GateTouches(devs, gates, Place(devs, trace[k]));
    }
  }

  lemma NothingFailed(trace: seq<Event>)
    ensures !FailedSince(trace, |trace|)
  {
  }

  lemma NoFailure(t0: seq<Event>, t: seq<Event>, t': seq<Event>, die: nat, id: nat, mode: nat)
    requires t0 <= t && !FailedSince(t, |t0|)
    ensures t' == t || t' == t + [Step(die, id, mode, true)] ==> !FailedSince(t', |t0|)
  {
  }

  lemma FailedSplit(t: seq<Event>, t': seq<Event>, n: nat)
    requires n <= |t| && t <= t'
    ensures FailedSince(t', n) <==> FailedSince(t, n) || FailedSince(t', |t|)
  {
    if FailedSince(t, n) {
      var k :| n <= k < |t| && t[k].Step? && !t[k].ok;
      assert t'[k] == t[k];
    }
    if FailedSince(t', n) {
      var k :| n <= k < |t'| && t'[k].Step? && !t'[k].ok;
      assert k < |t| ==> t[k] == t'[k];
    }
  }

  class Unit {
    const devs: seq<Device>
    const dies: nat
    var initialized: bool
    var regs: map<nat, Reg>
    var trace: seq<Event>
    var saved: seq<Saved>
    const script: seq<nat>  // what the registers settle in, write by write
    var used: nat

    /** Every address a device resolves to is a register. */
    ghost predicate Valid()
      reads this`regs
    {
      forall d, die: nat | d in devs && Addr(d, die) != 0 :: die < dies && Addr(d, die) in regs
    }

    ghost function Now(): (w: World)
      reads this`regs, this`trace, this`used
    {
      World(regs, trace, used)
    }

    /** Every outcome so far is what the registers dictate. */
    ghost predicate Honest()
      reads this`regs, this`trace, this`used
    {
      used == Writes(devs, dies, trace) && Told(devs, dies, script, regs, trace)
    }

    constructor (devs: seq<Device>, dies: nat, regs: map<nat, Reg>, script: seq<nat>)
      requires forall d, die: nat | d in devs && Addr(d, die) != 0 :: die < dies && Addr(d, die) in regs
      ensures Valid() && this.devs == devs && this.dies == dies && this.regs == regs && trace == [] && saved == []
      ensures initialized && this.script == script && Honest()
    {
      this.devs, this.dies, this.regs, this.script := devs, dies, regs, script;
      initialized, trace, saved, used := true, [], [], 0;
    }

    /** `pmgr_set_mode`: a protected register is never written; any other gets the target, whether or not the
        hardware follows. */
    method SetMode(addr: nat, mode: nat) returns (ok: bool)
      requires addr == 0 || addr in regs
      modifies this`regs, this`used
      ensures regs.Keys == old(regs).Keys && forall x | x in regs && x != addr :: regs[x] == old(regs)[x]
      ensures addr == 0 ==> !ok && regs == old(regs)
      ensures addr != 0 ==> (ok <==> regs[addr].actual == mode)
      ensures addr == 0 || Guarded(devs, dies, addr) ==> regs == old(regs) && used == old(used)
      ensures addr != 0 && !Guarded(devs, dies, addr) ==>
                regs[addr] == Reg(mode, Settles(script, old(used), mode), false) && used == old(used) + 1
      ensures (Now(), ok) == Put(devs, dies, script, old(Now()), addr, mode)
    {
      if addr == 0 {
        return false;
      }
      if Guarded(devs, dies, addr) {
        ok := regs[addr].actual == mode;
        return;
      }
      var settled := Settles(script, used, mode);
      used := used + 1;
      regs := regs[addr := Reg(mode, settled, false)];
      ok := settled == mode;
    }

    /** `pmgr_set_mode_traced`. */
    method SetDevice(die: nat, device: Device, mode: nat) returns (ret: Ret)
      requires Valid() && Find(devs, device.id) == Some(device) && Honest()
      modifies this`regs, this`trace, this`used
      ensures Valid() && regs.Keys == old(regs).Keys && Honest()
      ensures forall x | x in regs && x != Addr(device, die) :: regs[x] == old(regs)[x]
      ensures Addr(device, die) == 0 ==> ret == NoAddress && regs == old(regs) && trace == old(trace)
      ensures Addr(device, die) != 0 ==>
                && ret in {Ok, Refused} && trace == old(trace) + [Step(die, device.id, mode, ret == Ok)]
                && (ret == Ok ==> InMode(Addr(device, die), mode, regs))
                && (Guarded(devs, dies, Addr(device, die)) ==> regs == old(regs))
      ensures AutoExact(devs, dies, trace, |old(trace)|, old(regs), regs)
      ensures (Now(), ret) == Ask(devs, dies, script, old(Now()), die, device, mode)
    {
      hide Guarded, Told, Writes, Settles, Put;
      AutoNone(devs, dies, trace, regs);
      var addr := Addr(device, die);
      if addr == 0 {
        return NoAddress;
      }
      var ok := SetMode(addr, mode);
      AutoStep(devs, dies, trace, Step(die, device.id, mode, ok), old(regs), regs);
      ToldStep(devs, dies, script, old(regs), regs, trace, Step(die, device.id, mode, ok));
      trace := trace + [Step(die, device.id, mode, ok)];
      ret := if ok then Ok else Refused;
    }

    /** `pmgr_set_mode_recursive_inner` for a mode other than 0, which reaches the parents first, in a walk that
        began at `start` of the trace. */
    method EnableRecursive(die: nat, id: nat, mode: nat, depth: nat, ghost path: seq<nat>, ghost start: nat)
        returns (ret: Ret)
      requires Valid() && Honest() && start <= |trace| && Ordered(devs, trace, start) && mode != 0
      modifies this`regs, this`trace, this`used
      ensures Valid() && Honest() && Within(devs, dies, die, id, old(regs), regs)
      ensures old(trace) <= trace && Ordered(devs, trace, start)
      ensures OnlyAbove(devs, die, id, mode, trace, |old(trace)|)
      ensures AutoExact(devs, dies, trace, |old(trace)|, old(regs), regs)
      ensures ret == Ok ==> Achieved(devs, die, id, mode, old(regs), regs, trace, start)
      ensures initialized && die < dies && id != 0 && AllResolved(devs, dies)
              && |path| == depth && Walkable(devs, id, path) ==>
                ret in {Ok, Refused}
      ensures ret == Refused ==> |trace| > |old(trace)| && !trace[|trace| - 1].ok
      ensures ret == Ok ==> !FailedSince(trace, |old(trace)|)
      ensures initialized ==> (Now(), ret) == AskUp(devs, dies, script, old(Now()), die, id, mode, depth)
      decreases MAX_DEPTH - depth, 1
    {
      hide Above, Ancestor, Ordered, Switched, AllIn, Stays, Within, InMode, Guarded, Touchable, AutoExact;
      hide OnlyAbove, Real;
      hide Walkable, Achieved, Honest, FailedSince, Ask, AskParents;
      WalkableUp(devs, id, path);
      WithinNone(devs, dies, die, id, regs);
      AutoNone(devs, dies, trace, regs);
      OnlyAboveNone(devs, die, id, mode, trace);
      if !initialized {
        return NotReady;
      }
      if id == 0 || die >= dies || depth >= MAX_DEPTH {
        return BadRequest;
      }
      var found := Find(devs, id);
      if found.None? {
        return NotFound;
      }
      var device := found.value;
      ret := EnableParents(die, device, mode, depth, path, start);
      if ret != Ok {
        return;
      }
      ghost var r2, t2 := regs, trace;
      if !device.virtual {
        ret := SetDevice(die, device, mode);
        SelfDone(devs, dies, die, device, mode, old(trace), t2, trace, old(regs), r2, regs);
      }
      Finished(devs, die, device, mode, old(regs), r2, regs, t2, trace, start, ret);
      NoFailure(old(trace), t2, trace, die, device.id, mode);
    }

    /** The loop over the parents. */
    method EnableParents(die: nat, device: Device, mode: nat, depth: nat, ghost path: seq<nat>, ghost start: nat)
        returns (ret: Ret)
      requires Valid() && Honest() && start <= |trace| && Ordered(devs, trace, start) && mode != 0
      requires Find(devs, device.id) == Some(device) && depth < MAX_DEPTH
      modifies this`regs, this`trace, this`used
      ensures Valid() && Honest() && Within(devs, dies, die, device.id, old(regs), regs)
      ensures old(trace) <= trace && Ordered(devs, trace, start)
      ensures OnlyAbove(devs, die, device.id, mode, trace, |old(trace)|)
      ensures AutoExact(devs, dies, trace, |old(trace)|, old(regs), regs)
      ensures ret == Ok ==>
                && Stays(mode, old(regs), regs)
                && forall p | ParentOf(device, p) ::
                     AllIn(devs, die, p, mode, regs) && Switched(devs, die, p, mode, trace, start)
      ensures initialized && die < dies && |path| == depth && AllResolved(devs, dies)
              && (forall p | ParentOf(device, p) :: Walkable(devs, p, path + [device.id])) ==>
                ret in {Ok, Refused}
      ensures ret == Refused ==> |trace| > |old(trace)| && !trace[|trace| - 1].ok
      ensures ret == Ok ==> !FailedSince(trace, |old(trace)|)
      ensures initialized ==> (Now(), ret) == AskParents(devs, dies, script, old(Now()), die, device, mode, depth)
      decreases MAX_DEPTH - depth, 0
    {
      hide Above, Ancestor, Ordered, Switched, AllIn, Stays, Within, InMode, Guarded, Touchable, AutoExact;
      hide OnlyAbove, Real;
      hide Walkable, Achieved, AllResolved, Find, Honest, FailedSince;
      NothingFailed(trace);
      ghost var id, r0, t0 := device.id, regs, trace;
      WithinNone(devs, dies, die, id, regs);
      AutoNone(devs, dies, trace, regs);
      OnlyAboveNone(devs, die, id, mode, trace);
      ret := Ok;
      if device.parent0 != 0 {
        ret := EnableRecursive(die, device.parent0, mode, depth + 1, path + [id], start);
        Lifted(devs, dies, die, id, device.parent0, mode, t0, t0, trace, r0, r0, regs);
        if ret != Ok {
          return;
        }
      }
      ghost var r1, t1 := regs, trace;
      NothingFailed(t1);
      if device.parent1 != 0 {
        ret := EnableRecursive(die, device.parent1, mode, depth + 1, path + [id], start);
        Lifted(devs, dies, die, id, device.parent1, mode, t0, t1, trace, r0, r1, regs);
        if ret != Ok {
          return;
        }
      }
      ParentsAchieved(devs, die, device, mode, r0, r1, regs, t1, trace, start);
      FailedSplit(t1, trace, |t0|);
    }

    /** `pmgr_power_enable` of a device in a validated topology: the walk never fails on a lookup, an address
        or the depth; if it succeeds, the device and all its ancestors are active. */
    method PowerEnable(die: nat, id: nat) returns (ret: Ret)
      requires Valid() && Honest()
      modifies this`regs, this`trace, this`used
      ensures Valid() && Honest() && Within(devs, dies, die, id, old(regs), regs)
      ensures old(trace) <= trace && Ordered(devs, trace, |old(trace)|)
      ensures OnlyAbove(devs, die, id, ACTIVE, trace, |old(trace)|)
      ensures AutoExact(devs, dies, trace, |old(trace)|, old(regs), regs)
      ensures ret == Ok ==> Achieved(devs, die, id, ACTIVE, old(regs), regs, trace, |old(trace)|)
      ensures Sound(devs, dies) && initialized && die < dies && Find(devs, id).Some? ==> ret in {Ok, Refused}
      ensures ret == Refused ==> |trace| > |old(trace)| && !trace[|trace| - 1].ok
      ensures ret == Ok ==> !FailedSince(trace, |old(trace)|)
      ensures initialized ==> (Now(), ret) == AskUp(devs, dies, script, old(Now()), die, id, ACTIVE, 0)
    {
      hide AskUp, Within, Achieved, Walkable, Guarded, AutoExact, OnlyAbove, Honest, FailedSince;
      if Sound(devs, dies) && Find(devs, id).Some? {
        WalkableFrom(devs, dies, id);
        SoundResolved(devs, dies);
      }
      ret := EnableRecursive(die, id, ACTIVE, 0, [], |trace|);
    }

    /** `pmgr_save_parents`: the targets of a device and its ancestors, each register once.  In a validated
        topology it fails only when there is no room for another register. */
    method SaveParents(die: nat, id: nat, depth: nat, ghost path: seq<nat>) returns (ok: bool)
      requires Valid() && Snapshot(saved, regs)
      modifies this`saved
      ensures Snapshot(saved, regs) && old(saved) <= saved
      ensures ok ==> forall x | Touchable(devs, die, id, x) :: InSaved(saved, x)
      ensures forall e | e in saved && e !in old(saved) :: Touchable(devs, die, id, e.addr)
      ensures die < dies && |path| == depth && Walkable(devs, id, path) && AllResolved(devs, dies) ==>
                ok || Full(devs, die, id, saved)
      ensures (saved, ok) == SaveUp(devs, regs, old(saved), die, id, depth)
      decreases MAX_DEPTH - depth, 1
    {
      hide Touchable, Snapshot, Above, Ancestor, SaveReg, SaveAbove, Full;
      if depth >= MAX_DEPTH {
        return false;
      }
      var found := Find(devs, id);
      if found.None? {
        return false;
      }
      var device := found.value;
      ok := SaveAncestors(die, device, depth, path);
      if !ok {
        return;
      }
      ghost var s1 := saved;
      if !device.virtual {
        TouchableSelf(devs, die, id);
        ok := SaveOne(Addr(device, die));
        if !ok {
          FullHere(devs, dies, die, device, saved);
          return;
        }
      }
      forall x | Touchable(devs, die, id, x) ensures InSaved(saved, x) {
        TouchableSplit(devs, die, device, x);
        SavedStill(s1, saved, x);
      }
    }

    /** The loop over the parents. */
    method SaveAncestors(die: nat, device: Device, depth: nat, ghost path: seq<nat>) returns (ok: bool)
      requires Valid() && Snapshot(saved, regs) && Find(devs, device.id) == Some(device) && depth < MAX_DEPTH
      modifies this`saved
      ensures Snapshot(saved, regs) && old(saved) <= saved
      ensures ok ==> forall p, x | ParentOf(device, p) && Touchable(devs, die, p, x) :: InSaved(saved, x)
      ensures forall e | e in saved && e !in old(saved) :: Touchable(devs, die, device.id, e.addr)
      ensures die < dies && |path| == depth && AllResolved(devs, dies)
              && (forall p | ParentOf(device, p) :: Walkable(devs, p, path + [device.id])) ==>
                ok || Full(devs, die, device.id, saved)
      ensures (saved, ok) == SaveAbove(devs, regs, old(saved), die, device, depth)
      decreases MAX_DEPTH - depth, 0
    {
      hide Touchable, Snapshot, Above, Ancestor, SaveUp, Full, Find, Walkable, AllResolved;
      ghost var id := device.id;
      ok := true;
      if device.parent0 != 0 {
        ok := SaveParents(die, device.parent0, depth + 1, path + [id]);
        SavedUp(devs, die, id, device.parent0, old(saved), old(saved), saved);
        FullUp(devs, die, id, device.parent0, saved);
        if !ok {
          return;
        }
      }
      ghost var s1 := saved;
      if device.parent1 != 0 {
        ok := SaveParents(die, device.parent1, depth + 1, path + [id]);
        SavedUp(devs, die, id, device.parent1, old(saved), s1, saved);
        FullUp(devs, die, id, device.parent1, saved);
        if !ok {
          return;
        }
      }
      forall p, x | ParentOf(device, p) && Touchable(devs, die, p, x) ensures InSaved(saved, x) {
        if p == device.parent0 {
          SavedMore(s1, saved, x);
        }
      }
    }

    method SaveOne(addr: nat) returns (ok: bool)
      requires Valid() && Snapshot(saved, regs) && (addr != 0 ==> addr in regs)
      modifies this`saved
      ensures Snapshot(saved, regs) && old(saved) <= saved && (ok ==> InSaved(saved, addr))
      ensures forall e | e in saved && e !in old(saved) :: e.addr == addr
      ensures !ok && addr != 0 ==> |saved| == MAX_SAVED && !InSaved(saved, addr)
      ensures (saved, ok) == SaveReg(regs, old(saved), addr)
    {
      if addr == 0 {
        return false;
      }
      var i := 0;
      while i < |saved|
        invariant i <= |saved| && forall k | 0 <= k < i :: saved[k].addr != addr
      {
        if saved[i].addr == addr {
          return true;
        }
        i := i + 1;
      }
      if |saved| == MAX_SAVED {
        return false;
      }
      ghost var s0 := saved;
      saved := saved + [Saved(addr, regs[addr].target)];
      assert saved[|s0|].addr == addr;
      ok := true;
    }

    /** `pmgr_restore_modes`: every saved target is put back, whether or not the hardware follows. */
    method RestoreModes()
      requires Honest() && Distinct(saved) && forall e | e in saved :: e.addr != 0 && e.addr in regs
      modifies this`regs, this`saved, this`trace, this`used
      ensures Honest() && saved == [] && regs.Keys == old(regs).Keys
      ensures forall x | x in regs && !InSaved(old(saved), x) :: regs[x] == old(regs)[x]
      ensures forall e | e in old(saved) && !Guarded(devs, dies, e.addr) :: regs[e.addr].target == e.target
      ensures forall e | e in old(saved) && Guarded(devs, dies, e.addr) :: regs[e.addr] == old(regs)[e.addr]
      ensures old(trace) <= trace && forall k | |old(trace)| <= k < |trace| :: trace[k].Restored?
      ensures AutoExact(devs, dies, trace, |old(trace)|, old(regs), regs)
      ensures Now() == GiveAllBack(devs, dies, script, old(Now()), old(saved))
    {
      hide Guarded, AutoExact, PutBack, Honest, GiveBack;
      ghost var all := saved;
      AutoNone(devs, dies, trace, regs);
      PutBackNone(devs, dies, all, regs);
      while |saved| > 0
        invariant Honest() && saved <= all && PutBack(devs, dies, all, |saved|, old(regs), regs)
        invariant old(trace) <= trace && forall k | |old(trace)| <= k < |trace| :: trace[k].Restored?
        invariant AutoExact(devs, dies, trace, |old(trace)|, old(regs), regs)
        invariant GiveAllBack(devs, dies, script, Now(), saved) ==
                  GiveAllBack(devs, dies, script, old(Now()), old(saved))
        decreases |saved|
      {
        var n := |saved| - 1;
        var e := saved[n];
        assert all[n] == e && e in all;
        saved := saved[..n];
        assert saved == all[..n];
        ghost var t1, r1 := trace, regs;
        PutBackKeys(devs, dies, all, n + 1, old(regs), regs);
        RestoreOne(e);
        AutoThen(devs, dies, t1, trace, |old(trace)|, old(regs), r1, regs);
        PutBackMore(devs, dies, all, n, old(regs), r1, regs);
      }
      PutBackAll(devs, dies, all, old(regs), regs);
    }

    /** One register put back to its saved target, unless it is there and has it. */
    method RestoreOne(e: Saved)
      requires Honest() && e.addr != 0 && e.addr in regs
      modifies this`regs, this`trace, this`used
      ensures Honest()
      ensures regs.Keys == old(regs).Keys && forall x | x in regs && x != e.addr :: regs[x] == old(regs)[x]
      ensures !Guarded(devs, dies, e.addr) ==> regs[e.addr].target == e.target
      ensures Guarded(devs, dies, e.addr) ==> regs[e.addr] == old(regs)[e.addr]
      ensures old(trace) <= trace && forall k | |old(trace)| <= k < |trace| :: trace[k].Restored?
      ensures AutoExact(devs, dies, trace, |old(trace)|, old(regs), regs)
      ensures Now() == GiveBack(devs, dies, script, old(Now()), e)
    {
      hide Guarded, Told, Writes, Settles, Put;
      AutoNone(devs, dies, trace, regs);
      if regs[e.addr].actual != e.target || regs[e.addr].target != e.target {
        var ok := SetMode(e.addr, e.target);
        AutoStep(devs, dies, trace, Restored(e.addr, e.target, ok), old(regs), regs);
        ToldStep(devs, dies, script, old(regs), regs, trace, Restored(e.addr, e.target, ok));
        trace := trace + [Restored(e.addr, e.target, ok)];
      }
    }

    /** `pmgr_adt_devices_set_mode` for the active mode: all gates are tried. */
    method EnableGates(gates: seq<Gate>) returns (ok: bool)
      requires Valid() && Honest()
      modifies this`regs, this`trace, this`used
      ensures Valid() && Honest() && regs.Keys == old(regs).Keys
      ensures old(trace) <= trace && Ordered(devs, trace, |old(trace)|)
      ensures AutoExact(devs, dies, trace, |old(trace)|, old(regs), regs)
      ensures StepsOfGates(devs, gates, trace, |old(trace)|)
      ensures forall x | x in regs && regs[x] != old(regs)[x] :: GateTouches(devs, gates, x) && !Guarded(devs, dies, x)
      ensures ok ==> forall g | g in gates :: GateOn(devs, dies, g, regs, trace, |old(trace)|)
      ensures initialized && AllNamed(devs, dies, gates) ==> (ok <==> !FailedSince(trace, |old(trace)|))
      ensures StepsOnly(trace, |old(trace)|)
      ensures initialized && AllNamed(devs, dies, gates) ==>
                forall g | g in gates :: Tried(devs, g, trace, |old(trace)|)
      ensures initialized ==> (Now(), ok) == AskGates(devs, dies, script, old(Now()), gates)
    {
      hide Ordered, AllIn, Touchable, Guarded, Stays, Switched, Sound, AutoExact, GateOn, StepsOfGates;
      hide Honest, FailedSince, StepsOnly, Tried, AskUp, AskGates, OnlyAbove, Valid, Above, Ancestor, Real;
      AskGatesStep(devs, dies, script, Now(), gates, 0);
      NothingFailed(trace);
      ok := true;
      AutoNone(devs, dies, trace, regs);
      NothingYet(devs, gates, trace);
      for i := 0 to |gates|
        invariant Valid() && Honest() && regs.Keys == old(regs).Keys
        invariant old(trace) <= trace && Ordered(devs, trace, |old(trace)|)
        invariant AutoExact(devs, dies, trace, |old(trace)|, old(regs), regs)
        invariant StepsOfGates(devs, gates, trace, |old(trace)|)
        invariant forall x | x in regs && regs[x] != old(regs)[x] ::
                  GateTouches(devs, gates, x) && !Guarded(devs, dies, x)
        invariant ok ==> forall k | 0 <= k < i :: GateOn(devs, dies, gates[k], regs, trace, |old(trace)|)
        invariant initialized && AllNamed(devs, dies, gates) ==> (ok <==> !FailedSince(trace, |old(trace)|))
        invariant StepsOnly(trace, |old(trace)|)
        invariant initialized && AllNamed(devs, dies, gates) ==>
                    forall k | 0 <= k < i :: Tried(devs, gates[k], trace, |old(trace)|)
        invariant initialized ==> (Now(), ok) == AskGates(devs, dies, script, old(Now()), gates[..i])
      {
        ghost var r1, t1, g := regs, trace, gates[i];
        var ret := PowerEnable(gates[i].die, gates[i].id);
        assert g in gates;
        forall x | x in regs && regs[x] != r1[x] ensures GateTouches(devs, gates, x) && !Guarded(devs, dies, x) {
          assert Touchable(devs, g.die, g.id, x);
        }
        OrderedThen(devs, t1, trace, |old(trace)|);
        AutoThen(devs, dies, t1, trace, |old(trace)|, old(regs), r1, regs);
        GateSteps(devs, gates, g, t1, trace, |old(trace)|);
        FailedSplit(t1, trace, |old(trace)|);
        StepsOnlyThen(devs, g.die, g.id, ACTIVE, t1, trace, |old(trace)|);
        TriedNow(devs, g, t1, trace, |old(trace)|);
        if initialized && AllNamed(devs, dies, gates) {
          forall k | 0 <= k < i ensures Tried(devs, gates[k], trace, |old(trace)|) {
            TriedStill(devs, gates[k], t1, trace, |old(trace)|);
          }
        }
        AskGatesStep(devs, dies, script, old(Now()), gates, i);
        if ret != Ok {
          ok := false;
        } else if ok {
          GateSwitched(devs, dies, g, r1, regs, t1, trace, |old(trace)|);
          forall k | 0 <= k < i ensures GateOn(devs, dies, gates[k], regs, trace, |old(trace)|) {
            GateStaysOn(devs, dies, gates[k], r1, regs, t1, trace, |old(trace)|);
          }
        }
      }
      assert gates[..|gates|] == gates;
    }

    /** The first loop of `pmgr_adt_power_enable_traced_saved`. */
    method SaveGates(gates: seq<Gate>) returns (ok: bool)
      requires Valid()
      modifies this`saved
      ensures Snapshot(saved, regs)
      ensures ok ==> forall x | GateTouches(devs, gates, x) :: InSaved(saved, x)
      ensures forall e | e in saved :: GateTouches(devs, gates, e.addr)
      ensures ok ==> !Crowded(devs, gates)
      ensures !ok && AllNamed(devs, dies, gates) ==> Crowded(devs, gates)
      ensures (saved, ok) == SaveAll(devs, regs, gates)
    {
      hide Touchable, Sound, Walkable, Crowded, Full, Snapshot, SaveUp, SaveAll;
      SaveAllStart(devs, regs, gates);
      NothingSaved(regs);
      saved := [];
      for i := 0 to |gates|
        invariant Snapshot(saved, regs)
        invariant forall k, x | 0 <= k < i && Touchable(devs, gates[k].die, gates[k].id, x) :: InSaved(saved, x)
        invariant forall e | e in saved :: GateTouches(devs, gates, e.addr)
        invariant (saved, true) == SaveAll(devs, regs, gates[..i])
      {
        SaveAllStep(devs, regs, gates, i);
        ghost var s1 := saved;
        var g := gates[i];
        assert g in gates;
        if AllNamed(devs, dies, gates) {
          WalkableFrom(devs, dies, g.id);
          SoundResolved(devs, dies);
        }
        ok := SaveParents(g.die, g.id, 0, []);
        assert forall e | e in saved && e !in s1 :: GateTouches(devs, gates, e.addr);
        if !ok {
          FullIsCrowded(devs, gates, g, saved, regs);
          return;
        }
        forall k, x | 0 <= k < i && Touchable(devs, gates[k].die, gates[k].id, x) ensures InSaved(saved, x) {
          SavedMore(s1, saved, x);
        }
      }
      ok := true;
      assert gates[..|gates|] == gates;
      forall x | GateTouches(devs, gates, x) ensures InSaved(saved, x) {
        var g :| g in gates && Touchable(devs, g.die, g.id, x);
      }
      NotCrowded(devs, gates, saved, regs);
    }

    /** `pmgr_adt_power_enable_traced_saved` of a node with these clock gates, none when the node's list is
        missing or malformed.  If it fails, every register's target is what it was before the call; but exactly
        the registers written, by the walk or by the rollback, have lost their auto-enable bit, and so have all
        above the gates that are not protected if it succeeds.  In a validated topology it fails exactly
        for want of room in the snapshot or because a register did not follow. */
    method EnableSaved(gates: seq<Gate>) returns (ok: bool)
      requires Valid() && Honest()
      modifies this`regs, this`trace, this`saved, this`used
      ensures Valid() && Honest() && regs.Keys == old(regs).Keys
      ensures old(trace) <= trace && Ordered(devs, trace, |old(trace)|)
      ensures StepsOfGates(devs, gates, trace, |old(trace)|)
      ensures !ok ==> forall x | x in regs :: regs[x].target == old(regs)[x].target
      ensures forall x | x in regs ::
                (regs[x].auto == old(regs)[x].auto <==>
                 !old(regs)[x].auto || !WroteSince(devs, dies, trace, |old(trace)|, x))
      ensures forall x | x in regs && (!GateTouches(devs, gates, x) || Guarded(devs, dies, x)) ::
                regs[x] == old(regs)[x]
      ensures ok ==> gates != [] && forall g | g in gates :: GateOn(devs, dies, g, regs, trace, |old(trace)|)
      ensures ok ==> forall x | GateTouches(devs, gates, x) && x in regs && !Guarded(devs, dies, x) :: !regs[x].auto
      ensures ok ==> forall x | x in regs && regs[x] != old(regs)[x] :: Saved(x, old(regs)[x].target) in saved
      ensures gates != [] && initialized && AllNamed(devs, dies, gates) ==>
                (ok <==> !Crowded(devs, gates) && !FailedSince(trace, |old(trace)|))
      ensures Staged(trace, |old(trace)|) && (ok ==> StepsOnly(trace, |old(trace)|))
      ensures gates != [] && initialized && AllNamed(devs, dies, gates) && !Crowded(devs, gates) ==>
                forall g | g in gates :: Tried(devs, g, trace, |old(trace)|)
      ensures OneOwner(devs) ==> Descends(devs, trace, |old(trace)|)
      ensures Needed(devs, dies, old(regs), trace, |old(trace)|)
      ensures initialized ==> (Now(), ok) == EnableCall(devs, dies, script, old(Now()), gates)
    {
      hide Ordered, AllIn, Touchable, Guarded, Crowded, FailedSince, AllNamed, GateOn, StepsOfGates, WroteSince;
      hide Honest, StepsOnly, Staged, Tried, SaveAll, AskGates, GiveAllBack, Descends, Needed, OneOwner;
      NothingYet(devs, gates, trace);
      NothingGivenBack(devs, dies, regs, trace, |trace|);
      AutoNone(devs, dies, trace, regs);
      if gates == [] {
        return false;
      }
      ok := SaveGates(gates);
      if !ok {
        return;
      }
      ghost var shot := saved;
      forall x | InSaved(shot, x) ensures GateTouches(devs, gates, x) {
      }
      ok := EnableGates(gates);
      forall x | x in regs && regs[x] != old(regs)[x]
        ensures InSaved(shot, x) && Saved(x, old(regs)[x].target) in shot && !Guarded(devs, dies, x)
      {
        var e :| e in shot && e.addr == x;
        assert e == Saved(x, old(regs)[x].target);
      }
      if ok {
        GatesLoseAuto(devs, dies, gates, old(regs), regs, trace, |old(trace)|);
        NothingGivenBack(devs, dies, old(regs), trace, |old(trace)|);
        StagedThen(trace, trace, |old(trace)|);
      } else {
        ghost var t1, r1, w1 := trace, regs, Now();
        RollBack(shot, old(regs), gates, old(trace));
        GiveAllBackOrder(devs, dies, script, w1, shot);
        RollbackNeeded(devs, dies, shot, old(regs), r1, t1, trace, |old(trace)|);
        if OneOwner(devs) {
          SaveAllOrder(devs, old(regs), gates);
          RollbackDescends(devs, shot, r1, t1, trace, |old(trace)|);
        }
        StagedThen(t1, trace, |old(trace)|);
        if initialized && AllNamed(devs, dies, gates) {
          forall g | g in gates ensures Tried(devs, g, trace, |old(trace)|) {
            TriedStill(devs, g, t1, trace, |old(trace)|);
          }
        }
      }
    }

    /** The rollback after gates that failed. */
    method RollBack(ghost shot: seq<Saved>, ghost r0: map<nat, Reg>, ghost gates: seq<Gate>, ghost t0: seq<Event>)
      requires Valid() && Honest() && saved == shot && Snapshot(shot, r0) && regs.Keys == r0.Keys && t0 <= trace
      requires forall x | x in regs && regs[x] != r0[x] :: InSaved(shot, x) && !Guarded(devs, dies, x)
      requires Ordered(devs, trace, |t0|) && StepsOfGates(devs, gates, trace, |t0|)
      requires AutoExact(devs, dies, trace, |t0|, r0, regs)
      modifies this`regs, this`trace, this`saved, this`used
      ensures Valid() && Honest() && regs.Keys == r0.Keys && old(trace) <= trace
      ensures forall x | x in regs :: regs[x].target == r0[x].target
      ensures forall x | x in regs && (!InSaved(shot, x) || Guarded(devs, dies, x)) :: regs[x] == r0[x]
      ensures Ordered(devs, trace, |t0|) && StepsOfGates(devs, gates, trace, |t0|)
      ensures AutoExact(devs, dies, trace, |t0|, r0, regs)
      ensures FailedSince(old(trace), |t0|) ==> FailedSince(trace, |t0|)
      ensures forall k | |old(trace)| <= k < |trace| :: trace[k].Restored?
      ensures Now() == GiveAllBack(devs, dies, script, old(Now()), shot)
    {
      hide Ordered, Guarded, AutoExact, StepsOfGates, Honest, GiveAllBack;
      ghost var r1, t1 := regs, trace;
      RestoreModes();
      forall x | x in regs ensures regs[x].target == r0[x].target {
        RolledBackAt(devs, dies, shot, r0, r1, regs, x);
      }
      AutoThen(devs, dies, t1, trace, |t0|, r0, r1, regs);
      RestoringKeeps(devs, gates, t1, trace, |t0|);
      FailedStill(t1, trace, |t0|);
    }
  }

  /** A validated topology, and gates that name devices of it. */
  ghost predicate AllNamed(devs: seq<Device>, dies: nat, gates: seq<Gate>) {
    Sound(devs, dies) && forall g | g in gates :: g.die < dies && Find(devs, g.id).Some?
  }

  /** The gates have more registers above them than a snapshot holds. */
  ghost predicate Crowded(devs: seq<Device>, gates: seq<Gate>) {
    exists s: seq<Saved> :: Distinct(s) && |s| == MAX_SAVED + 1 && forall e | e in s :: GateTouches(devs, gates, e.addr)
  }

  /** The snapshot is full, and a register above the device is not in it. */
  ghost predicate Full(devs: seq<Device>, die: nat, id: nat, saved: seq<Saved>) {
    |saved| == MAX_SAVED && exists x :: Touchable(devs, die, id, x) && !InSaved(saved, x)
  }

  lemma FullUp(devs: seq<Device>, die: nat, id: nat, p: nat, saved: seq<Saved>)
    requires Find(devs, id).Some? && ParentOf(Find(devs, id).value, p)
    ensures Full(devs, die, p, saved) ==> Full(devs, die, id, saved)
  {
    hide Touchable;
    if Full(devs, die, p, saved) {
      var x :| Touchable(devs, die, p, x) && !InSaved(saved, x);
      TouchableUp(devs, die, id, p, x);
    }
  }

  lemma FullHere(devs: seq<Device>, dies: nat, die: nat, d: Device, saved: seq<Saved>)
    requires Find(devs, d.id) == Some(d) && !d.virtual
    ensures |saved| == MAX_SAVED && !InSaved(saved, Addr(d, die)) ==> Full(devs, die, d.id, saved)
  {
    hide Touchable;
    TouchableSelf(devs, die, d.id);
  }

  lemma FullIsCrowded(devs: seq<Device>, gates: seq<Gate>, g: Gate, saved: seq<Saved>, regs: map<nat, Reg>)
    requires g in gates && Snapshot(saved, regs) && forall e | e in saved :: GateTouches(devs, gates, e.addr)
    ensures Full(devs, g.die, g.id, saved) ==> Crowded(devs, gates)
  {
    hide Touchable;
    if Full(devs, g.die, g.id, saved) {
      var x :| Touchable(devs, g.die, g.id, x) && !InSaved(saved, x);
      var s := saved + [Saved(x, 0)];
      assert GateTouches(devs, gates, x);
      forall i, j | 0 <= i < j < |s| ensures s[i].addr != s[j].addr {
        assert saved[i] in saved && s[i] == saved[i];
        assert j < |saved| ==> s[j] == saved[j];
      }
      forall e | e in s ensures GateTouches(devs, gates, e.addr) {
        assert e in saved || e == Saved(x, 0);
      }
      assert Distinct(s) && |s| == MAX_SAVED + 1;
    }
  }

  lemma AskGatesStep(devs: seq<Device>, dies: nat, script: seq<nat>, w: World, gates: seq<Gate>, i: nat)
    ensures AskGates(devs, dies, script, w, gates[..0]) == (w, true)
    ensures i < |gates| ==>
              var (w1, ok) := AskGates(devs, dies, script, w, gates[..i]);
              var (w2, ret) := AskUp(devs, dies, script, w1, gates[i].die, gates[i].id, ACTIVE, 0);
              AskGates(devs, dies, script, w, gates[..i + 1]) == (w2, ok && ret == Ok)
  {
    hide AskUp;
    if i < |gates| {
      assert gates[..i + 1][..i] == gates[..i];
    }
  }

  lemma SaveAllStart(devs: seq<Device>, regs: map<nat, Reg>, gates: seq<Gate>)
    ensures SaveAll(devs, regs, gates[..0]) == ([], true)
  {
  }

  /** The next gate, which ends the loop if it fails. */
  lemma SaveAllStep(devs: seq<Device>, regs: map<nat, Reg>, gates: seq<Gate>, i: nat)
    requires i < |gates| && SaveAll(devs, regs, gates[..i]).1
    ensures var (s, ok) := SaveUp(devs, regs, SaveAll(devs, regs, gates[..i]).0, gates[i].die, gates[i].id, 0);
            if ok then SaveAll(devs, regs, gates[..i + 1]) == (s, true) else SaveAll(devs, regs, gates) == (s, false)
  {
    SaveAllFails(devs, regs, gates, i);
    hide SaveUp;
    assert gates[..i + 1][..i] == gates[..i];
  }

  lemma {:induction false} SaveAllFails(devs: seq<Device>, regs: map<nat, Reg>, gates: seq<Gate>, i: nat)
    requires i < |gates|
    ensures !SaveAll(devs, regs, gates[..i + 1]).1 ==>
              SaveAll(devs, regs, gates) == SaveAll(devs, regs, gates[..i + 1])
    decreases |gates|
  {
    hide SaveUp;
    if i + 1 < |gates| {
      var n := |gates| - 1;
      SaveAllFails(devs, regs, gates[..n], i);
      assert gates[..n][..i + 1] == gates[..i + 1];
    } else {
      assert gates[..i + 1] == gates;
    }
  }

  /** A snapshot that holds every register above the gates shows that there are not too many. */
  lemma NotCrowded(devs: seq<Device>, gates: seq<Gate>, saved: seq<Saved>, regs: map<nat, Reg>)
    requires Snapshot(saved, regs) && forall x | GateTouches(devs, gates, x) :: InSaved(saved, x)
    ensures !Crowded(devs, gates)
  {
    hide GateTouches;
    if Crowded(devs, gates) {
      var s: seq<Saved> :| Distinct(s) && |s| == MAX_SAVED + 1 && forall e | e in s :: GateTouches(devs, gates, e.addr);
      var a, b := set e | e in s :: e.addr, set e | e in saved :: e.addr;
      forall x | x in a ensures x in b {
        var e :| e in s && e.addr == x;
        assert InSaved(saved, x);
      }
      AddrCount(s);
      AddrCount(saved);
      Smaller(a, b);
    }
  }

  lemma {:induction false} AddrCount(s: seq<Saved>)
    requires Distinct(s)
    ensures |set e | e in s :: e.addr| == |s|
  {
    var a := set e | e in s :: e.addr;
    if s == [] {
      assert a == {};
    } else {
      var n := |s| - 1;
      AddrCount(s[..n]);
      var b := set e | e in s[..n] :: e.addr;
      assert s[n] in s && a == b + {s[n].addr} by {
        forall x | x in a ensures x in b + {s[n].addr} {
          var e :| e in s && e.addr == x;
          assert e == s[n] || e in s[..n];
        }
      }
      assert s[n].addr !in b;
    }
  }

  lemma {:induction false} Smaller(a: set<nat>, b: set<nat>)
    requires a <= b
    ensures |a| <= |b|
  {
    assert b == a + (b - a);
  }

  lemma NothingSaved(regs: map<nat, Reg>)
    ensures Snapshot([], regs)
  {
  }

  /** The saved targets from `n` on are back; nothing else has changed. */
  ghost predicate PutBack(devs: seq<Device>, dies: nat, all: seq<Saved>, n: nat, r0: map<nat, Reg>, r: map<nat, Reg>) {
    && n <= |all| && r.Keys == r0.Keys
    && (forall x | x in r && !InSaved(all[n..], x) :: r[x] == r0[x])
    && (forall k | n <= k < |all| :: all[k].addr in r && BackAt(devs, dies, all[k], r0, r))
  }

  ghost predicate BackAt(devs: seq<Device>, dies: nat, e: Saved, r0: map<nat, Reg>, r: map<nat, Reg>)
    requires e.addr in r
  {
    && (!Guarded(devs, dies, e.addr) ==> r[e.addr].target == e.target)
    && (Guarded(devs, dies, e.addr) ==> e.addr in r0 && r[e.addr] == r0[e.addr])
  }

  lemma PutBackNone(devs: seq<Device>, dies: nat, all: seq<Saved>, r: map<nat, Reg>)
    ensures PutBack(devs, dies, all, |all|, r, r)
  {
  }

  lemma PutBackKeys(devs: seq<Device>, dies: nat, all: seq<Saved>, n: nat, r0: map<nat, Reg>, r: map<nat, Reg>)
    requires PutBack(devs, dies, all, n, r0, r)
    ensures r.Keys == r0.Keys
  {
  }

  lemma PutBackMore(devs: seq<Device>, dies: nat, all: seq<Saved>, n: nat, r0: map<nat, Reg>, r1: map<nat, Reg>,
                    r2: map<nat, Reg>)
    requires n < |all| && Distinct(all) && PutBack(devs, dies, all, n + 1, r0, r1) && all[n].addr in r1
    requires r2.Keys == r1.Keys && forall x | x in r2 && x != all[n].addr :: r2[x] == r1[x]
    requires !Guarded(devs, dies, all[n].addr) ==> r2[all[n].addr].target == all[n].target
    requires Guarded(devs, dies, all[n].addr) ==> r2[all[n].addr] == r1[all[n].addr]
    ensures PutBack(devs, dies, all, n, r0, r2)
  {
    hide Guarded;
    SavedBelow(all, n);
    forall x | x in r2 && !InSaved(all[n..], x) ensures r2[x] == r0[x] {
      assert x != all[n].addr && !InSaved(all[n + 1..], x);
    }
    NotSavedLater(all, n);
    forall k | n <= k < |all| ensures all[k].addr in r2 && BackAt(devs, dies, all[k], r0, r2) {
      if k > n {
        assert BackAt(devs, dies, all[k], r0, r1);
      }
    }
  }

  lemma NotSavedLater(all: seq<Saved>, n: nat)
    requires n < |all| && Distinct(all)
    ensures !InSaved(all[n + 1..], all[n].addr)
  {
  }

  lemma PutBackAll(devs: seq<Device>, dies: nat, all: seq<Saved>, r0: map<nat, Reg>, r: map<nat, Reg>)
    requires PutBack(devs, dies, all, 0, r0, r)
    ensures r.Keys == r0.Keys && forall x | x in r && !InSaved(all, x) :: r[x] == r0[x]
    ensures forall e | e in all :: e.addr in r && BackAt(devs, dies, e, r0, r)
  {
    hide Guarded;
    assert all[0..] == all;
    forall e | e in all ensures e.addr in r && BackAt(devs, dies, e, r0, r) {
      var k :| 0 <= k < |all| && all[k] == e;
    }
  }

  lemma SavedBelow(all: seq<Saved>, n: nat)
    requires n < |all|
    ensures forall x | InSaved(all[n + 1..], x) :: InSaved(all[n..], x)
    ensures InSaved(all[n..], all[n].addr)
  {
    assert all[n..] == [all[n]] + all[n + 1..];
  }

  // ---------------------------------------------------------------------- the order of the rollback

  predicate Owns(devs: seq<Device>, die: nat, d: nat, x: nat) {
    Real(devs, d) && Addr(Find(devs, d).value, die) == x
  }

  /** No two devices share a register, and no device has the same one on two dies. */
  ghost predicate OneOwner(devs: seq<Device>) {
    forall d, e, die, die', x | x != 0 && Owns(devs, die, d, x) && Owns(devs, die', e, x) :: d == e && die == die'
  }

  /** A register is in the snapshot only behind those of its device's ancestors. */
  ghost predicate AncestorsFirst(devs: seq<Device>, s: seq<Saved>) {
    forall k, die, d, a | 0 <= k < |s| && Owns(devs, die, d, s[k].addr) && Ancestor(devs, d, a) && Real(devs, a) ::
      InSaved(s[..k], Addr(Find(devs, a).value, die))
  }

  /** The registers of everything above the device's parents are in the snapshot. */
  ghost predicate ParentsSaved(devs: seq<Device>, die: nat, d: Device, s: seq<Saved>) {
    forall p, x | ParentOf(d, p) && Touchable(devs, die, p, x) :: InSaved(s, x)
  }

  lemma SaveRegOrder(devs: seq<Device>, regs: map<nat, Reg>, s: seq<Saved>, die: nat, d: Device)
    requires OneOwner(devs) && AncestorsFirst(devs, s) && Find(devs, d.id) == Some(d) && !d.virtual
    requires ParentsSaved(devs, die, d, s)
    ensures var (s', ok) := SaveReg(regs, s, Addr(d, die));
            s <= s' && AncestorsFirst(devs, s') && (ok ==> InSaved(s', Addr(d, die)))
  {
    hide Ancestor, Above;
    var x := Addr(d, die);
    var s' := SaveReg(regs, s, x).0;
    if s' != s {
      assert s'[|s|].addr == x;
      forall k, die', e, a | 0 <= k < |s'| && Owns(devs, die', e, s'[k].addr) && Ancestor(devs, e, a) && Real(devs, a)
        ensures InSaved(s'[..k], Addr(Find(devs, a).value, die'))
      {
        assert s'[..k] == s[..k];
        if k == |s| {
          assert Owns(devs, die, d.id, x) && s[..k] == s;
          AncestorSplit(devs, d.id, a);
        }
      }
    }
  }

  lemma {:induction false} SaveUpOrder(devs: seq<Device>, regs: map<nat, Reg>, s: seq<Saved>, die: nat, id: nat,
                                       depth: nat)
    requires OneOwner(devs) && AncestorsFirst(devs, s)
    ensures var (s', ok) := SaveUp(devs, regs, s, die, id, depth);
            s <= s' && AncestorsFirst(devs, s') && (ok ==> forall x | Touchable(devs, die, id, x) :: InSaved(s', x))
    decreases MAX_DEPTH - depth, 1
  {
    hide AncestorsFirst, OneOwner, Touchable, SaveReg, SaveAbove, ParentsSaved;
    if depth < MAX_DEPTH && Find(devs, id).Some? {
      var d := Find(devs, id).value;
      SaveAboveOrder(devs, regs, s, die, d, depth);
      var (s1, ok) := SaveAbove(devs, regs, s, die, d, depth);
      if ok {
        if !d.virtual {
          SaveRegOrder(devs, regs, s1, die, d);
        }
        var (s2, ok2) := SaveUp(devs, regs, s, die, id, depth);
        if ok2 {
          UpFromParents(devs, die, d, s1, s2);
        }
      }
    }
  }

  lemma UpFromParents(devs: seq<Device>, die: nat, d: Device, s1: seq<Saved>, s2: seq<Saved>)
    requires Find(devs, d.id) == Some(d) && s1 <= s2 && ParentsSaved(devs, die, d, s1)
    requires !d.virtual ==> InSaved(s2, Addr(d, die))
    ensures forall x | Touchable(devs, die, d.id, x) :: InSaved(s2, x)
  {
    hide Touchable;
    forall x | Touchable(devs, die, d.id, x) ensures InSaved(s2, x) {
      TouchableSplit(devs, die, d, x);
      SavedStill(s1, s2, x);
    }
  }

  lemma {:induction false} SaveAboveOrder(devs: seq<Device>, regs: map<nat, Reg>, s: seq<Saved>, die: nat, d: Device,
                                          depth: nat)
    requires OneOwner(devs) && AncestorsFirst(devs, s) && depth < MAX_DEPTH
    ensures var (s', ok) := SaveAbove(devs, regs, s, die, d, depth);
            s <= s' && AncestorsFirst(devs, s') && (ok ==> ParentsSaved(devs, die, d, s'))
    decreases MAX_DEPTH - depth, 0
  {
    hide AncestorsFirst, OneOwner, Touchable, SaveUp;
    var (s1, ok) := if d.parent0 == 0 then (s, true) else SaveUp(devs, regs, s, die, d.parent0, depth + 1);
    if d.parent0 != 0 {
      SaveUpOrder(devs, regs, s, die, d.parent0, depth + 1);
    }
    if ok && d.parent1 != 0 {
      SaveUpOrder(devs, regs, s1, die, d.parent1, depth + 1);
    }
    var (s2, ok2) := SaveAbove(devs, regs, s, die, d, depth);
    if ok2 {
      forall p, x | ParentOf(d, p) && Touchable(devs, die, p, x) ensures InSaved(s2, x) {
        SavedStill(s1, s2, x);
      }
    }
  }

  lemma {:induction false} SaveAllOrder(devs: seq<Device>, regs: map<nat, Reg>, gates: seq<Gate>)
    requires OneOwner(devs)
    ensures AncestorsFirst(devs, SaveAll(devs, regs, gates).0)
    decreases |gates|
  {
    hide OneOwner, SaveUp;
    if gates != [] {
      var n := |gates| - 1;
      SaveAllOrder(devs, regs, gates[..n]);
      SaveUpOrder(devs, regs, SaveAll(devs, regs, gates[..n]).0, gates[n].die, gates[n].id, 0);
    }
  }

  /** Since `n` the registers of the snapshot were written from its end to its start, none that was there already. */
  ghost predicate Backwards(saved: seq<Saved>, regs: map<nat, Reg>, trace: seq<Event>, n: nat) {
    && (forall i | n <= i < |trace| :: BackFrom(saved, |saved|, regs, trace[i]))
    && (forall i, j, p | n <= i < j < |trace| && 0 <= p < |saved| && trace[i].Restored? &&
                         saved[p].addr == trace[i].addr :: BackFrom(saved, p, regs, trace[j]))
  }

  /** The event gives back one of the first `p` registers, which was not there. */
  ghost predicate BackFrom(saved: seq<Saved>, p: nat, regs: map<nat, Reg>, e: Event) {
    exists q :: 0 <= q < p && q < |saved| && GivenBack(saved[q], regs, e)
  }

  predicate GivenBack(s: Saved, regs: map<nat, Reg>, e: Event) {
    && e.Restored? && e.addr == s.addr && e.target == s.target && s.addr in regs
    && (regs[s.addr].actual != s.target || regs[s.addr].target != s.target)
  }

  /** Giving one register back changes no other and says so. */
  lemma GiveBackOne(devs: seq<Device>, dies: nat, script: seq<nat>, w: World, e: Saved)
    ensures var w' := GiveBack(devs, dies, script, w, e);
            && (forall x | x in w.regs && x != e.addr :: x in w'.regs && w'.regs[x] == w.regs[x])
            && (w'.trace == w.trace ||
                (|w'.trace| == |w.trace| + 1 && w.trace <= w'.trace && GivenBack(e, w.regs, w'.trace[|w.trace|])))
            && w'.regs.Keys == w.regs.Keys
  {
    hide Guarded, Settles;
  }

  lemma {:induction false} GiveAllBackOrder(devs: seq<Device>, dies: nat, script: seq<nat>, w: World, saved: seq<Saved>)
    requires Distinct(saved)
    ensures var w' := GiveAllBack(devs, dies, script, w, saved);
            w.trace <= w'.trace && Backwards(saved, w.regs, w'.trace, |w.trace|)
    decreases |saved|
  {
    hide GiveBack;
    if saved != [] {
      var n := |saved| - 1;
      var w1 := GiveBack(devs, dies, script, w, saved[n]);
      GiveBackOne(devs, dies, script, w, saved[n]);
      GiveAllBackOrder(devs, dies, script, w1, saved[..n]);
      BackwardsMore(saved, w, w1, GiveAllBack(devs, dies, script, w, saved));
    }
  }

  lemma BackwardsMore(saved: seq<Saved>, w: World, w1: World, w': World)
    requires Distinct(saved) && saved != [] && w1.trace <= w'.trace
    requires var e := saved[|saved| - 1];
             && (forall x | x in w.regs && x != e.addr :: x in w1.regs && w1.regs[x] == w.regs[x])
             && (w1.trace == w.trace ||
                 (|w1.trace| == |w.trace| + 1 && w.trace <= w1.trace && GivenBack(e, w.regs, w1.trace[|w.trace|])))
             && w1.regs.Keys == w.regs.Keys
    requires Backwards(saved[..|saved| - 1], w1.regs, w'.trace, |w1.trace|)
    ensures Backwards(saved, w.regs, w'.trace, |w.trace|)
  {
    var n, t := |saved| - 1, w'.trace;
    hide GivenBack;
    forall i, p: nat | |w1.trace| <= i < |t| && p <= n && BackFrom(saved[..n], p, w1.regs, t[i])
      ensures BackFrom(saved, p, w.regs, t[i])
    {
      var q :| 0 <= q < p && q < n && GivenBack(saved[..n][q], w1.regs, t[i]);
      SameGivenBack(saved[q], w.regs, w1.regs, t[i]);
    }
    forall i | |w.trace| <= i < |t| ensures BackFrom(saved, |saved|, w.regs, t[i]) {
      if i >= |w1.trace| {
        assert BackFrom(saved[..n], n, w1.regs, t[i]);
      }
    }
    forall i, j, p | |w.trace| <= i < j < |t| && 0 <= p < |saved| && t[i].Restored? && saved[p].addr == t[i].addr
      ensures BackFrom(saved, p, w.regs, t[j])
    {
      assert BackFrom(saved[..n], n, w1.regs, t[j]);
      if i < |w1.trace| {
        LastGivenBack(saved, w.regs, t[i], p);
      } else if p < n {
        assert saved[..n][p].addr == t[i].addr;
      }
    }
  }

  lemma LastGivenBack(saved: seq<Saved>, r: map<nat, Reg>, e: Event, p: nat)
    requires Distinct(saved) && p < |saved| && GivenBack(saved[|saved| - 1], r, e) && saved[p].addr == e.addr
    ensures p == |saved| - 1
  {
  }

  lemma SameGivenBack(s: Saved, r: map<nat, Reg>, r1: map<nat, Reg>, e: Event)
    requires GivenBack(s, r1, e) && r1.Keys == r.Keys && (s.addr in r ==> r1[s.addr] == r[s.addr])
    ensures GivenBack(s, r, e)
  {
  }

  /** Since `n` every register was given back before those of its device's ancestors. */
  ghost predicate Descends(devs: seq<Device>, trace: seq<Event>, n: nat) {
    forall i, j, die, d, a | n <= i < |trace| && n <= j < |trace| && trace[i].Restored? && trace[j].Restored? &&
                             Owns(devs, die, d, trace[i].addr) && Owns(devs, die, a, trace[j].addr) &&
                             Ancestor(devs, d, a) ::
      i < j
  }

  /** Since `n` only registers were given back that this call had written or that had not come to rest before it. */
  ghost predicate Needed(devs: seq<Device>, dies: nat, regs: map<nat, Reg>, trace: seq<Event>, n: nat) {
    forall k | n <= k < |trace| && trace[k].Restored? :: NeededAt(devs, dies, regs, trace, n, k)
  }

  ghost predicate NeededAt(devs: seq<Device>, dies: nat, regs: map<nat, Reg>, trace: seq<Event>, n: nat, k: nat)
    requires k < |trace| && trace[k].Restored?
  {
    var x := trace[k].addr;
    && x in regs && trace[k].target == regs[x].target
    && (regs[x].actual != regs[x].target || exists i :: n <= i < k && trace[i].Step? && Wrote(devs, dies, trace[i], x))
  }

  lemma NothingGivenBack(devs: seq<Device>, dies: nat, regs: map<nat, Reg>, trace: seq<Event>, n: nat)
    requires StepsOnly(trace, n)
    ensures Descends(devs, trace, n) && Needed(devs, dies, regs, trace, n)
  {
  }

  lemma RollbackDescends(devs: seq<Device>, shot: seq<Saved>, r: map<nat, Reg>, t: seq<Event>, t': seq<Event>, n: nat)
    requires AncestorsFirst(devs, shot) && Distinct(shot) && StepsOnly(t, n) && t <= t' && n <= |t|
    requires Backwards(shot, r, t', |t|)
    ensures Descends(devs, t', n)
  {
    hide Ancestor, Real, Backwards;
    BackwardsEach(shot, r, t', |t|);
    forall i, j, die, d, a | n <= i < |t'| && n <= j < |t'| && t'[i].Restored? && t'[j].Restored? &&
                             Owns(devs, die, d, t'[i].addr) && Owns(devs, die, a, t'[j].addr) && Ancestor(devs, d, a)
      ensures i < j
    {
      assert i >= |t| && j >= |t|;
      assert BackFrom(shot, |shot|, r, t'[i]);
      var p :| 0 <= p < |shot| && GivenBack(shot[p], r, t'[i]);
      assert InSaved(shot[..p], t'[j].addr);
      var e :| e in shot[..p] && e.addr == t'[j].addr;
      var q :| 0 <= q < p && shot[q] == e;
      LaterIsLower(shot, r, t', |t|, i, j, p, q);
    }
  }

  lemma LaterIsLower(shot: seq<Saved>, r: map<nat, Reg>, t: seq<Event>, n: nat, i: nat, j: nat, p: nat, q: nat)
    requires Backwards(shot, r, t, n) && Distinct(shot) && n <= i < |t| && n <= j < |t| && q < p < |shot|
    requires t[i].Restored? && t[j].Restored? && t[i].addr == shot[p].addr && t[j].addr == shot[q].addr
    ensures i < j
  {
  }

  lemma BackwardsEach(shot: seq<Saved>, r: map<nat, Reg>, t: seq<Event>, n: nat)
    requires Backwards(shot, r, t, n)
    ensures forall i | n <= i < |t| :: BackFrom(shot, |shot|, r, t[i])
  {
  }

  lemma RollbackNeeded(devs: seq<Device>, dies: nat, shot: seq<Saved>, r0: map<nat, Reg>, r: map<nat, Reg>,
                       t: seq<Event>, t': seq<Event>, n: nat)
    requires Snapshot(shot, r0) && StepsOnly(t, n) && t <= t' && n <= |t| && AutoExact(devs, dies, t, n, r0, r)
    requires Backwards(shot, r, t', |t|)
    ensures Needed(devs, dies, r0, t', n)
  {
    hide Wrote;
    forall k | n <= k < |t'| && t'[k].Restored? ensures NeededAt(devs, dies, r0, t', n, k) {
      assert k >= |t|;
      assert BackFrom(shot, |shot|, r, t'[k]);
      var p :| 0 <= p < |shot| && GivenBack(shot[p], r, t'[k]);
      var x := t'[k].addr;
      assert shot[p] in shot;
      if WroteSince(devs, dies, t, n, x) {
        var i :| n <= i < |t| && Wrote(devs, dies, t[i], x);
        assert t'[i] == t[i];
      }
    }
  }

  /** Some device asked since did not follow. */
  ghost predicate FailedSince(trace: seq<Event>, n: nat) {
    exists k :: n <= k < |trace| && trace[k].Step? && !trace[k].ok
  }

  /** Everything above the gate has followed since, or some device above it has not. */
  ghost predicate Tried(devs: seq<Device>, g: Gate, trace: seq<Event>, n: nat) {
    n <= |trace| && (Switched(devs, g.die, g.id, ACTIVE, trace, n) || FailedAbove(devs, g, trace, n))
  }

  ghost predicate FailedAbove(devs: seq<Device>, g: Gate, trace: seq<Event>, n: nat) {
    exists k :: n <= k < |trace| && OneAbove(devs, g.die, g.id, ACTIVE, trace[k]) && !trace[k].ok
  }

  /** A rollback comes after all requests. */
  ghost predicate Staged(trace: seq<Event>, n: nat) {
    forall i, j | n <= i < j < |trace| && trace[i].Restored? :: trace[j].Restored?
  }

  ghost predicate StepsOnly(trace: seq<Event>, n: nat) {
    forall k | n <= k < |trace| :: trace[k].Step?
  }

  lemma StepsOnlyThen(devs: seq<Device>, die: nat, id: nat, mode: nat, t: seq<Event>, t': seq<Event>, n: nat)
    requires t <= t' && StepsOnly(t, n) && OnlyAbove(devs, die, id, mode, t', |t|)
    ensures StepsOnly(t', n)
  {
    hide Above, Real;
    forall k | n <= k < |t'| ensures t'[k].Step? {
      if k < |t| {
        assert t'[k] == t[k];
      } else {
        assert OneAbove(devs, die, id, mode, t'[k]);
      }
    }
  }

  lemma StagedThen(t: seq<Event>, t': seq<Event>, n: nat)
    requires t <= t' && StepsOnly(t, n) && forall k | |t| <= k < |t'| :: t'[k].Restored?
    ensures Staged(t', n)
  {
    forall k | n <= k < |t| ensures t'[k].Step? {
      assert t'[k] == t[k];
    }
  }

  lemma TriedStill(devs: seq<Device>, g: Gate, t: seq<Event>, t': seq<Event>, n: nat)
    requires t <= t' && Tried(devs, g, t, n)
    ensures Tried(devs, g, t', n)
  {
    hide Switched, Above, Real;
    if Switched(devs, g.die, g.id, ACTIVE, t, n) {
      SwitchedMore(devs, g.die, g.id, ACTIVE, t, t', n);
    } else {
      var k :| n <= k < |t| && OneAbove(devs, g.die, g.id, ACTIVE, t[k]) && !t[k].ok;
      assert t'[k] == t[k];
    }
  }

  lemma TriedNow(devs: seq<Device>, g: Gate, t: seq<Event>, t': seq<Event>, n: nat)
    requires n <= |t| && t <= t' && OnlyAbove(devs, g.die, g.id, ACTIVE, t', |t|)
    ensures Switched(devs, g.die, g.id, ACTIVE, t', |t|) ==> Tried(devs, g, t', n)
    ensures |t'| > |t| && !t'[|t'| - 1].ok ==> Tried(devs, g, t', n) && FailedSince(t', n)
  {
    hide Switched, Above, Real;
    assert |t'| > |t| ==> OneAbove(devs, g.die, g.id, ACTIVE, t'[|t'| - 1]);
    if Switched(devs, g.die, g.id, ACTIVE, t', |t|) {
      SwitchedFrom(devs, g.die, g.id, ACTIVE, t', |t|, n);
    }
  }

  /** Every request since concerns a device above one of the gates, on the gate's die; the others are of a
      rollback. */
  ghost predicate StepsOfGates(devs: seq<Device>, gates: seq<Gate>, trace: seq<Event>, n: nat) {
    forall k | n <= k < |trace| && trace[k].Step? :: OfGate(devs, gates, trace[k])
  }

  ghost predicate OfGate(devs: seq<Device>, gates: seq<Gate>, e: Event)
    requires e.Step?
  {
    exists g :: g in gates && OneAbove(devs, g.die, g.id, ACTIVE, e)
  }

  lemma NothingYet(devs: seq<Device>, gates: seq<Gate>, trace: seq<Event>)
    ensures StepsOfGates(devs, gates, trace, |trace|) && Ordered(devs, trace, |trace|)
    ensures StepsOnly(trace, |trace|) && Staged(trace, |trace|)
  {
  }

  lemma OnlyAboveNone(devs: seq<Device>, die: nat, id: nat, mode: nat, trace: seq<Event>)
    ensures OnlyAbove(devs, die, id, mode, trace, |trace|)
  {
  }

  lemma GateSteps(devs: seq<Device>, gates: seq<Gate>, g: Gate, t: seq<Event>, t': seq<Event>, n: nat)
    requires t <= t' && StepsOfGates(devs, gates, t, n) && g in gates && OnlyAbove(devs, g.die, g.id, ACTIVE, t', |t|)
    ensures StepsOfGates(devs, gates, t', n)
  {
    hide Above, Real;
    forall k | n <= k < |t'| && t'[k].Step? ensures OfGate(devs, gates, t'[k]) {
      if k < |t| {
        assert t'[k] == t[k];
      } else {
        assert OneAbove(devs, g.die, g.id, ACTIVE, t'[k]);
      }
    }
  }

  /** Appending a rollback changes nothing about the requests. */
  lemma RestoringKeeps(devs: seq<Device>, gates: seq<Gate>, t: seq<Event>, t': seq<Event>, n: nat)
    requires n <= |t| && t <= t' && StepsOfGates(devs, gates, t, n) && Ordered(devs, t, n)
    requires forall k | |t| <= k < |t'| :: t'[k].Restored?
    ensures StepsOfGates(devs, gates, t', n) && Ordered(devs, t', n)
  {
    hide Ancestor, Real;
    forall k | n <= k < |t'| && t'[k].Step? ensures OfGate(devs, gates, t'[k]) {
      assert t'[k] == t[k];
    }
    OrderedThen(devs, t, t', n);
  }

  /** The gate and everything above it is active, and was switched since. */
  ghost predicate GateOn(devs: seq<Device>, dies: nat, g: Gate, regs: map<nat, Reg>, trace: seq<Event>, n: nat) {
    && AllIn(devs, g.die, g.id, ACTIVE, regs) && n <= |trace| && Switched(devs, g.die, g.id, ACTIVE, trace, n)
    && forall x | Touchable(devs, g.die, g.id, x) && !Guarded(devs, dies, x) :: WroteSince(devs, dies, trace, n, x)
  }

  lemma GateSwitched(devs: seq<Device>, dies: nat, g: Gate, r: map<nat, Reg>, r': map<nat, Reg>,
                     t: seq<Event>, t': seq<Event>, n: nat)
    requires n <= |t| && t <= t' && Achieved(devs, g.die, g.id, ACTIVE, r, r', t', |t|)
    ensures GateOn(devs, dies, g, r', t', n)
  {
    hide AllIn, Touchable, Guarded, Switched, Stays;
    SwitchedFrom(devs, g.die, g.id, ACTIVE, t', |t|, n);
    forall x | Touchable(devs, g.die, g.id, x) && !Guarded(devs, dies, x) ensures WroteSince(devs, dies, t', n, x) {
      SwitchedWrites(devs, dies, g.die, g.id, ACTIVE, t', |t|, x);
      WroteSplit(devs, dies, t, t', n, x);
    }
  }

  lemma GateStaysOn(devs: seq<Device>, dies: nat, g: Gate, r: map<nat, Reg>, r': map<nat, Reg>,
                    t: seq<Event>, t': seq<Event>, n: nat)
    requires n <= |t| && t <= t' && GateOn(devs, dies, g, r, t, n) && Stays(ACTIVE, r, r')
    ensures GateOn(devs, dies, g, r', t', n)
  {
    hide AllIn, Touchable, Guarded, Stays, WroteSince, Switched;
    SwitchedMore(devs, g.die, g.id, ACTIVE, t, t', n);
    AllInStays(devs, g.die, g.id, ACTIVE, r, r');
    forall x | Touchable(devs, g.die, g.id, x) && !Guarded(devs, dies, x) ensures WroteSince(devs, dies, t', n, x) {
      WroteSplit(devs, dies, t, t', n, x);
    }
  }

  lemma GatesLoseAuto(devs: seq<Device>, dies: nat, gates: seq<Gate>, r: map<nat, Reg>, r': map<nat, Reg>,
                      trace: seq<Event>, n: nat)
    requires AutoExact(devs, dies, trace, n, r, r') && forall g | g in gates :: GateOn(devs, dies, g, r', trace, n)
    ensures forall x | GateTouches(devs, gates, x) && x in r' && !Guarded(devs, dies, x) :: !r'[x].auto
  {
    hide AllIn, Touchable, Guarded, WroteSince;
    forall x | GateTouches(devs, gates, x) && x in r' && !Guarded(devs, dies, x) ensures !r'[x].auto {
      var g :| g in gates && Touchable(devs, g.die, g.id, x);
      assert GateOn(devs, dies, g, r', trace, n);
    }
  }

  lemma FailedStill(t: seq<Event>, t': seq<Event>, n: nat)
    requires t <= t'
    ensures FailedSince(t, n) ==> FailedSince(t', n)
    ensures |t| >= n && |t'| > |t| && t'[|t'| - 1].Step? && !t'[|t'| - 1].ok ==> FailedSince(t', n)
  {
    if FailedSince(t, n) {
      var k :| n <= k < |t| && t[k].Step? && !t[k].ok;
      assert t'[k] == t[k];
    }
  }

  /** Each register once, with the target it has. */
  ghost predicate Snapshot(saved: seq<Saved>, regs: map<nat, Reg>) {
    && Distinct(saved) && |saved| <= MAX_SAVED
    && forall e | e in saved :: e.addr != 0 && e.addr in regs && e.target == regs[e.addr].target
  }

  ghost predicate Distinct(saved: seq<Saved>) {
    forall i, j | 0 <= i < j < |saved| :: saved[i].addr != saved[j].addr
  }

  ghost predicate GateTouches(devs: seq<Device>, gates: seq<Gate>, x: nat) {
    exists g :: g in gates && Touchable(devs, g.die, g.id, x)
  }

  lemma SavedMore(s: seq<Saved>, s': seq<Saved>, x: nat)
    requires InSaved(s, x) && s <= s'
    ensures InSaved(s', x)
  {
    var e :| e in s && e.addr == x;
    assert e in s';
  }

  lemma SavedStill(s: seq<Saved>, s': seq<Saved>, x: nat)
    requires s <= s'
    ensures InSaved(s, x) ==> InSaved(s', x)
  {
    if InSaved(s, x) {
      SavedMore(s, s', x);
    }
  }

  /** What a parent's walk added is above the device too. */
  lemma SavedUp(devs: seq<Device>, die: nat, id: nat, p: nat, s0: seq<Saved>, s1: seq<Saved>, s2: seq<Saved>)
    requires Find(devs, id).Some? && ParentOf(Find(devs, id).value, p)
    requires forall e | e in s1 && e !in s0 :: Touchable(devs, die, id, e.addr)
    requires forall e | e in s2 && e !in s1 :: Touchable(devs, die, p, e.addr)
    ensures forall e | e in s2 && e !in s0 :: Touchable(devs, die, id, e.addr)
  {
    hide Touchable;
    forall e | e in s2 && e !in s1 ensures Touchable(devs, die, id, e.addr) {
      TouchableUp(devs, die, id, p, e.addr);
    }
  }

  lemma TouchableSplit(devs: seq<Device>, die: nat, d: Device, x: nat)
    requires Find(devs, d.id) == Some(d) && Touchable(devs, die, d.id, x)
    ensures || (d.parent0 != 0 && Touchable(devs, die, d.parent0, x))
            || (d.parent1 != 0 && Touchable(devs, die, d.parent1, x))
            || (!d.virtual && Addr(d, die) == x)
  {
    hide Above, Ancestor;
    var a :| Above(devs, d.id, a) && Real(devs, a) && Addr(Find(devs, a).value, die) == x;
    AboveSplit(devs, d.id, a);
  }

  lemma SoundResolved(devs: seq<Device>, dies: nat)
    requires Sound(devs, dies)
    ensures AllResolved(devs, dies)
  {
    hide Walkable, Resolved;
    forall d | d in devs ensures Resolved(d, dies) {
      var i :| 0 <= i < |devs| && devs[i] == d;
      assert SoundAt(devs, dies, i);
    }
  }

  /** One register through a failed enable and the rollback. */
  lemma RolledBackAt(devs: seq<Device>, dies: nat, shot: seq<Saved>, r0: map<nat, Reg>, r1: map<nat, Reg>,
                     r2: map<nat, Reg>, x: nat)
    requires x in r0 && x in r1 && x in r2 && Snapshot(shot, r0)
    requires r1[x] != r0[x] ==> InSaved(shot, x) && !Guarded(devs, dies, x)
    requires !InSaved(shot, x) ==> r2[x] == r1[x]
    requires forall e | e in shot && e.addr == x && !Guarded(devs, dies, x) :: r2[x].target == e.target
    requires forall e | e in shot && e.addr == x && Guarded(devs, dies, x) :: r2[x] == r1[x]
    ensures r2[x].target == r0[x].target
  {
    hide Guarded;
    if InSaved(shot, x) {
      var e :| e in shot && e.addr == x;
    }
  }

  lemma WithinNone(devs: seq<Device>, dies: nat, die: nat, id: nat, regs: map<nat, Reg>)
    ensures Within(devs, dies, die, id, regs, regs)
  {
  }

  lemma SelfWithin(devs: seq<Device>, dies: nat, die: nat, id: nat, regs: map<nat, Reg>, regs': map<nat, Reg>)
    requires Real(devs, id) && regs'.Keys == regs.Keys
    requires forall x | x in regs && x != Addr(Find(devs, id).value, die) :: regs'[x] == regs[x]
    requires Guarded(devs, dies, Addr(Find(devs, id).value, die)) ==> regs' == regs
    ensures Within(devs, dies, die, id, regs, regs')
  {
    hide Guarded, Touchable;
    TouchableSelf(devs, die, id);
  }

  lemma StaysThen(mode: nat, r0: map<nat, Reg>, r1: map<nat, Reg>, r2: map<nat, Reg>)
    requires Stays(mode, r0, r1) && Stays(mode, r1, r2)
    ensures Stays(mode, r0, r2)
  {
    hide InMode;
  }

  lemma StaysSame(mode: nat, regs: map<nat, Reg>)
    ensures Stays(mode, regs, regs)
  {
  }

  /** A parent's part of the walk is part of the device's. */
  lemma Lifted(devs: seq<Device>, dies: nat, die: nat, id: nat, p: nat, mode: nat,
               t0: seq<Event>, t1: seq<Event>, t2: seq<Event>, r0: map<nat, Reg>, r1: map<nat, Reg>, r2: map<nat, Reg>)
    requires Find(devs, id).Some? && ParentOf(Find(devs, id).value, p) && t0 <= t1 <= t2
    requires Within(devs, dies, die, id, r0, r1) && Within(devs, dies, die, p, r1, r2)
    requires AutoExact(devs, dies, t1, |t0|, r0, r1) && AutoExact(devs, dies, t2, |t1|, r1, r2)
    requires OnlyAbove(devs, die, id, mode, t1, |t0|) && OnlyAbove(devs, die, p, mode, t2, |t1|)
    ensures Within(devs, dies, die, id, r0, r2) && AutoExact(devs, dies, t2, |t0|, r0, r2)
    ensures OnlyAbove(devs, die, id, mode, t2, |t0|)
  {
    hide Within, AutoExact, OnlyAbove;
    WithinUp(devs, dies, die, id, p, r1, r2);
    WithinThen(devs, dies, die, id, r0, r1, r2);
    AutoThen(devs, dies, t1, t2, |t0|, r0, r1, r2);
    OnlyAboveUp(devs, die, id, p, mode, t2, |t1|);
    OnlyAboveThen(devs, die, id, mode, t1, t2, |t0|);
  }

  /** The device's own request. */
  lemma SelfDone(devs: seq<Device>, dies: nat, die: nat, d: Device, mode: nat,
                 t0: seq<Event>, t2: seq<Event>, t3: seq<Event>,
                 r0: map<nat, Reg>, r2: map<nat, Reg>, r3: map<nat, Reg>)
    requires Find(devs, d.id) == Some(d) && !d.virtual && t0 <= t2 <= t3
    requires Within(devs, dies, die, d.id, r0, r2) && AutoExact(devs, dies, t2, |t0|, r0, r2)
    requires OnlyAbove(devs, die, d.id, mode, t2, |t0|)
    requires t3 == t2 || exists ok :: t3 == t2 + [Step(die, d.id, mode, ok)]
    requires r3.Keys == r2.Keys && forall x | x in r2 && x != Addr(d, die) :: r3[x] == r2[x]
    requires Guarded(devs, dies, Addr(d, die)) ==> r3 == r2
    requires AutoExact(devs, dies, t3, |t2|, r2, r3)
    ensures Within(devs, dies, die, d.id, r0, r3) && AutoExact(devs, dies, t3, |t0|, r0, r3)
    ensures OnlyAbove(devs, die, d.id, mode, t3, |t0|)
  {
    hide Within, AutoExact, Above, Guarded;
    SelfWithin(devs, dies, die, d.id, r2, r3);
    WithinThen(devs, dies, die, d.id, r0, r2, r3);
    AutoThen(devs, dies, t2, t3, |t0|, r0, r2, r3);
    AboveSelf(devs, d.id);
    OnlyAboveThen(devs, die, d.id, mode, t2, t3, |t0|);
  }

  /** After both parents: everything above the device other than itself is done. */
  lemma ParentsAchieved(devs: seq<Device>, die: nat, d: Device, mode: nat, r0: map<nat, Reg>, r1: map<nat, Reg>,
                        r2: map<nat, Reg>, t1: seq<Event>, t2: seq<Event>, start: nat)
    requires Find(devs, d.id) == Some(d) && start <= |t1| && t1 <= t2
    requires if d.parent0 != 0 then Achieved(devs, die, d.parent0, mode, r0, r1, t1, start) else r1 == r0
    requires if d.parent1 != 0 then Achieved(devs, die, d.parent1, mode, r1, r2, t2, start) else r2 == r1
    ensures Stays(mode, r0, r2)
    ensures forall p | ParentOf(d, p) :: AllIn(devs, die, p, mode, r2) && Switched(devs, die, p, mode, t2, start)
  {
    hide Stays, AllIn, Switched;
    StaysSame(mode, r0);
    StaysSame(mode, r1);
    StaysThen(mode, r0, r1, r2);
    if d.parent0 != 0 {
      AllInStays(devs, die, d.parent0, mode, r1, r2);
      SwitchedMore(devs, die, d.parent0, mode, t1, t2, start);
    }
  }

  /** The device's own step at the end. */
  lemma Finished(devs: seq<Device>, die: nat, d: Device, mode: nat, r0: map<nat, Reg>, r2: map<nat, Reg>,
                 regs: map<nat, Reg>, t2: seq<Event>, trace: seq<Event>, start: nat, ret: Ret)
    requires Find(devs, d.id) == Some(d) && start <= |t2| && Stays(mode, r0, r2) && Ordered(devs, t2, start)
    requires forall p | ParentOf(d, p) :: AllIn(devs, die, p, mode, r2) && Switched(devs, die, p, mode, t2, start)
    requires d.virtual ==> regs == r2 && trace == t2
    requires !d.virtual ==> trace == t2 || trace == t2 + [Step(die, d.id, mode, ret == Ok)]
    requires !d.virtual && ret == Ok ==> InMode(Addr(d, die), mode, regs) && trace == t2 + [Step(die, d.id, mode, true)]
    requires !d.virtual ==> regs.Keys == r2.Keys && forall x | x in regs && x != Addr(d, die) :: regs[x] == r2[x]
    ensures Ordered(devs, trace, start) && t2 <= trace
    ensures ret == Ok ==> Achieved(devs, die, d.id, mode, r0, regs, trace, start)
  {
    hide Ordered, AllIn, Above, Ancestor;
    SwitchedParents(devs, die, d.id, mode, t2, start);
    if trace != t2 {
      OrderedMore(devs, t2, start, Step(die, d.id, mode, ret == Ok));
    }
    if ret == Ok {
      FinishedSwitched(devs, die, d, mode, t2, trace, start);
      assert Stays(mode, r2, regs);
      StaysThen(mode, r0, r2, regs);
      forall p | ParentOf(d, p) ensures AllIn(devs, die, p, mode, regs) {
        AllInStays(devs, die, p, mode, r2, regs);
      }
      AllInParents(devs, die, d.id, mode, regs);
    }
  }

  lemma FinishedSwitched(devs: seq<Device>, die: nat, d: Device, mode: nat, t: seq<Event>, t': seq<Event>, start: nat)
    requires Find(devs, d.id) == Some(d) && start <= |t|
    requires t' == if d.virtual then t else t + [Step(die, d.id, mode, true)]
    requires forall a | Above(devs, d.id, a) && Real(devs, a) && a != d.id :: Step(die, a, mode, true) in t[start..]
    ensures Switched(devs, die, d.id, mode, t', start)
  {
    hide Above;
    if !d.virtual {
      assert t'[start..] == t[start..] + [Step(die, d.id, mode, true)];
    }
  }

  /** From validation to a node's gates, on any registers, which settle as the script says: either every device above
      a gate ends up active, or every target is what it was; every device was asked only after its ancestors had
      followed, on the same die and in this call; registers that are protected or not above a gate are untouched, and
      exactly the registers written lost their auto-enable bit; and on a sound topology, with gates that name its
      devices, it fails exactly when the snapshot has no room or a register does not follow. */
  method EnableNode(devs: seq<Device>, dies: nat, regs: map<nat, Reg>, script: seq<nat>, gates: seq<Gate>)
      returns (ok: bool, after: map<nat, Reg>, trace: seq<Event>)
    requires forall d, die: nat | d in devs && Addr(d, die) != 0 :: die < dies && Addr(d, die) in regs
    ensures after.Keys == regs.Keys && Ordered(devs, trace, 0) && StepsOfGates(devs, gates, trace, 0)
    ensures Told(devs, dies, script, regs, trace)
    ensures ok ==> Sound(devs, dies) && gates != [] && forall g | g in gates :: AllIn(devs, g.die, g.id, ACTIVE, after)
    ensures !ok ==> forall x | x in regs :: after[x].target == regs[x].target
    ensures forall x | x in regs && (!GateTouches(devs, gates, x) || Guarded(devs, dies, x)) :: after[x] == regs[x]
    ensures forall d, die | d in devs && d.guarded && 0 <= die < dies && Addr(d, die) in regs ::
              after[Addr(d, die)] == regs[Addr(d, die)]
    ensures forall x | x in regs ::
              (after[x].auto == regs[x].auto <==> !regs[x].auto || !WroteSince(devs, dies, trace, 0, x))
    ensures ok ==> forall x | GateTouches(devs, gates, x) && x in regs && !Guarded(devs, dies, x) :: !after[x].auto
    ensures gates != [] && AllNamed(devs, dies, gates) ==> (ok <==> !Crowded(devs, gates) && !FailedSince(trace, 0))
    ensures Staged(trace, 0) && (ok ==> StepsOnly(trace, 0))
    ensures ok ==> forall g | g in gates :: Switched(devs, g.die, g.id, ACTIVE, trace, 0)
    ensures gates != [] && AllNamed(devs, dies, gates) && !Crowded(devs, gates) ==>
              forall g | g in gates :: Tried(devs, g, trace, 0)
    ensures OneOwner(devs) ==> Descends(devs, trace, 0)
    ensures Needed(devs, dies, regs, trace, 0)
    ensures var (w, yes) := NodeCall(devs, dies, script, regs, gates);
            ok == yes && after == w.regs && trace == w.trace
  {
    hide Sound, AllIn, Ancestor, Above, Crowded, FailedSince, Ordered, StepsOfGates, Guarded, Touchable, WroteSince;
    hide Told, StepsOnly, Staged, Tried, EnableCall, Switched, Descends, Needed, OneOwner;
    ok, after, trace := false, regs, [];
    NothingGivenBack(devs, dies, regs, [], 0);
    NothingYet(devs, gates, []);
    AutoNone(devs, dies, [], regs);
    var unit := new Unit(devs, dies, regs, script);
    var sound := ValidateTopology(devs, dies);
    if !sound {
      return;
    }
    ok := unit.EnableSaved(gates);
    after, trace := unit.regs, unit.trace;
    ToldBefore(devs, dies, script, regs, after, trace);
    forall d, die | d in devs && d.guarded && 0 <= die < dies ensures Guarded(devs, dies, Addr(d, die)) {
      GuardedExactly(devs, dies, Addr(d, die));
    }
  }

  /** With registers that follow, and protected ones above the gates that are active, only too many registers make it
      fail. */
  method EnableWilling(devs: seq<Device>, dies: nat, regs: map<nat, Reg>, gates: seq<Gate>) returns (ok: bool)
    requires forall d, die: nat | d in devs && Addr(d, die) != 0 :: die < dies && Addr(d, die) in regs
    requires forall x | x in regs && GateTouches(devs, gates, x) && Guarded(devs, dies, x) :: regs[x].actual == ACTIVE
    ensures gates != [] && AllNamed(devs, dies, gates) ==> (ok <==> !Crowded(devs, gates))
  {
    hide Told, FailedSince, Crowded, AllNamed, StepsOfGates, Ordered, AllIn, Guarded, GateTouches, NodeCall, Switched;
    hide Staged, StepsOnly, Tried, WroteSince, Descends, Needed, OneOwner;
    var after;
    var trace;
    ok, after, trace := EnableNode(devs, dies, regs, [], gates);
    FollowersNeverFail(devs, dies, regs, gates, trace);
  }

  /** A device whose register loses its auto-enable bit, whatever it settles in; the call succeeds exactly when it
      follows the first time, and otherwise the register gets nothing for it. */
  method LosesAutoEnable(script: seq<nat>) returns (ok: bool, after: Reg)
    ensures !after.auto && (ok <==> script == [] || script[0] == ACTIVE) && (!ok ==> after.target == 0)
  {
    var d := Device(1, 0, 0, false, false, [0x100]);
    var devs, regs, gates := [d], map[0x100 := Reg(0, 0, true)], [Gate(0, 1)];
    var trace;
    var all;
    ok, all, trace := EnableNode(devs, 1, regs, script, gates);
    after := all[0x100];
    OneDevice(d, gates, trace);
    OneAnswer(d, gates, script);
  }

  lemma OneAnswer(d: Device, gates: seq<Gate>, script: seq<nat>)
    requires d == Device(1, 0, 0, false, false, [0x100]) && gates == [Gate(0, 1)]
    ensures NodeCall([d], 1, script, map[0x100 := Reg(0, 0, true)], gates).1 <==> script == [] || script[0] == ACTIVE
  {
    var devs, regs := [d], map[0x100 := Reg(0, 0, true)];
    var w, none: seq<Saved> := World(regs, [], 0), [];
    assert Find(devs, 1) == Some(d) && gates[..0] == [] && !Guarded(devs, 1, 0x100);
    assert Walkable(devs, 1, []) && Sound(devs, 1);
    assert SaveAll(devs, regs, gates).1 by {
      assert SaveAll(devs, regs, gates[..0]) == (none, true);
      assert !InSaved(none, 0x100);
      assert SaveUp(devs, regs, none, 0, 1, 0).1;
    }
    assert AskGates(devs, 1, script, w, gates[..0]) == (w, true);
    assert AskUp(devs, 1, script, w, 0, 1, ACTIVE, 0).1 == Ok <==> script == [] || script[0] == ACTIVE;
    hide SaveAll, AskUp, GiveAllBack, Sound;
    assert AskGates(devs, 1, script, w, gates).1 <==> script == [] || script[0] == ACTIVE;
  }

  lemma OneDevice(d: Device, gates: seq<Gate>, trace: seq<Event>)
    requires d == Device(1, 0, 0, false, false, [0x100]) && gates == [Gate(0, 1)]
    ensures AllNamed([d], 1, gates) && !Crowded([d], gates) && GateTouches([d], gates, 0x100) && !Guarded([d], 1, 0x100)
    ensures StepsOfGates([d], gates, trace, 0) && FailedSince(trace, 0) ==> WroteSince([d], 1, trace, 0, 0x100)
  {
    var devs := [d];
    assert Find(devs, 1) == Some(d);
    forall a | Above(devs, 1, a) ensures a == 1 {
      AboveSplit(devs, 1, a);
    }
    AboveSelf(devs, 1);
    assert Touchable(devs, 0, 1, 0x100) && gates[0] in gates;
    forall s: seq<Saved> | |s| == MAX_SAVED + 1 && forall e | e in s :: GateTouches(devs, gates, e.addr)
      ensures !Distinct(s)
    {
      assert GateTouches(devs, gates, s[0].addr) && GateTouches(devs, gates, s[1].addr);
      assert s[0].addr == 0x100 == s[1].addr;
    }
    if StepsOfGates(devs, gates, trace, 0) && FailedSince(trace, 0) {
      var k :| 0 <= k < |trace| && trace[k].Step? && !trace[k].ok;
      assert OfGate(devs, gates, trace[k]);
      assert OneAbove(devs, 0, 1, ACTIVE, trace[k]);
      assert Wrote(devs, 1, trace[k], 0x100);
    }
  }
}
