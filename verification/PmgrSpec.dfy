/** What enabling the power domains of a node means, `src/pmgr.c`, as a function of the registers and of what they
    settle in. */
module PmgrSpec {
  import opened PmgrTopology
  import opened Wrappers

  const ACTIVE := 15        // PMGR_PS_ACTIVE
  const MAX_SAVED := 64

  /** The fields of a power-state register that the code looks at or changes. */
  datatype Reg = Reg(target: nat, actual: nat, auto: bool)
  datatype Saved = Saved(addr: nat, target: nat)
  datatype Gate = Gate(die: nat, id: nat)

  /** Why a recursive call failed; `Refused` is a register that would not change. */
  datatype Ret = Ok | NotReady | BadRequest | NotFound | NoAddress | Refused

  /** A device's register asked for a mode on a die, and whether it got there; or a register asked for its saved
      target. */
  datatype Event = Step(die: nat, id: nat, mode: nat, ok: bool) | Restored(addr: nat, target: nat, ok: bool)

  /** The registers, what they were asked for, and how many answers of the script are used up. */
  datatype World = World(regs: map<nat, Reg>, trace: seq<Event>, used: nat)

  /** `pmgr_protected_addr`: the register of a display CPU, on any die. */
  predicate Guarded(devs: seq<Device>, dies: nat, addr: nat) {
    exists i | 0 <= i < |devs| :: devs[i].guarded && exists die | 0 <= die < dies :: Addr(devs[i], die) == addr
  }

  /** The mode that a register settles in after the `j`-th write of a run: what the script says, and what it was asked
      for where the script says nothing. */
  function Settles(script: seq<nat>, j: nat, mode: nat): (m: nat) {
    if j < |script| then script[j] else mode
  }

  // ---------------------------------------------------------------------- the walk

  /** `pmgr_set_mode`. */
  function Put(devs: seq<Device>, dies: nat, script: seq<nat>, w: World, addr: nat, mode: nat): (r: (World, bool)) {
    if addr == 0 || addr !in w.regs then (w, false)
    else if Guarded(devs, dies, addr) then (w, w.regs[addr].actual == mode)
    else
      var settled := Settles(script, w.used, mode);
      (w.(regs := w.regs[addr := Reg(mode, settled, false)], used := w.used + 1), settled == mode)
  }

  /** `pmgr_set_mode_traced`. */
  function Ask(devs: seq<Device>, dies: nat, script: seq<nat>, w: World, die: nat, d: Device, mode: nat)
    : (r: (World, Ret))
  {
    if Addr(d, die) == 0 then (w, NoAddress)
    else
      var (w1, ok) := Put(devs, dies, script, w, Addr(d, die), mode);
      (w1.(trace := w1.trace + [Step(die, d.id, mode, ok)]), if ok then Ok else Refused)
  }

  /** `pmgr_set_mode_recursive_inner` for a mode other than 0. */
  function AskUp(devs: seq<Device>, dies: nat, script: seq<nat>, w: World, die: nat, id: nat, mode: nat, depth: nat)
    : (r: (World, Ret))
    decreases MAX_DEPTH - depth, 1
  {
    if id == 0 || die >= dies || depth >= MAX_DEPTH then (w, BadRequest)
    else
      match Find(devs, id)
      case None => (w, NotFound)
      case Some(d) =>
        var (w1, ret) := AskParents(devs, dies, script, w, die, d, mode, depth);
        if ret != Ok || d.virtual then (w1, ret) else Ask(devs, dies, script, w1, die, d, mode)
  }

  function AskParents(devs: seq<Device>, dies: nat, script: seq<nat>, w: World, die: nat, d: Device, mode: nat,
                      depth: nat)
    : (r: (World, Ret))
    requires depth < MAX_DEPTH
    decreases MAX_DEPTH - depth, 0
  {
    var (w1, ret) := if d.parent0 == 0 then (w, Ok) else AskUp(devs, dies, script, w, die, d.parent0, mode, depth + 1);
    if ret != Ok || d.parent1 == 0 then (w1, ret)
    else AskUp(devs, dies, script, w1, die, d.parent1, mode, depth + 1)
  }

  /** `pmgr_adt_devices_set_mode` for the active mode. */
  function AskGates(devs: seq<Device>, dies: nat, script: seq<nat>, w: World, gates: seq<Gate>): (r: (World, bool)) {
    if gates == [] then (w, true)
    else
      var n := |gates| - 1;
      var (w1, ok) := AskGates(devs, dies, script, w, gates[..n]);
      var (w2, ret) := AskUp(devs, dies, script, w1, gates[n].die, gates[n].id, ACTIVE, 0);
      (w2, ok && ret == Ok)
  }

  // ---------------------------------------------------------------------- the snapshot

  predicate InSaved(saved: seq<Saved>, x: nat) {
    exists e :: e in saved && e.addr == x
  }

  function SaveReg(regs: map<nat, Reg>, saved: seq<Saved>, addr: nat): (r: (seq<Saved>, bool)) {
    if addr == 0 || addr !in regs then (saved, false)
    else if InSaved(saved, addr) then (saved, true)
    else if |saved| == MAX_SAVED then (saved, false)
    else (saved + [Saved(addr, regs[addr].target)], true)
  }

  /** `pmgr_save_parents`. */
  function SaveUp(devs: seq<Device>, regs: map<nat, Reg>, saved: seq<Saved>, die: nat, id: nat, depth: nat)
    : (r: (seq<Saved>, bool))
    decreases MAX_DEPTH - depth, 1
  {
    if depth >= MAX_DEPTH then (saved, false)
    else
      match Find(devs, id)
      case None => (saved, false)
      case Some(d) =>
        var (s1, ok) := SaveAbove(devs, regs, saved, die, d, depth);
        if !ok || d.virtual then (s1, ok) else SaveReg(regs, s1, Addr(d, die))
  }

  function SaveAbove(devs: seq<Device>, regs: map<nat, Reg>, saved: seq<Saved>, die: nat, d: Device, depth: nat)
    : (r: (seq<Saved>, bool))
    requires depth < MAX_DEPTH
    decreases MAX_DEPTH - depth, 0
  {
    var (s1, ok) := if d.parent0 == 0 then (saved, true) else SaveUp(devs, regs, saved, die, d.parent0, depth + 1);
    if !ok || d.parent1 == 0 then (s1, ok) else SaveUp(devs, regs, s1, die, d.parent1, depth + 1)
  }

  function SaveAll(devs: seq<Device>, regs: map<nat, Reg>, gates: seq<Gate>): (r: (seq<Saved>, bool)) {
    if gates == [] then ([], true)
    else
      var n := |gates| - 1;
      var (s1, ok) := SaveAll(devs, regs, gates[..n]);
      if ok then SaveUp(devs, regs, s1, gates[n].die, gates[n].id, 0) else (s1, false)
  }

  // ---------------------------------------------------------------------- the rollback

  function GiveBack(devs: seq<Device>, dies: nat, script: seq<nat>, w: World, e: Saved): (w': World) {
    if e.addr !in w.regs || (w.regs[e.addr].actual == e.target && w.regs[e.addr].target == e.target) then w
    else
      var (w1, ok) := Put(devs, dies, script, w, e.addr, e.target);
      w1.(trace := w1.trace + [Restored(e.addr, e.target, ok)])
  }

  /** `pmgr_restore_modes`: from the last one saved to the first. */
  function GiveAllBack(devs: seq<Device>, dies: nat, script: seq<nat>, w: World, saved: seq<Saved>): (w': World)
    decreases saved
  {
    if saved == [] then w
    else
      var n := |saved| - 1;
      GiveAllBack(devs, dies, script, GiveBack(devs, dies, script, w, saved[n]), saved[..n])
  }

  /** `pmgr_adt_power_enable_traced_saved`. */
  function EnableCall(devs: seq<Device>, dies: nat, script: seq<nat>, w: World, gates: seq<Gate>): (r: (World, bool)) {
    var (saved, room) := SaveAll(devs, w.regs, gates);
    if gates == [] || !room then (w, false)
    else
      var (w1, ok) := AskGates(devs, dies, script, w, gates);
      if ok then (w1, true) else (GiveAllBack(devs, dies, script, w1, saved), false)
  }

  /** Validation, and then the call. */
  function NodeCall(devs: seq<Device>, dies: nat, script: seq<nat>, regs: map<nat, Reg>, gates: seq<Gate>)
    : (r: (World, bool))
  {
    var w := World(regs, [], 0);
    if Sound(devs, dies) then EnableCall(devs, dies, script, w, gates) else (w, false)
  }
}
