/** The power-domain graph of `src/pmgr.c`: devices with up to two parents, and the validation that makes
    walks from a device to its ancestors safe. */
module PmgrTopology {
  import opened Wrappers

  const MAX_DEPTH := 32   // PMGR_MAX_PARENT_DEPTH

  /** `addrs[die]` is the power-state register, 0 when it cannot be resolved; a parent 0 is no parent. */
  datatype Device = Device(id: nat, parent0: nat, parent1: nat, virtual: bool, guarded: bool, addrs: seq<nat>)

  /** `pmgr_find_device`: the first device with this id. */
  function Find(devs: seq<Device>, id: nat): (d: Option<Device>)
    ensures d.Some? ==> d.value in devs && d.value.id == id
    ensures d.None? <==> forall i | 0 <= i < |devs| :: devs[i].id != id
  {
    if devs == [] then None
    else if devs[0].id == id then Some(devs[0])
    else Find(devs[1..], id)
  }

  /** `pmgr_device_get_addr`. */
  function Addr(d: Device, die: nat): (a: nat) {
    if die < |d.addrs| then d.addrs[die] else 0
  }

  predicate ParentOf(d: Device, p: nat) {
    p != 0 && (p == d.parent0 || p == d.parent1)
  }

  /** The walk from `id` to all its ancestors, having come along `path`, finds every device, meets none
      twice on one path, and stays within the depth. */
  predicate Walkable(devs: seq<Device>, id: nat, path: seq<nat>)
    decreases MAX_DEPTH - |path|
  {
    && |path| < MAX_DEPTH && Find(devs, id).Some? && id !in path
    && var d := Find(devs, id).value;
    && (d.parent0 != 0 ==> Walkable(devs, d.parent0, path + [id]))
    && (d.parent1 != 0 ==> Walkable(devs, d.parent1, path + [id]))
  }

  predicate Resolved(d: Device, dies: nat) {
    !d.virtual ==> forall die | 0 <= die < dies :: Addr(d, die) != 0
  }

  /** What `pmgr_validate_topology` accepts. */
  predicate Sound(devs: seq<Device>, dies: nat) {
    forall i | 0 <= i < |devs| :: SoundAt(devs, dies, i)
  }

  predicate SoundAt(devs: seq<Device>, dies: nat, i: nat)
    requires i < |devs|
  {
    && devs[i].id != 0 && Walkable(devs, devs[i].id, []) && Resolved(devs[i], dies)
    && forall j | 0 <= j < i :: devs[j].id != devs[i].id
  }

  /** `pmgr_validate_parents`; the path is kept in an array that all levels share. */
  method ValidateParents(devs: seq<Device>, id: nat, ancestors: array<nat>, depth: nat) returns (ok: bool)
    requires ancestors.Length == MAX_DEPTH && depth <= MAX_DEPTH
    modifies ancestors
    ensures ok == Walkable(devs, id, old(ancestors[..depth]))
    ensures ancestors[..depth] == old(ancestors[..depth])
    decreases MAX_DEPTH - depth
  {
    ghost var path := ancestors[..depth];
    if depth >= MAX_DEPTH {
      return false;
    }
    var device := Find(devs, id);
    if device.None? {
      return false;
    }
    var i := 0;
    while i < depth
      invariant i <= depth && id !in path[..i]
    {
      if ancestors[i] == id {
        assert path[i] == id;
        return false;
      }
      i := i + 1;
    }
    assert path[..depth] == path;
    ancestors[depth] := id;
    assert ancestors[..depth + 1] == path + [id];
    if device.value.parent0 != 0 {
      ok := ValidateParents(devs, device.value.parent0, ancestors, depth + 1);
      assert ancestors[..depth] == ancestors[..depth + 1][..depth];
      if !ok {
        return;
      }
    }
    if device.value.parent1 != 0 {
      ok := ValidateParents(devs, device.value.parent1, ancestors, depth + 1);
      assert ancestors[..depth] == ancestors[..depth + 1][..depth];
      if !ok {
        return;
      }
    }
    ok := true;
  }

  /** `pmgr_validate_topology`. */
  method ValidateTopology(devs: seq<Device>, dies: nat) returns (ok: bool)
    ensures ok == Sound(devs, dies)
  {
    hide SoundAt;
    var i := 0;
    while i < |devs|
      invariant i <= |devs| && forall k | 0 <= k < i :: SoundAt(devs, dies, k)
    {
      ok := ValidateDevice(devs, dies, i);
      if !ok {
        return;
      }
      i := i + 1;
    }
    ok := true;
  }

  method ValidateDevice(devs: seq<Device>, dies: nat, i: nat) returns (ok: bool)
    requires i < |devs|
    ensures ok == SoundAt(devs, dies, i)
  {
    hide Walkable, Resolved;
    var d := devs[i];
    var ancestors := new nat[MAX_DEPTH];
    if d.id == 0 {
      return false;
    }
    assert ancestors[..0] == [];
    ok := ValidateParents(devs, d.id, ancestors, 0);
    if !ok {
      return;
    }
    var j := 0;
    while j < i
      invariant j <= i && forall k | 0 <= k < j :: devs[k].id != d.id
    {
      if devs[j].id == d.id {
        return false;
      }
      j := j + 1;
    }
    ok := ValidateAddrs(d, dies);
  }

  method ValidateAddrs(d: Device, dies: nat) returns (ok: bool)
    ensures ok == Resolved(d, dies)
  {
    if !d.virtual {
      var die := 0;
      while die < dies
        invariant die <= dies && forall k | 0 <= k < die :: Addr(d, k) != 0
      {
        if Addr(d, die) == 0 {
          return false;
        }
        die := die + 1;
      }
    }
    ok := true;
  }

  // ---------------------------------------------------------------------- ancestors

  /** `a` is reached from `id` in `n` steps to a parent. */
  ghost predicate Reaches(devs: seq<Device>, id: nat, a: nat, n: nat)
    decreases n
  {
    if n == 0 then a == id
    else
      Find(devs, id).Some? &&
      exists p :: ParentOf(Find(devs, id).value, p) && Reaches(devs, p, a, n - 1)
  }

  /** `id` itself or one of its ancestors. */
  ghost predicate Above(devs: seq<Device>, id: nat, a: nat) {
    exists n: nat :: Reaches(devs, id, a, n)
  }

  lemma AboveSelf(devs: seq<Device>, id: nat)
    ensures Above(devs, id, id)
  {
    assert Reaches(devs, id, id, 0);
  }

  /** What is above a device is the device or above one of its parents. */
  lemma AboveSplit(devs: seq<Device>, id: nat, a: nat)
    requires Find(devs, id).Some?
    ensures Above(devs, id, a) <==>
              a == id || exists p :: ParentOf(Find(devs, id).value, p) && Above(devs, p, a)
  {
    var d := Find(devs, id).value;
    if Above(devs, id, a) && a != id {
      var n: nat :| Reaches(devs, id, a, n);
      var p :| ParentOf(d, p) && Reaches(devs, p, a, n - 1);
      assert Above(devs, p, a);
    }
    if exists p :: ParentOf(d, p) && Above(devs, p, a) {
      var p :| ParentOf(d, p) && Above(devs, p, a);
      var n: nat :| Reaches(devs, p, a, n);
      assert Reaches(devs, id, a, n + 1);
    }
    AboveSelf(devs, id);
  }

  /** No cycles: from a walkable device no number of steps leads back to the path or to itself. */
  lemma {:induction false} NoWayBack(devs: seq<Device>, id: nat, path: seq<nat>, a: nat, n: nat)
    requires Walkable(devs, id, path) && Reaches(devs, id, a, n)
    ensures a !in path && (n > 0 ==> a != id) && n + |path| < MAX_DEPTH
    decreases n
  {
    if n > 0 {
      var p :| ParentOf(Find(devs, id).value, p) && Reaches(devs, p, a, n - 1);
      NoWayBack(devs, p, path + [id], a, n - 1);
    }
  }

  /** Validation makes the graph acyclic, with every ancestor of every device defined and less than the
      maximal depth away. */
  lemma SoundIsAcyclic(devs: seq<Device>, dies: nat, id: nat, a: nat, n: nat)
    requires Sound(devs, dies) && Find(devs, id).Some? && Reaches(devs, id, a, n)
    ensures n < MAX_DEPTH && (n > 0 ==> a != id) && Find(devs, a).Some?
  {
    WalkableFrom(devs, dies, id);
    NoWayBack(devs, id, [], a, n);
    ReachesDefined(devs, id, [], a, n);
  }

  /** What the validation accepts: ids that are not 0 and not used twice, registers for all devices that are
      not virtual, and walks that end. */
  lemma SoundExactly(devs: seq<Device>, dies: nat)
    ensures Sound(devs, dies) <==>
              && (forall i, j | 0 <= i < j < |devs| :: devs[i].id != devs[j].id)
              && (forall d | d in devs :: d.id != 0 && Bounded(devs, d.id, 0))
              && (forall d, die | d in devs && !d.virtual && 0 <= die < dies :: Addr(d, die) != 0)
  {
    hide Walkable, Bounded;
    forall d ensures Walkable(devs, d, []) <==> Bounded(devs, d, 0) {
      WalkableExactly(devs, d);
    }
    if Sound(devs, dies) {
      forall d | d in devs ensures d.id != 0 && Bounded(devs, d.id, 0) && Resolved(d, dies) {
        var i :| 0 <= i < |devs| && devs[i] == d;
        assert SoundAt(devs, dies, i);
      }
      forall i, j | 0 <= i < j < |devs| ensures devs[i].id != devs[j].id {
        assert SoundAt(devs, dies, j);
      }
    }
  }

  lemma WalkableFrom(devs: seq<Device>, dies: nat, id: nat)
    requires Sound(devs, dies) && Find(devs, id).Some?
    ensures id != 0 && Walkable(devs, id, []) && Resolved(Find(devs, id).value, dies)
  {
    var d := Find(devs, id).value;
    var i :| 0 <= i < |devs| && devs[i] == d;
    assert SoundAt(devs, dies, i);
  }

  lemma {:induction false} ReachesDefined(devs: seq<Device>, id: nat, path: seq<nat>, a: nat, n: nat)
    requires Walkable(devs, id, path) && Reaches(devs, id, a, n)
    ensures Find(devs, a).Some?
    decreases n
  {
    if n > 0 {
      var p :| ParentOf(Find(devs, id).value, p) && Reaches(devs, p, a, n - 1);
      ReachesDefined(devs, p, path + [id], a, n - 1);
    }
  }

  lemma {:induction false} ReachesOn(devs: seq<Device>, id: nat, b: nat, a: nat, m: nat, n: nat)
    requires Reaches(devs, id, b, m) && Reaches(devs, b, a, n)
    ensures Reaches(devs, id, a, m + n)
    decreases m
  {
    hide Find;
    if m > 0 {
      var p :| ParentOf(Find(devs, id).value, p) && Reaches(devs, p, b, m - 1);
      ReachesOn(devs, p, b, a, m - 1, n);
    }
  }

  /** Around a cycle there is a way of at least any length. */
  lemma {:induction false} AroundCycle(devs: seq<Device>, id: nat, m: nat, k: nat) returns (n: nat)
    requires m > 0 && Reaches(devs, id, id, m)
    ensures n >= k && Reaches(devs, id, id, n)
    decreases k
  {
    if k == 0 {
      n := m;
    } else {
      n := AroundCycle(devs, id, m, k - 1);
      ReachesOn(devs, id, id, id, m, n);
      n := m + n;
    }
  }

  /** `a` is a proper ancestor of `b`. */
  ghost predicate Ancestor(devs: seq<Device>, b: nat, a: nat) {
    exists m: nat :: m > 0 && Reaches(devs, b, a, m)
  }

  ghost predicate Bounded(devs: seq<Device>, id: nat, depth: nat) {
    forall a, n: nat | Reaches(devs, id, a, n) :: n + depth < MAX_DEPTH && Find(devs, a).Some?
  }

  lemma {:induction false} BoundedIsWalkable(devs: seq<Device>, id: nat, path: seq<nat>)
    requires Bounded(devs, id, |path|) && forall b | b in path :: Ancestor(devs, b, id)
    requires forall b | b in path :: Bounded(devs, b, 0)
    ensures Walkable(devs, id, path)
    decreases MAX_DEPTH - |path|
  {
    assert Reaches(devs, id, id, 0);
    if id in path {
      var m: nat :| m > 0 && Reaches(devs, id, id, m);
      var n := AroundCycle(devs, id, m, MAX_DEPTH);
      assert false;
    }
    var d := Find(devs, id).value;
    forall p | ParentOf(d, p) ensures Walkable(devs, p, path + [id]) {
      assert Reaches(devs, p, p, 0) && Reaches(devs, id, p, 1);
      forall a, n: nat | Reaches(devs, p, a, n) ensures n + |path + [id]| < MAX_DEPTH && Find(devs, a).Some? {
        assert Reaches(devs, id, a, n + 1);
      }
      forall b | b in path + [id] ensures Ancestor(devs, b, p) {
        if b in path {
          var m: nat :| m > 0 && Reaches(devs, b, id, m);
          ReachesOn(devs, b, id, p, m, 1);
        }
      }
      BoundedIsWalkable(devs, p, path + [id]);
    }
  }

  /** What the recursive check decides: that every ancestor is defined and less than the maximal number of
      steps away, along every way to it; a cycle would make ways of every length. */
  lemma WalkableExactly(devs: seq<Device>, id: nat)
    ensures Walkable(devs, id, []) <==> Bounded(devs, id, 0)
  {
    if Walkable(devs, id, []) {
      forall a, n: nat | Reaches(devs, id, a, n) ensures n < MAX_DEPTH && Find(devs, a).Some? {
        NoWayBack(devs, id, [], a, n);
        ReachesDefined(devs, id, [], a, n);
      }
    } else if Bounded(devs, id, 0) {
      BoundedIsWalkable(devs, id, []);
    }
  }
}
