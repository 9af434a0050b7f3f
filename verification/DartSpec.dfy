/** What mapping, unmapping and freeing tables mean for a DART, `src/dart.c`, without its tables: a partial map from
    IOVA pages to physical pages, the slots that have an L2 table, and what `memalign` is going to answer. */
module DartSpec {
  import opened DartPte
  import opened DartTables
  import opened Wrappers

  const ROOT_BYTES := 0x10_0000_0000

  /** `look` is the partial map; `grants` says of each coming call of `memalign` whether it succeeds. */
  datatype Flat = Flat(look: map<nat, nat>, slots: set<nat>, grants: seq<bool>)

  function Lookup(look: map<nat, nat>, x: nat): (p: Option<nat>) {
    if x in look then Some(look[x]) else None
  }

  predicate HasRoot(roots: Roots, r: nat) {
    r < |roots| && roots[r].Some?
  }

  /** Mapped pages lie under slots with a table, and those under roots that are there. */
  ghost predicate Sane(roots: Roots, s: Flat) {
    && (forall x | x in s.look :: x / FAN in s.slots)
    && (forall q | q in s.slots :: HasRoot(roots, q / FAN))
  }

  /** The page number that a walk uses: bits 14 to 37 of the address. */
  function PageNo(iova: nat): (x: nat) {
    iova / PAGE % SPACE
  }

  /** What a leaf made for page `p` decodes to. */
  function Target(f: Format, p: nat, flags: nat): (t: nat) {
    Field(f, LeafEntry(f, p, flags))
  }

  // ---------------------------------------------------------------------- single pages

  /** The table of a slot, asked for from `memalign` if it is not there. */
  function GetTable(roots: Roots, s: Flat, q: nat): (r: (Flat, bool)) {
    if !HasRoot(roots, q / FAN) then (s, false)
    else if q in s.slots then (s, true)
    else if s.grants == [] then (s, false)
    else if !s.grants[0] then (s.(grants := s.grants[1..]), false)
    else (s.(grants := s.grants[1..], slots := s.slots + {q}), true)
  }

  function MapOne(f: Format, roots: Roots, s: Flat, x: nat, p: nat, flags: nat): (r: (Flat, bool)) {
    var (s1, had) := GetTable(roots, s, x / FAN);
    if !had || x in s1.look then (s1, false) else (s1.(look := s1.look[x := Target(f, p, flags)]), true)
  }

  /** The table that is cleared is looked up without the root's number, so it is always one of root 0.  `None` is a
      null pointer followed: the page's root is not there, or the table of root 0 cannot be had. */
  function UnmapOne(roots: Roots, s: Flat, x: nat): (r: Option<Flat>) {
    if !HasRoot(roots, x / ROOT_PAGES) then None
    else if x / FAN !in s.slots then Some(s)
    else
      var (s1, had) := GetTable(roots, s, x % ROOT_PAGES / FAN);
      if had then Some(s1.(look := s1.look - {x % ROOT_PAGES})) else None
  }

  /** Unmapping a page that does not end in a null pointer unmaps it exactly when it lies under root 0 or was not
      mapped. */
  lemma UnmapsExactly(roots: Roots, s: Flat, x: nat)
    requires Sane(roots, s) && UnmapOne(roots, s, x).Some?
    ensures x !in UnmapOne(roots, s, x).value.look <==> x < ROOT_PAGES || x !in s.look
  {
    hide GetTable;
    LookKept(roots, s, x % ROOT_PAGES / FAN);
    assert x < ROOT_PAGES <==> x % ROOT_PAGES == x;
  }

  lemma LookKept(roots: Roots, s: Flat, q: nat)
    ensures var s1 := GetTable(roots, s, q).0;
            && s1.look == s.look && s.slots <= s1.slots <= s.slots + {q}
            && (GetTable(roots, s, q).1 ==> q in s1.slots || !HasRoot(roots, q / FAN))
  {
  }

  // ---------------------------------------------------------------------- ranges

  /** Pages mapped one after the other until one fails, and how many. */
  function MapUp(f: Format, roots: Roots, s: Flat, x: nat, n: nat, p: nat, flags: nat): (r: (Flat, nat))
    ensures r.1 <= n
    decreases n
  {
    if n == 0 then (s, 0)
    else
      var (s1, ok) := MapOne(f, roots, s, x % SPACE, p, flags);
      if !ok then (s1, 0)
      else
        var (s2, k) := MapUp(f, roots, s1, x + 1, n - 1, p + 1, flags);
        (s2, k + 1)
  }

  function UnmapUp(roots: Roots, s: Flat, x: nat, n: nat): (r: Option<Flat>)
    decreases n
  {
    if n == 0 then Some(s)
    else
      match UnmapOne(roots, s, x % SPACE)
      case None => None
      case Some(s1) => UnmapUp(roots, s1, x + 1, n - 1)
  }

  ghost predicate Vacant(look: map<nat, nat>, x: nat, n: nat) {
    forall y: nat | x <= y < x + n :: y !in look
  }

  ghost predicate SameLook(look: map<nat, nat>, look': map<nat, nat>) {
    forall y: nat :: Lookup(look', y) == Lookup(look, y)
  }

  /** `n` pages from `x` on are mapped to the pages from `p` on; all others are as before. */
  ghost predicate Mapped(f: Format, look: map<nat, nat>, look': map<nat, nat>, x: nat, n: nat, p: nat, flags: nat) {
    forall y: nat ::
      Lookup(look', y) == if x <= y < x + n then Some(Target(f, p + (y - x), flags)) else Lookup(look, y)
  }

  ghost predicate Unmapped(look: map<nat, nat>, look': map<nat, nat>, x: nat, n: nat) {
    forall y: nat :: Lookup(look', y) == if x <= y < x + n then None else Lookup(look, y)
  }

  /** Every page of the range has an L2 table or can get one. */
  predicate TablesHad(roots: Roots, slots: set<nat>, grants: seq<bool>, x: nat, n: nat)
    decreases n
  {
    n == 0 ||
    var (s1, had) := GetTable(roots, Flat(map[], slots, grants), x / FAN);
    had && TablesHad(roots, s1.slots, s1.grants, x + 1, n - 1)
  }

  /** With roots in place, and as many answers of `memalign` to come as there are pages, all of them good, every page
      gets its table. */
  lemma {:induction false} MemorySuffices(roots: Roots, slots: set<nat>, grants: seq<bool>, x: nat, n: nat)
    requires forall y: nat | x <= y < x + n :: HasRoot(roots, y / FAN / FAN)
    requires n <= |grants| && forall i | 0 <= i < |grants| :: grants[i]
    ensures TablesHad(roots, slots, grants, x, n)
    decreases n
  {
    if n > 0 {
      var s1 := GetTable(roots, Flat(map[], slots, grants), x / FAN).0;
      assert s1.grants == grants || s1.grants == grants[1..];
      MemorySuffices(roots, s1.slots, s1.grants, x + 1, n - 1);
    }
  }

  /** What the pages mapped so far are mapped to; nothing else moves. */
  lemma {:induction false} MapUpEffect(f: Format, roots: Roots, s: Flat, x: nat, n: nat, p: nat, flags: nat)
    requires Sane(roots, s) && x + n <= SPACE
    ensures var (s', k) := MapUp(f, roots, s, x, n, p, flags);
            && Sane(roots, s') && s.slots <= s'.slots && Vacant(s.look, x, k)
            && Mapped(f, s.look, s'.look, x, k, p, flags)
    decreases n
  {
    hide Sane, MapOne, Mapped, Vacant;
    MappedNothing(f, s.look, x, p, flags);
    if n > 0 {
      assert x % SPACE == x;
      var (s1, ok) := MapOne(f, roots, s, x, p, flags);
      MapOneEffect(f, roots, s, x, p, flags);
      if ok {
        MapUpEffect(f, roots, s1, x + 1, n - 1, p + 1, flags);
        var (s2, k) := MapUp(f, roots, s1, x + 1, n - 1, p + 1, flags);
        MappedMore(f, s.look, s1.look, s2.look, x, k, p, flags);
      } else {
        MappedSame(f, s.look, s1.look, x, p, flags);
      }
    }
  }

  lemma MappedNothing(f: Format, look: map<nat, nat>, x: nat, p: nat, flags: nat)
    ensures Mapped(f, look, look, x, 0, p, flags) && Vacant(look, x, 0)
  {
  }

  lemma MappedSame(f: Format, look: map<nat, nat>, look1: map<nat, nat>, x: nat, p: nat, flags: nat)
    requires look1 == look
    ensures Mapped(f, look, look1, x, 0, p, flags)
  {
  }

  lemma MappedMore(f: Format, look: map<nat, nat>, look1: map<nat, nat>, look2: map<nat, nat>, x: nat, k: nat,
                   p: nat, flags: nat)
    requires Mapped(f, look, look1, x, 1, p, flags) && Mapped(f, look1, look2, x + 1, k, p + 1, flags)
    requires x !in look && Vacant(look1, x + 1, k)
    ensures Mapped(f, look, look2, x, k + 1, p, flags) && Vacant(look, x, k + 1)
  {
    hide Target;
    forall y: nat
      ensures Lookup(look2, y) == if x <= y < x + (k + 1) then Some(Target(f, p + (y - x), flags)) else Lookup(look, y)
    {
      assert Lookup(look1, y) == if x <= y < x + 1 then Some(Target(f, p + (y - x), flags)) else Lookup(look, y);
      assert Lookup(look2, y) ==
             if x + 1 <= y < x + 1 + k then Some(Target(f, p + 1 + (y - (x + 1)), flags)) else Lookup(look1, y);
    }
    forall y: nat | x <= y < x + (k + 1) ensures y !in look {
      assert Lookup(look1, y) == if x <= y < x + 1 then Some(Target(f, p + (y - x), flags)) else Lookup(look, y);
    }
  }

  lemma MapOneEffect(f: Format, roots: Roots, s: Flat, x: nat, p: nat, flags: nat)
    requires Sane(roots, s)
    ensures var (s1, ok) := MapOne(f, roots, s, x, p, flags);
            && Sane(roots, s1) && s.slots <= s1.slots
            && (ok ==> x !in s.look && Mapped(f, s.look, s1.look, x, 1, p, flags))
            && (!ok ==> s1.look == s.look)
  {
    hide Target, GetTable;
    LookKept(roots, s, x / FAN);
    TableIsThere(roots, s, x / FAN);
  }

  lemma TableIsThere(roots: Roots, s: Flat, q: nat)
    requires Sane(roots, s)
    ensures var (s1, had) := GetTable(roots, s, q);
            Sane(roots, s1) && (had ==> q in s1.slots && HasRoot(roots, q / FAN))
  {
  }

  /** All pages get mapped exactly when all are vacant and the tables can be had. */
  lemma {:induction false} MapsExactly(f: Format, roots: Roots, s: Flat, x: nat, n: nat, p: nat, flags: nat)
    requires x + n <= SPACE
    ensures MapUp(f, roots, s, x, n, p, flags).1 == n <==>
              Vacant(s.look, x, n) && TablesHad(roots, s.slots, s.grants, x, n)
    decreases n
  {
    hide Target, GetTable, Vacant;
    if n == 0 {
      MappedNothing(f, s.look, x, p, flags);
    } else {
      assert x % SPACE == x;
      SameTables(roots, s, map[], x / FAN);
      var (s1, ok) := MapOne(f, roots, s, x, p, flags);
      VacantStep(s.look, x, n, Target(f, p, flags));
      if ok {
        MapsExactly(f, roots, s1, x + 1, n - 1, p + 1, flags);
      }
    }
  }

  lemma VacantStep(look: map<nat, nat>, x: nat, n: nat, t: nat)
    requires n > 0
    ensures Vacant(look, x, n) <==> x !in look && Vacant(look[x := t], x + 1, n - 1)
  {
    if x !in look && Vacant(look[x := t], x + 1, n - 1) {
      forall y: nat | x <= y < x + n ensures y !in look {
        assert y > x ==> y !in look[x := t];
      }
    }
  }

  /** Whether a table can be had does not depend on what is mapped. */
  lemma SameTables(roots: Roots, s: Flat, look: map<nat, nat>, q: nat)
    ensures var (a, had) := GetTable(roots, s, q);
            var (b, had') := GetTable(roots, Flat(look, s.slots, s.grants), q);
            had == had' && a.slots == b.slots && a.grants == b.grants && a.look == s.look
  {
  }

  /** A page under root 0 that is hit by unmapping a range: one of the range has its low bits and a table. */
  ghost predicate Hit(slots: set<nat>, x: nat, n: nat, y: nat) {
    exists z: nat :: HitBy(slots, x, n, y, z)
  }

  ghost predicate HitBy(slots: set<nat>, x: nat, n: nat, y: nat, z: nat) {
    x <= z < x + n && z / FAN in slots && z % ROOT_PAGES == y
  }

  /** What unmapping a range does, under any root. */
  lemma {:induction false} UnmapUpEffect(roots: Roots, s: Flat, x: nat, n: nat)
    requires Sane(roots, s) && x + n <= SPACE && UnmapUp(roots, s, x, n).Some?
    ensures var s' := UnmapUp(roots, s, x, n).value;
            && Sane(roots, s')
            && forall y: nat :: Lookup(s'.look, y) == if Hit(s.slots, x, n, y) then None else Lookup(s.look, y)
    decreases n
  {
    if n > 0 {
      assert x % SPACE == x;
      var s1 := UnmapOne(roots, s, x).value;
      UnmapOneEffect(roots, s, x);
      hide UnmapOne, Sane;
      UnmapUpEffect(roots, s1, x + 1, n - 1);
      hide UnmapUp;
      var s' := UnmapUp(roots, s, x, n).value;
      forall y: nat ensures Lookup(s'.look, y) == if Hit(s.slots, x, n, y) then None else Lookup(s.look, y) {
        HitSplit(s.slots, s1.slots, x, n, y);
      }
    } else {
      assert forall y: nat :: !Hit(s.slots, x, n, y);
    }
  }

  lemma UnmapOneEffect(roots: Roots, s: Flat, x: nat)
    requires Sane(roots, s) && UnmapOne(roots, s, x).Some?
    ensures var s1 := UnmapOne(roots, s, x).value;
            && Sane(roots, s1) && s.slots <= s1.slots
            && (forall q | q in s1.slots && q !in s.slots :: q < FAN <= x / FAN)
            && forall y: nat :: Lookup(s1.look, y) ==
                                if x / FAN in s.slots && y == x % ROOT_PAGES then None else Lookup(s.look, y)
  {
    LookKept(roots, s, x % ROOT_PAGES / FAN);
    LowSlot(x);
  }

  lemma LowSlot(x: nat)
    ensures x % ROOT_PAGES / FAN == x / FAN % FAN && (x / FAN < FAN ==> x % ROOT_PAGES / FAN == x / FAN)
  {
  }

  lemma HitSplit(slots: set<nat>, slots1: set<nat>, x: nat, n: nat, y: nat)
    requires n > 0 && slots <= slots1 && forall q | q in slots1 && q !in slots :: q < FAN <= x / FAN
    ensures Hit(slots, x, n, y) <==> (x / FAN in slots && x % ROOT_PAGES == y) || Hit(slots1, x + 1, n - 1, y)
  {
    if Hit(slots1, x + 1, n - 1, y) {
      var z: nat :| HitBy(slots1, x + 1, n - 1, y, z);
      SlotsRise(x, z);
      assert HitBy(slots, x, n, y, z);
    }
    if x / FAN in slots && x % ROOT_PAGES == y {
      assert HitBy(slots, x, n, y, x);
    }
    if Hit(slots, x, n, y) {
      var z: nat :| HitBy(slots, x, n, y, z);
      assert z > x ==> HitBy(slots1, x + 1, n - 1, y, z);
    }
  }

  lemma SlotsRise(x: nat, z: nat)
    requires x <= z
    ensures x / FAN <= z / FAN
  {
  }

  /** Under root 0 exactly the range is unmapped, and nothing goes wrong. */
  lemma {:induction false} UnmapsRange(roots: Roots, s: Flat, x: nat, n: nat)
    requires Sane(roots, s) && x + n <= ROOT_PAGES && HasRoot(roots, 0)
    ensures UnmapUp(roots, s, x, n).Some? && Unmapped(s.look, UnmapUp(roots, s, x, n).value.look, x, n)
    decreases n
  {
    if n > 0 {
      assert x % SPACE == x && x / ROOT_PAGES == 0 && x % ROOT_PAGES == x;
      LookKept(roots, s, x / FAN);
      assert UnmapOne(roots, s, x).Some?;
      UnmapOneEffect(roots, s, x);
      var s1 := UnmapOne(roots, s, x).value;
      assert Unmapped(s.look, s1.look, x, 1);
      hide UnmapOne, Sane;
      UnmapsRange(roots, s1, x + 1, n - 1);
    }
  }

  /** How many pages get mapped: as many as are vacant and can get a table, one after the other. */
  lemma MapsFirst(f: Format, roots: Roots, s: Flat, x: nat, n: nat, p: nat, flags: nat, j: nat)
    requires x + n <= SPACE && j <= n
    ensures j <= MapUp(f, roots, s, x, n, p, flags).1 <==>
              Vacant(s.look, x, j) && TablesHad(roots, s.slots, s.grants, x, j)
  {
    MapsExactly(f, roots, s, x, j, p, flags);
    hide Vacant, TablesHad;
    MapUpPrefix(f, roots, s, x, n, p, flags, j);
  }

  lemma {:induction false} MapUpPrefix(f: Format, roots: Roots, s: Flat, x: nat, n: nat, p: nat, flags: nat, j: nat)
    requires j <= n
    ensures j <= MapUp(f, roots, s, x, n, p, flags).1 <==> MapUp(f, roots, s, x, j, p, flags).1 == j
    decreases j
  {
    hide MapOne;
    if j > 0 {
      MapUpPrefix(f, roots, MapOne(f, roots, s, x % SPACE, p, flags).0, x + 1, n - 1, p + 1, flags, j - 1);
    }
  }

  /** Pages from `x` on up to and with the first one that is not under root 0. */
  function Reach(x: nat): (n: nat)
    ensures n > 0
  {
    if x < ROOT_PAGES then ROOT_PAGES - x + 1 else 1
  }

  /** Mapping the range gets beyond root 0: the pages on the way are vacant and can get their tables. */
  ghost predicate Leaves(roots: Roots, s: Flat, x: nat, n: nat) {
    Reach(x) <= n && Vacant(s.look, x, Reach(x)) && TablesHad(roots, s.slots, s.grants, x, Reach(x))
  }

  /** A map that fails part way, and whose rollback ends, leaves every translation as it was exactly when it did not
      get beyond root 0. */
  lemma RollbackExactly(f: Format, roots: Roots, s: Flat, x: nat, n: nat, p: nat, flags: nat)
    requires Sane(roots, s) && x + n <= SPACE && HasRoot(roots, 0)
    ensures var (s1, k) := MapUp(f, roots, s, x, n, p, flags);
            var r := UnmapUp(roots, s1, x, k);
            && (!Leaves(roots, s, x, n) ==> r.Some?)
            && (r.Some? ==> (SameLook(s.look, r.value.look) <==> !Leaves(roots, s, x, n)))
  {
    hide Target, UnmapUp, MapUp, Sane, TablesHad;
    var (s1, k) := MapUp(f, roots, s, x, n, p, flags);
    MapUpEffect(f, roots, s, x, n, p, flags);
    if Reach(x) <= n {
      MapsFirst(f, roots, s, x, n, p, flags, Reach(x));
    }
    if k == 0 {
      UnmapNothing(roots, s1, x);
    } else if x + k <= ROOT_PAGES {
      UnmapsRange(roots, s1, x, k);
      RolledBack(f, s.look, s1.look, UnmapUp(roots, s1, x, k).value.look, x, k, p, flags);
    } else if UnmapUp(roots, s1, x, k).Some? {
      UnmapUpEffect(roots, s1, x, k);
      var y := x + k - 1;
      assert !Hit(s1.slots, x, k, y);
      assert Lookup(s1.look, y).Some? && Lookup(s.look, y).None?;
    }
  }

  /** Unmapping what was mapped over vacant pages brings every translation back. */
  lemma RolledBack(f: Format, l0: map<nat, nat>, l1: map<nat, nat>, l2: map<nat, nat>, x: nat, n: nat, p: nat,
                   flags: nat)
    requires Vacant(l0, x, n) && Mapped(f, l0, l1, x, n, p, flags) && Unmapped(l1, l2, x, n)
    ensures SameLook(l0, l2)
  {
    hide Target;
  }

  lemma UnmapNothing(roots: Roots, s: Flat, x: nat)
    ensures UnmapUp(roots, s, x, 0) == Some(s)
  {
  }

  // ---------------------------------------------------------------------- the calls

  datatype Op = MapOp(iova: nat, paddr: nat, len: nat, flags: nat) | UnmapOp(iova: nat, len: nat) | FreeOp(iova: nat)

  predicate MapAligned(op: Op)
    requires op.MapOp?
  {
    op.len % PAGE == 0 && op.paddr % PAGE == 0 && op.iova % PAGE == 0
  }

  /** `dart_map_flags`. */
  function MapCall(f: Format, roots: Roots, locked: bool, s: Flat, op: Op): (r: (Option<Flat>, int))
    requires op.MapOp?
  {
    if locked || !MapAligned(op) then (Some(s), -1)
    else
      var x, n := PageNo(op.iova), op.len / PAGE;
      var (s1, k) := MapUp(f, roots, s, x, n, op.paddr / PAGE, op.flags);
      if k == n then (Some(s1), 0) else (UnmapUp(roots, s1, x, k), -1)
  }

  /** `dart_unmap`. */
  function UnmapCall(roots: Roots, locked: bool, s: Flat, iova: nat, len: nat): (r: Option<Flat>) {
    if locked || len % PAGE != 0 || iova % PAGE != 0 then Some(s) else UnmapUp(roots, s, PageNo(iova), len / PAGE)
  }

  ghost predicate SlotVacant(look: map<nat, nat>, q: nat) {
    Vacant(look, q * FAN, FAN)
  }

  /** `dart_free_l2`.  `None` is a null pointer followed, or, for a slot of a later root, the table of root 0 freed
      while root 0 still points to it. */
  ghost function FreeCall(roots: Roots, locked: bool, s: Flat, iova: nat): (r: Option<Flat>) {
    var root, low := iova / ROOT_BYTES % 4, iova / 0x200_0000 % FAN;
    if locked || iova % 0x200_0000 != 0 then Some(s)
    else if !HasRoot(roots, root) then None
    else if root * FAN + low !in s.slots then Some(s)
    else
      var (s1, had) := GetTable(roots, s, low);
      if !had then None
      else if !SlotVacant(s1.look, low) then Some(s1)
      else if root > 0 then None
      else Some(s1.(slots := s1.slots - {low}))
  }

  /** Under root 0 exactly the table that is named is dropped, and exactly when no page under it is mapped. */
  lemma FreesExactly(roots: Roots, s: Flat, iova: nat, q: nat)
    requires Sane(roots, s) && HasRoot(roots, 0) && iova < ROOT_BYTES && iova % 0x200_0000 == 0
    ensures var r := FreeCall(roots, false, s, iova);
            && r.Some? && r.value.look == s.look && r.value.grants == s.grants
            && (q in r.value.slots <==>
                  q in s.slots && (q == iova / 0x200_0000 ==> exists x :: x in s.look && x / FAN == q))
  {
    hide GetTable;
    var low := iova / 0x200_0000;
    assert iova / ROOT_BYTES % 4 == 0 && low % FAN == low && low / FAN == 0;
    if low in s.slots {
      TableKept(roots, s, low);
    }
    if SlotVacant(s.look, low) {
      forall x | x in s.look ensures x / FAN != low {
        assert x / FAN == low ==> low * FAN <= x < low * FAN + FAN;
      }
    } else {
      var x: nat :| low * FAN <= x < low * FAN + FAN && x in s.look;
      assert x / FAN == low;
    }
  }

  lemma TableKept(roots: Roots, s: Flat, q: nat)
    requires HasRoot(roots, q / FAN) && q in s.slots
    ensures GetTable(roots, s, q) == (s, true)
  {
  }

  /** The state of a run: it halts at a call that leaves the model. */
  datatype State = State(flat: Flat, rets: seq<int>, halted: bool)

  ghost function After(f: Format, roots: Roots, locked: bool, s: State, op: Op): (s': State) {
    if s.halted then s
    else
      var (r, ret) :=
        match op
        case MapOp(_, _, _, _) => MapCall(f, roots, locked, s.flat, op)
        case UnmapOp(iova, len) => (UnmapCall(roots, locked, s.flat, iova, len), 0)
        case FreeOp(iova) => (FreeCall(roots, locked, s.flat, iova), 0);
      match r
      case None => s.(halted := true)
      case Some(flat) => State(flat, s.rets + [ret], false)
  }

  ghost function Play(f: Format, roots: Roots, locked: bool, grants: seq<bool>, ops: seq<Op>): (s: State) {
    if ops == [] then State(Flat(map[], {}, grants), [], false)
    else After(f, roots, locked, Play(f, roots, locked, grants, ops[..|ops| - 1]), ops[|ops| - 1])
  }

  /** Ranges that stay under root 0. */
  predicate UnderRootZero(op: Op) {
    match op
    case MapOp(iova, _, len, _) => PageNo(iova) + len / PAGE <= ROOT_PAGES
    case UnmapOp(iova, len) => PageNo(iova) + len / PAGE <= ROOT_PAGES
    case FreeOp(iova) => iova / ROOT_BYTES % 4 == 0
  }

  /** What one call under root 0 means: a map succeeds exactly when the device is not locked, everything is aligned,
      every page is vacant and the tables can be had; then exactly its pages are added, and otherwise nothing
      changes; unmapping removes exactly its range; freeing tables changes no translation. */
  ghost predicate Exact(f: Format, roots: Roots, locked: bool, s: Flat, op: Op, s': Flat, ret: int) {
    match op
    case MapOp(iova, paddr, len, flags) =>
      && ret in {0, -1}
      && (ret == 0 <==>
            && !locked && len % PAGE == 0 && paddr % PAGE == 0 && iova % PAGE == 0
            && Vacant(s.look, PageNo(iova), len / PAGE)
            && TablesHad(roots, s.slots, s.grants, PageNo(iova), len / PAGE))
      && if ret == 0 then Mapped(f, s.look, s'.look, PageNo(iova), len / PAGE, paddr / PAGE, flags)
         else SameLook(s.look, s'.look)
    case UnmapOp(iova, len) =>
      if !locked && iova % PAGE == 0 && len % PAGE == 0 then Unmapped(s.look, s'.look, PageNo(iova), len / PAGE)
      else s' == s
    case FreeOp(_) => s'.look == s.look
  }

  lemma StepExact(f: Format, roots: Roots, locked: bool, s: State, op: Op)
    requires !s.halted && Sane(roots, s.flat) && HasRoot(roots, 0) && UnderRootZero(op)
    ensures var s' := After(f, roots, locked, s, op);
            && !s'.halted && Sane(roots, s'.flat) && |s'.rets| == |s.rets| + 1 && s.rets <= s'.rets
            && Exact(f, roots, locked, s.flat, op, s'.flat, s'.rets[|s.rets|])
  {
    hide MapUp, UnmapUp, Sane, Target, PageNo;
    match op {
      case MapOp(iova, paddr, len, flags) => MapExact(f, roots, locked, s.flat, op);
      case UnmapOp(iova, len) =>
        UnmapsRange(roots, s.flat, PageNo(iova), if UnderRootZero(op) then len / PAGE else 0);
        UnmapUpEffect(roots, s.flat, PageNo(iova), len / PAGE);
      case FreeOp(iova) => FreeExact(roots, locked, s.flat, iova);
    }
  }

  lemma MapExact(f: Format, roots: Roots, locked: bool, s: Flat, op: Op)
    requires Sane(roots, s) && HasRoot(roots, 0) && op.MapOp? && UnderRootZero(op)
    ensures var (r, ret) := MapCall(f, roots, locked, s, op);
            r.Some? && Sane(roots, r.value) && Exact(f, roots, locked, s, op, r.value, ret)
  {
    hide MapUp, UnmapUp, Sane, Target, PageNo, TablesHad, Vacant, Mapped;
    if !locked && MapAligned(op) {
      var x, n, p := PageNo(op.iova), op.len / PAGE, op.paddr / PAGE;
      MapUpEffect(f, roots, s, x, n, p, op.flags);
      MapsExactly(f, roots, s, x, n, p, op.flags);
      RollbackExactly(f, roots, s, x, n, p, op.flags);
      var (s1, k) := MapUp(f, roots, s, x, n, p, op.flags);
      if k < n {
        UnmapUpEffect(roots, s1, x, k);
      }
    }
  }

  lemma FreeExact(roots: Roots, locked: bool, s: Flat, iova: nat)
    requires Sane(roots, s) && HasRoot(roots, 0) && iova / ROOT_BYTES % 4 == 0
    ensures var r := FreeCall(roots, locked, s, iova);
            r.Some? && Sane(roots, r.value) && r.value.look == s.look
  {
    var low := iova / 0x200_0000 % FAN;
    LookKept(roots, s, low);
    assert 0 * FAN + low == low && low / FAN == 0;
    var r := FreeCall(roots, locked, s, iova);
    forall x | x in s.look ensures x / FAN in r.value.slots {
      assert x == x / FAN * FAN + x % FAN;
    }
  }

  /** Over every run of calls under root 0: nothing leaves the model, and every call does exactly what it should. */
  lemma {:induction false} RunsExactly(f: Format, roots: Roots, locked: bool, grants: seq<bool>, ops: seq<Op>)
    requires HasRoot(roots, 0) && forall op | op in ops :: UnderRootZero(op)
    ensures var s := Play(f, roots, locked, grants, ops);
            && !s.halted && Sane(roots, s.flat) && |s.rets| == |ops|
            && forall i: nat | i < |ops| :: ExactAt(f, roots, locked, grants, ops, s.rets, i)
    decreases |ops|
  {
    hide After, UnderRootZero, Sane, Exact;
    if ops == [] {
      NothingIsSane(roots, grants);
    } else {
      var n := |ops| - 1;
      var before := ops[..n];
      assert forall op | op in before :: op in ops;
      RunsExactly(f, roots, locked, grants, before);
      var s, s' := Play(f, roots, locked, grants, before), Play(f, roots, locked, grants, ops);
      assert ops[n] in ops;
      StepExact(f, roots, locked, s, ops[n]);
      assert ops[..n + 1] == ops;
      forall i: nat | i < |ops| ensures ExactAt(f, roots, locked, grants, ops, s'.rets, i) {
        if i < n {
          assert ExactAt(f, roots, locked, grants, before, s.rets, i);
          assert before[..i] == ops[..i] && before[..i + 1] == ops[..i + 1] && s'.rets[i] == s.rets[i];
        }
      }
    }
  }

  ghost predicate ExactAt(f: Format, roots: Roots, locked: bool, grants: seq<bool>, ops: seq<Op>, rets: seq<int>,
                          i: nat)
    requires i < |ops| == |rets|
  {
    Exact(f, roots, locked, Play(f, roots, locked, grants, ops[..i]).flat, ops[i],
          Play(f, roots, locked, grants, ops[..i + 1]).flat, rets[i])
  }

  lemma NothingIsSane(roots: Roots, grants: seq<bool>)
    ensures Sane(roots, Flat(map[], {}, grants))
  {
  }

  // ---------------------------------------------------------------------- later roots

  /** At the first page of root 1, mapped and then unmapped: it stays mapped. */
  lemma UnmapMissesLaterRoot(roots: Roots)
    requires HasRoot(roots, 0) && HasRoot(roots, 1)
    ensures var s := Play(T8020, roots, false, [true, true],
                          [MapOp(ROOT_BYTES, PAGE, PAGE, 0), UnmapOp(ROOT_BYTES, PAGE)]);
            !s.halted && s.rets == [0, 0] && ROOT_PAGES in s.flat.look
  {
    hide Target;
    var ops := [MapOp(ROOT_BYTES, PAGE, PAGE, 0), UnmapOp(ROOT_BYTES, PAGE)];
    assert PageNo(ROOT_BYTES) == ROOT_PAGES && ROOT_PAGES / FAN == FAN && FAN / FAN == 1;
    assert ROOT_PAGES % SPACE == ROOT_PAGES && ROOT_PAGES / ROOT_PAGES == 1 && ROOT_PAGES % ROOT_PAGES == 0;
    var s0 := Flat(map[], {}, [true, true]);
    var s1 := Flat(map[ROOT_PAGES := Target(T8020, 1, 0)], {FAN}, [true]);
    assert MapUp(T8020, roots, s0, ROOT_PAGES, 1, 1, 0) == (s1, 1) by {
      assert [true, true][1..] == [true] && {} + {FAN} == {FAN};
      assert s0.look[ROOT_PAGES := Target(T8020, 1, 0)] == s1.look;
      assert MapOne(T8020, roots, s0, ROOT_PAGES, 1, 0) == (s1, true);
    }
    var s2 := Flat(map[ROOT_PAGES := Target(T8020, 1, 0)], {FAN, 0}, []);
    FirstMissed(roots, s1, s2);
    hide MapUp, UnmapUp;
    assert ops[..1][..0] == [] && ops[..1] == [ops[0]];
    assert Play(T8020, roots, false, [true, true], []) == State(s0, [], false);
    assert Play(T8020, roots, false, [true, true], ops[..1]) == State(s1, [0], false);
  }

  /** Two pages at the start of root 1 of which the second is mapped already: the call fails, and the first one stays
      mapped. */
  lemma RollbackMissesLaterRoot(roots: Roots)
    requires HasRoot(roots, 0) && HasRoot(roots, 1)
    ensures var s := Play(T8020, roots, false, [true, true],
                          [MapOp(ROOT_BYTES + PAGE, PAGE, PAGE, 0), MapOp(ROOT_BYTES, PAGE, 2 * PAGE, 0)]);
            !s.halted && s.rets == [0, -1] && ROOT_PAGES in s.flat.look
  {
    hide Target;
    var ops := [MapOp(ROOT_BYTES + PAGE, PAGE, PAGE, 0), MapOp(ROOT_BYTES, PAGE, 2 * PAGE, 0)];
    var t := Target(T8020, 1, 0);
    var s0, s1 := Flat(map[], {}, [true, true]), Flat(map[ROOT_PAGES + 1 := t], {FAN}, [true]);
    SecondMapped(roots, s0, s1, t);
    var s2 := Flat(map[ROOT_PAGES + 1 := t, ROOT_PAGES := t], {FAN}, [true]);
    FirstMapped(roots, s1, s2, t);
    var s3 := Flat(s2.look, {FAN, 0}, []);
    FirstMissed(roots, s2, s3);
    assert PageNo(ROOT_BYTES) == ROOT_PAGES && PageNo(ROOT_BYTES + PAGE) == ROOT_PAGES + 1;
    hide MapUp, UnmapUp;
    assert ops[..1][..0] == [] && ops[..1] == [ops[0]];
    assert Play(T8020, roots, false, [true, true], []) == State(s0, [], false);
    assert Play(T8020, roots, false, [true, true], ops[..1]) == State(s1, [0], false);
  }

  lemma SecondMapped(roots: Roots, s0: Flat, s1: Flat, t: nat)
    requires HasRoot(roots, 1) && t == Target(T8020, 1, 0)
    requires s0 == Flat(map[], {}, [true, true]) && s1 == Flat(map[ROOT_PAGES + 1 := t], {FAN}, [true])
    ensures MapUp(T8020, roots, s0, ROOT_PAGES + 1, 1, 1, 0) == (s1, 1)
  {
    hide Target;
    assert (ROOT_PAGES + 1) / FAN == FAN && FAN / FAN == 1 && (ROOT_PAGES + 1) % SPACE == ROOT_PAGES + 1;
    assert [true, true][1..] == [true] && {} + {FAN} == {FAN} && s0.look[ROOT_PAGES + 1 := t] == s1.look;
    assert MapOne(T8020, roots, s0, ROOT_PAGES + 1, 1, 0) == (s1, true);
  }

  lemma FirstMapped(roots: Roots, s1: Flat, s2: Flat, t: nat)
    requires HasRoot(roots, 1) && t == Target(T8020, 1, 0)
    requires s1 == Flat(map[ROOT_PAGES + 1 := t], {FAN}, [true])
    requires s2 == Flat(map[ROOT_PAGES + 1 := t, ROOT_PAGES := t], {FAN}, [true])
    ensures MapUp(T8020, roots, s1, ROOT_PAGES, 2, 1, 0) == (s2, 1)
  {
    hide Target;
    assert ROOT_PAGES / FAN == FAN && FAN / FAN == 1 && ROOT_PAGES % SPACE == ROOT_PAGES;
    assert s1.look[ROOT_PAGES := t] == s2.look;
    assert MapOne(T8020, roots, s1, ROOT_PAGES, 1, 0) == (s2, true);
    assert (ROOT_PAGES + 1) / FAN == FAN && (ROOT_PAGES + 1) % SPACE == ROOT_PAGES + 1;
    assert MapOne(T8020, roots, s2, ROOT_PAGES + 1, 2, 0) == (s2, false);
  }

  lemma FirstMissed(roots: Roots, s2: Flat, s3: Flat)
    requires HasRoot(roots, 0) && HasRoot(roots, 1) && 0 !in s2.look && s2.slots == {FAN} && s2.grants == [true]
    requires s3 == Flat(s2.look, {FAN, 0}, [])
    ensures UnmapUp(roots, s2, ROOT_PAGES, 1) == Some(s3)
  {
    assert ROOT_PAGES / FAN == FAN && ROOT_PAGES % SPACE == ROOT_PAGES;
    assert ROOT_PAGES / ROOT_PAGES == 1 && ROOT_PAGES % ROOT_PAGES == 0;
    assert [true][1..] == [] && {FAN} + {0} == {FAN, 0} && 0 / FAN == 0 && s2.look - {0} == s2.look;
    assert UnmapOne(roots, s2, ROOT_PAGES) == Some(s3);
  }
}
