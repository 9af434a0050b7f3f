/** The hardware's view of the translation tables of `src/memory.c`: the table walk, the stores and
    TLB invalidations that the walk can observe, and a TLB that may cache whatever it ever saw. */
module TableWalk {
  import opened Descriptors
  import opened Wrappers

  /** Tables by the number of the page they occupy. */
  type Memory = map<nat, seq<Desc>>

  const VA_PAGES := 0x4_0000_0000  // 48-bit virtual addresses, 14 bits of offset

  function Idx(level: nat, v: nat): (i: nat)
    requires level <= 3
  {
    match level
    case 0 => v / 0x2_0000_0000
    case 1 => v / 0x40_0000 % FAN
    case 2 => v / FAN % FAN
    case 3 => v % FAN
  }

  /** Pages under one entry of a table. */
  function Span(level: nat): (n: nat)
    requires level <= 3
  {
    match level
    case 0 => 0x2_0000_0000
    case 1 => BLOCK_L1
    case 2 => FAN
    case 3 => 1
  }

  /** Where a walk ends: at an entry that does not translate, or in a leaf found at a level.  The level tells
      how much the entry covers, so it is part of what a TLB caches. */
  datatype Outcome = Fault(a: nat, i: nat) | Mapped(leaf: Leaf, level: nat)

  function Walk(m: Memory, a: nat, level: nat, v: nat): (o: Outcome)
    requires level <= 3
    decreases 3 - level
  {
    var i := Idx(level, v);
    if a !in m || i >= |m[a]| || !m[a][i].valid then Fault(a, i)
    else
      var d := m[a][i];
      if level == 3 then (if d.table then Mapped(Leaf(d.page, d.low, d.high), 3) else Fault(a, i))
      else if d.table then Walk(m, d.page, level + 1, v)
      else if level == 0 then Fault(a, i)
      else Mapped(Leaf(d.page + v % Span(level), d.low, d.high), level)
  }

  function Translate(m: Memory, root: nat, v: nat): (l: Option<Leaf>) {
    match Walk(m, root, 0, v)
    case Mapped(leaf, _) => Some(leaf)
    case Fault(_, _) => None
  }

  // ---------------------------------------------------------------------- stores and invalidations

  datatype Event =
    | Alloc(a: nat, t: seq<Desc>)       // a table filled before anything points to it
    | Store(a: nat, i: nat, d: Desc)    // a store to an entry
    | Tlbi                              // dsb; tlbi vmalle1is; dsb; isb

  function Apply(m: Memory, e: Event): (m': Memory) {
    match e
    case Alloc(a, t) => m[a := t]
    case Store(a, i, d) => if a in m && i < |m[a]| then m[a := m[a][i := d]] else m
    case Tlbi => m
  }

  function Replay(m0: Memory, log: seq<Event>): (m: Memory) {
    if log == [] then m0 else Apply(Replay(m0, log[..|log| - 1]), log[|log| - 1])
  }

  /** Entries invalidated since the last TLB invalidation. */
  function Broken(m0: Memory, log: seq<Event>): (s: set<(nat, nat)>) {
    if log == [] then {}
    else
      var before := Broken(m0, log[..|log| - 1]);
      match log[|log| - 1]
      case Alloc(_, _) => before
      case Tlbi => {}
      case Store(a, i, d) =>
        var m := Replay(m0, log[..|log| - 1]);
        if a in m && i < |m[a]| && m[a][i].valid && !d.valid then before + {(a, i)} else before
  }

  /** Break before make, section D5.10.1 of the Arm Architecture Reference Manual DDI 0487G: an
      entry becomes valid only when it was invalid and no TLB can remember what it was. */
  ghost predicate Permitted(m: Memory, root: nat, broken: set<(nat, nat)>, e: Event) {
    match e
    case Alloc(a, t) => a !in m && forall v | 0 <= v < VA_PAGES :: FaultsOutside(m, root, v, a)
    case Store(a, i, d) => a in m && i < |m[a]| && (d.valid ==> !m[a][i].valid && (a, i) !in broken)
    case Tlbi => true
  }

  predicate FaultsOutside(m: Memory, root: nat, v: nat, a: nat) {
    var o := Walk(m, root, 0, v);
    o.Fault? ==> o.a != a
  }

  ghost predicate Disciplined(m0: Memory, root: nat, log: seq<Event>) {
    log == [] ||
    var before := log[..|log| - 1];
    && Disciplined(m0, root, before)
    && Permitted(Replay(m0, before), root, Broken(m0, before), log[|log| - 1])
  }

  /** Some TLB may hold this translation of a page, from an entry of this level: it was current at some moment
      since the last invalidation. */
  ghost predicate MayHold(m0: Memory, root: nat, log: seq<Event>, v: nat, leaf: Leaf, level: nat) {
    || Walk(Replay(m0, log), root, 0, v) == Mapped(leaf, level)
    || (log != [] && !log[|log| - 1].Tlbi? && MayHold(m0, root, log[..|log| - 1], v, leaf, level))
  }

  /** What is held is no conflict: the tables give nothing for the page, or the same from the same level. */
  predicate Agrees(m: Memory, root: nat, v: nat, leaf: Leaf, level: nat) {
    var o := Walk(m, root, 0, v);
    o.Fault? || o == Mapped(leaf, level)
  }

  lemma {:induction false} AllocUnseen(m: Memory, a: nat, level: nat, v: nat, c: nat, t: seq<Desc>)
    requires level <= 3 && c !in m
    requires Walk(m, a, level, v).Fault? ==> Walk(m, a, level, v).a != c
    ensures Walk(m[c := t], a, level, v) == Walk(m, a, level, v)
    decreases 3 - level
  {
    var i := Idx(level, v);
    if a in m && i < |m[a]| && m[a][i].valid && m[a][i].table && level < 3 {
      AllocUnseen(m, m[a][i].page, level + 1, v, c, t);
    }
  }

  /** A store that invalidates changes a walk only into a fault at that very entry; a store to an
      invalid entry changes only walks that ended there. */
  lemma {:induction false} StoreSeen(m: Memory, a: nat, level: nat, v: nat, b: nat, i: nat, d: Desc)
    requires level <= 3 && b in m && i < |m[b]|
    ensures !d.valid ==>
              || Walk(m[b := m[b][i := d]], a, level, v) == Walk(m, a, level, v)
              || Walk(m[b := m[b][i := d]], a, level, v) == Fault(b, i)
    ensures !m[b][i].valid ==>
              || Walk(m[b := m[b][i := d]], a, level, v) == Walk(m, a, level, v)
              || Walk(m, a, level, v) == Fault(b, i)
    decreases 3 - level
  {
    var j := Idx(level, v);
    if a in m && j < |m[a]| && m[a][j].valid && m[a][j].table && level < 3 && (a, j) != (b, i) {
      StoreSeen(m, m[a][j].page, level + 1, v, b, i, d);
    }
  }

  /** Whatever a TLB may hold after a disciplined log is the current translation, or belongs to a
      page that ends at an entry broken since the last invalidation. */
  lemma {:induction false} CachedIsCurrentOrBroken(m0: Memory, root: nat, log: seq<Event>, v: nat, leaf: Leaf,
                                                   level: nat)
    requires Disciplined(m0, root, log) && v < VA_PAGES && MayHold(m0, root, log, v, leaf, level)
    ensures var o := Walk(Replay(m0, log), root, 0, v);
            o == Mapped(leaf, level) || (o.Fault? && (o.a, o.i) in Broken(m0, log))
    decreases |log|
  {
    if Walk(Replay(m0, log), root, 0, v) != Mapped(leaf, level) {
      var before := log[..|log| - 1];
      var m := Replay(m0, before);
      CachedIsCurrentOrBroken(m0, root, before, v, leaf, level);
      match log[|log| - 1] {
        case Alloc(c, t) =>
          assert FaultsOutside(m, root, v, c);
          AllocUnseen(m, root, 0, v, c, t);
        case Store(a, i, d) =>
          StoreSeen(m, root, 0, v, a, i, d);
        case Tlbi =>
      }
    }
  }

  /** At no moment of the log does a TLB hold anything about a page that conflicts with the tables, be it
      another target, other attributes or an entry of another size. */
  ghost predicate NeverConflicts(m0: Memory, root: nat, log: seq<Event>) {
    forall k, v, leaf, level | 0 <= k <= |log| && 0 <= v < VA_PAGES && MayHold(m0, root, log[..k], v, leaf, level) ::
      Agrees(Replay(m0, log[..k]), root, v, leaf, level)
  }

  /** The break-before-make theorem. */
  lemma TlbNeverConflicts(m0: Memory, root: nat, log: seq<Event>)
    requires Disciplined(m0, root, log)
    ensures NeverConflicts(m0, root, log)
  {
    forall k, v, leaf, level | 0 <= k <= |log| && 0 <= v < VA_PAGES && MayHold(m0, root, log[..k], v, leaf, level)
      ensures Agrees(Replay(m0, log[..k]), root, v, leaf, level)
    {
      DisciplinedPrefix(m0, root, log, k);
      CachedIsCurrentOrBroken(m0, root, log[..k], v, leaf, level);
    }
  }

  lemma {:induction false} DisciplinedPrefix(m0: Memory, root: nat, log: seq<Event>, k: nat)
    requires Disciplined(m0, root, log) && k <= |log|
    ensures Disciplined(m0, root, log[..k])
    decreases |log|
  {
    if k < |log| {
      assert log[..|log| - 1][..k] == log[..k];
      DisciplinedPrefix(m0, root, log[..|log| - 1], k);
    } else {
      assert log[..k] == log;
    }
  }

  lemma Appended(m0: Memory, root: nat, log: seq<Event>, e: Event)
    ensures Replay(m0, log + [e]) == Apply(Replay(m0, log), e)
    ensures Disciplined(m0, root, log + [e]) <==>
              Disciplined(m0, root, log) && Permitted(Replay(m0, log), root, Broken(m0, log), e)
    ensures e.Alloc? ==> Broken(m0, log + [e]) == Broken(m0, log)
    ensures e.Tlbi? ==> Broken(m0, log + [e]) == {}
    ensures e.Store? ==> Broken(m0, log + [e]) <= Broken(m0, log) + {(e.a, e.i)}
    ensures e.Store? && e.d.valid ==> Broken(m0, log + [e]) == Broken(m0, log)
  {
    assert (log + [e])[..|log + [e]| - 1] == log;
  }
}
