/** The two-level tables of a DART, `src/dart.c`: what an IOVA page translates to, the shape the tables
    keep, and what changing one entry does to every translation. */
module DartTables {
  import opened Wrappers
  import opened DartPte

  const FAN := 2048
  const ROOT_PAGES := 0x40_0000   // pages under one root
  const SPACE := 0x100_0000       // pages under the four roots
  const PAGE := 0x4000

  /** Tables by the number of the page they occupy; entries are 64-bit words. */
  type Memory = map<nat, seq<nat>>

  /** The L1 tables that exist; an absent one is a null pointer. */
  type Roots = seq<Option<nat>>

  function TableAt(m: Memory, a: nat): (t: Option<seq<nat>>) {
    if a in m && |m[a]| == FAN then Some(m[a]) else None
  }

  /** Entry `i` of root `r`. */
  function RootEntry(m: Memory, roots: Roots, r: nat, i: nat): (e: Option<nat>)
    requires i < FAN
  {
    if r < |roots| && roots[r].Some? && TableAt(m, roots[r].value).Some? then Some(m[roots[r].value][i]) else None
  }

  /** The L1 entry for slot `q`, the top 13 bits of a page number. */
  function L1Entry(m: Memory, roots: Roots, q: nat): (e: Option<nat>) {
    RootEntry(m, roots, q / FAN, q % FAN)
  }

  /** The L2 table of slot `q`. */
  function L2Table(f: Format, m: Memory, roots: Roots, q: nat): (t: Option<nat>) {
    match L1Entry(m, roots, q)
    case None => None
    case Some(e) => if IsValid(e) then Some(Field(f, e)) else None
  }

  /** The physical page of an IOVA page. */
  function Look(f: Format, m: Memory, roots: Roots, x: nat): (p: Option<nat>) {
    match L2Table(f, m, roots, x / FAN)
    case None => None
    case Some(t) =>
      if TableAt(m, t).Some? && IsValid(m[t][x % FAN]) then Some(Field(f, m[t][x % FAN])) else None
  }

  /** Every root and every L2 table is a table of its own. */
  ghost predicate Shape(f: Format, m: Memory, roots: Roots) {
    && (forall r: nat | r < |roots| && roots[r].Some? :: TableAt(m, roots[r].value).Some?)
    && (forall r: nat, s: nat | r < s < |roots| && roots[r].Some? && roots[s].Some? :: roots[r] != roots[s])
    && (forall q: nat | L2Table(f, m, roots, q).Some? :: TableAt(m, L2Table(f, m, roots, q).value).Some?)
    && (forall q: nat, r: nat | L2Table(f, m, roots, q).Some? && r < |roots| ::
          roots[r] != L2Table(f, m, roots, q))
    && (forall q: nat, s: nat | L2Table(f, m, roots, q).Some? && q != s ::
          L2Table(f, m, roots, s) != L2Table(f, m, roots, q))
  }

  function Store(m: Memory, a: nat, i: nat, w: nat): (m': Memory)
    requires a in m && i < |m[a]|
  {
    var t: seq<nat> := m[a][i := w];
    m[a := t]
  }

  // ---------------------------------------------------------------------- one L2 entry changed

  lemma LeafStored(f: Format, m: Memory, roots: Roots, q: nat, j: nat, w: nat)
    requires Shape(f, m, roots) && L2Table(f, m, roots, q).Some? && j < FAN
    requires L2Table(f, m, roots, q).value in m && |m[L2Table(f, m, roots, q).value]| == FAN
    ensures var m' := Store(m, L2Table(f, m, roots, q).value, j, w);
            && Shape(f, m', roots)
            && (forall s: nat :: L2Table(f, m', roots, s) == L2Table(f, m, roots, s))
            && forall x: nat :: Look(f, m', roots, x) ==
                 if x == q * FAN + j then (if IsValid(w) then Some(Field(f, w)) else None) else Look(f, m, roots, x)
  {
    hide Field, IsValid;
    var t := L2Table(f, m, roots, q).value;
    var m' := Store(m, t, j, w);
    forall s: nat ensures L2Table(f, m', roots, s) == L2Table(f, m, roots, s) {
      assert s / FAN < |roots| ==> roots[s / FAN] != Some(t);
    }
    hide L1Entry, L2Table;
    SameShape(f, m, m', roots);
    forall x: nat
      ensures Look(f, m', roots, x) ==
              if x == q * FAN + j then (if IsValid(w) then Some(Field(f, w)) else None) else Look(f, m, roots, x)
    {
      SlotAndPlace(x, q, j);
      assert L2Table(f, m', roots, x / FAN) == L2Table(f, m, roots, x / FAN);
    }
  }

  lemma SameShape(f: Format, m: Memory, m': Memory, roots: Roots)
    requires Shape(f, m, roots) && forall b | TableAt(m, b).Some? :: TableAt(m', b).Some?
    requires forall s: nat :: L2Table(f, m', roots, s) == L2Table(f, m, roots, s)
    ensures Shape(f, m', roots)
  {
    hide L2Table;
  }

  lemma SlotAndPlace(x: nat, q: nat, j: nat)
    requires j < FAN
    ensures x == q * FAN + j <==> x / FAN == q && x % FAN == j
  {
    assert x == x / FAN * FAN + x % FAN;
  }

  // ---------------------------------------------------------------------- one L1 entry changed

  /** Storing an L1 entry changes that entry only, as long as no table goes. */
  lemma RootStored(m: Memory, m1: Memory, roots: Roots, r: nat, i: nat, w: nat, r': nat, i': nat)
    requires i < FAN && i' < FAN && r < |roots| && roots[r].Some? && TableAt(m, roots[r].value).Some?
    requires forall k: nat | k < |roots| && roots[k].Some? ::
               TableAt(m, roots[k].value).Some? && TableAt(m1, roots[k].value) == TableAt(m, roots[k].value)
    requires forall k: nat, l: nat | k < l < |roots| && roots[k].Some? && roots[l].Some? :: roots[k] != roots[l]
    requires roots[r].value in m1 && |m1[roots[r].value]| == FAN
    ensures RootEntry(Store(m1, roots[r].value, i, w), roots, r', i') ==
            if r' == r && i' == i then Some(w) else RootEntry(m, roots, r', i')
  {
    if r' < |roots| && roots[r'].Some? {
      assert TableAt(m1, roots[r'].value) == TableAt(m, roots[r'].value);
      assert r' != r ==> roots[r'] != roots[r];
    }
  }

  /** An empty table hung into an empty slot changes no translation. */
  lemma TableHung(f: Format, m: Memory, roots: Roots, q: nat, c: nat, t: seq<nat>)
    requires Shape(f, m, roots) && L1Entry(m, roots, q).Some? && L2Table(f, m, roots, q).None?
    requires c !in m && c < f.Pages() && |t| == FAN && forall k | 0 <= k < FAN :: t[k] == 0
    ensures var m' := Store(m[c := t], roots[q / FAN].value, q % FAN, TableEntry(f, c));
            && Shape(f, m', roots)
            && (forall s: nat :: L2Table(f, m', roots, s) == if s == q then Some(c) else L2Table(f, m, roots, s))
            && forall x: nat :: Look(f, m', roots, x) == Look(f, m, roots, x)
  {
    hide Field, TableEntry, Format.Pages, Look, Shape;
    var a := roots[q / FAN].value;
    var m' := Store(m[c := t], a, q % FAN, TableEntry(f, c));
    forall s: nat ensures L2Table(f, m', roots, s) == if s == q then Some(c) else L2Table(f, m, roots, s) {
      HungSlot(f, m, roots, q, c, t, s);
    }
    hide L1Entry, L2Table;
    assert m'[c] == t;
    HungShape(f, m, m', roots, q, c);
    HungLook(f, m, m', roots, q, c);
  }

  /** Every L2 table but the new one is what it was, and the new one is empty. */
  lemma HungLook(f: Format, m: Memory, m': Memory, roots: Roots, q: nat, c: nat)
    requires Shape(f, m, roots) && Shape(f, m', roots) && L2Table(f, m, roots, q).None?
    requires forall s: nat :: L2Table(f, m', roots, s) == if s == q then Some(c) else L2Table(f, m, roots, s)
    requires TableAt(m', c).Some? && forall k | 0 <= k < FAN :: m'[c][k] == 0
    requires forall b | b in m && (forall r: nat | r < |roots| :: roots[r] != Some(b)) :: b in m' && m'[b] == m[b]
    ensures forall x: nat :: Look(f, m', roots, x) == Look(f, m, roots, x)
  {
    hide L2Table, L1Entry, Field;
    forall x: nat ensures Look(f, m', roots, x) == Look(f, m, roots, x) {
      assert L2Table(f, m', roots, x / FAN) == if x / FAN == q then Some(c) else L2Table(f, m, roots, x / FAN);
    }
  }

  lemma HungSlot(f: Format, m: Memory, roots: Roots, q: nat, c: nat, t: seq<nat>, s: nat)
    requires Shape(f, m, roots) && L1Entry(m, roots, q).Some? && L2Table(f, m, roots, q).None?
    requires c !in m && c < f.Pages() && |t| == FAN
    ensures L2Table(f, Store(m[c := t], roots[q / FAN].value, q % FAN, TableEntry(f, c)), roots, s) ==
            if s == q then Some(c) else L2Table(f, m, roots, s)
  {
    hide Field, TableEntry, Format.Pages;
    TableDecodes(f, c);
    SlotSplit(s, q);
    RootStored(m, m[c := t], roots, q / FAN, q % FAN, TableEntry(f, c), s / FAN, s % FAN);
    hide RootEntry, Store, Shape;
  }

  lemma HungShape(f: Format, m: Memory, m': Memory, roots: Roots, q: nat, c: nat)
    requires Shape(f, m, roots) && c !in m && TableAt(m', c).Some?
    requires forall b | TableAt(m, b).Some? :: TableAt(m', b).Some?
    requires forall s: nat :: L2Table(f, m', roots, s) == if s == q then Some(c) else L2Table(f, m, roots, s)
    ensures Shape(f, m', roots)
  {
    hide L2Table;
    forall s: nat | L2Table(f, m', roots, s).Some? && s != q ensures L2Table(f, m', roots, s).value in m {
      assert L2Table(f, m, roots, s).Some?;
    }
    assert forall r: nat | r < |roots| && roots[r].Some? :: roots[r].value in m;
  }

  lemma SlotSplit(s: nat, q: nat)
    ensures s == q <==> s / FAN == q / FAN && s % FAN == q % FAN
  {
    SlotAndPlace(s, q / FAN, q % FAN);
    assert q == q / FAN * FAN + q % FAN;
  }

  /** An L2 table without valid entries taken out of its slot changes no translation. */
  lemma TableDropped(f: Format, m: Memory, roots: Roots, q: nat)
    requires Shape(f, m, roots) && L2Table(f, m, roots, q).Some? && TableAt(m, L2Table(f, m, roots, q).value).Some?
    requires forall k | 0 <= k < FAN :: !IsValid(m[L2Table(f, m, roots, q).value][k])
    ensures var m' := Store(m, roots[q / FAN].value, q % FAN, 0) - {L2Table(f, m, roots, q).value};
            && Shape(f, m', roots)
            && (forall s: nat :: L2Table(f, m', roots, s) == if s == q then None else L2Table(f, m, roots, s))
            && forall x: nat :: Look(f, m', roots, x) == Look(f, m, roots, x)
  {
    hide Look, Field, Shape;
    var a, t := roots[q / FAN].value, L2Table(f, m, roots, q).value;
    var m' := Store(m, a, q % FAN, 0) - {t};
    forall s: nat ensures L2Table(f, m', roots, s) == if s == q then None else L2Table(f, m, roots, s) {
      DroppedSlot(f, m, roots, q, s);
    }
    hide L1Entry, L2Table;
    DroppedShape(f, m, m', roots, q, t);
    DroppedLook(f, m, m', roots, q, t);
  }

  lemma DroppedShape(f: Format, m: Memory, m': Memory, roots: Roots, q: nat, t: nat)
    requires Shape(f, m, roots) && L2Table(f, m, roots, q) == Some(t)
    requires forall b | TableAt(m, b).Some? && b != t :: TableAt(m', b).Some?
    requires forall s: nat :: L2Table(f, m', roots, s) == if s == q then None else L2Table(f, m, roots, s)
    ensures Shape(f, m', roots)
  {
    hide L2Table;
  }

  lemma DroppedLook(f: Format, m: Memory, m': Memory, roots: Roots, q: nat, t: nat)
    requires Shape(f, m, roots) && Shape(f, m', roots) && L2Table(f, m, roots, q) == Some(t) && TableAt(m, t).Some?
    requires forall k | 0 <= k < FAN :: !IsValid(m[t][k])
    requires forall s: nat :: L2Table(f, m', roots, s) == if s == q then None else L2Table(f, m, roots, s)
    requires forall b | b in m && b != t && (forall r: nat | r < |roots| :: roots[r] != Some(b)) ::
             b in m' && m'[b] == m[b]
    ensures forall x: nat :: Look(f, m', roots, x) == Look(f, m, roots, x)
  {
    hide L1Entry, L2Table, Field;
    forall x: nat ensures Look(f, m', roots, x) == Look(f, m, roots, x) {
      assert L2Table(f, m', roots, x / FAN) == if x / FAN == q then None else L2Table(f, m, roots, x / FAN);
    }
  }

  lemma DroppedSlot(f: Format, m: Memory, roots: Roots, q: nat, s: nat)
    requires Shape(f, m, roots) && L2Table(f, m, roots, q).Some?
    ensures L2Table(f, Store(m, roots[q / FAN].value, q % FAN, 0) - {L2Table(f, m, roots, q).value}, roots, s) ==
            if s == q then None else L2Table(f, m, roots, s)
  {
    hide Field;
    SlotSplit(s, q);
    var t := L2Table(f, m, roots, q).value;
    var m1 := Store(m, roots[q / FAN].value, q % FAN, 0);
    RootStored(m, m, roots, q / FAN, q % FAN, 0, s / FAN, s % FAN);
    assert RootEntry(m1 - {t}, roots, s / FAN, s % FAN) == RootEntry(m1, roots, s / FAN, s % FAN);
    hide RootEntry, Store, Shape;
  }
}
