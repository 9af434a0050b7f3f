/** The shape the tables of `src/memory.c` keep: a tree in which each table serves one range of
    virtual pages, and what one update of an entry does to every translation. */
module TableTree {
  import opened Descriptors
  import opened TableWalk
  import opened Wrappers

  /** A table's place: its level, and the leading part of the virtual page numbers that reach it. */
  datatype Spot = Spot(level: nat, prefix: nat)

  function Pre(level: nat, v: nat): (p: nat)
    requires level <= 3
  {
    match level
    case 0 => 0
    case 1 => v / 0x2_0000_0000
    case 2 => v / 0x40_0000
    case 3 => v / FAN
  }

  function SpotOf(level: nat, v: nat): (s: Spot)
    requires level <= 3
  {
    Spot(level, Pre(level, v))
  }

  function Child(s: Spot, i: nat): (c: Spot) {
    Spot(s.level + 1, s.prefix * FAN + i)
  }

  lemma PreStep(level: nat, v: nat)
    requires level < 3 && v < VA_PAGES
    ensures Child(SpotOf(level, v), Idx(level, v)) == SpotOf(level + 1, v)
    ensures Pre(level + 1, v) / FAN == Pre(level, v)
    ensures Idx(level, v) == Pre(level + 1, v) % FAN
  {
  }

  function Width(level: nat): (n: nat) {
    if level == 0 then 2 else FAN
  }

  /** An entry that points to a table one level down. */
  predicate IsLink(level: nat, d: Desc) {
    level < 3 && d.valid && d.table
  }

  /** The firmware's read-only window, in bytes. */
  datatype Window = Window(start: nat, end: nat)

  /** No byte of the L2 block at page `p` lies in the window. */
  predicate Clear(ro: Option<Window>, p: nat) {
    ro.Some? ==> p * PAGE >= ro.value.end || (p + FAN) * PAGE <= ro.value.start
  }

  /** The descriptor formats that occur at a level.  Blocks start on a multiple of their size, and
      with a read-only window there is no block over it. */
  predicate Sane(ro: Option<Window>, level: nat, d: Desc) {
    d.valid ==>
      match level
      case 0 => d.table
      case 1 => d.table || (ro.None? && Word(d) && d.page % BLOCK_L1 == 0)
      case 2 => d.table || (Clear(ro, d.page) && Word(d) && d.page % FAN == 0)
      case _ => d.table
  }

  type Index = map<Spot, nat>

  predicate At(m: Memory, tab: Index, s: Spot, i: nat) {
    s in tab && s.level <= 3 && tab[s] in m && |m[tab[s]]| == Width(s.level) && i < Width(s.level)
  }

  function Entry(m: Memory, tab: Index, s: Spot, i: nat): (d: Desc)
    requires At(m, tab, s, i)
  {
    m[tab[s]][i]
  }

  ghost predicate Placed(m: Memory, tab: Index, root: nat) {
    && Spot(0, 0) in tab && tab[Spot(0, 0)] == root
    && (forall s | s in tab :: s.level <= 3 && tab[s] in m && |m[tab[s]]| == Width(s.level))
    && (forall s | s in tab && s.level > 0 :: Spot(s.level - 1, s.prefix / FAN) in tab)
    && (forall s | s in tab && s.level == 0 :: s.prefix == 0)
    && (forall s, t | s in tab && t in tab && tab[s] == tab[t] :: s == t)
  }

  /** An entry is a link exactly when the index knows a table below it, and then it points there. */
  ghost predicate EntryOk(ro: Option<Window>, m: Memory, tab: Index, s: Spot, i: nat)
    requires At(m, tab, s, i)
  {
    var d := Entry(m, tab, s, i);
    && Sane(ro, s.level, d)
    && (s.level < 3 ==> (IsLink(s.level, d) <==> Child(s, i) in tab))
    && (IsLink(s.level, d) ==> d.page == tab[Child(s, i)])
  }

  ghost predicate Linked(ro: Option<Window>, m: Memory, tab: Index) {
    forall s, i: nat | At(m, tab, s, i) :: EntryOk(ro, m, tab, s, i)
  }

  ghost predicate Tree(ro: Option<Window>, m: Memory, tab: Index, root: nat) {
    Placed(m, tab, root) && Linked(ro, m, tab)
  }

  predicate Through(s: Spot, i: nat, v: nat)
    requires s.level <= 3
  {
    Pre(s.level, v) == s.prefix && Idx(s.level, v) == i
  }

  /** What an entry that is no link gives for a page under it. */
  function Ends(ghost ro: Option<Window>, d: Desc, a: nat, i: nat, level: nat, v: nat): (o: Outcome)
    requires level <= 3 && !IsLink(level, d) && Sane(ro, level, d)
  {
    if d.valid then Mapped(Leaf(if level == 3 then d.page else d.page + v % Span(level), d.low, d.high), level)
    else Fault(a, i)
  }

  // ---------------------------------------------------------------------- walks inside the tree

  /** The table of a page's range hangs below the entry for the page one level up. */
  lemma LinkAbove(ro: Option<Window>, m: Memory, tab: Index, root: nat, level: nat, v: nat)
    requires Tree(ro, m, tab, root) && v < VA_PAGES && 0 < level <= 3 && SpotOf(level, v) in tab
    ensures var s, i := SpotOf(level - 1, v), Idx(level - 1, v);
            && At(m, tab, s, i) && IsLink(level - 1, Entry(m, tab, s, i))
            && Entry(m, tab, s, i).page == tab[SpotOf(level, v)]
  {
    var s, i := SpotOf(level - 1, v), Idx(level - 1, v);
    PreStep(level - 1, v);
    PlaceOf(level - 1, v);
    hide Idx, Pre, Child, Sane, Tree;
    ParentPlaced(ro, m, tab, root, SpotOf(level, v), s);
    EntryIsOk(ro, m, tab, root, s, i);
  }

  lemma ParentPlaced(ro: Option<Window>, m: Memory, tab: Index, root: nat, c: Spot, s: Spot)
    requires Tree(ro, m, tab, root) && c in tab && c.level == s.level + 1 && c.prefix / FAN == s.prefix
    ensures s in tab && s.level <= 3 && tab[s] in m && |m[tab[s]]| == Width(s.level)
  {
    hide Linked, Width;
  }

  lemma EntryIsOk(ro: Option<Window>, m: Memory, tab: Index, root: nat, s: Spot, i: nat)
    requires Tree(ro, m, tab, root) && At(m, tab, s, i)
    ensures EntryOk(ro, m, tab, s, i)
  {
    hide Placed, EntryOk;
  }

  lemma RootSpot(ro: Option<Window>, m: Memory, tab: Index, root: nat, v: nat)
    requires Tree(ro, m, tab, root)
    ensures SpotOf(0, v) in tab && tab[SpotOf(0, v)] == root
  {
    hide Linked;
  }

  lemma PlaceOf(level: nat, v: nat)
    requires level <= 3 && v < VA_PAGES
    ensures Idx(level, v) < Width(level)
  {
  }

  /** The walk of a page arrives at the table of its range, if there is one. */
  lemma {:induction false} Arrives(ro: Option<Window>, m: Memory, tab: Index, root: nat, level: nat, v: nat)
    requires Tree(ro, m, tab, root) && v < VA_PAGES && level <= 3 && SpotOf(level, v) in tab
    ensures Walk(m, root, 0, v) == Walk(m, tab[SpotOf(level, v)], level, v)
  {
    RootSpot(ro, m, tab, root, v);
    hide Tree, Idx, Pre, SpotOf;
    if level > 0 {
      LinkAbove(ro, m, tab, root, level, v);
      Arrives(ro, m, tab, root, level - 1, v);
    }
  }

  /** The same in another memory that agrees above the table. */
  lemma {:induction false} StillArrives(ro: Option<Window>, m: Memory, m': Memory, tab: Index, root: nat, level: nat,
                                        v: nat)
    requires Tree(ro, m, tab, root) && v < VA_PAGES && level <= 3 && SpotOf(level, v) in tab
    requires forall l: nat | l < level && SpotOf(l, v) in tab :: SameEntry(m, m', tab[SpotOf(l, v)], Idx(l, v))
    ensures Walk(m', root, 0, v) == Walk(m', tab[SpotOf(level, v)], level, v)
  {
    RootSpot(ro, m, tab, root, v);
    hide Tree, Idx, Pre, SpotOf;
    if level > 0 {
      LinkAbove(ro, m, tab, root, level, v);
      var s := SpotOf(level - 1, v);
      assert SameEntry(m, m', tab[s], Idx(level - 1, v));
      StillArrives(ro, m, m', tab, root, level - 1, v);
    }
  }

  /** Two memories that agree along the path of a page give the same walk. */
  lemma {:induction false} SamePath(ro: Option<Window>, m: Memory, m': Memory, tab: Index, root: nat, level: nat,
                                    v: nat)
    requires Tree(ro, m, tab, root) && v < VA_PAGES && level <= 3 && SpotOf(level, v) in tab
    requires forall l: nat | level <= l <= 3 && SpotOf(l, v) in tab :: SameEntry(m, m', tab[SpotOf(l, v)], Idx(l, v))
    ensures Walk(m', tab[SpotOf(level, v)], level, v) == Walk(m, tab[SpotOf(level, v)], level, v)
    decreases 3 - level
  {
    var s := SpotOf(level, v);
    var i := Idx(level, v);
    assert SameEntry(m, m', tab[s], i);
    assert At(m, tab, s, i);
    assert EntryOk(ro, m, tab, s, i);
    if IsLink(level, m[tab[s]][i]) {
      PreStep(level, v);
      assert Child(s, i) in tab;
      SamePath(ro, m, m', tab, root, level + 1, v);
    }
  }

  predicate SameEntry(m: Memory, m': Memory, a: nat, i: nat) {
    a in m && a in m' && |m[a]| == |m'[a]| && (i < |m[a]| ==> m'[a][i] == m[a][i])
  }

  /** Walks never leave the tree. */
  lemma {:induction false} StaysInside(ro: Option<Window>, m: Memory, tab: Index, root: nat, level: nat, v: nat)
    requires Tree(ro, m, tab, root) && v < VA_PAGES && level <= 3 && SpotOf(level, v) in tab
    ensures var o := Walk(m, tab[SpotOf(level, v)], level, v); o.Fault? ==> o.a in m
    decreases 3 - level
  {
    var s := SpotOf(level, v);
    var i := Idx(level, v);
    assert At(m, tab, s, i);
    assert EntryOk(ro, m, tab, s, i);
    if IsLink(level, m[tab[s]][i]) {
      PreStep(level, v);
      assert Child(s, i) in tab;
      StaysInside(ro, m, tab, root, level + 1, v);
    }
  }

  // ---------------------------------------------------------------------- one entry changed

  function Stored(m: Memory, a: nat, i: nat, d: Desc): (m': Memory)
    requires a in m && i < |m[a]|
  {
    m[a := m[a][i := d]]
  }

  lemma StoreKeepsTree(ro: Option<Window>, m: Memory, tab: Index, root: nat, s: Spot, i: nat, d: Desc)
    requires Tree(ro, m, tab, root) && At(m, tab, s, i) && !IsLink(s.level, Entry(m, tab, s, i))
    requires !IsLink(s.level, d) && Sane(ro, s.level, d)
    ensures Tree(ro, Stored(m, tab[s], i, d), tab, root)
  {
    hide Sane, Child, IsLink;
    var m' := Stored(m, tab[s], i, d);
    forall t, k: nat | At(m', tab, t, k) ensures EntryOk(ro, m', tab, t, k) {
      assert At(m, tab, t, k) && EntryOk(ro, m, tab, t, k) && EntryOk(ro, m, tab, s, i);
    }
  }

  /** A leaf stored into an entry: the pages under the entry get it, all others keep their walk. */
  lemma StoreEffect(ro: Option<Window>, m: Memory, tab: Index, root: nat, s: Spot, i: nat, d: Desc, v: nat)
    requires Tree(ro, m, tab, root) && At(m, tab, s, i) && !IsLink(s.level, Entry(m, tab, s, i))
    requires !IsLink(s.level, d) && Sane(ro, s.level, d) && v < VA_PAGES
    ensures Walk(Stored(m, tab[s], i, d), root, 0, v) ==
            if Through(s, i, v) then Ends(ro, d, tab[s], i, s.level, v) else Walk(m, root, 0, v)
  {
    var m' := Stored(m, tab[s], i, d);
    if Through(s, i, v) {
      StoreKeepsTree(ro, m, tab, root, s, i, d);
      assert SpotOf(s.level, v) == s;
      Arrives(ro, m', tab, root, s.level, v);
    } else {
      hide Linked, Sane, Walk;
      forall l: nat | l <= 3 && SpotOf(l, v) in tab ensures SameEntry(m, m', tab[SpotOf(l, v)], Idx(l, v)) {
        if tab[SpotOf(l, v)] == tab[s] {
          assert SpotOf(l, v) == s;
        }
      }
      SamePath(ro, m, m', tab, root, 0, v);
    }
  }

  function LinkTo(c: nat): (d: Desc) {
    Desc(true, true, c, 0, 0)
  }

  /** A table filled with entries that are no links themselves. */
  ghost predicate Leaves(ro: Option<Window>, level: nat, t: seq<Desc>) {
    |t| == FAN && forall k | 0 <= k < FAN :: !IsLink(level, t[k]) && Sane(ro, level, t[k])
  }

  lemma LinkKeepsTree(ro: Option<Window>, m: Memory, tab: Index, root: nat, s: Spot, i: nat, c: nat, t: seq<Desc>)
    requires Tree(ro, m, tab, root) && At(m, tab, s, i) && s.level < 3 && !IsLink(s.level, Entry(m, tab, s, i))
    requires c !in m && Leaves(ro, s.level + 1, t)
    ensures Tree(ro, Stored(m[c := t], tab[s], i, LinkTo(c)), tab[Child(s, i) := c], root)
  {
    var m' := Stored(m[c := t], tab[s], i, LinkTo(c));
    var tab' := tab[Child(s, i) := c];
    assert EntryOk(ro, m, tab, s, i);
    LinkKeepsPlaces(m, tab, root, s, i, c, t);
    forall u, k: nat | At(m', tab', u, k) ensures EntryOk(ro, m', tab', u, k) {
      LinkKeepsEntry(ro, m, tab, root, s, i, c, t, u, k);
    }
  }

  lemma LinkKeepsPlaces(m: Memory, tab: Index, root: nat, s: Spot, i: nat, c: nat, t: seq<Desc>)
    requires Placed(m, tab, root) && At(m, tab, s, i) && s.level < 3
    requires Child(s, i) !in tab && c !in m && |t| == FAN
    ensures Placed(Stored(m[c := t], tab[s], i, LinkTo(c)), tab[Child(s, i) := c], root)
  {
    var n := Child(s, i);
    ChildPlace(s, i);
    hide Child;
    MorePlaces(m, Stored(m[c := t], tab[s], i, LinkTo(c)), tab, root, s, n, c);
  }

  lemma ChildPlace(s: Spot, i: nat)
    requires i < FAN
    ensures Child(s, i).prefix / FAN == s.prefix && Child(s, i).prefix % FAN == i && Child(s, i).level == s.level + 1
  {
  }

  lemma MorePlaces(m: Memory, m': Memory, tab: Index, root: nat, s: Spot, n: Spot, c: nat)
    requires Placed(m, tab, root) && s in tab && n !in tab && c !in m
    requires n.level == s.level + 1 <= 3 && n.prefix / FAN == s.prefix && c in m' && |m'[c]| == FAN
    requires forall a | a in m :: a in m' && |m'[a]| == |m[a]|
    ensures Placed(m', tab[n := c], root)
  {
    hide Width;
    var tab' := tab[n := c];
    WidthBelow(n.level);
    forall u | u in tab' ensures u.level <= 3 && tab'[u] in m' && |m'[tab'[u]]| == Width(u.level) {
      assert u == n || u in tab;
    }
    forall u | u in tab' && u.level > 0 ensures Spot(u.level - 1, u.prefix / FAN) in tab' {
      assert u == n || u in tab;
    }
    forall u, w | u in tab' && w in tab' && tab'[u] == tab'[w] ensures u == w {
      assert u == n || u in tab;
      assert w == n || w in tab;
    }
  }

  lemma WidthBelow(level: nat)
    requires level > 0
    ensures Width(level) == FAN
  {
  }

  lemma LinkKeepsEntry(ro: Option<Window>, m: Memory, tab: Index, root: nat, s: Spot, i: nat, c: nat, t: seq<Desc>,
                       u: Spot, k: nat)
    requires Tree(ro, m, tab, root) && At(m, tab, s, i) && s.level < 3 && Child(s, i) !in tab
    requires c !in m && Leaves(ro, s.level + 1, t)
    requires At(Stored(m[c := t], tab[s], i, LinkTo(c)), tab[Child(s, i) := c], u, k)
    ensures EntryOk(ro, Stored(m[c := t], tab[s], i, LinkTo(c)), tab[Child(s, i) := c], u, k)
  {
    var n := Child(s, i);
    ChildPlace(u, k);
    ChildPlace(s, i);
    hide Child, Sane;
    if u != n {
      assert At(m, tab, u, k) && EntryOk(ro, m, tab, u, k);
    }
  }

  /** A table hung below an entry: the pages under the entry are now served by its entries. */
  lemma LinkEffect(ro: Option<Window>, m: Memory, tab: Index, root: nat, s: Spot, i: nat, c: nat, t: seq<Desc>, v: nat)
    requires Tree(ro, m, tab, root) && At(m, tab, s, i) && s.level < 3 && !IsLink(s.level, Entry(m, tab, s, i))
    requires c !in m && Leaves(ro, s.level + 1, t) && v < VA_PAGES
    ensures Idx(s.level + 1, v) < FAN
    ensures Walk(Stored(m[c := t], tab[s], i, LinkTo(c)), root, 0, v) ==
            if Through(s, i, v) then Ends(ro, t[Idx(s.level + 1, v)], c, Idx(s.level + 1, v), s.level + 1, v)
            else Walk(m, root, 0, v)
  {
    IdxBelow(s.level + 1, v);
    if Through(s, i, v) {
      LinkSeen(ro, m, tab, root, s, i, c, t, v);
    } else {
      LinkUnseen(ro, m, tab, root, s, i, c, t, v);
    }
  }

  lemma IdxBelow(level: nat, v: nat)
    requires 1 <= level <= 3
    ensures Idx(level, v) < FAN
  {
  }

  lemma LinkSeen(ro: Option<Window>, m: Memory, tab: Index, root: nat, s: Spot, i: nat, c: nat, t: seq<Desc>, v: nat)
    requires Tree(ro, m, tab, root) && At(m, tab, s, i) && s.level < 3 && !IsLink(s.level, Entry(m, tab, s, i))
    requires c !in m && Leaves(ro, s.level + 1, t) && v < VA_PAGES && Through(s, i, v) && Idx(s.level + 1, v) < FAN
    ensures Walk(Stored(m[c := t], tab[s], i, LinkTo(c)), root, 0, v) ==
            Ends(ro, t[Idx(s.level + 1, v)], c, Idx(s.level + 1, v), s.level + 1, v)
  {
    hide Linked, Placed;
    var m' := Stored(m[c := t], tab[s], i, LinkTo(c));
    LinkKeepsTree(ro, m, tab, root, s, i, c, t);
    PreStep(s.level, v);
    assert SpotOf(s.level, v) == s;
    assert SpotOf(s.level + 1, v) == Child(s, i);
    Arrives(ro, m', tab[Child(s, i) := c], root, s.level + 1, v);
    assert m'[c] == t;
  }

  lemma LinkUnseen(ro: Option<Window>, m: Memory, tab: Index, root: nat, s: Spot, i: nat, c: nat, t: seq<Desc>, v: nat)
    requires Tree(ro, m, tab, root) && At(m, tab, s, i) && c !in m && v < VA_PAGES && !Through(s, i, v)
    ensures Walk(Stored(m[c := t], tab[s], i, LinkTo(c)), root, 0, v) == Walk(m, root, 0, v)
  {
    var m' := Stored(m[c := t], tab[s], i, LinkTo(c));
    hide Linked, Sane, Walk;
    forall l: nat | l <= 3 && SpotOf(l, v) in tab ensures SameEntry(m, m', tab[SpotOf(l, v)], Idx(l, v)) {
      if tab[SpotOf(l, v)] == tab[s] {
        assert SpotOf(l, v) == s;
      }
    }
    SamePath(ro, m, m', tab, root, 0, v);
  }

  function Cut(m: Memory, a: nat, i: nat, d: Desc, c: nat): (m': Memory)
    requires a in m && i < |m[a]| && a != c
  {
    Stored(m - {c}, a, i, d)
  }

  /** An L3 table freed and its entry overwritten with a leaf. */
  lemma CutKeepsTree(ro: Option<Window>, m: Memory, tab: Index, root: nat, s: Spot, i: nat, d: Desc)
    requires Tree(ro, m, tab, root) && At(m, tab, s, i) && s.level == 2 && IsLink(2, Entry(m, tab, s, i))
    requires !IsLink(2, d) && Sane(ro, 2, d)
    ensures Child(s, i) in tab && tab[Child(s, i)] == Entry(m, tab, s, i).page != tab[s]
    ensures Tree(ro, Cut(m, tab[s], i, d, tab[Child(s, i)]), tab - {Child(s, i)}, root)
  {
    hide Sane;
    assert EntryOk(ro, m, tab, s, i);
    var n := Child(s, i);
    var m' := Cut(m, tab[s], i, d, tab[n]);
    var tab' := tab - {n};
    ChildPlace(s, i);
    forall u, k: nat | At(m', tab', u, k) ensures EntryOk(ro, m', tab', u, k) {
      assert At(m, tab, u, k) && EntryOk(ro, m, tab, u, k);
      ChildPlace(u, k);
      hide Child;
    }
  }

  lemma CutEffect(ro: Option<Window>, m: Memory, tab: Index, root: nat, s: Spot, i: nat, d: Desc, v: nat)
    requires Tree(ro, m, tab, root) && At(m, tab, s, i) && s.level == 2 && IsLink(2, Entry(m, tab, s, i))
    requires !IsLink(2, d) && Sane(ro, 2, d) && v < VA_PAGES
    ensures Child(s, i) in tab && tab[Child(s, i)] != tab[s]
    ensures Walk(Cut(m, tab[s], i, d, tab[Child(s, i)]), root, 0, v) ==
            if Through(s, i, v) then Ends(ro, d, tab[s], i, 2, v) else Walk(m, root, 0, v)
  {
    CutKeepsTree(ro, m, tab, root, s, i, d);
    hide Linked;
    var n := Child(s, i);
    var m' := Cut(m, tab[s], i, d, tab[n]);
    var tab' := tab - {n};
    if Through(s, i, v) {
      assert SpotOf(2, v) == s;
      Arrives(ro, m', tab', root, 2, v);
      hide Placed;
    } else {
      hide Sane, Walk;
      PreStep(2, v);
      ChildPlace(s, i);
      hide Child;
      assert SpotOf(3, v) != n;
      forall l: nat | l <= 3 && SpotOf(l, v) in tab ensures SameEntry(m, m', tab[SpotOf(l, v)], Idx(l, v)) {
        assert SpotOf(l, v) != n;
        if tab[SpotOf(l, v)] == tab[s] {
          assert SpotOf(l, v) == s;
        }
      }
      SamePath(ro, m, m', tab, root, 0, v);
    }
  }
}
