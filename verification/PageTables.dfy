/** `mmu_map` of `src/memory.c` with 16K pages: tables created on demand, blocks split on the way
    down, blocks or pages chosen chunk by chunk, live entries replaced by break before make. */
module PageTables {
  import opened Align
  import opened Descriptors
  import opened TableWalk
  import opened TableTree
  import opened Wrappers

  const BLOCK_BYTES := 0x200_0000  // bytes under an L2 entry

  /** `n` pages from `v` on now translate as `to` says, all other pages as before. */
  ghost predicate Remaps(m: Memory, m': Memory, root: nat, v: nat, n: nat, to: Desc) {
    forall u: nat | u < VA_PAGES ::
      Translate(m', root, u) == if v <= u < v + n then LeafOf(Add(to, u - v)) else Translate(m, root, u)
  }

  lemma RemapsNone(m: Memory, root: nat, v: nat, to: Desc)
    ensures Remaps(m, m, root, v, 0, to)
  {
  }

  lemma RemapsThen(m0: Memory, m1: Memory, m2: Memory, root: nat, v: nat, n: nat, k: nat, to: Desc)
    requires Remaps(m0, m1, root, v, n, to) && Remaps(m1, m2, root, v + n, k, Add(to, n))
    ensures Remaps(m0, m2, root, v, n + k, to)
  {
    hide Add, LeafOf, Translate;
    forall u: nat | u < VA_PAGES
      ensures Translate(m2, root, u) == if v <= u < v + n + k then LeafOf(Add(to, u - v)) else Translate(m0, root, u)
    {
      if v + n <= u < v + n + k {
        AddAdd(to, n, u - (v + n));
        assert Translate(m2, root, u) == LeafOf(Add(Add(to, n), u - (v + n)));
      } else {
        assert Translate(m2, root, u) == Translate(m1, root, u);
      }
    }
  }

  // ---------------------------------------------------------------------- splitting a block

  /** The entries below a split entry: nothing below nothing, and below a block its parts. */
  ghost predicate Parts(level: nat, d: Desc, t: seq<Desc>)
    requires level < 3
  {
    && |t| == FAN
    && forall k | 0 <= k < FAN ::
         t[k] == if d.valid then d.(table := level == 2, page := d.page + k * Span(level + 1)) else ZERO
  }

  /** The loops of `mmu_pt_get_l2` and `mmu_pt_get_l3` that lay out a block's parts. */
  method SplitBlock(level: nat, d: Desc) returns (t: seq<Desc>)
    requires 1 <= level <= 2 && d.valid && Word(d) && d.page % Span(level) == 0
    ensures Parts(level, d, t)
  {
    hide Add, Word;
    var first := d.(table := level == 2);
    var cur := first;
    t := [];
    PartAdd(level, d, first, 0);
    for idx := 0 to FAN
      invariant |t| == idx && cur == Add(first, idx * Span(level + 1))
      invariant forall k | 0 <= k < idx :: t[k] == first.(page := d.page + k * Span(level + 1))
    {
      PartAdd(level, d, first, idx);
      t := t + [cur];
      cur := Add(cur, Span(level + 1));
    }
  }

  /** The contents of the table that is to hang below an entry. */
  method LayOut(level: nat, d: Desc) returns (t: seq<Desc>)
    requires level <= 2 && (d.valid ==> 1 <= level && Word(d) && d.page % Span(level) == 0)
    ensures Parts(level, d, t)
  {
    if d.valid {
      t := SplitBlock(level, d);
    } else {
      t := seq(FAN, _ => ZERO);
    }
  }

  lemma PartAdd(level: nat, d: Desc, first: Desc, idx: nat)
    requires 1 <= level <= 2 && Word(d) && d.page % Span(level) == 0 && idx < FAN && first == d.(table := level == 2)
    ensures Add(first, idx * Span(level + 1)) == first.(page := d.page + idx * Span(level + 1))
    ensures Add(Add(first, idx * Span(level + 1)), Span(level + 1)) == Add(first, (idx + 1) * Span(level + 1))
    ensures Add(first, 0) == first
  {
    hide Add;
    AddWithin(first, Span(level), idx * Span(level + 1));
    AddWithin(first, Span(level), 0);
    AddAdd(first, idx * Span(level + 1), Span(level + 1));
  }

  lemma PartsAreLeaves(ro: Option<Window>, level: nat, d: Desc, t: seq<Desc>)
    requires level < 3 && Sane(ro, level, d) && !IsLink(level, d) && Parts(level, d, t)
    ensures Leaves(ro, level + 1, t)
  {
    forall k | 0 <= k < FAN ensures !IsLink(level + 1, t[k]) && Sane(ro, level + 1, t[k]) {
      if d.valid && level == 1 {
        PartIsBlock(d, k);
        assert t[k] == d.(table := false, page := d.page + k * FAN);
      }
    }
  }

  lemma PartIsBlock(d: Desc, k: nat)
    requires Word(d) && d.page % BLOCK_L1 == 0 && k < FAN
    ensures Word(d.(page := d.page + k * FAN)) && (d.page + k * FAN) % FAN == 0
  {
    AddWithin(d, BLOCK_L1, k * FAN);
    hide Add;
    var q := d.page / BLOCK_L1;
    assert d.page == q * BLOCK_L1;
    DivUnique(d.page + k * FAN, FAN, q * FAN + k, 0);
  }

  /** A page under the split entry translates as it did before. */
  lemma PartsTranslate(ro: Option<Window>, m: Memory, tab: Index, root: nat, level: nat, t: seq<Desc>, c: nat, v: nat)
    requires Tree(ro, m, tab, root) && level < 3 && v < VA_PAGES && SpotOf(level, v) in tab
    requires At(m, tab, SpotOf(level, v), Idx(level, v))
    requires !IsLink(level, Entry(m, tab, SpotOf(level, v), Idx(level, v)))
    requires Parts(level, Entry(m, tab, SpotOf(level, v), Idx(level, v)), t)
    requires Leaves(ro, level + 1, t) && Idx(level + 1, v) < FAN
    ensures var o := Ends(ro, t[Idx(level + 1, v)], c, Idx(level + 1, v), level + 1, v);
            (if o.Mapped? then Some(o.leaf) else None) == Translate(m, root, v)
  {
    hide Linked, Placed;
    Arrives(ro, m, tab, root, level, v);
    EntryIsOk(ro, m, tab, root, SpotOf(level, v), Idx(level, v));
    BlockOffset(v);
    hide Word, Clear, Pre;
  }

  /** The offset in an L1 block is the L2 block in it and the page in that. */
  lemma BlockOffset(v: nat)
    ensures v % BLOCK_L1 == v / FAN % FAN * FAN + v % FAN && v % FAN < FAN && v / FAN % FAN < FAN
  {
    var a, b := v / FAN, v % FAN;
    var c, d := a / FAN, a % FAN;
    assert v == a * FAN + b && a == c * FAN + d;
    DivUnique(v, BLOCK_L1, c, d * FAN + b);
  }

  lemma Reached(ro: Option<Window>, m: Memory, tab: Index, root: nat, level: nat, v: nat)
    requires Tree(ro, m, tab, root) && level <= 3 && v < VA_PAGES && SpotOf(level, v) in tab
    ensures At(m, tab, SpotOf(level, v), Idx(level, v)) && EntryOk(ro, m, tab, SpotOf(level, v), Idx(level, v))
    ensures var d := Entry(m, tab, SpotOf(level, v), Idx(level, v));
            && (d.valid && !d.table && level < 3 ==> level > 0 && Word(d) && d.page % Span(level) == 0)
            && (IsLink(level, d) ==> SpotOf(level + 1, v) in tab && tab[SpotOf(level + 1, v)] == d.page)
  {
    var s, i := SpotOf(level, v), Idx(level, v);
    assert At(m, tab, s, i);
    EntryIsOk(ro, m, tab, root, s, i);
    if level < 3 {
      PreStep(level, v);
    }
  }

  /** One more step of a mapping loop: what getting the table keeps, then what the store remaps. */
  lemma RemapsOne(m0: Memory, m1: Memory, m1': Memory, m2: Memory, root: nat, v: nat, k: nat, n: nat, to: Desc,
                  cur: Desc)
    requires Remaps(m0, m1, root, v, k, to) && SameTranslation(m1, m1', root)
    requires Remaps(m1', m2, root, v + k, n, cur) && cur == Add(to, k).(table := cur.table)
    ensures Remaps(m0, m2, root, v, k + n, to)
  {
    hide Translate;
    forall u: nat | u < VA_PAGES
      ensures Translate(m2, root, u) ==
              if v + k <= u < v + k + n then LeafOf(Add(Add(to, k), u - (v + k))) else Translate(m1, root, u)
    {
      assert Translate(m1', root, u) == Translate(m1, root, u);
      if v + k <= u < v + k + n {
        assert Add(cur, u - (v + k)) == Add(Add(to, k), u - (v + k)).(table := cur.table);
      }
    }
    RemapsThen(m0, m1, m2, root, v, k, n, to);
  }

  lemma FreshPage(s: set<nat>, heap: nat) returns (c: nat)
    ensures c !in s && c >= heap
  {
    c := heap;
    ghost var rest := s;
    while c in s
      invariant c >= heap && rest <= s && forall x | x in s && x >= c :: x in rest
      decreases rest
    {
      rest := rest - {c};
      c := c + 1;
    }
  }

  // ---------------------------------------------------------------------- rounding

  /** `ALIGN_UP(x, MASK(25))` and `ALIGN_DOWN(x, MASK(25))`: the mask is not a power of two, and the
      two macros leave bit 0 alone. */
  function RoundUp(x: nat): (r: nat) {
    var y := x + (BLOCK_BYTES - 2);
    y - y % BLOCK_BYTES + y % 2
  }

  function RoundDown(x: nat): (r: nat) {
    x - x % BLOCK_BYTES + x % 2
  }

  /** Where the first phase of `mmu_map` stops laying out pages: the next multiple of a block, and
      below the image the first one at or above it. */
  function Boundary(from: nat, ramBase: nat, imageBase: nat): (b: nat)
  {
    var b := RoundUp(from);
    if ramBase <= b < imageBase then RoundUp(imageBase) else b
  }

  /** Pages that the first phase of `mmu_map` lays out. */
  function FirstPages(from: nat, size: nat, ramBase: nat, imageBase: nat): (k: nat) {
    var b := Boundary(from, ramBase, imageBase);
    (if b < from then 0 else if size < b - from then size else b - from) / PAGE
  }

  /** Blocks that its block phase goes through with the MMU off. */
  function BlockCount(from: nat, to: Desc, size: nat, ramBase: nat, imageBase: nat): (n: nat) {
    var k := FirstPages(from, size, ramBase, imageBase);
    if size >= k * PAGE && Add(to, k).page % FAN == 0 then RoundDown(size - k * PAGE) / BLOCK_BYTES else 0
  }

  /** The `j`-th block is written as a block, not as pages, and with the type bit of a link. */
  predicate LinkAt(ro: Option<Window>, to: Desc, j: nat) {
    to.valid && to.table && Clear(ro, Add(to, j * FAN).page)
  }

  predicate Links(ro: Option<Window>, to: Desc, n: nat) {
    exists j :: 0 <= j < n && LinkAt(ro, to, j)
  }

  /** A call with the MMU off writes a link where it should write a block. */
  predicate WritesLink(from: nat, to: Desc, size: nat, ramBase: nat, imageBase: nat, ro: Option<Window>) {
    var k := FirstPages(from, size, ramBase, imageBase);
    Links(ro, Add(to, k), BlockCount(from, to, size, ramBase, imageBase))
  }

  /** The arithmetic of the phases, in pages: `k` pages up to the boundary, then whole blocks, which
      start on a multiple of a block. */
  lemma Phases(from: nat, size: nat, ramBase: nat, imageBase: nat)
    requires from % PAGE == 0 && size % PAGE == 0 && imageBase % PAGE == 0
    ensures Boundary(from, ramBase, imageBase) >= from
    ensures var gap := Boundary(from, ramBase, imageBase) - from;
            var chunk := if size < gap then size else gap;
            var k, n := FirstPages(from, size, ramBase, imageBase), size / PAGE;
            var blocks := RoundDown(size - chunk) / BLOCK_BYTES;
            && chunk == k * PAGE && k <= n && size == n * PAGE
            && RoundDown(size - chunk) == blocks * BLOCK_BYTES && blocks * FAN <= n - k
            && (blocks > 0 ==> (from / PAGE + k) % FAN == 0)
  {
    hide RoundUp, RoundDown, FirstPages;
    BoundaryAligned(from, ramBase, imageBase);
    hide Boundary;
    var top := Boundary(from, ramBase, imageBase);
    var chunk := if size < top - from then size else top - from;
    FirstIsChunk(from, size, ramBase, imageBase);
    PagesToBoundary(from, top);
    WholePages(size, chunk);
    EvenPages(size - chunk);
    RoundsOnEven(size - chunk);
    PagesInBlocks(size - chunk, RoundDown(size - chunk));
  }

  lemma BoundaryAligned(from: nat, ramBase: nat, imageBase: nat)
    requires from % PAGE == 0 && imageBase % PAGE == 0
    ensures Boundary(from, ramBase, imageBase) >= from && Boundary(from, ramBase, imageBase) % BLOCK_BYTES == 0
  {
    hide RoundUp;
    EvenPages(from);
    EvenPages(imageBase);
    RoundsOnEven(from);
    RoundsOnEven(imageBase);
  }

  lemma FirstIsChunk(from: nat, size: nat, ramBase: nat, imageBase: nat)
    requires Boundary(from, ramBase, imageBase) >= from
    ensures var gap := Boundary(from, ramBase, imageBase) - from;
            FirstPages(from, size, ramBase, imageBase) == (if size < gap then size else gap) / PAGE
  {
    hide Boundary;
  }

  lemma WholePages(size: nat, chunk: nat)
    requires size % PAGE == 0 && chunk % PAGE == 0 && chunk <= size
    ensures chunk == chunk / PAGE * PAGE && size == size / PAGE * PAGE && chunk / PAGE <= size / PAGE
    ensures (size - chunk) / PAGE == size / PAGE - chunk / PAGE && (size - chunk) % PAGE == 0
  {
    var a, b := size / PAGE, chunk / PAGE;
    assert size == a * PAGE && chunk == b * PAGE && b <= a;
    DivUnique(size - chunk, PAGE, a - b, 0);
  }

  lemma PagesToBoundary(from: nat, top: nat)
    requires from % PAGE == 0 && top % BLOCK_BYTES == 0 && top >= from
    ensures (top - from) % PAGE == 0
    ensures (from / PAGE + (top - from) / PAGE) % FAN == 0
  {
    var b := top / BLOCK_BYTES;
    assert top - from == (b * FAN - from / PAGE) * PAGE;
    assert (top - from) / PAGE == b * FAN - from / PAGE;
  }

  lemma PagesInBlocks(x: nat, r: nat)
    requires x % PAGE == 0 && r % BLOCK_BYTES == 0 && r <= x
    ensures r == r / BLOCK_BYTES * BLOCK_BYTES && r / BLOCK_BYTES * FAN <= x / PAGE
  {
    assert r / BLOCK_BYTES * FAN * PAGE <= x / PAGE * PAGE;
  }

  lemma EvenPages(x: nat)
    requires x % PAGE == 0
    ensures x % 2 == 0
  {
    assert x == 2 * (x / PAGE * (PAGE / 2));
  }

  /** On even numbers they round to a multiple of the block. */
  lemma RoundsOnEven(x: nat)
    requires x % 2 == 0
    ensures RoundUp(x) % BLOCK_BYTES == 0 && x <= RoundUp(x) < x + BLOCK_BYTES
    ensures RoundDown(x) % BLOCK_BYTES == 0 && RoundDown(x) <= x < RoundDown(x) + BLOCK_BYTES
  {
    var y := x + (BLOCK_BYTES - 2);
    EvenRemainder(x);
    EvenRemainder(y);
  }

  lemma EvenRemainder(x: nat)
    requires x % 2 == 0
    ensures x % BLOCK_BYTES % 2 == 0
  {
    var q, h := x / BLOCK_BYTES, x / 2;
    assert x % BLOCK_BYTES == 2 * (h - q * (BLOCK_BYTES / 2));
  }

  // ---------------------------------------------------------------------- pages and blocks

  /** The block that holds page `u` lies within the `n` pages from `v` on, its target starts on a multiple of a block,
      and if the first multiple of a block is RAM below the image, the block is not below the image. */
  predicate OwnBlock(v: nat, to: Desc, n: nat, ramBase: nat, imageBase: nat, u: nat) {
    var w, first := u / FAN * FAN, (v + FAN - 1) / FAN * FAN;
    && v <= w && w + FAN <= v + n && (to.page + w - v) % FAN == 0
    && (ramBase <= first * PAGE < imageBase ==> imageBase <= w * PAGE)
  }

  /** RAM below the image is meant to be mapped by page entries only.  A whole block of it with a target on a block is
      nevertheless mapped as one exactly if the first multiple of a block in the range lies below RAM. */
  lemma BelowImageExactly(v: nat, to: Desc, n: nat, ramBase: nat, imageBase: nat, w: nat)
    requires w % FAN == 0 && v <= w && w + FAN <= v + n && (to.page + w - v) % FAN == 0
    requires ramBase <= w * PAGE < imageBase
    ensures OwnBlock(v, to, n, ramBase, imageBase, w) <==> (v + FAN - 1) / FAN * FAN * PAGE < ramBase
  {
    var first := (v + FAN - 1) / FAN * FAN;
    assert first <= w by {
      BlocksUpTo(v, w / FAN);
    }
  }

  lemma BlocksUpTo(v: nat, j: nat)
    requires v <= j * FAN
    ensures (v + FAN - 1) / FAN <= j
  {
  }

  /** Four blocks from address 0 on, with RAM at the second and the image at the fourth: the second is a block. */
  lemma BlockBelowImage()
    ensures OwnBlock(0, ZERO, 4 * FAN, BLOCK_BYTES, 3 * BLOCK_BYTES, FAN) && BLOCK_BYTES <= FAN * PAGE < 3 * BLOCK_BYTES
  {
  }

  /** The blocks of the block phase are exactly these. */
  lemma BlocksAreOwn(from: nat, to: Desc, size: nat, ramBase: nat, imageBase: nat, u: nat)
    requires from % PAGE == 0 && size % PAGE == 0 && imageBase % PAGE == 0
    ensures var v, k := from / PAGE, FirstPages(from, size, ramBase, imageBase);
            OwnBlock(v, to, size / PAGE, ramBase, imageBase, u) <==>
            v + k <= u < v + k + BlockCount(from, to, size, ramBase, imageBase) * FAN
  {
    hide RoundUp, RoundDown, Boundary, FirstPages, Add;
    var v, n, j := from / PAGE, size / PAGE, u / FAN;
    var k, top := FirstPages(from, size, ramBase, imageBase), Boundary(from, ramBase, imageBase);
    Phases(from, size, ramBase, imageBase);
    BoundaryAligned(from, ramBase, imageBase);
    BoundaryIsLeast(from, ramBase, imageBase, j);
    if size < top - from {
      RoundsOnEven(0);
    } else {
      BlocksFromTop(v, to, k, n, top / BLOCK_BYTES, u);
      EvenPages(size - k * PAGE);
      RoundsOnEven(size - k * PAGE);
      BlocksLeft(n - k, RoundDown(size - k * PAGE) / BLOCK_BYTES);
    }
  }

  /** In blocks: page `u` lies in one of those that fit after the boundary, and the targets are on blocks. */
  lemma BlocksFromTop(v: nat, to: Desc, k: nat, n: nat, t: nat, u: nat)
    requires v + k == t * FAN && k <= n
    ensures var w, b := u / FAN * FAN, if Add(to, k).page % FAN == 0 then (n - k) / FAN else 0;
            t * FAN <= w && w + FAN <= v + n && (to.page + w - v) % FAN == 0 <==> v + k <= u < v + k + b * FAN
  {
    hide Add;
    var j := u / FAN;
    BlocksThatFit(t, n - k, j);
    if t <= j {
      TargetOf(to, k, j * FAN - v, j - t);
    }
  }

  lemma BlocksThatFit(t: nat, n: nat, j: nat)
    ensures (j + 1) * FAN <= t * FAN + n <==> j < t + n / FAN
  {
  }

  lemma BlocksLeft(n: nat, b: nat)
    requires b * BLOCK_BYTES <= n * PAGE < b * BLOCK_BYTES + BLOCK_BYTES
    ensures b == n / FAN
  {
    DivUnique(n, FAN, b, n - b * FAN);
  }

  /** A target advanced by whole blocks keeps its place in a block. */
  lemma TargetOf(to: Desc, k: nat, m: int, q: nat)
    requires m == k + q * FAN
    ensures Add(to, k).page % FAN == 0 <==> (to.page + m) % FAN == 0
  {
    var p := to.page + k;
    var c := p / FIELD_PAGES;
    assert p % FIELD_PAGES == p - c * FIELD_PAGES;
    assert p == p % FIELD_PAGES + c * (FIELD_PAGES / FAN) * FAN;
  }

  lemma BoundaryIsLeast(from: nat, ramBase: nat, imageBase: nat, j: nat)
    requires from % PAGE == 0 && imageBase % PAGE == 0
    ensures var v, w := from / PAGE, j * FAN;
            var first := (v + FAN - 1) / FAN * FAN;
            Boundary(from, ramBase, imageBase) <= w * PAGE <==>
            v <= w && (ramBase <= first * PAGE < imageBase ==> imageBase <= w * PAGE)
  {
    hide RoundUp;
    EvenPages(from);
    EvenPages(imageBase);
    RoundsOnEven(from);
    RoundsOnEven(imageBase);
    var v, r, s := from / PAGE, RoundUp(from) / BLOCK_BYTES, RoundUp(imageBase) / BLOCK_BYTES;
    DivUnique(v + FAN - 1, FAN, r, v + FAN - 1 - r * FAN);
  }

  /** The pages from `a` up to `b` are mapped by entries of one level. */
  ghost predicate AtLevel(m: Memory, root: nat, a: nat, b: nat, level: nat) {
    forall u: nat | a <= u < b :: Walk(m, root, 0, u).Mapped? && Walk(m, root, 0, u).level == level
  }

  /** The page is mapped by a page entry, or by a block that ends at or below the block of `w`. */
  predicate Firm(o: Outcome, u: nat, w: nat) {
    o.Mapped? && (o.level == 3 || (o.level == 2 && u / FAN < w / FAN))
  }

  /** What is mapped firmly below `w` is mapped as before. */
  ghost predicate Steady(m: Memory, m': Memory, root: nat, w: nat) {
    forall u: nat | u < w && u < VA_PAGES && Firm(Walk(m, root, 0, u), u, w) ::
      Walk(m', root, 0, u) == Walk(m, root, 0, u)
  }

  lemma SteadyNone(m: Memory, root: nat, w: nat)
    ensures Steady(m, m, root, w)
  {
  }

  lemma SteadyThen(m0: Memory, m1: Memory, m2: Memory, root: nat, w: nat, w': nat)
    requires Steady(m0, m1, root, w) && Steady(m1, m2, root, w') && w <= w'
    ensures Steady(m0, m2, root, w)
  {
    hide Walk;
    forall u: nat | u < w && u < VA_PAGES && Firm(Walk(m0, root, 0, u), u, w)
      ensures Walk(m2, root, 0, u) == Walk(m0, root, 0, u)
    {
      assert Walk(m1, root, 0, u) == Walk(m0, root, 0, u);
      assert Firm(Walk(m1, root, 0, u), u, w');
    }
  }

  lemma LevelKept(m: Memory, m': Memory, root: nat, a: nat, b: nat, level: nat, w: nat)
    requires AtLevel(m, root, a, b, level) && Steady(m, m', root, w) && b <= w <= VA_PAGES
    requires level == 3 || (level == 2 && w % FAN == 0)
    ensures AtLevel(m', root, a, b, level)
  {
    hide Walk;
    forall u: nat | a <= u < b ensures Walk(m', root, 0, u) == Walk(m, root, 0, u) {
      assert w % FAN == 0 ==> u / FAN < w / FAN;
      assert Firm(Walk(m, root, 0, u), u, w);
    }
  }

  lemma LevelMore(m: Memory, root: nat, a: nat, b: nat, c: nat, level: nat)
    requires AtLevel(m, root, a, b, level) && AtLevel(m, root, b, c, level)
    ensures AtLevel(m, root, a, c, level)
  {
    hide Walk;
  }

  /** The first `n` blocks from `v` on: blocks where they are clear of the window, pages elsewhere. */
  ghost predicate BlockLevels(m: Memory, root: nat, ro: Option<Window>, v: nat, n: nat, to: Desc) {
    forall j: nat | j < n :: BlockLevel(m, root, ro, v, to, j)
  }

  ghost predicate BlockLevel(m: Memory, root: nat, ro: Option<Window>, v: nat, to: Desc, j: nat) {
    AtLevel(m, root, v + j * FAN, v + (j + 1) * FAN, if Clear(ro, Add(to, j * FAN).page) then 2 else 3)
  }

  lemma BlockLevelsKept(m: Memory, m': Memory, root: nat, ro: Option<Window>, v: nat, n: nat, to: Desc, w: nat)
    requires BlockLevels(m, root, ro, v, n, to) && Steady(m, m', root, w) && v + n * FAN <= w <= VA_PAGES
    requires w % FAN == 0
    ensures BlockLevels(m', root, ro, v, n, to)
  {
    hide AtLevel, Steady, Clear, Add;
    forall j: nat | j < n ensures BlockLevel(m', root, ro, v, to, j) {
      assert BlockLevel(m, root, ro, v, to, j);
      assert (j + 1) * FAN <= n * FAN;
      LevelKept(m, m', root, v + j * FAN, v + (j + 1) * FAN, if Clear(ro, Add(to, j * FAN).page) then 2 else 3, w);
    }
  }

  lemma NoneLaid(m: Memory, root: nat, v: nat, level: nat)
    ensures AtLevel(m, root, v, v, level)
  {
  }

  /** One more page laid out, after a table for it was found or made. */
  lemma PageLaid(m: Memory, m0: Memory, m1: Memory, m2: Memory, root: nat, v: nat, k: nat, valid: bool)
    requires Steady(m, m0, root, v) && Steady(m0, m1, root, v + k) && Steady(m1, m2, root, v + k)
    requires v + k < VA_PAGES
    requires valid ==> AtLevel(m0, root, v, v + k, 3) && AtLevel(m2, root, v + k, v + k + 1, 3)
    ensures Steady(m, m2, root, v) && (valid ==> AtLevel(m2, root, v, v + k + 1, 3))
  {
    hide Steady, AtLevel;
    SteadyThen(m0, m1, m2, root, v + k, v + k);
    SteadyThen(m, m0, m2, root, v, v + k);
    if valid {
      LevelKept(m0, m2, root, v, v + k, 3, v + k);
      LevelMore(m2, root, v, v + k, v + k + 1, 3);
    }
  }

  /** One more block laid out. */
  lemma BlockLaid(m: Memory, m1: Memory, m2: Memory, root: nat, v: nat, k: nat, valid: bool)
    requires Steady(m, m1, root, v) && Steady(m1, m2, root, v + k * FAN)
    requires v + k * FAN <= VA_PAGES && (v + k * FAN) % FAN == 0
    requires valid ==> AtLevel(m1, root, v, v + k * FAN, 2) && AtLevel(m2, root, v + k * FAN, v + k * FAN + FAN, 2)
    ensures Steady(m, m2, root, v) && (valid ==> AtLevel(m2, root, v, v + (k + 1) * FAN, 2))
  {
    hide Steady, AtLevel;
    SteadyThen(m, m1, m2, root, v, v + k * FAN);
    if valid {
      LevelKept(m1, m2, root, v, v + k * FAN, 2, v + k * FAN);
      LevelMore(m2, root, v, v + k * FAN, v + k * FAN + FAN, 2);
    }
  }

  lemma NoBlockLevels(m: Memory, root: nat, ro: Option<Window>, v: nat, to: Desc)
    ensures BlockLevels(m, root, ro, v, 0, to)
  {
  }

  lemma BlockLevelsMore(m1: Memory, m2: Memory, root: nat, ro: Option<Window>, v: nat, k: nat, to: Desc)
    requires BlockLevels(m1, root, ro, v, k, to) && Steady(m1, m2, root, v + k * FAN)
    requires v + k * FAN <= VA_PAGES && (v + k * FAN) % FAN == 0
    requires AtLevel(m2, root, v + k * FAN, v + k * FAN + FAN, if Clear(ro, Add(to, k * FAN).page) then 2 else 3)
    ensures BlockLevels(m2, root, ro, v, k + 1, to)
  {
    hide AtLevel, Steady, Clear, Add;
    BlockLevelsKept(m1, m2, root, ro, v, k, to, v + k * FAN);
    forall j: nat | j < k + 1 ensures BlockLevel(m2, root, ro, v, to, j) {
      assert (k + 1) * FAN == k * FAN + FAN;
    }
  }

  lemma AllBlockLevels(m: Memory, root: nat, ro: Option<Window>, v: nat, n: nat, to: Desc)
    requires AtLevel(m, root, v, v + n * FAN, 2) && ro.None?
    ensures BlockLevels(m, root, ro, v, n, to)
  {
    hide Walk;
    forall j: nat | j < n ensures BlockLevel(m, root, ro, v, to, j) {
      assert (j + 1) * FAN <= n * FAN;
    }
  }

  /** Every page of the range is mapped by a page entry, with the target that `to` gives it. */
  ghost predicate Already(m: Memory, root: nat, v: nat, n: nat, to: Desc) {
    to.valid && forall u: nat | v <= u < v + n :: AlreadyAt(m, root, v, to, u)
  }

  predicate AlreadyAt(m: Memory, root: nat, v: nat, to: Desc, u: nat)
    requires v <= u
  {
    var d := Add(to, u - v);
    Walk(m, root, 0, u) == Mapped(Leaf(d.page, d.low, d.high), 3)
  }

  lemma {:induction false} LeafEntry(ro: Option<Window>, m: Memory, tab: Index, root: nat, level: nat, v: nat,
                                     leaf: Leaf)
    requires Tree(ro, m, tab, root) && v < VA_PAGES && level <= 3 && SpotOf(level, v) in tab
    requires Walk(m, tab[SpotOf(level, v)], level, v) == Mapped(leaf, 3)
    ensures SpotOf(3, v) in tab && At(m, tab, SpotOf(3, v), Idx(3, v))
    ensures Entry(m, tab, SpotOf(3, v), Idx(3, v)) == Desc(true, true, leaf.page, leaf.low, leaf.high)
    decreases 3 - level
  {
    hide Linked, Placed;
    Reached(ro, m, tab, root, level, v);
    if level < 3 {
      LeafEntry(ro, m, tab, root, level + 1, v, leaf);
    }
  }

  lemma TablesAbove(ro: Option<Window>, m: Memory, tab: Index, root: nat, level: nat, v: nat)
    requires Tree(ro, m, tab, root) && v < VA_PAGES && 0 < level <= 3
    ensures SpotOf(level, v) in tab ==> SpotOf(level - 1, v) in tab
  {
    if SpotOf(level, v) in tab {
      LinkAbove(ro, m, tab, root, level, v);
    }
  }

  /** Where a call with a block's descriptor lays out pages and where blocks. */
  ghost predicate PhaseLevels(m: Memory, root: nat, ro: Option<Window>, v: nat, k: nat, b: nat, n: nat, to: Desc) {
    && AtLevel(m, root, v, v + k, 3) && BlockLevels(m, root, ro, v + k, b, Add(to, k))
    && AtLevel(m, root, v + k + b * FAN, v + n, 3)
  }

  lemma PhasesLaid(m1: Memory, m2: Memory, m3: Memory, root: nat, ro: Option<Window>, v: nat, k: nat, b: nat, n: nat,
                   to: Desc)
    requires k + b * FAN <= n && v + n <= VA_PAGES && (b > 0 ==> (v + k) % FAN == 0)
    requires AtLevel(m1, root, v, v + k, 3) && Steady(m1, m2, root, v + k)
    requires BlockLevels(m2, root, ro, v + k, b, Add(to, k)) && Steady(m2, m3, root, v + k + b * FAN)
    requires AtLevel(m3, root, v + k + b * FAN, v + n, 3)
    ensures PhaseLevels(m3, root, ro, v, k, b, n, to)
  {
    hide AtLevel, Steady, BlockLevels, Add;
    SteadyThen(m1, m2, m3, root, v + k, v + k + b * FAN);
    LevelKept(m1, m3, root, v, v + k, 3, v + k);
    if b > 0 {
      BlockLevelsKept(m2, m3, root, ro, v + k, b, Add(to, k), v + k + b * FAN);
    } else {
      NoBlockLevels(m3, root, ro, v + k, Add(to, k));
    }
  }

  /** A page of the call is mapped by a block exactly if the MMU is off, the page lies in a block of the call's own
      and that block is clear of the window; every other page is mapped by a page entry. */
  ghost predicate LaidOut(m: Memory, root: nat, ro: Option<Window>, active: bool, v: nat, n: nat, to: Desc,
                          ramBase: nat, imageBase: nat) {
    forall u: nat | v <= u < v + n :: LaidAt(m, root, ro, active, v, n, to, ramBase, imageBase, u)
  }

  ghost predicate LaidAt(m: Memory, root: nat, ro: Option<Window>, active: bool, v: nat, n: nat, to: Desc,
                         ramBase: nat, imageBase: nat, u: nat) {
    var o := Walk(m, root, 0, u);
    && o.Mapped? && o.level in {2, 3}
    && (o.level == 2 <==> !active && OwnBlock(v, to, n, ramBase, imageBase, u) &&
                          Clear(ro, Add(to, u / FAN * FAN - v).page))
  }

  lemma LaidOutInPhases(m: Memory, root: nat, ro: Option<Window>, active: bool, from: nat, to: Desc, size: nat,
                        ramBase: nat, imageBase: nat)
    requires from % PAGE == 0 && size % PAGE == 0 && imageBase % PAGE == 0
    requires var b := if active then 0 else BlockCount(from, to, size, ramBase, imageBase);
             PhaseLevels(m, root, ro, from / PAGE, FirstPages(from, size, ramBase, imageBase), b, size / PAGE, to)
    ensures LaidOut(m, root, ro, active, from / PAGE, size / PAGE, to, ramBase, imageBase)
  {
    var v, n, k := from / PAGE, size / PAGE, FirstPages(from, size, ramBase, imageBase);
    var b := if active then 0 else BlockCount(from, to, size, ramBase, imageBase);
    hide Walk, OwnBlock, Add, Clear, FirstPages, BlockCount, AtLevel, BlockLevels;
    BlocksStartEven(from, to, size, ramBase, imageBase);
    forall u: nat | v <= u < v + n ensures LaidAt(m, root, ro, active, v, n, to, ramBase, imageBase, u) {
      BlocksAreOwn(from, to, size, ramBase, imageBase, u);
      LevelInPhases(m, root, ro, v, k, b, n, to, u);
    }
  }

  lemma BlocksStartEven(from: nat, to: Desc, size: nat, ramBase: nat, imageBase: nat)
    requires from % PAGE == 0 && size % PAGE == 0 && imageBase % PAGE == 0
    ensures BlockCount(from, to, size, ramBase, imageBase) > 0 ==>
              (from / PAGE + FirstPages(from, size, ramBase, imageBase)) % FAN == 0
  {
    hide RoundUp, RoundDown, Boundary, FirstPages, Add;
    Phases(from, size, ramBase, imageBase);
  }

  lemma LevelInPhases(m: Memory, root: nat, ro: Option<Window>, v: nat, k: nat, b: nat, n: nat, to: Desc, u: nat)
    requires PhaseLevels(m, root, ro, v, k, b, n, to) && v <= u < v + n && (b > 0 ==> (v + k) % FAN == 0)
    ensures var o := Walk(m, root, 0, u);
            && o.Mapped? && o.level in {2, 3}
            && (v + k <= u < v + k + b * FAN ==> u / FAN * FAN >= v + k)
            && (o.level == 2 <==> v + k <= u < v + k + b * FAN && Clear(ro, Add(to, u / FAN * FAN - v).page))
  {
    hide Walk, Add, Clear;
    if v + k <= u < v + k + b * FAN {
      var j := (u - v - k) / FAN;
      assert BlockLevel(m, root, ro, v + k, Add(to, k), j);
      AddAdd(to, k, j * FAN);
      BlockStart(v + k, u, j);
    }
  }

  lemma BlockStart(w: nat, u: nat, j: nat)
    requires w % FAN == 0 && w <= u && j == (u - w) / FAN
    ensures u / FAN * FAN == w + j * FAN
  {
  }

  // ---------------------------------------------------------------------- what the steps do

  ghost predicate SameTranslation(m: Memory, m': Memory, root: nat) {
    forall u: nat | u < VA_PAGES :: Translate(m', root, u) == Translate(m, root, u)
  }

  lemma SameAsBefore(m: Memory, root: nat)
    ensures SameTranslation(m, m, root)
  {
  }

  /** Hanging a table with an entry's parts below the entry moves no translation. */
  lemma LinkKeepsTranslation(ro: Option<Window>, m: Memory, tab: Index, root: nat, level: nat, v: nat, c: nat,
                             t: seq<Desc>)
    requires Tree(ro, m, tab, root) && level < 3 && v < VA_PAGES && At(m, tab, SpotOf(level, v), Idx(level, v))
    requires !IsLink(level, Entry(m, tab, SpotOf(level, v), Idx(level, v)))
    requires Parts(level, Entry(m, tab, SpotOf(level, v), Idx(level, v)), t) && c !in m
    ensures var m' := Stored(m[c := t], tab[SpotOf(level, v)], Idx(level, v), LinkTo(c));
            && Tree(ro, m', tab[SpotOf(level + 1, v) := c], root)
            && SameTranslation(m, m', root) && Steady(m, m', root, v)
  {
    var s, i := SpotOf(level, v), Idx(level, v);
    var m' := Stored(m[c := t], tab[s], i, LinkTo(c));
    PreStep(level, v);
    EntryIsOk(ro, m, tab, root, s, i);
    PartsAreLeaves(ro, level, Entry(m, tab, s, i), t);
    LinkKeepsTree(ro, m, tab, root, s, i, c, t);
    forall u: nat | u < v && Firm(Walk(m, root, 0, u), u, v) ensures Walk(m', root, 0, u) == Walk(m, root, 0, u) {
      LinkSteady(ro, m, tab, root, level, v, c, t, u);
    }
    hide Parts, Leaves, Tree, Walk, Entry, Sane, IsLink, Firm;
    forall u: nat | u < VA_PAGES ensures Translate(m', root, u) == Translate(m, root, u) {
      LinkEffect(ro, m, tab, root, s, i, c, t, u);
      if Through(s, i, u) {
        PartsTranslate(ro, m, tab, root, level, t, c, u);
      }
    }
  }

  lemma LinkSteady(ro: Option<Window>, m: Memory, tab: Index, root: nat, level: nat, v: nat, c: nat, t: seq<Desc>,
                   u: nat)
    requires Tree(ro, m, tab, root) && level < 3 && v < VA_PAGES && At(m, tab, SpotOf(level, v), Idx(level, v))
    requires !IsLink(level, Entry(m, tab, SpotOf(level, v), Idx(level, v))) && c !in m && Leaves(ro, level + 1, t)
    requires u < v && Firm(Walk(m, root, 0, u), u, v)
    ensures Walk(Stored(m[c := t], tab[SpotOf(level, v)], Idx(level, v), LinkTo(c)), root, 0, u) == Walk(m, root, 0, u)
  {
    hide Tree, Leaves, At, Entry;
    var s, i := SpotOf(level, v), Idx(level, v);
    LinkEffect(ro, m, tab, root, s, i, c, t, u);
    if Through(s, i, u) {
      NotFirm(ro, m, tab, root, level, v, u);
    }
  }

  /** Pages under an entry that is no link are mapped at its level or not at all. */
  lemma NotFirm(ro: Option<Window>, m: Memory, tab: Index, root: nat, level: nat, v: nat, u: nat)
    requires Tree(ro, m, tab, root) && level < 3 && v < VA_PAGES && At(m, tab, SpotOf(level, v), Idx(level, v))
    requires !IsLink(level, Entry(m, tab, SpotOf(level, v), Idx(level, v)))
    requires u < VA_PAGES && Through(SpotOf(level, v), Idx(level, v), u)
    ensures !Firm(Walk(m, root, 0, u), u, v)
  {
    hide Linked, Placed;
    assert SpotOf(level, u) == SpotOf(level, v) && Idx(level, u) == Idx(level, v);
    Arrives(ro, m, tab, root, level, u);
    EntryIsOk(ro, m, tab, root, SpotOf(level, v), Idx(level, v));
    if level == 2 {
      PreStep(2, u);
      PreStep(2, v);
    }
  }

  /** A page descriptor stored in an L3 table remaps one page. */
  lemma StorePage(ro: Option<Window>, m: Memory, tab: Index, root: nat, v: nat, d: Desc)
    requires Tree(ro, m, tab, root) && v < VA_PAGES && At(m, tab, SpotOf(3, v), Idx(3, v))
    requires Word(d) && d.table
    ensures var m' := Stored(m, tab[SpotOf(3, v)], Idx(3, v), d);
            && Tree(ro, m', tab, root) && Remaps(m, m', root, v, 1, d)
            && Steady(m, m', root, v) && (d.valid ==> AtLevel(m', root, v, v + 1, 3))
  {
    var s, i := SpotOf(3, v), Idx(3, v);
    var m' := Stored(m, tab[s], i, d);
    StoreKeepsTree(ro, m, tab, root, s, i, d);
    assert Add(d, 0) == d;
    hide Tree, Walk, At, Stored;
    forall u: nat | u < VA_PAGES
      ensures Translate(m', root, u) == if v <= u < v + 1 then LeafOf(Add(d, u - v)) else Translate(m, root, u)
    {
      StoreEffect(ro, m, tab, root, s, i, d, u);
      assert Through(s, i, u) <==> u == v;
    }
    forall u: nat | u < VA_PAGES && u != v ensures Walk(m', root, 0, u) == Walk(m, root, 0, u) {
      StoreEffect(ro, m, tab, root, s, i, d, u);
      assert !Through(s, i, u);
    }
    StoreEffect(ro, m, tab, root, s, i, d, v);
  }

  lemma UnderBlock(v: nat, u: nat)
    requires v % FAN == 0 && v < VA_PAGES && u < VA_PAGES
    ensures Through(SpotOf(2, v), Idx(2, v), u) <==> v <= u < v + FAN
    ensures v <= u < v + FAN ==> u / FAN == v / FAN
  {
    var p, q := v / FAN, u / FAN;
    assert v / 0x40_0000 == p / FAN && u / 0x40_0000 == q / FAN;
  }

  /** What a block descriptor gives for the pages under it. */
  lemma BlockLeaf(ro: Option<Window>, d: Desc, a: nat, v: nat, u: nat)
    requires Word(d) && (d.valid ==> !d.table && d.page % FAN == 0 && Clear(ro, d.page))
    requires v % FAN == 0 && u / FAN == v / FAN
    ensures var o := Ends(ro, d, a, Idx(2, v), 2, u);
            (if o.Mapped? then Some(o.leaf) else None) == LeafOf(Add(d, u - v))
  {
    assert u - v == u % FAN;
    if d.valid {
      AddWithin(d, FAN, u - v);
    }
  }

  /** A block descriptor stored over an L2 entry that is no link, or over one whose table is freed,
      remaps the pages of one block. */
  lemma StoreBlock(ro: Option<Window>, m: Memory, tab: Index, root: nat, v: nat, d: Desc)
    requires Tree(ro, m, tab, root) && v < VA_PAGES && v % FAN == 0 && At(m, tab, SpotOf(2, v), Idx(2, v))
    requires Word(d) && (d.valid ==> !d.table && d.page % FAN == 0 && Clear(ro, d.page))
    requires !IsLink(2, Entry(m, tab, SpotOf(2, v), Idx(2, v)))
    ensures var m' := Stored(m, tab[SpotOf(2, v)], Idx(2, v), d);
            Tree(ro, m', tab, root) && Remaps(m, m', root, v, FAN, d)
  {
    var s, i := SpotOf(2, v), Idx(2, v);
    var m' := Stored(m, tab[s], i, d);
    StoreKeepsTree(ro, m, tab, root, s, i, d);
    hide Tree, Walk, At, Stored, Entry, Ends, Add, LeafOf, Through, SpotOf, Idx, Clear;
    forall u: nat | u < VA_PAGES
      ensures Translate(m', root, u) == if v <= u < v + FAN then LeafOf(Add(d, u - v)) else Translate(m, root, u)
    {
      StoreEffect(ro, m, tab, root, s, i, d, u);
      UnderBlock(v, u);
      if v <= u < v + FAN {
        BlockLeaf(ro, d, tab[s], v, u);
      }
    }
  }

  lemma CutBlock(ro: Option<Window>, m: Memory, tab: Index, root: nat, v: nat, d: Desc)
    requires Tree(ro, m, tab, root) && v < VA_PAGES && v % FAN == 0 && At(m, tab, SpotOf(2, v), Idx(2, v))
    requires Word(d) && (d.valid ==> !d.table && d.page % FAN == 0 && Clear(ro, d.page))
    requires IsLink(2, Entry(m, tab, SpotOf(2, v), Idx(2, v)))
    ensures SpotOf(3, v) in tab && tab[SpotOf(3, v)] == Entry(m, tab, SpotOf(2, v), Idx(2, v)).page != tab[SpotOf(2, v)]
    ensures var m' := Cut(m, tab[SpotOf(2, v)], Idx(2, v), d, tab[SpotOf(3, v)]);
            Tree(ro, m', tab - {SpotOf(3, v)}, root) && Remaps(m, m', root, v, FAN, d)
  {
    var s, i := SpotOf(2, v), Idx(2, v);
    PreStep(2, v);
    CutKeepsTree(ro, m, tab, root, s, i, d);
    var m' := Cut(m, tab[s], i, d, tab[SpotOf(3, v)]);
    hide Tree, Walk, At, Cut, Entry, Ends, Add, LeafOf, Through, SpotOf, Idx, Clear;
    forall u: nat | u < VA_PAGES
      ensures Translate(m', root, u) == if v <= u < v + FAN then LeafOf(Add(d, u - v)) else Translate(m, root, u)
    {
      CutEffect(ro, m, tab, root, s, i, d, u);
      UnderBlock(v, u);
      if v <= u < v + FAN {
        BlockLeaf(ro, d, tab[s], v, u);
      }
    }
  }

  /** The pages of the block are then mapped by the block, and nothing below it is touched. */
  lemma BlockLayout(ro: Option<Window>, m: Memory, m': Memory, tab: Index, root: nat, v: nat, d: Desc)
    requires Tree(ro, m, tab, root) && v < VA_PAGES && v % FAN == 0 && At(m, tab, SpotOf(2, v), Idx(2, v))
    requires Word(d) && (d.valid ==> !d.table && d.page % FAN == 0 && Clear(ro, d.page))
    requires var i := Idx(2, v);
             if IsLink(2, Entry(m, tab, SpotOf(2, v), i)) then
               SpotOf(3, v) in tab && tab[SpotOf(3, v)] == Entry(m, tab, SpotOf(2, v), i).page &&
               m' == Cut(m, tab[SpotOf(2, v)], i, d, tab[SpotOf(3, v)])
             else m' == Stored(m, tab[SpotOf(2, v)], i, d)
    ensures Steady(m, m', root, v) && (d.valid ==> AtLevel(m', root, v, v + FAN, 2))
  {
    var s, i := SpotOf(2, v), Idx(2, v);
    PreStep(2, v);
    hide Tree, Walk, At, Cut, Stored, Entry, Add, LeafOf, Through, SpotOf, Idx, Clear, IsLink;
    forall u: nat | u < VA_PAGES
      ensures Walk(m', root, 0, u) == if v <= u < v + FAN then Ends(ro, d, tab[s], i, 2, u) else Walk(m, root, 0, u)
    {
      UnderBlock(v, u);
      if IsLink(2, Entry(m, tab, s, i)) {
        CutEffect(ro, m, tab, root, s, i, d, u);
      } else {
        StoreEffect(ro, m, tab, root, s, i, d, u);
      }
    }
  }

  /** Break before make is needed for splitting: a live block replaced at once by a table of its parts moves no
      translation, but conflicts with what a TLB may hold. */
  lemma SplitNeedsBreak(ro: Option<Window>, m: Memory, tab: Index, root: nat, level: nat, v: nat, c: nat, t: seq<Desc>)
    requires Tree(ro, m, tab, root) && level < 3 && v < VA_PAGES && At(m, tab, SpotOf(level, v), Idx(level, v))
    requires var d := Entry(m, tab, SpotOf(level, v), Idx(level, v));
             d.valid && !IsLink(level, d) && Parts(level, d, t) && c !in m
    ensures !NeverConflicts(m, root, [Alloc(c, t), Store(tab[SpotOf(level, v)], Idx(level, v), LinkTo(c))])
  {
    hide Linked, Placed, Replay, Disciplined, NeverConflicts;
    var s, i := SpotOf(level, v), Idx(level, v);
    var d, e, e' := Entry(m, tab, s, i), Alloc(c, t), Store(tab[s], i, LinkTo(c));
    EntryIsOk(ro, m, tab, root, s, i);
    PartsAreLeaves(ro, level, d, t);
    LinkEffect(ro, m, tab, root, s, i, c, t, v);
    Arrives(ro, m, tab, root, level, v);
    var now := Walk(m, root, 0, v);
    assert now.Mapped? && now.level == level;
    hide Walk;
    SplitReplay(m, root, e, e', v, now);
  }

  lemma SplitReplay(m: Memory, root: nat, e: Event, e': Event, v: nat, o: Outcome)
    requires v < VA_PAGES && Walk(m, root, 0, v) == o && o.Mapped? && !e.Tlbi? && !e'.Tlbi?
    requires var o' := Walk(Apply(Apply(m, e), e'), root, 0, v); o'.Mapped? && o'.level != o.level
    ensures !NeverConflicts(m, root, [e, e'])
  {
    hide Walk;
    var log := [e, e'];
    assert log[..2] == log && log[..1] == [e] && [e][..0] == [];
    assert Replay(m, []) == m && Replay(m, [e]) == Apply(m, e) && Replay(m, log) == Apply(Apply(m, e), e');
    assert MayHold(m, root, [], v, o.leaf, o.level);
    assert MayHold(m, root, [e], v, o.leaf, o.level);
    assert MayHold(m, root, log[..2], v, o.leaf, o.level);
    assert !Agrees(Replay(m, log[..2]), root, v, o.leaf, o.level);
  }

  // ---------------------------------------------------------------------- links that should be blocks

  /** Blocks, by number, whose L2 entry is a link to the page that the block should start at. */
  type Holes = map<nat, nat>

  predicate Hole(s: Spot, i: nat, holes: Holes) {
    s.level == 2 && Child(s, i).prefix in holes
  }

  /** `c` is `m` with nothing in the holes. */
  ghost predicate Veils(m: Memory, c: Memory, tab: Index, holes: Holes) {
    && m.Keys == c.Keys && (forall a | a in m :: |m[a]| == |c[a]|)
    && (holes == map[] ==> m == c)
    && (forall b | b in holes :: Spot(2, b / FAN) in tab)
    && forall s, i: nat | At(c, tab, s, i) :: VeiledEntry(m, c, tab, holes, s, i)
  }

  predicate VeiledEntry(m: Memory, c: Memory, tab: Index, holes: Holes, s: Spot, i: nat)
    requires At(c, tab, s, i) && m.Keys == c.Keys && |m[tab[s]]| == |c[tab[s]]|
  {
    var d := m[tab[s]][i];
    if Hole(s, i, holes) then !c[tab[s]][i].valid && d.valid && d.table && d.page == holes[Child(s, i).prefix]
    else d == c[tab[s]][i]
  }

  predicate Ahead(holes: Holes, v: nat) {
    forall b | b in holes :: b < v / FAN
  }

  lemma AheadMore(holes: Holes, v: nat, u: nat)
    requires Ahead(holes, v) && v <= u
    ensures Ahead(holes, u) && u / FAN !in holes
  {
  }

  /** Every hole leads below the heap, where no table lies. */
  predicate Low(holes: Holes, heap: nat) {
    forall b | b in holes :: holes[b] < heap
  }

  predicate InHeap(m: Memory, heap: nat) {
    forall a | a in m :: a >= heap
  }

  lemma HeapGrows(m: Memory, heap: nat, c: nat, t: seq<Desc>, a: nat, i: nat, d: Desc)
    requires InHeap(m, heap) && c >= heap && c !in m && a in m && i < |m[a]|
    ensures InHeap(Stored(m[c := t], a, i, d), heap)
  {
  }

  /** The walk of a page through a hole faults, every other walk does not notice the holes. */
  lemma {:induction false} Unveiled(ro: Option<Window>, m: Memory, c: Memory, tab: Index, root: nat, holes: Holes,
                                    heap: nat, level: nat, v: nat)
    requires Tree(ro, c, tab, root) && Veils(m, c, tab, holes) && InHeap(m, heap) && Low(holes, heap)
    requires v < VA_PAGES && level <= 3 && SpotOf(level, v) in tab
    ensures var o, o' := Walk(c, tab[SpotOf(level, v)], level, v), Walk(m, tab[SpotOf(level, v)], level, v);
            o == o' || (o.Fault? && o'.Fault?)
    decreases 3 - level
  {
    hide Linked, Placed;
    var s, i := SpotOf(level, v), Idx(level, v);
    Reached(ro, c, tab, root, level, v);
    assert VeiledEntry(m, c, tab, holes, s, i);
    if IsLink(level, Entry(c, tab, s, i)) {
      Unveiled(ro, m, c, tab, root, holes, heap, level + 1, v);
    }
  }

  lemma UnveiledAll(ro: Option<Window>, m: Memory, c: Memory, tab: Index, root: nat, holes: Holes, heap: nat)
    requires Tree(ro, c, tab, root) && Veils(m, c, tab, holes) && InHeap(m, heap) && Low(holes, heap)
    ensures SameTranslation(c, m, root)
  {
    forall v: nat | v < VA_PAGES ensures Translate(m, root, v) == Translate(c, root, v) {
      RootSpot(ro, c, tab, root, v);
      hide Tree, Veils, Walk;
      Unveiled(ro, m, c, tab, root, holes, heap, 0, v);
    }
  }

  ghost predicate Distinct(tab: Index) {
    forall s, t | s in tab && t in tab && tab[s] == tab[t] :: s == t
  }

  lemma VeilStore(m: Memory, c: Memory, tab: Index, holes: Holes, s: Spot, i: nat, d: Desc)
    requires Distinct(tab) && Veils(m, c, tab, holes) && At(c, tab, s, i) && !Hole(s, i, holes)
    ensures tab[s] in m && i < |m[tab[s]]|
    ensures Veils(Stored(m, tab[s], i, d), Stored(c, tab[s], i, d), tab, holes)
  {
    hide Child;
    var m', c' := Stored(m, tab[s], i, d), Stored(c, tab[s], i, d);
    forall t, k: nat | At(c', tab, t, k) ensures VeiledEntry(m', c', tab, holes, t, k) {
      assert At(c, tab, t, k) && VeiledEntry(m, c, tab, holes, t, k);
    }
  }

  lemma VeilHole(m: Memory, c: Memory, tab: Index, holes: Holes, s: Spot, i: nat, x: Desc, d: Desc)
    requires Distinct(tab) && Veils(m, c, tab, holes) && At(c, tab, s, i) && s.level == 2
    requires x.valid && x.table && !d.valid
    ensures tab[s] in m && i < |m[tab[s]]|
    ensures Veils(Stored(m, tab[s], i, x), Stored(c, tab[s], i, d), tab, holes[Child(s, i).prefix := x.page])
  {
    var m', c', more := Stored(m, tab[s], i, x), Stored(c, tab[s], i, d), holes[Child(s, i).prefix := x.page];
    ChildPlace(s, i);
    assert Spot(2, Child(s, i).prefix / FAN) == s && Child(s, i).prefix in more;
    forall t, k: nat | At(c', tab, t, k) ensures VeiledEntry(m', c', tab, more, t, k) {
      assert At(c, tab, t, k) && VeiledEntry(m, c, tab, holes, t, k);
      ChildPlace(t, k);
      hide Child;
    }
  }

  lemma VeilTable(ro: Option<Window>, m: Memory, c: Memory, tab: Index, root: nat, holes: Holes, n: nat, t: seq<Desc>)
    requires Tree(ro, c, tab, root) && Veils(m, c, tab, holes) && n !in m
    ensures Veils(m[n := t], c[n := t], tab, holes)
  {
    hide Child, Linked;
    var m', c' := m[n := t], c[n := t];
    forall s, i: nat | At(c', tab, s, i) ensures VeiledEntry(m', c', tab, holes, s, i) {
      assert At(c, tab, s, i) && VeiledEntry(m, c, tab, holes, s, i);
    }
  }

  lemma NoHoleThere(m: Memory, c: Memory, tab: Index, holes: Holes, n: Spot, i: nat)
    requires Veils(m, c, tab, holes) && n !in tab && i < FAN
    ensures !Hole(n, i, holes)
  {
    ChildPlace(n, i);
  }

  lemma VeilPlace(m: Memory, c: Memory, tab: Index, holes: Holes, n: Spot, a: nat)
    requires Veils(m, c, tab, holes) && a in m && m[a] == c[a] && n !in tab
    ensures Veils(m, c, tab[n := a], holes)
  {
    var tab' := tab[n := a];
    forall s, i: nat | At(c, tab', s, i) ensures VeiledEntry(m, c, tab', holes, s, i) {
      hide Child;
      if s == n {
        NoHoleThere(m, c, tab, holes, n, i);
      } else {
        assert At(c, tab, s, i) && VeiledEntry(m, c, tab, holes, s, i);
      }
    }
  }

  lemma VeilDrop(m: Memory, c: Memory, tab: Index, holes: Holes, n: Spot, a: nat)
    requires Veils(m, c, tab, holes) && n.level == 3
    ensures Veils(m - {a}, c - {a}, tab - {n}, holes)
  {
    hide Child;
    var m', c', tab' := m - {a}, c - {a}, tab - {n};
    forall s, i: nat | At(c', tab', s, i) ensures VeiledEntry(m', c', tab', holes, s, i) {
      assert At(c, tab, s, i) && VeiledEntry(m, c, tab, holes, s, i);
    }
  }

  /** On the way of a page that is ahead of the holes the tables are as they seem. */
  lemma SeenThrough(ro: Option<Window>, m: Memory, c: Memory, tab: Index, root: nat, holes: Holes, level: nat, v: nat)
    requires Tree(ro, c, tab, root) && Veils(m, c, tab, holes) && Ahead(holes, v)
    requires level <= 3 && v < VA_PAGES && SpotOf(level, v) in tab
    ensures var s, i := SpotOf(level, v), Idx(level, v);
            && At(c, tab, s, i) && !Hole(s, i, holes) && tab[s] in m && |m[tab[s]]| == |c[tab[s]]|
            && m[tab[s]][i] == c[tab[s]][i]
  {
    hide Linked, Placed;
    Reached(ro, c, tab, root, level, v);
    var s, i := SpotOf(level, v), Idx(level, v);
    if level == 2 {
      PreStep(2, v);
    }
    assert VeiledEntry(m, c, tab, holes, s, i);
  }

  lemma DistinctPlaces(ro: Option<Window>, c: Memory, tab: Index, root: nat)
    requires Tree(ro, c, tab, root)
    ensures Distinct(tab)
  {
    hide Linked;
  }

  lemma VeilLink(ro: Option<Window>, m: Memory, c: Memory, tab: Index, root: nat, holes: Holes, level: nat, v: nat,
                 n: nat, t: seq<Desc>)
    requires Tree(ro, c, tab, root) && Veils(m, c, tab, holes) && Ahead(holes, v)
    requires level < 3 && v < VA_PAGES && SpotOf(level, v) in tab && n !in m
    requires At(c, tab, SpotOf(level, v), Idx(level, v))
    requires !IsLink(level, Entry(c, tab, SpotOf(level, v), Idx(level, v)))
    ensures var a, i := tab[SpotOf(level, v)], Idx(level, v);
            && a in m && i < |m[a]|
            && Veils(Stored(m[n := t], a, i, LinkTo(n)), Stored(c[n := t], a, i, LinkTo(n)),
                     tab[SpotOf(level + 1, v) := n], holes)
  {
    hide Veils, Linked, Placed, VeiledEntry;
    var s, i := SpotOf(level, v), Idx(level, v);
    SeenThrough(ro, m, c, tab, root, holes, level, v);
    EntryIsOk(ro, c, tab, root, s, i);
    PreStep(level, v);
    DistinctPlaces(ro, c, tab, root);
    VeilTable(ro, m, c, tab, root, holes, n, t);
    VeilKeys(m, c, tab, holes);
    VeilStore(m[n := t], c[n := t], tab, holes, s, i, LinkTo(n));
    VeilPlace(Stored(m[n := t], tab[s], i, LinkTo(n)), Stored(c[n := t], tab[s], i, LinkTo(n)), tab, holes,
              SpotOf(level + 1, v), n);
  }

  lemma VeilKeys(m: Memory, c: Memory, tab: Index, holes: Holes)
    requires Veils(m, c, tab, holes)
    ensures m.Keys == c.Keys && (holes == map[] ==> m == c)
  {
  }

  /** What is read on the way of a page that is ahead of the holes. */
  lemma Read(ro: Option<Window>, m: Memory, c: Memory, tab: Index, root: nat, holes: Holes, level: nat, v: nat)
    requires Tree(ro, c, tab, root) && Veils(m, c, tab, holes) && Ahead(holes, v)
    requires level < 3 && v < VA_PAGES && SpotOf(level, v) in tab
    ensures var a, i := tab[SpotOf(level, v)], Idx(level, v);
            && a in m && i < |m[a]| && m.Keys == c.Keys && |c[a]| == |m[a]| && (holes == map[] ==> m == c)
            && (m[a][i].valid && !m[a][i].table ==> level > 0 && Word(m[a][i]) && m[a][i].page % Span(level) == 0)
            && (m[a][i].valid && m[a][i].table ==>
                  SpotOf(level + 1, v) in tab && tab[SpotOf(level + 1, v)] == m[a][i].page)
            && (SpotOf(level + 1, v) in tab ==> m[a][i].valid && m[a][i].table)
  {
    hide Tree, Veils, Ahead, Word, Span, EntryOk, Hole;
    SeenThrough(ro, m, c, tab, root, holes, level, v);
    if SpotOf(level + 1, v) in tab {
      LinkAbove(ro, c, tab, root, level + 1, v);
    }
    Reached(ro, c, tab, root, level, v);
    VeilKeys(m, c, tab, holes);
  }

  /** The entry for a page that is there already holds what would be stored. */
  lemma FindsItself(ro: Option<Window>, m: Memory, c: Memory, tab: Index, root: nat, holes: Holes, v: nat, d: Desc)
    requires Tree(ro, c, tab, root) && Veils(m, c, tab, holes) && Ahead(holes, v)
    requires v < VA_PAGES && Already(c, root, v, 1, d) && d.table && Word(d)
    ensures SpotOf(3, v) in tab
    ensures var a, i := tab[SpotOf(3, v)], Idx(3, v);
            && a in m && i < |m[a]| && m[a][i] == d && Stored(m, a, i, d) == m
            && a in c && i < |c[a]| && c[a][i] == d && Stored(c, a, i, d) == c
  {
    hide Linked, Veils, Ahead, Walk;
    assert AlreadyAt(c, root, v, d, v);
    AddZero(d);
    RootPlaced(ro, c, tab, root, v);
    LeafEntry(ro, c, tab, root, 0, v, Leaf(d.page, d.low, d.high));
    SeenThrough(ro, m, c, tab, root, holes, 3, v);
    SameStored(m, tab[SpotOf(3, v)], Idx(3, v));
    SameStored(c, tab[SpotOf(3, v)], Idx(3, v));
  }

  lemma AlreadySplit(m: Memory, root: nat, v: nat, k: nat, n: nat, to: Desc)
    requires Already(m, root, v, n, to) && k <= n
    ensures Already(m, root, v, k, to) && Already(m, root, v + k, n - k, Add(to, k))
  {
    hide Walk;
    var w, d := v + k, Add(to, k);
    AddTable(to, k);
    forall u: nat | w <= u < w + (n - k) ensures AlreadyAt(m, root, w, d, u) {
      assert AlreadyAt(m, root, v, to, u);
      AddAdd(to, k, u - w);
    }
  }

  /** Pages that got their target by page entries have it. */
  lemma NowAlready(m: Memory, m': Memory, root: nat, ro: Option<Window>, v: nat, n: nat, to: Desc, ramBase: nat,
                   imageBase: nat)
    requires Remaps(m, m', root, v, n, to) && LaidOut(m', root, ro, true, v, n, to, ramBase, imageBase)
    requires to.valid && v + n <= VA_PAGES
    ensures Already(m', root, v, n, to)
  {
    hide Walk, OwnBlock, Clear;
    forall u: nat | v <= u < v + n ensures AlreadyAt(m', root, v, to, u) {
      assert LaidAt(m', root, ro, true, v, n, to, ramBase, imageBase, u);
      assert Translate(m', root, u) == LeafOf(Add(to, u - v));
    }
  }

  lemma AlreadyOne(m: Memory, root: nat, v: nat, k: nat, n: nat, to: Desc)
    requires Already(m, root, v, n, to) && k < n && Word(to)
    ensures Already(m, root, v + k, 1, Add(to, k).(table := true))
  {
    hide Walk;
    var w, d := v + k, Add(to, k).(table := true);
    assert AlreadyAt(m, root, w, d, w) by {
      assert AlreadyAt(m, root, v, to, w);
      AsPage(to, k);
      AddZero(d);
    }
  }

  lemma RootPlaced(ro: Option<Window>, m: Memory, tab: Index, root: nat, v: nat)
    requires Tree(ro, m, tab, root) && v < VA_PAGES
    ensures SpotOf(0, v) in tab && tab[SpotOf(0, v)] == root
  {
    hide Linked;
  }

  lemma SameStored(m: Memory, a: nat, i: nat)
    requires a in m && i < |m[a]|
    ensures Stored(m, a, i, m[a][i]) == m
  {
    assert m[a][i := m[a][i]] == m[a];
  }

  /** What a new table below an entry keeps. */
  lemma Hung(ro: Option<Window>, m: Memory, c: Memory, tab: Index, root: nat, holes: Holes, level: nat, v: nat,
             n: nat, t: seq<Desc>)
    requires Tree(ro, c, tab, root) && Veils(m, c, tab, holes) && Ahead(holes, v)
    requires level < 3 && v < VA_PAGES && SpotOf(level, v) in tab && n !in m
    requires var a, i := tab[SpotOf(level, v)], Idx(level, v);
             a in m && i < |m[a]| && !(m[a][i].valid && m[a][i].table) && Parts(level, m[a][i], t)
    ensures var a, i, tab' := tab[SpotOf(level, v)], Idx(level, v), tab[SpotOf(level + 1, v) := n];
            && a in c && i < |c[a]|
            && Veils(Stored(m[n := t], a, i, LinkTo(n)), Stored(c[n := t], a, i, LinkTo(n)), tab', holes)
            && Tree(ro, Stored(c[n := t], a, i, LinkTo(n)), tab', root)
            && SameTranslation(c, Stored(c[n := t], a, i, LinkTo(n)), root)
            && Steady(c, Stored(c[n := t], a, i, LinkTo(n)), root, v)
  {
    hide Tree, Veils, Ahead, SameTranslation, Parts, Hole;
    SeenThrough(ro, m, c, tab, root, holes, level, v);
    VeilKeys(m, c, tab, holes);
    LinkKeepsTranslation(ro, c, tab, root, level, v, n, t);
    VeilLink(ro, m, c, tab, root, holes, level, v, n, t);
  }

  lemma VeilPage(ro: Option<Window>, m: Memory, c: Memory, tab: Index, root: nat, holes: Holes, v: nat, d: Desc)
    requires Tree(ro, c, tab, root) && Veils(m, c, tab, holes) && v < VA_PAGES && Ahead(holes, v)
    requires SpotOf(3, v) in tab
    ensures var a, i := tab[SpotOf(3, v)], Idx(3, v);
            && a in m && i < |m[a]| && a in c && i < |c[a]|
            && Veils(Stored(m, a, i, d), Stored(c, a, i, d), tab, holes)
  {
    hide Veils, Tree, VeiledEntry;
    SeenThrough(ro, m, c, tab, root, holes, 3, v);
    DistinctPlaces(ro, c, tab, root);
    VeilStore(m, c, tab, holes, SpotOf(3, v), Idx(3, v), d);
  }

  function Holed(holes: Holes, w: nat, d: Desc): (r: Holes) {
    if d.valid && d.table then holes[w / FAN := d.page] else holes
  }

  lemma AheadNext(holes: Holes, w: nat, d: Desc)
    requires Ahead(holes, w)
    ensures Ahead(Holed(holes, w, d), w + FAN)
  {
    assert (w + FAN) / FAN == w / FAN + 1;
  }

  lemma NoHoles(v: nat, heap: nat)
    ensures Ahead(map[], v) && Low(map[], heap)
  {
  }

  lemma LowMore(holes: Holes, w: nat, d: Desc, heap: nat)
    requires Low(holes, heap) && d.page < heap
    ensures Low(Holed(holes, w, d), heap)
  {
  }

  lemma VeilBlock(ro: Option<Window>, m: Memory, c: Memory, tab: Index, root: nat, holes: Holes, w: nat, d: Desc)
    requires Tree(ro, c, tab, root) && Veils(m, c, tab, holes) && w < VA_PAGES && Ahead(holes, w)
    requires SpotOf(2, w) in tab
    ensures var a, i := tab[SpotOf(2, w)], Idx(2, w);
            && a in m && i < |m[a]| && a in c && i < |c[a]|
            && Veils(Stored(m, a, i, d), Stored(c, a, i, Solid(d)), tab, Holed(holes, w, d))
  {
    hide Veils, Tree, VeiledEntry;
    SeenThrough(ro, m, c, tab, root, holes, 2, w);
    DistinctPlaces(ro, c, tab, root);
    VeilWritten(m, c, tab, holes, w, d);
  }

  lemma VeilWritten(m: Memory, c: Memory, tab: Index, holes: Holes, w: nat, d: Desc)
    requires Distinct(tab) && Veils(m, c, tab, holes) && w < VA_PAGES
    requires At(c, tab, SpotOf(2, w), Idx(2, w)) && !Hole(SpotOf(2, w), Idx(2, w), holes)
    ensures var a, i := tab[SpotOf(2, w)], Idx(2, w);
            && a in m && i < |m[a]|
            && Veils(Stored(m, a, i, d), Stored(c, a, i, Solid(d)), tab, Holed(holes, w, d))
  {
    PreStep(2, w);
    hide Veils, Distinct, Child, At;
    if d.valid && d.table {
      VeilHole(m, c, tab, holes, SpotOf(2, w), Idx(2, w), d, Solid(d));
    } else {
      VeilStore(m, c, tab, holes, SpotOf(2, w), Idx(2, w), d);
    }
  }

  lemma VeilCut(ro: Option<Window>, m: Memory, c: Memory, tab: Index, root: nat, holes: Holes, w: nat, d: Desc)
    requires Tree(ro, c, tab, root) && Veils(m, c, tab, holes) && w < VA_PAGES && Ahead(holes, w)
    requires At(c, tab, SpotOf(2, w), Idx(2, w)) && IsLink(2, Entry(c, tab, SpotOf(2, w), Idx(2, w)))
    requires SpotOf(3, w) in tab && tab[SpotOf(3, w)] != tab[SpotOf(2, w)]
    ensures var a, i, p := tab[SpotOf(2, w)], Idx(2, w), tab[SpotOf(3, w)];
            && a in m && i < |m[a]|
            && Veils(Stored(m - {p}, a, i, d), Cut(c, a, i, Solid(d), p), tab - {SpotOf(3, w)}, Holed(holes, w, d))
  {
    hide Veils, Linked, VeiledEntry;
    SeenThrough(ro, m, c, tab, root, holes, 2, w);
    DistinctPlaces(ro, c, tab, root);
    var n := SpotOf(3, w);
    VeilDrop(m, c, tab, holes, n, tab[n]);
    VeilWritten(m - {tab[n]}, c - {tab[n]}, tab - {n}, holes, w, d);
  }

  lemma AfterSame(m0: Memory, m1: Memory, m2: Memory, root: nat, v: nat, n: nat, d: Desc)
    requires SameTranslation(m0, m1, root) && Remaps(m1, m2, root, v, n, d)
    ensures Remaps(m0, m2, root, v, n, d)
  {
    hide Translate, Add;
  }

  // ---------------------------------------------------------------------- the tables as an object

  /** No block descriptor is ever made valid while the MMU translates. */
  predicate WritesNoBlock(e: Event) {
    e.Store? && e.d.valid ==> e.d.table
  }

  /** The log of a live period: from `start` to `m` by break before make, nothing left broken. */
  ghost predicate LiveLog(start: Memory, root: nat, log: seq<Event>, m: Memory) {
    && Disciplined(start, root, log) && Replay(start, log) == m && Broken(start, log) == {}
    && forall e | e in log :: WritesNoBlock(e)
  }

  lemma StoredAgain(m: Memory, a: nat, i: nat, x: Desc, d: Desc)
    requires a in m && i < |m[a]|
    ensures Stored(m, a, i, m[a][i]) == m
    ensures Stored(Stored(m, a, i, x), a, i, d) == Stored(m, a, i, d)
  {
    assert m[a][i := m[a][i]] == m[a];
    assert m[a][i := x][i := d] == m[a][i := d];
  }

  /** What a live store to an entry looks like: break, invalidate, make, invalidate. */
  function Rewrite(before: Desc, a: nat, i: nat, d: Desc): (es: seq<Event>) {
    if before == d then []
    else if before.valid then [Store(a, i, ZERO), Tlbi, Store(a, i, d), Tlbi]
    else [Store(a, i, d), Tlbi]
  }

  lemma LiveStore(start: Memory, root: nat, log: seq<Event>, m: Memory, a: nat, i: nat, d: Desc)
    requires LiveLog(start, root, log, m) && a in m && i < |m[a]| && (d.valid ==> d.table)
    ensures LiveLog(start, root, log + Rewrite(m[a][i], a, i, d), Stored(m, a, i, d))
  {
    hide Disciplined, Replay, Broken, Walk;
    StoredAgain(m, a, i, ZERO, d);
    if m[a][i] == d {
      assert log + [] == log;
    } else {
      var one := if m[a][i].valid then log + [Store(a, i, ZERO)] + [Tlbi] else log;
      if m[a][i].valid {
        Appended(start, root, log, Store(a, i, ZERO));
        Appended(start, root, log + [Store(a, i, ZERO)], Tlbi);
      }
      Appended(start, root, one, Store(a, i, d));
      Appended(start, root, one + [Store(a, i, d)], Tlbi);
      assert log + Rewrite(m[a][i], a, i, d) == one + [Store(a, i, d)] + [Tlbi];
    }
  }

  lemma LiveAlloc(ro: Option<Window>, start: Memory, root: nat, log: seq<Event>, m: Memory, tab: Index, c: nat,
                  t: seq<Desc>)
    requires LiveLog(start, root, log, m) && Tree(ro, m, tab, root) && c !in m
    ensures LiveLog(start, root, log + [Alloc(c, t)], m[c := t])
  {
    hide Disciplined, Replay, Broken;
    forall v | 0 <= v < VA_PAGES ensures FaultsOutside(m, root, v, c) {
      hide Linked, Walk;
      StaysInside(ro, m, tab, root, 0, v);
    }
    Appended(start, root, log, Alloc(c, t));
  }

  /** What `mmu_map` is asked for with the block phase cut out of it: there the pages get nothing under a link. */
  function Given(ro: Option<Window>, to: Desc, j: nat): (l: Option<Leaf>) {
    if LinkAt(ro, to, j / FAN) then None else LeafOf(Add(to, j))
  }

  ghost predicate BlocksGiven(m: Memory, m': Memory, root: nat, ro: Option<Window>, v: nat, n: nat, to: Desc) {
    forall u: nat | u < VA_PAGES ::
      Translate(m', root, u) == if v <= u < v + n then Given(ro, to, u - v) else Translate(m, root, u)
  }

  /** `k` pages, `b` blocks and pages up to `n` from `v` on were asked to translate as `to` says. */
  ghost predicate PhasesGiven(m: Memory, m': Memory, root: nat, ro: Option<Window>, v: nat, k: nat, b: nat, n: nat,
                              to: Desc) {
    forall u: nat | u < VA_PAGES ::
      Translate(m', root, u) ==
      if v + k <= u < v + k + b * FAN then Given(ro, Add(to, k), u - (v + k))
      else if v <= u < v + n then LeafOf(Add(to, u - v))
      else Translate(m, root, u)
  }

  /** A block as it is stored, with nothing in place of a link. */
  function Solid(d: Desc): (r: Desc) {
    if d.valid && d.table then d.(valid := false) else d
  }

  lemma SolidAdd(d: Desc, n: nat)
    ensures Solid(Add(d, n)) == Add(Solid(d), n) && (Word(d) ==> Word(Solid(d)))
    ensures Solid(d).page == d.page && (Solid(d).valid ==> d.valid && !d.table)
  {
  }

  lemma BlocksNone(m: Memory, root: nat, ro: Option<Window>, v: nat, to: Desc)
    ensures BlocksGiven(m, m, root, ro, v, 0, to)
  {
  }

  /** Without a window all blocks are written as blocks. */
  lemma AllBlocks(m: Memory, m': Memory, root: nat, ro: Option<Window>, v: nat, n: nat, to: Desc)
    requires Remaps(m, m', root, v, n, Solid(to)) && (ro.None? || !to.valid)
    ensures BlocksGiven(m, m', root, ro, v, n, to)
  {
    hide Translate, Add;
    forall u: nat | u < VA_PAGES
      ensures Translate(m', root, u) == if v <= u < v + n then Given(ro, to, u - v) else Translate(m, root, u)
    {
      if v <= u < v + n {
        SolidAdd(to, u - v);
        AddTable(to, u - v);
      }
    }
  }

  /** One block more, as pages or as a block. */
  lemma BlockMore(m0: Memory, m1: Memory, m2: Memory, root: nat, ro: Option<Window>, v: nat, k: nat, to: Desc)
    requires Word(to) && BlocksGiven(m0, m1, root, ro, v, k * FAN, to)
    requires var here := Add(to, k * FAN);
             Remaps(m1, m2, root, v + k * FAN, FAN, if Clear(ro, here.page) then Solid(here) else here)
    ensures BlocksGiven(m0, m2, root, ro, v, (k + 1) * FAN, to)
  {
    hide Translate, Add, Clear;
    var here := Add(to, k * FAN);
    forall u: nat | u < VA_PAGES
      ensures Translate(m2, root, u) ==
              if v <= u < v + (k + 1) * FAN then Given(ro, to, u - v) else Translate(m0, root, u)
    {
      if v + k * FAN <= u < v + (k + 1) * FAN {
        var j := u - (v + k * FAN);
        AddAdd(to, k * FAN, j);
        AddTable(to, k * FAN);
        AddTable(to, u - v);
        SolidAdd(here, j);
        DivUnique(u - v, FAN, k, j);
      } else {
        assert Translate(m2, root, u) == Translate(m1, root, u);
      }
    }
  }

  lemma NoLinks(m: Memory, m': Memory, root: nat, ro: Option<Window>, v: nat, n: nat, to: Desc)
    requires BlocksGiven(m, m', root, ro, v, n * FAN, to) && !Links(ro, to, n)
    ensures Remaps(m, m', root, v, n * FAN, to)
  {
    hide Translate, Add, LinkAt;
    forall u: nat | u < VA_PAGES
      ensures Translate(m', root, u) == if v <= u < v + n * FAN then LeafOf(Add(to, u - v)) else Translate(m, root, u)
    {
      if v <= u < v + n * FAN {
        assert 0 <= (u - v) / FAN < n;
      }
    }
  }

  lemma PhasesCompose(m0: Memory, m1: Memory, m2: Memory, m3: Memory, root: nat, ro: Option<Window>,
                      v: nat, k: nat, b: nat, n: nat, to: Desc)
    requires k + b * FAN <= n && Remaps(m0, m1, root, v, k, to)
    requires BlocksGiven(m1, m2, root, ro, v + k, b * FAN, Add(to, k))
    requires Remaps(m2, m3, root, v + k + b * FAN, n - k - b * FAN, Add(to, k + b * FAN))
    ensures PhasesGiven(m0, m3, root, ro, v, k, b, n, to)
  {
    hide Translate, Add, Given, LeafOf;
    forall u: nat | u < VA_PAGES
      ensures Translate(m3, root, u) ==
              if v + k <= u < v + k + b * FAN then Given(ro, Add(to, k), u - (v + k))
              else if v <= u < v + n then LeafOf(Add(to, u - v))
              else Translate(m0, root, u)
    {
      assert Translate(m1, root, u) == if v <= u < v + k then LeafOf(Add(to, u - v)) else Translate(m0, root, u);
      if v + k + b * FAN <= u < v + n {
        AddAdd(to, k + b * FAN, u - (v + k + b * FAN));
      } else {
        assert Translate(m3, root, u) == Translate(m2, root, u);
      }
    }
  }

  /** A call does what it is asked for exactly when it writes no link. */
  lemma PhasesRemap(m: Memory, m': Memory, root: nat, ro: Option<Window>, v: nat, k: nat, b: nat, n: nat, to: Desc)
    requires PhasesGiven(m, m', root, ro, v, k, b, n, to) && k + b * FAN <= n && v + n <= VA_PAGES
    ensures Remaps(m, m', root, v, n, to) <==> !Links(ro, Add(to, k), b)
  {
    hide Translate, Add, LinkAt;
    if Links(ro, Add(to, k), b) {
      var j: nat :| j < b && LinkAt(ro, Add(to, k), j);
      var u := v + k + j * FAN;
      LinkIsValid(ro, to, k, j, u - v);
      assert j * FAN / FAN == j;
      assert Translate(m', root, u) == Given(ro, Add(to, k), u - (v + k)) == None;
      assert LeafOf(Add(to, u - v)).Some?;
    } else {
      forall u: nat | u < VA_PAGES
        ensures Translate(m', root, u) == if v <= u < v + n then LeafOf(Add(to, u - v)) else Translate(m, root, u)
      {
        if v + k <= u < v + k + b * FAN {
          assert 0 <= (u - (v + k)) / FAN < b;
          AddAdd(to, k, u - (v + k));
        }
      }
    }
  }

  lemma LinkIsValid(ro: Option<Window>, to: Desc, k: nat, j: nat, i: nat)
    requires LinkAt(ro, Add(to, k), j)
    ensures Add(to, i).valid
  {
  }

  lemma LinksMore(ro: Option<Window>, to: Desc, k: nat)
    ensures Links(ro, to, k + 1) <==> Links(ro, to, k) || LinkAt(ro, to, k)
  {
    hide LinkAt;
  }

  lemma EachLinks(ro: Option<Window>, to: Desc, n: nat)
    requires !(to.valid && ro.Some?)
    ensures Links(ro, to, n) <==> to.valid && to.table && n > 0
  {
    hide Add;
    if to.valid && to.table && n > 0 {
      assert LinkAt(ro, to, 0);
    }
  }

  lemma NoLinksNone(ro: Option<Window>, to: Desc)
    ensures !Links(ro, to, 0)
  {
  }

  /** No page that a call maps lies in the heap, where the tables are. */
  predicate Apart(to: Desc, n: nat, heap: nat) {
    forall j: nat | j < n :: Add(to, j).page < heap
  }

  lemma ApartBlocks(to: Desc, k: nat, b: nat, n: nat, heap: nat)
    requires k + b * FAN <= n && Apart(to, n, heap)
    ensures forall j: nat | j < b :: Add(Add(to, k), j * FAN).page < heap
  {
    hide Add;
    forall j: nat | j < b ensures Add(Add(to, k), j * FAN).page < heap {
      AddAdd(to, k, j * FAN);
      assert k + j * FAN < n;
    }
  }

  /** The end of a call: without holes the tables are what they seem, and with holes that lead out of the heap they
      translate as they seem. */
  lemma Settled(ro: Option<Window>, m0: Memory, m: Memory, c: Memory, tab: Index, root: nat, holes: Holes, heap: nat,
                v: nat, k: nat, b: nat, n: nat, to: Desc)
    requires Tree(ro, c, tab, root) && Veils(m, c, tab, holes) && InHeap(m, heap)
    requires PhasesGiven(m0, c, root, ro, v, k, b, n, to) && k + b * FAN <= n && v + n <= VA_PAGES
    ensures holes == map[] && !Links(ro, Add(to, k), b) ==> Remaps(m0, m, root, v, n, to)
    ensures Low(holes, heap) ==>
              && PhasesGiven(m0, m, root, ro, v, k, b, n, to)
              && (Remaps(m0, m, root, v, n, to) <==> !Links(ro, Add(to, k), b))
  {
    hide Tree, Veils, Links, Remaps, Add;
    PhasesRemap(m0, c, root, ro, v, k, b, n, to);
    VeilKeys(m, c, tab, holes);
    if Low(holes, heap) {
      UnveiledAll(ro, m, c, tab, root, holes, heap);
      SamePhases(m0, c, m, root, ro, v, k, b, n, to);
      PhasesRemap(m0, m, root, ro, v, k, b, n, to);
    }
  }

  lemma SamePhases(m: Memory, c: Memory, m': Memory, root: nat, ro: Option<Window>, v: nat, k: nat, b: nat, n: nat,
                   to: Desc)
    requires SameTranslation(c, m', root) && PhasesGiven(m, c, root, ro, v, k, b, n, to)
    ensures PhasesGiven(m, m', root, ro, v, k, b, n, to)
  {
    hide Translate, Add, Given;
  }

  class Mmu {
    const root: nat
    const heap: nat      // the first page that `memalign` may hand out
    const ramBase: nat
    const imageBase: nat
    const ro: Option<Window>
    var mem: Memory
    var active: bool
    var start: Memory     // the tables when the MMU was switched on
    var log: seq<Event>   // what the hardware could observe since
    ghost var tab: Index
    ghost var clean: Memory  // the tables with nothing in place of links that should be blocks
    ghost var holes: Holes

    ghost predicate Live()
      reads this
    {
      if active then LiveLog(start, root, log, mem) else log == []
    }

    /** What every step keeps. */
    ghost predicate Shape()
      reads this
    {
      && Tree(ro, clean, tab, root) && Veils(mem, clean, tab, holes) && InHeap(mem, heap)
      && Live() && (active ==> holes == map[]) && imageBase % PAGE == 0
    }

    ghost predicate Valid()
      reads this
    {
      Shape() && holes == map[]
    }

    /** `mmu_init_pagetables`: an empty root. */
    constructor (root: nat, heap: nat, ramBase: nat, imageBase: nat, ro: Option<Window>)
      requires imageBase % PAGE == 0 && root >= heap
      ensures Valid() && !active && this.root == root && this.heap == heap && this.ro == ro
      ensures this.ramBase == ramBase && this.imageBase == imageBase
      ensures forall u: nat | u < VA_PAGES :: Translate(mem, root, u) == None
    {
      this.root, this.heap, this.ramBase, this.imageBase, this.ro := root, heap, ramBase, imageBase, ro;
      mem := map[root := [ZERO, ZERO]];
      active, start, log := false, map[], [];
      tab := map[Spot(0, 0) := root];
      clean, holes := map[root := [ZERO, ZERO]], map[];
    }

    /** `mmu_configure` and the switch in `mmu_init`: the TLB starts out clean. */
    method Enable()
      requires Valid()
      modifies this`active, this`start, this`log
      ensures Valid() && active
      ensures if old(active) then start == old(start) && log == old(log) else start == mem && log == []
    {
      if !active {
        active, start, log := true, mem, [];
      }
    }

    /** `mmu_write_descriptor`. */
    method WriteDescriptor(a: nat, i: nat, d: Desc)
      requires a in mem && i < |mem[a]| && Live() && (active ==> (d.valid ==> d.table))
      modifies this`mem, this`log
      ensures mem == Stored(old(mem), a, i, d) && Live()
      ensures log == old(log) + (if active then Rewrite(old(mem)[a][i], a, i, d) else [])
      ensures old(mem)[a][i] == d ==> log == old(log)
    {
      hide LiveLog;
      var before := mem[a][i];
      StoredAgain(mem, a, i, ZERO, d);
      if before != d {
        if active {
          LiveStore(start, root, log, mem, a, i, d);
          if before.valid {
            StoreEntry(a, i, ZERO);
            Publish();
          }
          StoreEntry(a, i, d);
          Publish();
          assert log == old(log) + Rewrite(before, a, i, d);
        } else {
          mem := mem[a := mem[a][i := d]];
        }
      }
    }

    method StoreEntry(a: nat, i: nat, d: Desc)
      requires a in mem && i < |mem[a]|
      modifies this`mem, this`log
      ensures mem == Stored(old(mem), a, i, d) && log == old(log) + [Store(a, i, d)]
    {
      mem := mem[a := mem[a][i := d]];
      log := log + [Store(a, i, d)];
    }

    method Publish()
      modifies this`log
      ensures log == old(log) + [Tlbi]
    {
      log := log + [Tlbi];
    }

    /** The common part of `mmu_pt_get_l1`, `mmu_pt_get_l2` and `mmu_pt_get_l3`: the table one level
        down, created if need be, with a block's parts when it replaces a block. */
    method Descend(a: nat, level: nat, v: nat) returns (c: nat)
      requires Shape() && level < 3 && v < VA_PAGES && Ahead(holes, v)
      requires SpotOf(level, v) in tab && tab[SpotOf(level, v)] == a
      modifies this`mem, this`log, this`tab, this`clean
      ensures Shape() && SpotOf(level + 1, v) in tab && tab[SpotOf(level + 1, v)] == c
      ensures SpotOf(level + 1, v) in old(tab) ==>
                mem == old(mem) && log == old(log) && tab == old(tab) && clean == old(clean)
      ensures SameTranslation(old(clean), clean, root) && Steady(old(clean), clean, root, v) && old(log) <= log
    {
      hide Tree, LiveLog, Walk, Translate, Veils, Parts, SameTranslation, Ahead, SpotOf, Idx, Rewrite, Word, Span;
      hide InHeap, Permitted, Steady;
      SteadyNone(clean, root, v);
      Read(ro, mem, clean, tab, root, holes, level, v);
      var i := Idx(level, v);
      var d := mem[a][i];
      if d.valid && d.table {
        c := d.page;
        SameAsBefore(clean, root);
      } else {
        var t := LayOut(level, d);
        ghost var any := FreshPage(mem.Keys, heap);
        c :| c !in mem && c >= heap;
        Hung(ro, mem, clean, tab, root, holes, level, v, c, t);
        HeapGrows(mem, heap, c, t, a, i, LinkTo(c));
        if active {
          LiveAlloc(ro, start, root, log, mem, tab, c, t);
          log := log + [Alloc(c, t)];
        }
        mem := mem[c := t];
        WriteDescriptor(a, i, LinkTo(c));
        clean := Stored(clean[c := t], a, i, LinkTo(c));
        tab := tab[SpotOf(level + 1, v) := c];
      }
    }

    method GetL1(v: nat) returns (c: nat)
      requires Shape() && v < VA_PAGES && Ahead(holes, v)
      modifies this`mem, this`log, this`tab, this`clean
      ensures Shape() && SpotOf(1, v) in tab && tab[SpotOf(1, v)] == c
      ensures SpotOf(1, v) in old(tab) ==> mem == old(mem) && log == old(log) && tab == old(tab) && clean == old(clean)
      ensures SameTranslation(old(clean), clean, root) && Steady(old(clean), clean, root, v) && old(log) <= log
    {
      hide Linked, LiveLog, Walk, Translate, Veils;
      c := Descend(root, 0, v);
    }

    method GetL2(v: nat) returns (c: nat)
      requires Shape() && v < VA_PAGES && Ahead(holes, v)
      modifies this`mem, this`log, this`tab, this`clean
      ensures Shape() && SpotOf(2, v) in tab && tab[SpotOf(2, v)] == c
      ensures SpotOf(2, v) in old(tab) ==> mem == old(mem) && log == old(log) && tab == old(tab) && clean == old(clean)
      ensures SameTranslation(old(clean), clean, root) && Steady(old(clean), clean, root, v) && old(log) <= log
    {
      hide Tree, LiveLog, Walk, Translate, Veils, Steady;
      TablesAbove(ro, clean, tab, root, 2, v);
      var l1 := GetL1(v);
      ghost var m1 := clean;
      c := Descend(l1, 1, v);
      SteadyThen(old(clean), m1, clean, root, v, v);
    }

    method GetL3(v: nat) returns (c: nat)
      requires Shape() && v < VA_PAGES && Ahead(holes, v)
      modifies this`mem, this`log, this`tab, this`clean
      ensures Shape() && SpotOf(3, v) in tab && tab[SpotOf(3, v)] == c
      ensures SpotOf(3, v) in old(tab) ==> mem == old(mem) && log == old(log) && tab == old(tab) && clean == old(clean)
      ensures SameTranslation(old(clean), clean, root) && Steady(old(clean), clean, root, v) && old(log) <= log
    {
      hide Tree, LiveLog, Walk, Translate, Veils, Steady;
      TablesAbove(ro, clean, tab, root, 3, v);
      var l2 := GetL2(v);
      ghost var m1 := clean;
      c := Descend(l2, 2, v);
      SteadyThen(old(clean), m1, clean, root, v, v);
    }

    /** `mmu_pt_map_l3`: `n` pages. */
    method MapL3(v: nat, to: Desc, n: nat)
      requires Shape() && v + n <= VA_PAGES && Word(to) && Ahead(holes, v)
      modifies this`mem, this`log, this`tab, this`clean
      ensures Shape() && Remaps(old(clean), clean, root, v, n, to) && old(log) <= log
      ensures Steady(old(clean), clean, root, v) && (to.valid ==> AtLevel(clean, root, v, v + n, 3))
      ensures Already(old(clean), root, v, n, to) ==> mem == old(mem) && log == old(log) && clean == old(clean)
    {
      hide Tree, LiveLog, Walk, Translate, Remaps, SameTranslation, Add, Word, Veils, Ahead, Steady, AtLevel, Already;
      SteadyNone(clean, root, v);
      NoneLaid(clean, root, v, 3);
      var k := 0;
      var cur := to.(table := true);
      Advanced(to, 0, 0);
      AsPage(to, 0);
      RemapsNone(clean, root, v, to);
      while k < n
        invariant k <= n && Shape() && cur == Add(to, k).(table := true) && Word(cur) && old(log) <= log
        invariant Remaps(old(clean), clean, root, v, k, to)
        invariant Steady(old(clean), clean, root, v) && (to.valid ==> AtLevel(clean, root, v, v + k, 3))
        invariant Already(old(clean), root, v, n, to) ==> mem == old(mem) && log == old(log) && clean == old(clean)
      {
        ghost var m0 := clean;
        AheadMore(holes, v, v + k);
        if Already(old(clean), root, v, n, to) {
          AlreadyOne(clean, root, v, k, n, to);
        }
        MapPage(v + k, cur);
        SameAsBefore(m0, root);
        SteadyNone(m0, root, v + k);
        RemapsOne(old(clean), m0, m0, clean, root, v, k, 1, to, cur);
        AddTable(to, k);
        PageLaid(old(clean), m0, m0, clean, root, v, k, to.valid);
        Advanced(to, k, 1);
        AsPage(Add(to, k), 1);
        cur := Add(cur, 1);
        k := k + 1;
      }
    }

    /** One round of its loop; nothing is written if the page is there already. */
    method MapPage(w: nat, d: Desc)
      requires Shape() && w < VA_PAGES && Word(d) && d.table && Ahead(holes, w)
      modifies this`mem, this`log, this`tab, this`clean
      ensures Shape() && Remaps(old(clean), clean, root, w, 1, d) && old(log) <= log
      ensures Steady(old(clean), clean, root, w) && (d.valid ==> AtLevel(clean, root, w, w + 1, 3))
      ensures Already(old(clean), root, w, 1, d) ==> mem == old(mem) && log == old(log) && clean == old(clean)
    {
      hide Tree, LiveLog, Walk, Translate, Remaps, SameTranslation, Add, Word, Veils, Ahead, Rewrite, Steady, AtLevel;
      hide Already;
      if Already(clean, root, w, 1, d) {
        FindsItself(ro, mem, clean, tab, root, holes, w, d);
      }
      var l3 := GetL3(w);
      Reached(ro, clean, tab, root, 3, w);
      StorePage(ro, clean, tab, root, w, d);
      VeilPage(ro, mem, clean, tab, root, holes, w, d);
      ghost var m1 := clean;
      WriteDescriptor(l3, Idx(3, w), d);
      clean := Stored(clean, l3, Idx(3, w), d);
      AfterSame(old(clean), m1, clean, root, w, 1, d);
      SteadyThen(old(clean), m1, clean, root, w, w);
    }

    /** `mmu_pt_map_l2`: `n` blocks, written directly, with the tables they replace freed.  Only with
        the MMU off, and only blocks that are clear of the read-only window.  A block with the type bit set is a
        link, so its pages do not get the target. */
    method MapL2(v: nat, to: Desc, n: nat)
      requires Shape() && !active && v + n * FAN <= VA_PAGES && Ahead(holes, v)
      requires v % FAN == 0 && Word(to) && to.page % FAN == 0
      requires forall k: nat | k < n :: to.valid ==> Clear(ro, Add(to, k * FAN).page)
      modifies this`mem, this`log, this`tab, this`clean, this`holes
      ensures Shape() && Remaps(old(clean), clean, root, v, n * FAN, Solid(to)) && Ahead(holes, v + n * FAN)
      ensures Steady(old(clean), clean, root, v)
      ensures to.valid && !to.table ==> AtLevel(clean, root, v, v + n * FAN, 2)
      ensures !(to.valid && to.table && n > 0) ==> holes == old(holes)
      ensures Low(old(holes), heap) && (forall k: nat | k < n :: Add(to, k * FAN).page < heap) ==> Low(holes, heap)
    {
      hide Tree, LiveLog, Walk, Translate, Clear, Remaps, SameTranslation, Add, Word, Veils, Ahead, Solid, Low;
      hide Steady, AtLevel;
      SteadyNone(clean, root, v);
      NoneLaid(clean, root, v, 2);
      var k := 0;
      var cur := to;
      Advanced(to, 0, 0);
      RemapsNone(clean, root, v, Solid(to));
      while k < n
        invariant k <= n && Shape() && cur == Add(to, k * FAN) && Ahead(holes, v + k * FAN)
        invariant Remaps(old(clean), clean, root, v, k * FAN, Solid(to))
        invariant Steady(old(clean), clean, root, v)
        invariant to.valid && !to.table ==> AtLevel(clean, root, v, v + k * FAN, 2)
        invariant !(to.valid && to.table && k > 0) ==> holes == old(holes)
        invariant Low(old(holes), heap) && (forall j: nat | j < k :: Add(to, j * FAN).page < heap) ==> Low(holes, heap)
      {
        NextBlock(to, k, v);
        assert Clear(ro, Add(to, k * FAN).page) || !to.valid;
        ghost var c0 := clean;
        ghost var h0 := holes;
        MapBlock(v + k * FAN, cur);
        if Low(h0, heap) && cur.page < heap {
          LowMore(h0, v + k * FAN, cur, heap);
        }
        SolidAdd(to, k * FAN);
        RemapsThen(old(clean), c0, clean, root, v, k * FAN, FAN, Solid(to));
        BlockLaid(old(clean), c0, clean, root, v, k, to.valid && !to.table);
        cur := Add(cur, FAN);
        k := k + 1;
      }
    }

    /** One round of its loop. */
    method MapBlock(w: nat, d: Desc)
      requires Shape() && !active && w + FAN <= VA_PAGES && w % FAN == 0 && Ahead(holes, w)
      requires Word(d) && d.page % FAN == 0 && (d.valid ==> Clear(ro, d.page))
      modifies this`mem, this`log, this`tab, this`clean, this`holes
      ensures Shape() && Remaps(old(clean), clean, root, w, FAN, Solid(d)) && Ahead(holes, w + FAN)
      ensures holes == if d.valid && d.table then old(holes)[w / FAN := d.page] else old(holes)
      ensures Steady(old(clean), clean, root, w) && (d.valid && !d.table ==> AtLevel(clean, root, w, w + FAN, 2))
    {
      hide Tree, LiveLog, Walk, Translate, Clear, Remaps, SameTranslation, Add, Word, Veils, Ahead, Steady, AtLevel;
      var l2 := GetL2(w);
      Reached(ro, clean, tab, root, 2, w);
      SeenThrough(ro, mem, clean, tab, root, holes, 2, w);
      ghost var m1, tab1, c := clean, tab, Solid(d);
      SolidAdd(d, 0);
      var i := Idx(2, w);
      if mem[l2][i].valid && mem[l2][i].table {
        CutBlock(ro, clean, tab, root, w, c);
        VeilCut(ro, mem, clean, tab, root, holes, w, d);
        clean := Cut(clean, l2, i, c, mem[l2][i].page);
        mem := mem - {mem[l2][i].page};
        tab := tab - {SpotOf(3, w)};
      } else {
        StoreBlock(ro, clean, tab, root, w, c);
        VeilBlock(ro, mem, clean, tab, root, holes, w, d);
        clean := Stored(clean, l2, i, c);
      }
      BlockLayout(ro, m1, clean, tab1, root, w, c);
      SteadyThen(old(clean), m1, clean, root, w, w);
      mem := mem[l2 := mem[l2][i := d]];
      holes := Holed(holes, w, d);
      AheadNext(old(holes), w, d);
      AfterSame(old(clean), m1, clean, root, w, FAN, c);
    }

    /** The L2 phase of `mmu_map`: blocks, but pages where a block would lie over the window. */
    method MapBlocks(v: nat, to: Desc, n: nat)
      requires Shape() && !active && v + n * FAN <= VA_PAGES && Ahead(holes, v)
      requires v % FAN == 0 && Word(to) && to.page % FAN == 0
      modifies this`mem, this`log, this`tab, this`clean, this`holes
      ensures Shape() && BlocksGiven(old(clean), clean, root, ro, v, n * FAN, to) && Ahead(holes, v + n * FAN)
      ensures Steady(old(clean), clean, root, v)
      ensures to.valid && !to.table ==> BlockLevels(clean, root, ro, v, n, to)
      ensures !Links(ro, to, n) ==> holes == old(holes)
      ensures Low(old(holes), heap) && (forall k: nat | k < n :: Add(to, k * FAN).page < heap) ==> Low(holes, heap)
    {
      hide Tree, LiveLog, Walk, Translate, Remaps, Add, Word, Veils, Ahead, BlocksGiven, Low, Links;
      hide Steady, AtLevel, BlockLevels;
      Advanced(to, 0, 0);
      BlocksNone(clean, root, ro, v, to);
      SteadyNone(clean, root, v);
      if !(to.valid && ro.Some?) {
        MapL2(v, to, n);
        AllBlocks(old(clean), clean, root, ro, v, n * FAN, to);
        if to.valid && !to.table {
          AllBlockLevels(clean, root, ro, v, n, to);
        }
        EachLinks(ro, to, n);
      } else {
        var k := 0;
        NoBlockLevels(clean, root, ro, v, to);
        while k < n
          invariant k <= n && Shape() && Ahead(holes, v + k * FAN)
          invariant Steady(old(clean), clean, root, v)
          invariant to.valid && !to.table ==> BlockLevels(clean, root, ro, v, k, to)
          invariant BlocksGiven(old(clean), clean, root, ro, v, k * FAN, to)
          invariant !Links(ro, to, k) ==> holes == old(holes)
          invariant Low(old(holes), heap) && (forall j: nat | j < k :: Add(to, j * FAN).page < heap) ==>
                      Low(holes, heap)
        {
          ghost var m1 := clean;
          var here := Add(to, k * FAN);
          NextBlock(to, k, v);
          var target := here.page * PAGE;
          if target < ro.value.end && target + BLOCK_BYTES > ro.value.start {
            MapL3(v + k * FAN, here, FAN);
            AheadMore(holes, v + k * FAN, v + (k + 1) * FAN);
          } else {
            MapL2(v + k * FAN, here, 1);
          }
          BlockMore(old(clean), m1, clean, root, ro, v, k, to);
          SteadyThen(old(clean), m1, clean, root, v, v + k * FAN);
          if to.valid && !to.table {
            BlockLevelsMore(m1, clean, root, ro, v, k, to);
          }
          LinksMore(ro, to, k);
          k := k + 1;
        }
      }
    }

    /** `mmu_map`: refused when misaligned; otherwise every page of the range translates as `to`
        says, whatever was there before, and every other page as before, unless a link is written for a block.
        If that link leads out of the heap, exactly the pages under such links fault instead. */
    method Map(from: nat, to: Desc, size: nat) returns (ret: int)
      requires Valid() && from + size <= VA_PAGES * PAGE && Word(to)
      modifies this`mem, this`log, this`tab, this`clean, this`holes
      ensures ret == if from % PAGE == 0 && size % PAGE == 0 then 0 else -1
      ensures ret == -1 ==> Valid() && mem == old(mem) && log == old(log)
      ensures old(log) <= log
      ensures active || !WritesLink(from, to, size, ramBase, imageBase, ro) ==>
                Valid() && (ret == 0 ==> Remaps(old(mem), mem, root, from / PAGE, size / PAGE, to))
      ensures ret == 0 && Apart(to, size / PAGE, heap) ==>
                (Remaps(old(mem), mem, root, from / PAGE, size / PAGE, to) <==>
                 active || !WritesLink(from, to, size, ramBase, imageBase, ro))
      ensures ret == 0 && Apart(to, size / PAGE, heap) && !active ==>
                PhasesGiven(old(mem), mem, root, ro, from / PAGE, FirstPages(from, size, ramBase, imageBase),
                            BlockCount(from, to, size, ramBase, imageBase), size / PAGE, to)
      ensures ret == 0 && to.valid && (active || !to.table) ==>
                LaidOut(mem, root, ro, active, from / PAGE, size / PAGE, to, ramBase, imageBase)
      ensures active && ret == 0 && to.valid ==> Already(mem, root, from / PAGE, size / PAGE, to)
      ensures active && Already(old(mem), root, from / PAGE, size / PAGE, to) ==> mem == old(mem) && log == old(log)
    {
      hide Tree, LiveLog, Walk, Translate, Boundary, RoundDown, Add, Remaps, Word, Veils, Links, Apart, PhasesGiven;
      hide PhaseLevels, LaidOut, Already;
      if from % PAGE != 0 || size % PAGE != 0 {
        return -1;
      }
      Phases(from, size, ramBase, imageBase);
      var boundary := Boundary(from, ramBase, imageBase);
      var chunk := if size < boundary - from then size else boundary - from;
      var k, blocks := chunk / PAGE, 0;
      var chunk2 := RoundDown(size - chunk);
      if !active && chunk2 > 0 && Add(to, k).page % FAN == 0 {
        blocks := chunk2 / BLOCK_BYTES;
      }
      NoLinksNone(ro, Add(to, k));
      MapPhases(from / PAGE, to, k, blocks, size / PAGE);
      if to.valid && (active || !to.table) {
        LaidOutInPhases(mem, root, ro, active, from, to, size, ramBase, imageBase);
        if active {
          NowAlready(old(mem), mem, root, ro, from / PAGE, size / PAGE, to, ramBase, imageBase);
        }
      }
      ret := 0;
    }

    /** The phases of `mmu_map` in pages: `k` pages, `b` blocks, and pages up to `n`. */
    method MapPhases(v: nat, to: Desc, k: nat, b: nat, n: nat)
      requires Valid() && k + b * FAN <= n && v + n <= VA_PAGES && Word(to)
      requires b > 0 ==> !active && (v + k) % FAN == 0 && Add(to, k).page % FAN == 0
      modifies this`mem, this`log, this`tab, this`clean, this`holes
      ensures old(log) <= log
      ensures !Links(ro, Add(to, k), b) ==> Valid() && Remaps(old(mem), mem, root, v, n, to)
      ensures Apart(to, n, heap) ==>
                && PhasesGiven(old(mem), mem, root, ro, v, k, b, n, to)
                && (Remaps(old(mem), mem, root, v, n, to) <==> !Links(ro, Add(to, k), b))
      ensures to.valid && (!to.table || b == 0) ==> PhaseLevels(mem, root, ro, v, k, b, n, to)
      ensures b == 0 && Already(old(mem), root, v, n, to) ==> mem == old(mem) && log == old(log)
    {
      hide Tree, LiveLog, Walk, Translate, Add, Remaps, Word, Veils, Ahead, BlocksGiven, Low, Links;
      hide Apart, PhasesGiven, InHeap, Steady, AtLevel, BlockLevels, PhaseLevels, Already;
      if Already(mem, root, v, n, to) {
        AlreadySplit(mem, root, v, k, n, to);
      }
      VeilKeys(mem, clean, tab, holes);
      NoneLaid(clean, root, v, 3);
      Advanced(to, k, b * FAN);
      RemapsNone(clean, root, v, to);
      NoHoles(v, heap);
      NoHoles(v + k, heap);
      NoLinksNone(ro, Add(to, k));
      if k > 0 {
        MapL3(v, to, k);
      }
      ghost var m1 := clean;
      BlocksNone(m1, root, ro, v + k, Add(to, k));
      SteadyNone(m1, root, v + k);
      NoBlockLevels(m1, root, ro, v + k, Add(to, k));
      if b > 0 {
        MapBlocks(v + k, Add(to, k), b);
        if Apart(to, n, heap) {
          ApartBlocks(to, k, b, n, heap);
        }
      }
      ghost var m2 := clean;
      var cur, rest := Add(to, k + b * FAN), n - k - b * FAN;
      RemapsNone(m2, root, v + k + b * FAN, cur);
      SteadyNone(m2, root, v + k + b * FAN);
      NoneLaid(m2, root, v + k + b * FAN, 3);
      if rest > 0 {
        MapL3(v + k + b * FAN, cur, rest);
      }
      PhasesCompose(old(clean), m1, m2, clean, root, ro, v, k, b, n, to);
      VeilKeys(old(mem), old(clean), old(tab), old(holes));
      Settled(ro, old(mem), mem, clean, tab, root, holes, heap, v, k, b, n, to);
      if to.valid && (!to.table || b == 0) {
        AddTable(to, k);
        AddTable(to, k + b * FAN);
        PhasesLaid(m1, m2, clean, root, ro, v, k, b, n, to);
        NoLink(ro, Add(to, k), b);
        VeilKeys(mem, clean, tab, holes);
      }
    }
  }

  const MARKED := Desc(true, true, FAN, 0x101, 0)  // the page after the first 32M, with the type bit set

  /** Fresh tables with the heap at 64M, and 32M asked for at address 0 with the type bit set: the call succeeds, and
      all of its pages fault. */
  method FaultsUnderLink() returns (ret: int, m: Memory)
    ensures ret == 0
    ensures forall u: nat | u < FAN :: Translate(m, 2 * FAN, u) == None && LeafOf(Add(MARKED, u)).Some?
  {
    var mmu := new Mmu(2 * FAN, 2 * FAN, 0, 0, None);
    MarkedCall();
    ghost var m0 := mmu.mem;
    hide Walk, Translate, Mmu.Valid, RoundUp, RoundDown, Boundary, Links, Add;
    ret := mmu.Map(0, MARKED, BLOCK_BYTES);
    m := mmu.mem;
    MarkedLost(m0, m, 2 * FAN);
  }

  lemma MarkedCall()
    ensures FirstPages(0, BLOCK_BYTES, 0, 0) == 0 && BlockCount(0, MARKED, BLOCK_BYTES, 0, 0) == 1
    ensures Apart(MARKED, FAN, 2 * FAN) && Add(MARKED, 0) == MARKED
  {
    forall j: nat | j < FAN ensures Add(MARKED, j).page < 2 * FAN {
      AddWithin(MARKED, FAN, j);
    }
    AddZero(MARKED);
  }

  lemma MarkedLost(m0: Memory, m: Memory, root: nat)
    requires PhasesGiven(m0, m, root, None, 0, 0, 1, FAN, MARKED) && Add(MARKED, 0) == MARKED
    ensures forall u: nat | u < FAN :: Translate(m, root, u) == None && LeafOf(Add(MARKED, u)).Some?
  {
    hide Translate;
    forall u: nat | u < FAN ensures Translate(m, root, u) == None && LeafOf(Add(MARKED, u)).Some? {
      assert Translate(m, root, u) == Given(None, Add(MARKED, 0), u);
      DivUnique(u, FAN, 0, u);
    }
  }

  lemma NoLink(ro: Option<Window>, to: Desc, n: nat)
    requires !to.table || n == 0
    ensures !Links(ro, to, n)
  {
  }

  lemma NextBlock(to: Desc, k: nat, v: nat)
    requires Word(to) && to.page % FAN == 0 && v % FAN == 0
    ensures Word(Add(to, k * FAN)) && Add(to, k * FAN).page % FAN == 0 && (v + k * FAN) % FAN == 0
    ensures Add(Add(to, k * FAN), FAN) == Add(to, (k + 1) * FAN)
    ensures Add(Add(to, k * FAN), 0) == Add(to, k * FAN)
    ensures Add(to, k * FAN).table == to.table && Add(to, k * FAN).valid == to.valid
  {
    hide Word, Pack;
    PackAdd(to, k * FAN);
    AddAdd(to, k * FAN, FAN);
    AddAdd(to, k * FAN, 0);
    WholeBlocks(to.page, k);
    WholeBlocks(v, k);
  }

  lemma WholeBlocks(p: nat, k: nat)
    requires p % FAN == 0
    ensures (p + k * FAN) % FAN == 0 && (p + k * FAN) % FIELD_PAGES % FAN == 0
  {
    var b := p / FAN + k;
    assert p + k * FAN == b * FAN;
    var q := b * FAN / FIELD_PAGES;
    assert b * FAN % FIELD_PAGES == FAN * (b - q * (FIELD_PAGES / FAN));
  }

  lemma AsPage(d: Desc, n: nat)
    requires Word(d)
    ensures Word(d.(table := true)) && Word(Add(d, n).(table := true))
    ensures Add(d.(table := true), n) == Add(d, n).(table := true)
  {
    PackAdd(d, n);
  }

  lemma Advanced(to: Desc, k: nat, n: nat)
    requires Word(to)
    ensures Word(Add(to, k)) && Word(Add(to, k + n)) && Add(Add(to, k), n) == Add(to, k + n)
    ensures Add(to, 0) == to && Add(to, k).table == Add(to, k + n).table == to.table
  {
    AddTable(to, k);
    AddTable(to, k + n);
    AddZero(to);
    hide Add, Word, Pack;
    PackAdd(to, k);
    PackAdd(to, k + n);
    AddAdd(to, k, n);
  }

  lemma AddTable(d: Desc, n: nat)
    ensures Add(d, n).table == d.table && Add(d, n).valid == d.valid
  {
  }

  // ---------------------------------------------------------------------- whole runs

  datatype Op = MapOp(from: nat, to: Desc, size: nat) | EnableOp

  /** What `mmu_map` demands: the range lies in the address space. */
  predicate Callable(op: Op) {
    op.MapOp? ==> op.from + op.size <= VA_PAGES * PAGE && Word(op.to)
  }

  /** Call `i` is accepted with the MMU off and writes a link for a block, after which the tables are no tree. */
  predicate Breaks(ops: seq<Op>, i: nat, ramBase: nat, imageBase: nat, ro: Option<Window>)
    requires i < |ops|
  {
    && ops[i].MapOp? && ops[i].from % PAGE == 0 && ops[i].size % PAGE == 0 && EnableOp !in ops[..i]
    && WritesLink(ops[i].from, ops[i].to, ops[i].size, ramBase, imageBase, ro)
  }

  /** The calls up to the first one that breaks the tables. */
  ghost predicate WholeUpTo(ops: seq<Op>, done: nat, ramBase: nat, imageBase: nat, ro: Option<Window>) {
    && done <= |ops| && (forall i: nat | i < done :: !Breaks(ops, i, ramBase, imageBase, ro))
    && (done < |ops| ==> Breaks(ops, done, ramBase, imageBase, ro))
  }

  /** The flat page map that a run stands for: a page has what the last accepted call that covered
      it said; `mmu_rm_mapping` is a call with an invalid `to`. */
  function FlatMap(ops: seq<Op>, v: nat): (l: Option<Leaf>) {
    if ops == [] then None
    else
      match ops[|ops| - 1]
      case EnableOp => FlatMap(ops[..|ops| - 1], v)
      case MapOp(from, to, size) =>
        if from % PAGE == 0 && size % PAGE == 0 && from / PAGE <= v < from / PAGE + size / PAGE
        then LeafOf(Add(to, v - from / PAGE))
        else FlatMap(ops[..|ops| - 1], v)
  }

  predicate InWindow(w: Window, page: nat) {
    page * PAGE < w.end && (page + 1) * PAGE > w.start
  }

  /** A page that translates into the read-only window is mapped by a page entry. */
  ghost predicate WindowInPages(m: Memory, root: nat, w: Window) {
    forall v: nat | v < VA_PAGES ::
      var o := Walk(m, root, 0, v);
      o.Mapped? && InWindow(w, o.leaf.page) ==> o.level == 3
  }

  lemma {:induction false} NoBlockOverWindow(ro: Option<Window>, m: Memory, tab: Index, root: nat, level: nat, v: nat)
    requires Tree(ro, m, tab, root) && v < VA_PAGES && level <= 3 && SpotOf(level, v) in tab && ro.Some?
    ensures var o := Walk(m, tab[SpotOf(level, v)], level, v);
            o.Mapped? && InWindow(ro.value, o.leaf.page) ==> o.level == 3
    decreases 3 - level
  {
    hide Linked, Placed;
    Reached(ro, m, tab, root, level, v);
    if IsLink(level, Entry(m, tab, SpotOf(level, v), Idx(level, v))) {
      NoBlockOverWindow(ro, m, tab, root, level + 1, v);
    }
  }

  ghost predicate Shows(m: Memory, root: nat, ops: seq<Op>) {
    forall v: nat | v < VA_PAGES :: Translate(m, root, v) == FlatMap(ops, v)
  }

  /** After its first `cut` events the log has brought the tables from `start` to the flat map of the calls. */
  ghost predicate ShowsAt(start: Memory, root: nat, log: seq<Event>, cut: nat, ops: seq<Op>) {
    cut <= |log| && Shows(Replay(start, log[..cut]), root, ops)
  }

  lemma ShowsLater(start: Memory, root: nat, log: seq<Event>, log': seq<Event>, cut: nat, ops: seq<Op>)
    requires ShowsAt(start, root, log, cut, ops) && log <= log'
    ensures ShowsAt(start, root, log', cut, ops)
  {
    assert log'[..cut] == log[..cut];
  }

  predicate FirstEnable(ops: seq<Op>, k: nat) {
    k < |ops| && ops[k] == EnableOp && EnableOp !in ops[..k]
  }

  predicate Rising(cuts: seq<nat>) {
    forall i, j | 0 <= i <= j < |cuts| :: cuts[i] <= cuts[j]
  }

  /** After every call with the MMU on, the first `cuts[j]` events have led to the flat map of the first `j` calls. */
  ghost predicate LeadsOn(cuts: seq<nat>, start: Memory, root: nat, log: seq<Event>, ops: seq<Op>)
    requires |cuts| == |ops| + 1
  {
    forall j | 0 <= j <= |ops| && EnableOp in ops[..j] :: ShowsAt(start, root, log, cuts[j], ops[..j])
  }

  /** The log starts from the tables as they are when the MMU is switched on. */
  ghost predicate StartsThere(cuts: seq<nat>, start: Memory, root: nat, ops: seq<Op>)
    requires |cuts| == |ops| + 1
  {
    forall k: nat | k < |ops| && FirstEnable(ops, k) :: cuts[k + 1] == 0 && Shows(start, root, ops[..k])
  }

  /** How the log of a run divides among its calls. */
  ghost predicate Divides(cuts: seq<nat>, start: Memory, root: nat, log: seq<Event>, ops: seq<Op>) {
    && |cuts| == |ops| + 1 && cuts[|ops|] == |log| && Rising(cuts)
    && LeadsOn(cuts, start, root, log, ops) && StartsThere(cuts, start, root, ops)
  }

  /** What the call did that broke the tables, if its targets lie outside the heap. */
  ghost predicate BrokenBy(m: Memory, m': Memory, root: nat, heap: nat, ramBase: nat, imageBase: nat,
                           ro: Option<Window>, op: Op)
    requires op.MapOp?
  {
    Apart(op.to, op.size / PAGE, heap) ==>
      PhasesGiven(m, m', root, ro, op.from / PAGE, FirstPages(op.from, op.size, ramBase, imageBase),
                  BlockCount(op.from, op.to, op.size, ramBase, imageBase), op.size / PAGE, op.to)
  }

  /** Any sequence of calls from empty tables, the MMU switched on at any point, up to a call that breaks the tables;
      `m` are the tables before it and `last` those after it.  The tables refine the flat map; no page inside the
      firmware's read-only window is ever under a block; and from the moment the MMU is on, the observable stores lead
      from call to call, every one breaks before it makes, no TLB ever holds an entry that conflicts with the tables,
      and no block is written. */
  method Run(root: nat, heap: nat, ramBase: nat, imageBase: nat, ro: Option<Window>, ops: seq<Op>)
      returns (done: nat, m: Memory, last: Memory, active: bool, start: Memory, log: seq<Event>, cuts: seq<nat>)
    requires imageBase % PAGE == 0 && root >= heap && forall op | op in ops :: Callable(op)
    ensures WholeUpTo(ops, done, ramBase, imageBase, ro) && Shows(m, root, ops[..done])
    ensures ro.Some? ==> WindowInPages(m, root, ro.value)
    ensures active <==> EnableOp in ops[..done]
    ensures Divides(cuts, start, root, log, ops[..done])
    ensures active ==> Replay(start, log) == m && forall e | e in log :: WritesNoBlock(e)
    ensures active ==> Disciplined(start, root, log) && NeverConflicts(start, root, log)
    ensures done == |ops| ==> last == m
    ensures done < |ops| ==> BrokenBy(m, last, root, heap, ramBase, imageBase, ro, ops[done])
  {
    hide Tree, LiveLog, Walk, Translate, FlatMap, Word, Add, WindowInPages, Disciplined, NeverConflicts, Replay;
    hide Veils, Shows, Divides, WritesLink, InHeap, Remaps, PhasesGiven, Apart;
    var mmu := new Mmu(root, heap, ramBase, imageBase, ro);
    FlatNone(mmu.mem, root);
    cuts := [0];
    DividesNone(mmu.start, root);
    done := 0;
    while done < |ops| && !Breaks(ops, done, ramBase, imageBase, ro)
      invariant mmu.Valid() && fresh(mmu) && mmu.root == root && mmu.ro == ro && mmu.heap == heap
      invariant mmu.ramBase == ramBase && mmu.imageBase == imageBase
      invariant done <= |ops| && forall i: nat | i < done :: !Breaks(ops, i, ramBase, imageBase, ro)
      invariant Shows(mmu.mem, root, ops[..done])
      invariant mmu.active <==> EnableOp in ops[..done]
      invariant |cuts| == done + 1 && Divides(cuts, mmu.start, root, mmu.log, ops[..done])
    {
      var op := ops[done];
      assert ops[..done + 1] == ops[..done] + [op];
      assert op in ops;
      ghost var m0, start0, log0 := mmu.mem, mmu.start, mmu.log;
      match op {
        case EnableOp =>
          mmu.Enable();
          FlatSame(m0, root, ops[..done]);
        case MapOp(from, to, size) =>
          var ret := mmu.Map(from, to, size);
          FlatStep(m0, mmu.mem, root, ops[..done], op);
      }
      assert (cuts + [|mmu.log|])[..done + 1] == cuts;
      cuts := cuts + [|mmu.log|];
      LiveReplays(mmu.start, root, mmu.log, mmu.mem, mmu.active);
      DividesStep(cuts, start0, mmu.start, root, log0, mmu.log, mmu.mem, ops[..done], op);
      done := done + 1;
    }
    m, active, start, log := mmu.mem, mmu.active, mmu.start, mmu.log;
    VeilKeys(mmu.mem, mmu.clean, mmu.tab, mmu.holes);
    Concluded(ro, m, mmu.tab, root, active, start, log);
    if done < |ops| {
      assert ops[done] in ops;
      var ret := mmu.Map(ops[done].from, ops[done].to, ops[done].size);
    }
    last := mmu.mem;
  }

  lemma FlatNone(m: Memory, root: nat)
    requires forall u: nat | u < VA_PAGES :: Translate(m, root, u) == None
    ensures Shows(m, root, [])
  {
    hide Translate;
  }

  lemma FlatSame(m: Memory, root: nat, ops: seq<Op>)
    requires Shows(m, root, ops)
    ensures Shows(m, root, ops + [EnableOp])
  {
    hide Translate, Add, LeafOf;
    assert (ops + [EnableOp])[..|ops|] == ops;
  }

  lemma FlatStep(m: Memory, m': Memory, root: nat, ops: seq<Op>, op: Op)
    requires op.MapOp? && Shows(m, root, ops)
    requires if op.from % PAGE == 0 && op.size % PAGE == 0
             then Remaps(m, m', root, op.from / PAGE, op.size / PAGE, op.to)
             else m' == m
    ensures Shows(m', root, ops + [op])
  {
    hide Translate, Add, LeafOf;
    assert (ops + [op])[..|ops|] == ops;
  }

  lemma LiveReplays(start: Memory, root: nat, log: seq<Event>, m: Memory, active: bool)
    requires if active then LiveLog(start, root, log, m) else log == []
    ensures active ==> Replay(start, log) == m
  {
    hide Disciplined;
  }

  lemma DividesNone(start: Memory, root: nat)
    ensures Divides([0], start, root, [], [])
  {
  }

  lemma DividesStep(cuts: seq<nat>, start: Memory, start': Memory, root: nat, log: seq<Event>, log': seq<Event>,
                    m: Memory, ops: seq<Op>, op: Op)
    requires |cuts| == |ops| + 2 && cuts[|ops| + 1] == |log'| && Divides(cuts[..|ops| + 1], start, root, log, ops)
    requires Shows(m, root, ops + [op])
    requires if op == EnableOp && EnableOp !in ops then start' == m && log' == [] && log == [] && Shows(m, root, ops)
             else start' == start && log <= log'
    requires EnableOp in ops + [op] ==> Replay(start', log') == m
    ensures Divides(cuts, start', root, log', ops + [op])
  {
    hide Shows, Replay, LeadsOn, StartsThere;
    assert cuts == cuts[..|ops| + 1] + [|log'|];
    LeadsStep(cuts[..|ops| + 1], start, start', root, log, log', m, ops, op);
    StartsStep(cuts[..|ops| + 1], start, start', root, log', ops, op);
  }

  lemma LeadsStep(cuts: seq<nat>, start: Memory, start': Memory, root: nat, log: seq<Event>, log': seq<Event>,
                  m: Memory, ops: seq<Op>, op: Op)
    requires |cuts| == |ops| + 1 && LeadsOn(cuts, start, root, log, ops)
    requires Shows(m, root, ops + [op]) && (EnableOp in ops + [op] ==> Replay(start', log') == m)
    requires EnableOp in ops ==> start' == start && log <= log'
    ensures LeadsOn(cuts + [|log'|], start', root, log', ops + [op])
  {
    hide Shows, Replay, ShowsAt;
    var all := ops + [op];
    forall j | 0 <= j <= |all| && EnableOp in all[..j]
      ensures ShowsAt(start', root, log', (cuts + [|log'|])[j], all[..j])
    {
      if j == |all| {
        assert all[..j] == all;
        WholeShows(start', root, log', m, all);
      } else {
        assert all[..j] == ops[..j];
        ShowsLater(start, root, log, log', cuts[j], ops[..j]);
      }
    }
  }

  lemma StartsStep(cuts: seq<nat>, start: Memory, start': Memory, root: nat, log': seq<Event>, ops: seq<Op>, op: Op)
    requires |cuts| == |ops| + 1 && StartsThere(cuts, start, root, ops)
    requires if op == EnableOp && EnableOp !in ops then log' == [] && Shows(start', root, ops) else start' == start
    ensures StartsThere(cuts + [|log'|], start', root, ops + [op])
  {
    hide Shows, FirstEnable;
    var all := ops + [op];
    forall k: nat | k < |all| && FirstEnable(all, k)
      ensures (cuts + [|log'|])[k + 1] == 0 && Shows(start', root, all[..k])
    {
      EnabledFirst(ops, op, k);
      assert all[..k] == ops[..k];
      assert ops[..|ops|] == ops;
    }
  }

  lemma WholeShows(start: Memory, root: nat, log: seq<Event>, m: Memory, ops: seq<Op>)
    requires Replay(start, log) == m && Shows(m, root, ops)
    ensures ShowsAt(start, root, log, |log|, ops)
  {
    assert log[..|log|] == log;
  }

  lemma EnabledFirst(ops: seq<Op>, op: Op, k: nat)
    requires FirstEnable(ops + [op], k)
    ensures if k == |ops| then op == EnableOp && EnableOp !in ops else FirstEnable(ops, k)
  {
    assert (ops + [op])[..k] == ops[..k];
  }

  lemma Concluded(ro: Option<Window>, m: Memory, tab: Index, root: nat, active: bool, start: Memory, log: seq<Event>)
    requires Tree(ro, m, tab, root) && (active ==> LiveLog(start, root, log, m))
    ensures ro.Some? ==> WindowInPages(m, root, ro.value)
    ensures active ==> Replay(start, log) == m && forall e | e in log :: WritesNoBlock(e)
    ensures active ==> Disciplined(start, root, log) && NeverConflicts(start, root, log)
  {
    hide Linked, Disciplined, NeverConflicts, Replay;
    if active {
      TlbNeverConflicts(start, root, log);
    }
    if ro.Some? {
      hide Walk, MayHold;
      forall v: nat | v < VA_PAGES
        ensures var o := Walk(m, root, 0, v); o.Mapped? && InWindow(ro.value, o.leaf.page) ==> o.level == 3
      {
        NoBlockOverWindow(ro, m, tab, root, 0, v);
      }
    }
  }
}
