/** The IOVA allocator of `src/iova.c` itself: linked blocks, walked with `blk` and `prev` and edited
    in place, proved against the list functions of `IovaList`. */
module IovaDomain {
  import opened IovaList
  import opened Sequences
  import opened Wrappers

  const SZ_32M := 0x200_0000

  /** `ALIGN_UP(sz, SZ_16K)` on a 64-bit size: sizes in the last page of the range come out as 0. */
  function PageUp(sz: nat): (r: nat) {
    PageDown(Wrap(sz + (PAGE - 1)))
  }

  function PageDown(x: nat): (r: nat) {
    x - x % PAGE
  }

  /** The range `iova_reserve` works on: rounded separately, and moved off page 0. */
  function Adjusted(iova: nat, sz: nat): (r: (nat, nat)) {
    var i, n := PageDown(iova), PageUp(sz);
    if i == 0 then (PAGE, Wrap(n + U64 - PAGE)) else (i, n)
  }

  class Node {
    var iova: nat
    var sz: nat
    var next: Node?

    constructor (iova: nat, sz: nat, next: Node?)
      ensures this.iova == iova && this.sz == sz && this.next == next
    {
      this.iova, this.sz, this.next := iova, sz, next;
    }
  }

  ghost function Blocks(ns: seq<Node>): (bs: seq<Block>)
    reads ns
    ensures |bs| == |ns| && forall i | 0 <= i < |ns| :: bs[i] == Block(ns[i].iova, ns[i].sz)
  {
    if ns == [] then [] else [Block(ns[0].iova, ns[0].sz)] + Blocks(ns[1..])
  }

  function NodeAt(ns: seq<Node>, i: nat): (n: Node?) {
    if i < |ns| then ns[i] else null
  }

  /** The two cursors of a walk that has passed `k` nodes. */
  ghost predicate Walking(ns: seq<Node>, k: nat, prev: Node?, blk: Node?) {
    && k <= |ns| && blk == NodeAt(ns, k)
    && (k == 0 ==> prev == null)
    && (k > 0 ==> prev == ns[k - 1])
  }

  ghost predicate LinkAt(ns: seq<Node>, i: nat)
    requires i < |ns|
    reads ns
  {
    ns[i].next == NodeAt(ns, i + 1)
  }

  ghost predicate Distinct(ns: seq<Node>) {
    forall i, j | 0 <= i < j < |ns| :: ns[i] != ns[j]
  }

  ghost predicate Inserted(ns: seq<Node>, ns': seq<Node>, k: nat, n: Node) {
    && k <= |ns| && |ns'| == |ns| + 1
    && forall i {:trigger ns'[i]} | 0 <= i < |ns'| :: ns'[i] == if i < k then ns[i] else if i == k then n else ns[i - 1]
  }

  lemma InsertedDistinct(ns: seq<Node>, ns': seq<Node>, k: nat, n: Node)
    requires Distinct(ns) && Inserted(ns, ns', k, n) && n !in ns
    ensures Distinct(ns')
  {
    forall i, j | 0 <= i < j < |ns'| ensures ns'[i] != ns'[j] {
    }
  }

  ghost predicate Chained(first: Node?, ns: seq<Node>)
    reads ns
  {
    && first == NodeAt(ns, 0)
    && (forall i: nat | i < |ns| :: LinkAt(ns, i))
    && Distinct(ns)
  }

  lemma NeighboursDiffer(first: Node?, ns: seq<Node>, k: nat)
    requires Chained(first, ns) && 0 < k < |ns|
    ensures ns[k - 1] != ns[k]
  {
  }

  /** What is left of a block, in the 64-bit arithmetic of `iova_reserve`. */
  lemma LeftOver(b: Block, iova: nat, sz: nat)
    requires b.Has(iova) && b.End() < U64 && 0 < sz < U64
    ensures var e := Wrap(iova + sz);
            && (sz == b.sz && iova == b.iova ==> e == b.End())
            && (e < b.End() ==>
                  Around(b, iova, e) ==
                  if iova == b.iova then [Block(e, Wrap(b.sz + U64 - sz))]
                  else [Block(b.iova, iova - b.iova), Block(e, b.End() - e)])
  {
    hide Wrap;
    if iova + sz < U64 {
      Small(iova + sz);
      if sz <= b.sz {
        Wraps(b.sz + U64 - sz);
      }
    } else {
      Wraps(iova + sz);
      if iova == b.iova {
        Small(b.sz + U64 - sz);
      }
    }
  }

  /** A list is a splice of another when its three parts are. */
  lemma SpliceParts(bs: seq<Block>, i: nat, j: nat, mid: seq<Block>, bs': seq<Block>)
    requires i <= j <= |bs| && |bs'| == i + |mid| + (|bs| - j)
    requires bs'[..i] == bs[..i] && bs'[i..i + |mid|] == mid && bs'[i + |mid|..] == bs[j..]
    ensures bs' == Splice(bs, i, j, mid)
  {
    assert bs' == bs'[..i] + bs'[i..i + |mid|] + bs'[i + |mid|..];
  }

  lemma RemovedContents(bs: seq<Block>, k: nat, bs': seq<Block>)
    requires k < |bs| == |bs'| + 1
    requires forall i {:trigger bs'[i]} | 0 <= i < |bs'| :: bs'[i] == if i < k then bs[i] else bs[i + 1]
    ensures bs' == Splice(bs, k, k + 1, [])
  {
  }

  lemma InsertedContents(bs: seq<Block>, k: nat, b: Block, bs': seq<Block>)
    requires k <= |bs| && |bs'| == |bs| + 1
    requires forall i {:trigger bs'[i]} | 0 <= i < |bs'| ::
             bs'[i] == if i < k then bs[i] else if i == k then b else bs[i - 1]
    ensures bs' == Splice(bs, k, k, [b])
  {
  }

  lemma MergedContents(bs: seq<Block>, k: nat, joined: Block, b: Block)
    requires 0 < k < |bs|
    ensures Splice(Splice(Splice(bs, k, k + 1, [joined]), k - 1, k, [b]), k, k + 1, []) == Splice(bs, k - 1, k + 1, [b])
  {
  }

  lemma SplitContents(bs: seq<Block>, k: nat, b: Block, c: Block)
    requires k < |bs|
    ensures Splice(Splice(bs, k + 1, k + 1, [c]), k, k + 1, [b]) == Splice(bs, k, k + 1, [b, c])
  {
  }

  class Domain {
    const base: nat
    const limit: nat
    var freeList: Node?
    ghost var nodes: seq<Node>

    ghost predicate Linked()
      reads this, nodes
    {
      Chained(freeList, nodes)
    }

    ghost function Contents(): (bs: seq<Block>)
      reads this, nodes
    {
      Blocks(nodes)
    }

    ghost function First(): nat {
      if base > 0 then base else PAGE
    }

    ghost predicate Valid()
      reads this, nodes
    {
      Linked() && limit < U64 && Good(Contents(), First(), limit)
    }

    constructor (base: nat, limit: nat)
      requires limit < U64 && base % SZ_32M == 0 && limit % PAGE == 0 && limit > if base > 0 then base else PAGE
      ensures Valid() && fresh(nodes) && this.base == base && this.limit == limit
      ensures Contents() == [Block(First(), limit - First())]
    {
      hide Blocks, Good;
      var first := if base > 0 then base else PAGE;
      assert GoodRange(first, limit - first) by { FirstRange(base, limit); }
      hide GoodRange;
      GoodOne(Block(first, limit - first), first, limit);
      var blk := new Node(first, limit - first, null);
      this.base, this.limit := base, limit;
      freeList := blk;
      nodes := [blk];
      new;
      assert Contents() == [Block(first, limit - first)];
    }

    // ------------------------------------------------------------ edits of the list

    /** `blk->iova` and `blk->sz` changed in place. */
    method Resize(ghost k: nat, blk: Node, iova: nat, sz: nat)
      requires Linked() && k < |nodes| && blk == nodes[k]
      modifies blk
      ensures blk.iova == iova && blk.sz == sz
      ensures Linked() && Contents() == Splice(old(Contents()), k, k + 1, [Block(iova, sz)])
    {
      hide Blocks, Splice;
      ghost var bs := Contents();
      blk.iova, blk.sz := iova, sz;
      forall i: nat | i < |nodes| ensures LinkAt(nodes, i) {
        assert old(LinkAt(nodes, i));
      }
      SpliceParts(bs, k, k + 1, [Block(iova, sz)], Contents());
    }

    /** `blk` taken out of the list. */
    method Unlink(ghost k: nat, prev: Node?, blk: Node)
      requires Linked() && k < |nodes| && Walking(nodes, k, prev, blk)
      modifies this, nodes
      ensures Linked() && forall n | n in nodes :: n in old(nodes)
      ensures Contents() == Splice(old(Contents()), k, k + 1, [])
    {
      hide Blocks, Splice;
      ghost var ns, bs := nodes, Contents();
      assert LinkAt(nodes, k);
      if prev != null {
        prev.next := blk.next;
      } else {
        freeList := blk.next;
      }
      nodes := nodes[..k] + nodes[k + 1..];
      assert forall i {:trigger nodes[i]} | 0 <= i < |nodes| :: nodes[i] == if i < k then ns[i] else ns[i + 1];
      forall i: nat | i < |nodes| ensures LinkAt(nodes, i) {
        assert old(LinkAt(nodes, if i < k then i else i + 1));
      }
      hide LinkAt, NodeAt;
      RemovedContents(bs, k, Contents());
    }

    /** A new block put in before the node at `k`. */
    method Insert(ghost k: nat, prev: Node?, next: Node?, iova: nat, sz: nat)
      requires Linked() && Walking(nodes, k, prev, next)
      modifies this, nodes
      ensures Linked() && forall n | n in nodes :: n in old(nodes) || fresh(n)
      ensures |nodes| == |old(nodes)| + 1 && forall i | 0 <= i < k :: nodes[i] == old(nodes)[i]
      ensures Contents() == Splice(old(Contents()), k, k, [Block(iova, sz)])
    {
      hide Blocks, Splice;
      ghost var ns, bs := nodes, Contents();
      var blk := new Node(iova, sz, next);
      if prev != null {
        prev.next := blk;
      } else {
        freeList := blk;
      }
      nodes := nodes[..k] + [blk] + nodes[k..];
      assert Inserted(ns, nodes, k, blk);
      forall i: nat | i < |nodes| ensures LinkAt(nodes, i) {
        if i != k {
          assert old(LinkAt(nodes, if i < k then i else i - 1));
        }
      }
      InsertedDistinct(ns, nodes, k, blk);
      hide LinkAt, NodeAt, Distinct;
      InsertedContents(bs, k, Block(iova, sz), Contents());
    }

    /** `blk` cut short, and a new block behind it. */
    method Split(ghost k: nat, blk: Node, first: nat, iova: nat, last: nat)
      requires Linked() && k < |nodes| && blk == nodes[k]
      modifies this, nodes
      ensures Linked() && forall n | n in nodes :: n in old(nodes) || fresh(n)
      ensures Contents() == Splice(old(Contents()), k, k + 1, [Block(old(blk.iova), first), Block(iova, last)])
    {
      hide Blocks, Splice;
      SplitContents(Contents(), k, Block(blk.iova, first), Block(iova, last));
      assert LinkAt(nodes, k);
      var start := blk.iova;
      Insert(k + 1, blk, blk.next, iova, last);
      Resize(k, blk, start, first);
    }

    /** The blocks of the list, in order. */
    method Snapshot() returns (bs: seq<Block>)
      requires Linked()
      ensures bs == Contents()
    {
      hide Blocks;
      bs := [];
      var blk := freeList;
      ghost var k := 0;
      while blk != null
        invariant k <= |nodes| && blk == NodeAt(nodes, k) && bs == Contents()[..k]
        decreases |nodes| - k
      {
        assert LinkAt(nodes, k);
        bs := bs + [Block(blk.iova, blk.sz)];
        blk := blk.next;
        k := k + 1;
      }
    }

    // ------------------------------------------------------------ the operations

    /** `iova_alloc`: first fit. */
    method Alloc(size: nat) returns (iova: nat)
      requires Valid() && size < U64
      modifies this, nodes
      ensures Valid() && forall n | n in nodes :: n in old(nodes) || fresh(n)
      ensures (Contents(), iova) == IovaList.Alloc(old(Contents()), PageUp(size))
    {
      hide Blocks, Good, GoodRange, PageUp, Splice;
      var sz := PageUp(size);
      ghost var bs := Contents();
      AllocGood(bs, size, First(), limit);
      var prev: Node?, blk := null, freeList;
      ghost var k := 0;
      while blk != null
        invariant Walking(nodes, k, prev, blk) && FirstFit(bs, sz, 0) == FirstFit(bs, sz, k)
        decreases |nodes| - k
      {
        assert LinkAt(nodes, k);
        if blk.sz == sz {
          iova := blk.iova;
          Unlink(k, prev, blk);
          return;
        } else if blk.sz > sz {
          iova := blk.iova;
          Resize(k, blk, blk.iova + sz, blk.sz - sz);
          return;
        }
        prev, blk := blk, blk.next;
        k := k + 1;
      }
      iova := 0;
    }

    /** `iova_reserve`; `room` says whether memory for another block can be had. */
    method Reserve(iova0: nat, sz0: nat, room: bool) returns (ok: bool)
      requires Valid() && iova0 < U64 && sz0 < U64
      modifies this, nodes
      ensures Linked() && forall n | n in nodes :: n in old(nodes) || fresh(n)
      ensures var (iova, sz) := Adjusted(iova0, sz0);
              (Contents(), ok) == IovaList.Reserve(old(Contents()), iova, sz, room)
      ensures !ok || Adjusted(iova0, sz0).0 + Adjusted(iova0, sz0).1 < U64 ==> Valid()
      ensures iova0 >= PAGE && sz0 > 0 && iova0 % PAGE == 0 && sz0 % PAGE == 0 && iova0 + sz0 < U64 ==>
                (ok <==> Reservable(old(Contents()), iova0, sz0, room))
    {
      hide Blocks, Good, GoodRange, Around, Splice, Wrap;
      ghost var (i, n) := Adjusted(iova0, sz0);
      ghost var bs := Contents();
      AdjustedAligned(iova0, sz0);
      if iova0 >= PAGE && sz0 > 0 && iova0 % PAGE == 0 && sz0 % PAGE == 0 && iova0 + sz0 < U64 {
        AlreadyAdjusted(iova0, sz0);
        ReserveSucceedsExactly(bs, iova0, sz0, room, First(), limit);
      }
      hide Reservable;
      if i + n < U64 {
        ReserveKeepsGood(bs, i, n, room, First(), limit);
      }
      var iova, sz := PageDown(iova0), PageUp(sz0);
      hide PageDown, PageUp;
      if iova == 0 {
        iova := iova + PAGE;
        sz := Wrap(sz + U64 - PAGE);
      }
      if sz == 0 {
        return true;
      }
      if freeList == null {
        return false;
      }
      var prev: Node?, blk := null, freeList;
      ghost var k := 0;
      while blk != null
        invariant Walking(nodes, k, prev, blk) && FirstHolding(bs, iova, 0) == FirstHolding(bs, iova, k)
        decreases |nodes| - k
      {
        assert LinkAt(nodes, k);
        if iova >= blk.iova && iova < blk.iova + blk.sz {
          ok := TakeFrom(k, blk, iova, sz, room);
          return;
        }
        prev, blk := blk, blk.next;
        k := k + 1;
      }
      ok := false;
    }

    /** The part of `iova_reserve` for the block that holds the start of the range.  The branches for
        a range that is the whole block or its tail cannot be reached. */
    method TakeFrom(ghost k: nat, blk: Node, iova: nat, sz: nat, room: bool) returns (ok: bool)
      requires Valid() && k < |nodes| && blk == nodes[k] && Contents()[k].Has(iova)
      requires k == FirstHolding(Contents(), iova, 0) && 0 < sz < U64
      modifies this, nodes
      ensures Linked() && forall n | n in nodes :: n in old(nodes) || fresh(n)
      ensures (Contents(), ok) == IovaList.Reserve(old(Contents()), iova, sz, room)
    {
      hide Blocks, GoodRange, Chained, Splice, FirstHolding, Around, Wrap, Floor, Ceiling;
      ghost var bs := Contents();
      GoodAt(bs, k, First(), limit);
      hide Good;
      var end := blk.iova + blk.sz;
      var e := Wrap(iova + sz);
      LeftOver(bs[k], iova, sz);
      if e >= end {
        return false;
      }
      assert !(iova == blk.iova && sz == blk.sz) && e != end;
      if iova == blk.iova {
        Resize(k, blk, e, Wrap(blk.sz + U64 - sz));
        return true;
      }
      if !room {
        return false;
      }
      Split(k, blk, iova - blk.iova, e, end - e);
      ok := true;
    }

    /** `iova_free` of any range; `ok` is false when it panics.  A free list stays one if the range lies in the
        domain and no byte of it is free. */
    method Free(iova: nat, size: nat) returns (ok: bool)
      requires Linked() && Words(Contents()) && iova < U64 && size < U64
      modifies this, nodes
      ensures Linked() && forall n | n in nodes :: n in old(nodes) || fresh(n)
      ensures ok == IovaList.Free(old(Contents()), iova, PageUp(size)).Some?
      ensures Contents() == if ok then IovaList.Free(old(Contents()), iova, PageUp(size)).value else old(Contents())
      ensures old(Valid()) && Outstanding(old(Contents()), iova, PageUp(size), First(), limit) ==> Valid()
    {
      hide Blocks, Good, Words, PageUp, GoodRange, Wrap, Splice;
      var sz := PageUp(size);
      PageUpWord(size);
      ghost var bs := Contents();
      FreeKeepsList(bs, iova, sz, First(), limit);
      var prev: Node?, blk := null, freeList;
      ok := true;
      if blk == null {
        Insert(0, null, null, iova, sz);
        assert Splice([], 0, 0, [Block(iova, sz)]) == [Block(iova, sz)] by { SpliceNothing(Block(iova, sz)); }
        return;
      }
      ghost var k := 0;
      var e := Wrap(iova + sz);
      while blk != null
        invariant Walking(nodes, k, prev, blk) && FirstAbove(bs, e, 0) == FirstAbove(bs, e, k)
        decreases |nodes| - k
      {
        assert LinkAt(nodes, k);
        if e == blk.iova {
          Merge(k, prev, blk, iova, sz);
          return;
        } else if e < blk.iova {
          Insert(k, prev, blk, iova, sz);
          return;
        }
        prev, blk := blk, blk.next;
        k := k + 1;
      }
      ok := false;
    }

    /** The range joined to the block above it, and that block to the one below when they meet. */
    method Merge(ghost k: nat, prev: Node?, blk: Node, iova: nat, sz: nat)
      requires Linked() && k < |nodes| && Walking(nodes, k, prev, blk) && iova < U64 && sz < U64
      requires Wrap(iova + sz) == blk.iova && k == FirstAbove(Contents(), blk.iova, 0)
      modifies this, nodes
      ensures Linked() && forall n | n in nodes :: n in old(nodes)
      ensures Some(Contents()) == IovaList.Free(old(Contents()), iova, sz)
    {
      hide Blocks, Chained, LinkAt, Splice, FirstAbove, Wrap;
      ghost var bs := Contents();
      if k > 0 {
        NeighboursDiffer(freeList, nodes, k);
        assert bs[k - 1] == Block(prev.iova, prev.sz);
      }
      assert bs[k] == Block(blk.iova, blk.sz);
      BackToStart(iova, sz);
      ghost var joined := Block(iova, Wrap(blk.sz + sz));
      Resize(k, blk, Wrap(blk.iova + U64 - sz), Wrap(blk.sz + sz));
      assert Contents() == Splice(bs, k, k + 1, [joined]);
      assert k > 0 ==> bs[k - 1] == Block(prev.iova, prev.sz);
      if prev != null && Wrap(prev.iova + prev.sz) == blk.iova {
        ghost var b := Block(prev.iova, Wrap(prev.sz + blk.sz));
        Resize(k - 1, prev, prev.iova, Wrap(prev.sz + blk.sz));
        Unlink(k, prev, blk);
        MergedContents(bs, k, joined, b);
      }
    }
  }

  /** Fields of 64 bits. */
  ghost predicate Words(bs: seq<Block>) {
    forall i | 0 <= i < |bs| :: bs[i].iova < U64 && bs[i].sz < U64
  }

  lemma GoodWords(bs: seq<Block>, lo: nat, hi: nat)
    requires Good(bs, lo, hi) && hi < U64
    ensures Words(bs)
  {
    hide GoodRange;
  }

  /** A page-aligned range inside the domain, no byte of which is free. */
  ghost predicate Outstanding(bs: seq<Block>, iova: nat, sz: nat, lo: nat, hi: nat) {
    GoodRange(iova, sz) && lo <= iova && iova + sz <= hi && Disjoint(bs, iova, sz)
  }

  lemma FreeKeepsList(bs: seq<Block>, iova: nat, sz: nat, lo: nat, hi: nat)
    ensures Good(bs, lo, hi) && hi < U64 && Outstanding(bs, iova, sz, lo, hi) && IovaList.Free(bs, iova, sz).Some? ==>
              Good(IovaList.Free(bs, iova, sz).value, lo, hi)
  {
    hide Good, GoodRange, IovaList.Free;
    if Good(bs, lo, hi) && hi < U64 && Outstanding(bs, iova, sz, lo, hi) && IovaList.Free(bs, iova, sz).Some? {
      FreeKeepsGood(bs, iova, sz, lo, hi);
    }
  }

  lemma SpliceNothing(b: Block)
    ensures Splice([], 0, 0, [b]) == [b]
  {
  }

  lemma BackToStart(iova: nat, sz: nat)
    requires iova < U64 && sz < U64
    ensures Wrap(Wrap(iova + sz) + U64 - sz) == iova
  {
    hide Wrap;
    if iova + sz < U64 {
      Small(iova + sz);
      Wraps(iova + U64);
    } else {
      Wraps(iova + sz);
      Small(iova);
    }
  }

  lemma PageUpWord(sz: nat)
    ensures PageUp(sz) < U64
  {
    hide Wrap;
  }

  /** `iovad_init`; `room` says whether memory can be had.  It refuses exactly the domains that would not
      start on a multiple of 32M, end on a page, and hold at least one page above page 0. */
  method Init(base: nat, limit: nat, room: bool) returns (dom: Domain?)
    requires base < U64 && limit < U64
    ensures dom == null <==>
              !room || base % SZ_32M != 0 || limit % PAGE != 0 || limit <= if base > 0 then base else PAGE
    ensures dom != null ==>
              && fresh(dom) && fresh(dom.nodes) && dom.Valid() && dom.base == base && dom.limit == limit
              && dom.Contents() == [Block(dom.First(), limit - dom.First())]
  {
    if base != RoundTo32M(base) {
      return null;
    }
    var first := if base > 0 then base else PAGE;
    if limit <= first || limit != PageDown(limit) || !room {
      return null;
    }
    dom := new Domain(base, limit);
  }

  /** `ALIGN_UP(x, SZ_32M)` in 64 bits: only multiples stay what they are. */
  function RoundTo32M(x: nat): (r: nat)
    requires x < U64
    ensures r == x <==> x % SZ_32M == 0
  {
    var y := Wrap(x + (SZ_32M - 1));
    y - y % SZ_32M
  }

  /** Rounding up a size is honest except for the sizes in the last page of the 64-bit range. */
  lemma PageUpHonest(sz: nat)
    requires sz < U64
    ensures PageUp(sz) % PAGE == 0
    ensures sz <= PageUp(sz) <==> sz + PAGE <= U64
    ensures sz + PAGE <= U64 ==> PageUp(sz) < sz + PAGE
    ensures 0 < sz && sz + PAGE <= U64 ==> PageUp(sz) > 0
    ensures sz + PAGE > U64 ==> PageUp(sz) == 0
  {
    hide Wrap;
    var x := sz + (PAGE - 1);
    if x < U64 {
      Small(x);
    } else {
      Wraps(x);
    }
    PageDownBounds(Wrap(x));
  }

  lemma PageDownBounds(x: nat)
    ensures PageDown(x) % PAGE == 0 && PageDown(x) <= x < PageDown(x) + PAGE
  {
    var q := x / PAGE;
    assert PageDown(x) == q * PAGE;
    MultipleOfPage(q);
  }

  lemma FirstRange(base: nat, limit: nat)
    requires base % SZ_32M == 0 && limit % PAGE == 0 && limit > if base > 0 then base else PAGE
    ensures var first := if base > 0 then base else PAGE; GoodRange(first, limit - first)
  {
    var q, l := base / SZ_32M, limit / PAGE;
    assert base == q * 2048 * PAGE && limit == l * PAGE;
    MultipleOfPage(q * 2048);
    MultipleOfPage(if base > 0 then l - q * 2048 else l - 1);
  }

  lemma MultipleOfPage(n: nat)
    ensures n * PAGE % PAGE == 0
  {
  }

  lemma AdjustedAligned(iova: nat, sz: nat)
    requires iova < U64 && sz < U64
    ensures var (i, n) := Adjusted(iova, sz); i % PAGE == 0 && n % PAGE == 0 && i > 0
  {
    PageUpHonest(sz);
  }

  lemma AllocGood(bs: seq<Block>, size: nat, lo: nat, hi: nat)
    requires Good(bs, lo, hi) && lo > 0 && size < U64
    ensures Good(IovaList.Alloc(bs, PageUp(size)).0, lo, hi)
  {
    PageUpHonest(size);
    hide Good, GoodRange;
    if PageUp(size) == 0 {
      if bs != [] {
        GoodAt(bs, 0, lo, hi);
        RangeNonEmpty(bs[0].iova, bs[0].sz);
      }
      AllocNothing(bs);
    } else {
      AllocTakesLowestFit(bs, PageUp(size), lo, hi);
    }
  }

  lemma AllocNothing(bs: seq<Block>)
    requires bs != [] ==> bs[0].sz > 0
    ensures IovaList.Alloc(bs, 0) == (bs, if bs == [] then 0 else bs[0].iova)
  {
    if bs != [] {
      assert Splice(bs, 0, 1, [bs[0]]) == bs;
    }
  }

  // ---------------------------------------------------------------------- whole runs

  /** Every address of the domain is free or handed out, never both; nothing is handed out twice. */
  ghost predicate Partition(free: seq<Block>, out: seq<Block>, lo: nat, hi: nat) {
    && (forall a: int :: Owned(free, out, lo, hi, a))
    && Apart(out)
    && (forall i | 0 <= i < |out| :: GoodRange(out[i].iova, out[i].sz))
  }

  ghost predicate Owned(free: seq<Block>, out: seq<Block>, lo: nat, hi: nat, a: int) {
    && (lo <= a < hi <==> Covered(free, a) || Covered(out, a))
    && !(Covered(free, a) && Covered(out, a))
  }

  ghost predicate Apart(out: seq<Block>) {
    forall i, j | 0 <= i < j < |out| :: out[i].End() <= out[j].iova || out[j].End() <= out[i].iova
  }

  lemma TakeKeepsPartition(free: seq<Block>, free': seq<Block>, out: seq<Block>, b: Block, lo: nat, hi: nat)
    requires Partition(free, out, lo, hi) && GoodRange(b.iova, b.sz)
    requires forall a: int :: LeavesFreeSet(free, free', b.iova, b.sz, a)
    ensures Partition(free', out + [b], lo, hi)
  {
    hide GoodRange;
    forall a: int ensures Owned(free', out + [b], lo, hi, a) {
      assert LeavesFreeSet(free, free', b.iova, b.sz, a) && Owned(free, out, lo, hi, a);
      CoveredConcat(out, [b], a);
      CoveredOne(b, a);
    }
    forall i | 0 <= i < |out| ensures out[i].End() <= b.iova || b.End() <= out[i].iova {
      RangeNonEmpty(b.iova, b.sz);
      RangeNonEmpty(out[i].iova, out[i].sz);
      var a := if b.iova <= out[i].iova then out[i].iova else b.iova;
      assert Owned(free, out, lo, hi, a) && LeavesFreeSet(free, free', b.iova, b.sz, a);
      assert out[i].Has(a) ==> Covered(out, a);
    }
  }

  lemma GiveKeepsPartition(free: seq<Block>, free': seq<Block>, out: seq<Block>, i: nat, lo: nat, hi: nat)
    requires Partition(free, out, lo, hi) && i < |out|
    requires forall a: int :: Covered(free', a) <==> Covered(free, a) || out[i].Has(a)
    ensures Partition(free', out[..i] + out[i + 1..], lo, hi)
  {
    hide GoodRange;
    var rest := out[..i] + out[i + 1..];
    assert out == out[..i] + [out[i]] + out[i + 1..];
    forall a: int ensures Owned(free', rest, lo, hi, a) {
      assert Owned(free, out, lo, hi, a);
      CoveredConcat(out[..i] + [out[i]], out[i + 1..], a);
      CoveredConcat(out[..i], [out[i]], a);
      CoveredConcat(out[..i], out[i + 1..], a);
      CoveredOne(out[i], a);
      if out[i].Has(a) {
        assert !Covered(out[..i], a) && !Covered(out[i + 1..], a);
      }
    }
    forall k | 0 <= k < |rest| ensures rest[k] == out[if k < i then k else k + 1] {
    }
  }

  /** An outstanding range lies in the domain and clear of every free block. */
  lemma OutstandingIsFreeable(free: seq<Block>, out: seq<Block>, i: nat, lo: nat, hi: nat)
    requires Partition(free, out, lo, hi) && Good(free, lo, hi) && i < |out|
    ensures lo <= out[i].iova && out[i].End() <= hi && Disjoint(free, out[i].iova, out[i].sz)
  {
    var b := out[i];
    assert b.Has(b.iova) && Owned(free, out, lo, hi, b.iova);
    assert b.Has(b.End() - 1) && Owned(free, out, lo, hi, b.End() - 1);
    forall k | 0 <= k < |free| ensures free[k].End() <= b.iova || b.End() <= free[k].iova {
      var a := if b.iova <= free[k].iova then free[k].iova else b.iova;
      assert Owned(free, out, lo, hi, a);
      assert free[k].Has(a) ==> Covered(free, a);
      assert out[i].Has(a) ==> Covered(out, a);
    }
  }

  /** `FreeOp` frees `len` bytes from `skip` on of an outstanding range. */
  datatype Op =
    | AllocOp(size: nat)
    | ReserveOp(iova: nat, sz: nat, room: bool)
    | FreeOp(which: nat, skip: nat, len: nat)

  /** What is named are whole pages of an outstanding range. */
  predicate IsPart(out: seq<Block>, which: nat, skip: nat, len: nat) {
    which < |out| && len > 0 && skip % PAGE == 0 && len % PAGE == 0 && skip + len <= out[which].sz
  }

  function Part(out: seq<Block>, which: nat, skip: nat, len: nat): (b: Block)
    requires IsPart(out, which, skip, len)
  {
    Block(out[which].iova + skip, len)
  }

  /** A range in up to three pieces, and which of them is the part. */
  function Pieces(b: Block, skip: nat, len: nat): (r: (seq<Block>, nat))
    requires 0 < len && skip + len <= b.sz
    ensures r.1 < |r.0| && r.0[r.1] == Block(b.iova + skip, len)
  {
    var left := if skip == 0 then [] else [Block(b.iova, skip)];
    var right := if skip + len == b.sz then [] else [Block(b.iova + skip + len, b.sz - skip - len)];
    (left + [Block(b.iova + skip, len)] + right, |left|)
  }

  /** The ranges handed out with that one cut into pieces. */
  function Carve(out: seq<Block>, which: nat, skip: nat, len: nat): (r: (seq<Block>, nat))
    requires IsPart(out, which, skip, len)
    ensures r.1 < |r.0| && r.0[r.1] == Part(out, which, skip, len)
  {
    var (mid, k) := Pieces(out[which], skip, len);
    (Splice(out, which, which + 1, mid), which + k)
  }

  lemma PiecesCover(b: Block, skip: nat, len: nat, a: int)
    requires 0 < len && skip + len <= b.sz
    ensures Covered(Pieces(b, skip, len).0, a) <==> b.Has(a)
  {
    hide Covered;
    var left := if skip == 0 then [] else [Block(b.iova, skip)];
    var mid := [Block(b.iova + skip, len)];
    var right := if skip + len == b.sz then [] else [Block(b.iova + skip + len, b.sz - skip - len)];
    CoveredConcat(left + mid, right, a);
    CoveredConcat(left, mid, a);
    CoveredNone(a);
    CoveredOne(Block(b.iova, skip), a);
    CoveredOne(mid[0], a);
    if right != [] {
      CoveredOne(right[0], a);
    }
  }

  lemma PiecesGood(b: Block, skip: nat, len: nat)
    requires GoodRange(b.iova, b.sz) && 0 < len && skip % PAGE == 0 && len % PAGE == 0 && skip + len <= b.sz
    ensures Good(Pieces(b, skip, len).0, b.iova, b.End())
  {
    RangeCut(b.iova, b.sz, skip);
    if skip + len < b.sz {
      RangeCut(b.iova + skip, b.sz - skip, len);
    }
    hide GoodRange;
  }

  lemma CarveKeepsPartition(free: seq<Block>, out: seq<Block>, which: nat, skip: nat, len: nat, lo: nat, hi: nat)
    requires Partition(free, out, lo, hi) && IsPart(out, which, skip, len)
    ensures Partition(free, Carve(out, which, skip, len).0, lo, hi)
  {
    var b, cut := out[which], Carve(out, which, skip, len).0;
    var mid := Pieces(b, skip, len).0;
    PiecesGood(b, skip, len);
    hide GoodRange, Pieces;
    forall a: int ensures Owned(free, cut, lo, hi, a) {
      hide Covered, Splice;
      assert Owned(free, out, lo, hi, a);
      CoveredSplice(out, which, which + 1, mid, a);
      assert out[which..which + 1] == [b];
      CoveredOne(b, a);
      PiecesCover(b, skip, len, a);
    }
    CarvedApart(out, which, mid);
  }

  /** Pieces of a range are as far from the others as the range. */
  lemma CarvedApart(out: seq<Block>, which: nat, mid: seq<Block>)
    requires Apart(out) && which < |out| && Good(mid, out[which].iova, out[which].End())
    requires forall i | 0 <= i < |out| :: GoodRange(out[i].iova, out[i].sz)
    ensures var cut := Splice(out, which, which + 1, mid);
            Apart(cut) && forall i | 0 <= i < |cut| :: GoodRange(cut[i].iova, cut[i].sz)
  {
    hide GoodRange;
    var cut, n := Splice(out, which, which + 1, mid), |mid|;
    forall k | 0 <= k < |cut|
      ensures cut[k] == if k < which then out[k] else if k < which + n then mid[k - which] else out[k - n + 1]
    {
    }
  }

  /** Arguments are 64-bit words. */
  predicate Callable(op: Op) {
    match op
    case AllocOp(size) => size < U64
    case ReserveOp(iova, sz, _) => iova < U64 && sz < U64
    case FreeOp(_, _, _) => true
  }

  /** A run ends when a free panics, or with a reservation that is accepted although its end wraps around 2^64. */
  datatype Fate = Going | Panicked | Wrapped

  /** The free blocks, the ranges handed out, and whether the run goes on. */
  datatype State = State(free: seq<Block>, out: seq<Block>, fate: Fate)

  /** An outstanding range given back. */
  function Freed(s: State, which: nat): (s': State)
    requires which < |s.out|
  {
    match IovaList.Free(s.free, s.out[which].iova, s.out[which].sz)
    case None => s.(fate := Panicked)
    case Some(free) => State(free, s.out[..which] + s.out[which + 1..], Going)
  }

  /** One call. */
  function After(s: State, op: Op): (s': State) {
    if s.fate != Going then s
    else
      match op
      case AllocOp(size) =>
        var (free, r) := IovaList.Alloc(s.free, PageUp(size));
        State(free, if r != 0 && PageUp(size) > 0 then s.out + [Block(r, PageUp(size))] else s.out, Going)
      case ReserveOp(iova, sz, room) =>
        var (i, n) := Adjusted(iova, sz);
        var (free, ok) := IovaList.Reserve(s.free, i, n, room);
        State(free, if ok && n > 0 then s.out + [Block(i, n)] else s.out, if ok && i + n >= U64 then Wrapped else Going)
      case FreeOp(which, skip, len) =>
        if !IsPart(s.out, which, skip, len) then s
        else
          var (out, k) := Carve(s.out, which, skip, len);
          Freed(s.(out := out), k)
  }

  function Play(lo: nat, hi: nat, ops: seq<Op>): (s: State)
    requires lo <= hi
  {
    if ops == [] then State([Block(lo, hi - lo)], [], Going)
    else After(Play(lo, hi, ops[..|ops| - 1]), ops[|ops| - 1])
  }

  /** What every call keeps, up to a reservation that wraps. */
  ghost predicate Kept(s: State, lo: nat, hi: nat) {
    s.fate == Wrapped || (Good(s.free, lo, hi) && Partition(s.free, s.out, lo, hi))
  }

  /** The list is not empty, and every free block starts below the end of `b`. */
  ghost predicate StuckAbove(free: seq<Block>, b: Block) {
    free != [] && forall k | 0 <= k < |free| :: free[k].iova < b.End()
  }

  lemma AllocKeeps(s: State, size: nat, lo: nat, hi: nat)
    requires Kept(s, lo, hi) && 0 < lo && size < U64
    ensures Kept(After(s, AllocOp(size)), lo, hi)
  {
    hide Good, Partition, GoodRange, PageUp, LeavesFreeSet, IovaList.Alloc;
    if s.fate != Going {
      return;
    }
    var sz := PageUp(size);
    PageUpHonest(size);
    AllocGood(s.free, size, lo, hi);
    var (free, r) := IovaList.Alloc(s.free, sz);
    if sz == 0 {
      if s.free != [] {
        GoodAt(s.free, 0, lo, hi);
        RangeNonEmpty(s.free[0].iova, s.free[0].sz);
      }
      AllocNothing(s.free);
    } else {
      AllocTakesLowestFit(s.free, sz, lo, hi);
      if r != 0 {
        forall a: int ensures LeavesFreeSet(s.free, free, r, sz, a) {
          AllocLeaves(s.free, sz, lo, hi, a);
        }
        TakeKeepsPartition(s.free, free, s.out, Block(r, sz), lo, hi);
      }
    }
  }

  lemma AllocLeaves(bs: seq<Block>, sz: nat, lo: nat, hi: nat, a: int)
    requires Good(bs, lo, hi) && lo > 0 && sz > 0 && IovaList.Alloc(bs, sz).1 != 0
    ensures LeavesFreeSet(bs, IovaList.Alloc(bs, sz).0, IovaList.Alloc(bs, sz).1, sz, a)
  {
    hide Good, Covered;
    AllocFreeSet(bs, sz, lo, hi, a);
  }

  lemma ReserveKeeps(s: State, op: Op, lo: nat, hi: nat)
    requires Kept(s, lo, hi) && op.ReserveOp? && Callable(op)
    ensures Kept(After(s, op), lo, hi)
  {
    AdjustedAligned(op.iova, op.sz);
    var (i, n) := Adjusted(op.iova, op.sz);
    hide Good, Partition, LeavesFreeSet, Adjusted, IovaList.Reserve, GoodRange;
    var (free, ok) := IovaList.Reserve(s.free, i, n, op.room);
    if s.fate != Going || (ok && i + n >= U64) {
      return;
    }
    if ok {
      ReserveKeepsGood(s.free, i, n, op.room, lo, hi);
      forall a: int ensures LeavesFreeSet(s.free, free, i, n, a) {
        ReserveFreeSet(s.free, i, n, op.room, lo, hi, a);
      }
      if n > 0 {
        AlignedRange(i, n);
        TakeKeepsPartition(s.free, free, s.out, Block(i, n), lo, hi);
      } else {
        ReserveNothing(s.free, i, op.room);
      }
    } else {
      RefusedChangesNothing(s.free, i, n, op.room);
    }
  }

  lemma AlignedRange(i: nat, n: nat)
    requires i % PAGE == 0 && n % PAGE == 0 && n > 0
    ensures GoodRange(i, n)
  {
  }

  lemma ReserveNothing(bs: seq<Block>, iova: nat, room: bool)
    ensures IovaList.Reserve(bs, iova, 0, room) == (bs, true)
  {
  }

  lemma RefusedChangesNothing(bs: seq<Block>, iova: nat, sz: nat, room: bool)
    requires !IovaList.Reserve(bs, iova, sz, room).1
    ensures IovaList.Reserve(bs, iova, sz, room).0 == bs
  {
  }

  lemma FreeKeeps(s: State, op: Op, lo: nat, hi: nat)
    requires Kept(s, lo, hi) && hi < U64 && op.FreeOp?
    ensures Kept(After(s, op), lo, hi)
  {
    hide Good, Partition, Carve, Freed;
    if s.fate == Going && IsPart(s.out, op.which, op.skip, op.len) {
      var (out, k) := Carve(s.out, op.which, op.skip, op.len);
      CarveKeepsPartition(s.free, s.out, op.which, op.skip, op.len, lo, hi);
      FreedKeeps(s.(out := out), k, lo, hi);
    }
  }

  lemma FreedKeeps(s: State, which: nat, lo: nat, hi: nat)
    requires Kept(s, lo, hi) && hi < U64 && which < |s.out| && s.fate == Going
    ensures Kept(Freed(s, which), lo, hi)
  {
    var b := s.out[which];
    assert GoodRange(b.iova, b.sz);
    hide Good, Partition, GoodRange, IovaList.Free;
    RangeNonEmpty(b.iova, b.sz);
    OutstandingIsFreeable(s.free, s.out, which, lo, hi);
    var r := IovaList.Free(s.free, b.iova, b.sz);
    if r.Some? {
      FreeKeepsGood(s.free, b.iova, b.sz, lo, hi);
      forall a: int ensures Covered(r.value, a) <==> Covered(s.free, a) || b.Has(a) {
        FreeFreeSet(s.free, b.iova, b.sz, lo, hi, a);
      }
      GiveKeepsPartition(s.free, r.value, s.out, which, lo, hi);
    }
  }

  /** Over every run: the free list stays good, and every address of the domain is free or handed out. */
  lemma {:induction false} AlwaysKept(lo: nat, hi: nat, ops: seq<Op>)
    requires 0 < lo < hi < U64 && GoodRange(lo, hi - lo) && forall op | op in ops :: Callable(op)
    ensures Kept(Play(lo, hi, ops), lo, hi)
    decreases |ops|
  {
    hide Kept, After, Callable, GoodRange;
    if ops == [] {
      StartKept(lo, hi);
    } else {
      var before, op := ops[..|ops| - 1], ops[|ops| - 1];
      AlwaysKept(lo, hi, before);
      assert op in ops;
      StepKept(Play(lo, hi, before), op, lo, hi);
    }
  }

  lemma StepKept(s: State, op: Op, lo: nat, hi: nat)
    requires Kept(s, lo, hi) && 0 < lo && hi < U64 && Callable(op)
    ensures Kept(After(s, op), lo, hi)
  {
    hide Kept, After;
    match op {
      case AllocOp(size) => AllocKeeps(s, size, lo, hi);
      case ReserveOp(_, _, _) => ReserveKeeps(s, op, lo, hi);
      case FreeOp(_, _, _) => FreeKeeps(s, op, lo, hi);
    }
  }

  lemma StartKept(lo: nat, hi: nat)
    requires lo < hi && GoodRange(lo, hi - lo)
    ensures Kept(State([Block(lo, hi - lo)], [], Going), lo, hi)
  {
    var free := [Block(lo, hi - lo)];
    hide GoodRange;
    GoodOne(free[0], lo, hi);
    forall a: int ensures Owned(free, [], lo, hi, a) {
      CoveredOne(free[0], a);
    }
  }

  /** A free panics exactly when there are free blocks and all of them start below the end of the range. */
  lemma PanicsExactly(s: State, op: Op, lo: nat, hi: nat)
    requires Kept(s, lo, hi) && hi < U64 && s.fate == Going && op.FreeOp?
    ensures After(s, op).fate == Panicked <==>
              && IsPart(s.out, op.which, op.skip, op.len)
              && StuckAbove(s.free, Part(s.out, op.which, op.skip, op.len))
  {
    hide Good, Partition, GoodRange, IovaList.Free, Wrap, Disjoint, Carve;
    if IsPart(s.out, op.which, op.skip, op.len) {
      var (out, k) := Carve(s.out, op.which, op.skip, op.len);
      CarveKeepsPartition(s.free, s.out, op.which, op.skip, op.len, lo, hi);
      OutstandingIsFreeable(s.free, out, k, lo, hi);
      Small(out[k].End());
      FreeReturnsExactly(s.free, out[k].iova, out[k].sz);
    }
  }

  lemma PlayStep(lo: nat, hi: nat, ops: seq<Op>, op: Op)
    requires lo <= hi
    ensures Play(lo, hi, ops + [op]) == After(Play(lo, hi, ops), op)
  {
    hide After;
    assert (ops + [op])[..|ops + [op]| - 1] == ops;
  }

  /** Any sequence of calls on a new domain, with whole pages of any outstanding range freed at any time: the list, the
      ranges handed out and the end of the run are those of the list functions, and free plus outstanding is exactly
      the domain unless the run ended with a reservation that wrapped. */
  method Run(base: nat, limit: nat, ops: seq<Op>) returns (free: seq<Block>, out: seq<Block>, fate: Fate)
    requires limit < U64 && base % SZ_32M == 0 && limit % PAGE == 0 && limit > if base > 0 then base else PAGE
    requires forall op | op in ops :: Callable(op)
    ensures var lo := if base > 0 then base else PAGE;
            && State(free, out, fate) == Play(lo, limit, ops)
            && (fate != Wrapped ==> Good(free, lo, limit) && Partition(free, out, lo, limit))
  {
    hide Domain.Contents, Good, Partition, GoodRange, Chained, PageUp, Blocks, Adjusted, Play, Callable;
    hide IovaList.Alloc, IovaList.Reserve, IovaList.Free;
    var dom := new Domain(base, limit);
    out, fate := [], Going;
    ghost var lo := dom.First();
    FirstRange(base, limit);
    PlayNothing(lo, limit);
    for i := 0 to |ops|
      invariant dom.Linked() && (fate != Wrapped ==> dom.Valid())
      invariant fresh(dom) && fresh(dom.nodes) && dom.First() == lo && dom.limit == limit
      invariant State(dom.Contents(), out, fate) == Play(lo, limit, ops[..i])
    {
      var op := ops[i];
      assert op in ops && ops[..i + 1] == ops[..i] + [op];
      assert forall x | x in ops[..i] :: x in ops;
      PlayStep(lo, limit, ops[..i], op);
      AlwaysKept(lo, limit, ops[..i]);
      if fate == Going {
        out, fate := Perform(dom, op, out);
      }
      assert forall k | 0 <= k < |dom.nodes| :: dom.nodes[k] in dom.nodes;
    }
    assert ops[..|ops|] == ops;
    AlwaysKept(lo, limit, ops);
    free := dom.Snapshot();
  }

  lemma PlayNothing(lo: nat, hi: nat)
    requires lo <= hi
    ensures Play(lo, hi, []) == State([Block(lo, hi - lo)], [], Going)
  {
  }

  method Perform(dom: Domain, op: Op, out: seq<Block>) returns (out': seq<Block>, fate: Fate)
    requires dom.Valid() && Callable(op) && Kept(State(dom.Contents(), out, Going), dom.First(), dom.limit)
    modifies dom, dom.nodes
    ensures dom.Linked() && (fate != Wrapped ==> dom.Valid())
    ensures forall n | n in dom.nodes :: n in old(dom.nodes) || fresh(n)
    ensures State(dom.Contents(), out', fate) == After(State(old(dom.Contents()), out, Going), op)
  {
    hide Domain.Contents, Good, GoodRange, Partition, Chained, PageUp, PageDown, Blocks, Wrap, Carve;
    hide IovaList.Alloc, IovaList.Reserve, IovaList.Free;
    out', fate := out, Going;
    match op {
      case AllocOp(size) =>
        var r := dom.Alloc(size);
        var sz := PageUp(size);
        out' := if r != 0 && sz > 0 then out + [Block(r, sz)] else out;
      case ReserveOp(iova, sz, room) =>
        var ok := dom.Reserve(iova, sz, room);
        var (i, n) := Adjusted(iova, sz);
        out' := if ok && n > 0 then out + [Block(i, n)] else out;
        fate := if ok && i + n >= U64 then Wrapped else Going;
      case FreeOp(which, skip, len) =>
        if IsPart(out, which, skip, len) {
          var (cut, k) := Carve(out, which, skip, len);
          CarveKeepsPartition(dom.Contents(), out, which, skip, len, dom.First(), dom.limit);
          OutstandingRange(dom.Contents(), cut, k, dom.First(), dom.limit);
          GoodWords(dom.Contents(), dom.First(), dom.limit);
          var ok := dom.Free(cut[k].iova, cut[k].sz);
          fate := if ok then Going else Panicked;
          out' := if ok then cut[..k] + cut[k + 1..] else cut;
        }
    }
  }

  lemma OutstandingRange(free: seq<Block>, out: seq<Block>, which: nat, lo: nat, hi: nat)
    requires Partition(free, out, lo, hi) && Good(free, lo, hi) && hi < U64 && which < |out| && 0 < lo
    ensures var b := out[which];
            && b.iova < U64 && b.sz < U64 && PageUp(b.sz) == b.sz
            && Outstanding(free, b.iova, b.sz, lo, hi)
  {
    var b := out[which];
    assert GoodRange(b.iova, b.sz);
    OutstandingIsFreeable(free, out, which, lo, hi);
    hide Partition, Good;
    PageUpExact(b.sz);
  }

  lemma PageUpExact(sz: nat)
    requires sz % PAGE == 0 && sz + PAGE <= U64
    ensures PageUp(sz) == sz
  {
    PageUpHonest(sz);
    hide PageUp;
    assert PageUp(sz) / PAGE == sz / PAGE;
  }

  // ---------------------------------------------------------------------- where the 64-bit code falls short

  /** An allocation that succeeds takes all of the bytes asked for, exactly when the size is not in
      the last page of the 64-bit range: such a size is rounded to 0 and takes nothing. */
  lemma AllocTakesWhatIsAsked(bs: seq<Block>, size: nat, lo: nat, hi: nat)
    requires Good(bs, lo, hi) && 0 < lo && hi < U64 && 0 < size < U64
    requires IovaList.Alloc(bs, PageUp(size)).1 != 0
    ensures var (bs', r) := IovaList.Alloc(bs, PageUp(size));
            (forall a: int | r <= a < r + size :: Covered(bs, a) && !Covered(bs', a)) <==> size + PAGE <= U64
  {
    var (bs', r) := IovaList.Alloc(bs, PageUp(size));
    PageUpHonest(size);
    if size + PAGE <= U64 {
      forall a: int | r <= a < r + size ensures Covered(bs, a) && !Covered(bs', a) {
        AllocFreeSet(bs, PageUp(size), lo, hi, a);
      }
    } else {
      GoodAt(bs, 0, lo, hi);
      AllocNothing(bs);
      assert bs[0].Has(r) && Covered(bs', r);
    }
  }

  /** All of the address space asked for: one page is free, the call succeeds, and the page stays free. */
  lemma AllocOfEverything()
    ensures IovaList.Alloc([Block(PAGE, PAGE)], PageUp(U64 - 1)) == ([Block(PAGE, PAGE)], PAGE)
  {
    PageUpHonest(U64 - 1);
    hide PageUp;
    AllocNothing([Block(PAGE, PAGE)]);
  }

  /** The address and the size of a reservation are rounded on their own.  The rounded range starts at or before
      the request exactly when that is not in page 0, and reaches its end exactly when the address is no
      further into its page than the size falls short of whole pages, or when nothing is asked for in page 0
      and the size underflows. */
  lemma ReserveReachesRequest(iova: nat, sz: nat)
    requires iova + sz + PAGE <= U64
    ensures var (i, n) := Adjusted(iova, sz);
            && (i <= iova <==> PAGE <= iova)
            && (iova + sz <= i + n <==>
                  iova % PAGE <= (PAGE - sz % PAGE) % PAGE || (iova < PAGE && sz == 0))
    ensures Adjusted(0x7fff, 2) == (0x4000, 0x4000)
  {
    hide Wrap;
    RoundedSize(sz);
    RoundedStart(iova);
    if iova < PAGE {
      if sz == 0 {
        Small(U64 - PAGE);
      } else {
        Wraps(PageUp(sz) + U64 - PAGE);
      }
    }
    Small(2 + (PAGE - 1));
  }

  /** The rounded range is whole pages and no more than rounding needs; in page 0 it starts a page later. */
  lemma AdjustedTight(iova: nat, sz: nat)
    requires sz + PAGE <= U64
    ensures var (i, n) := Adjusted(iova, sz);
            && i % PAGE == 0 && n % PAGE == 0
            && (iova >= PAGE ==> i <= iova < i + PAGE && sz <= n < sz + PAGE)
            && (iova < PAGE && sz > 0 ==> i == PAGE && sz <= n + PAGE < sz + PAGE)
  {
    hide Wrap;
    RoundedSize(sz);
    RoundedStart(iova);
    PageUpHonest(sz);
    PageDownBounds(iova);
    if iova < PAGE && sz > 0 {
      Wraps(PageUp(sz) + U64 - PAGE);
    } else if iova < PAGE {
      Small(U64 - PAGE);
    }
  }

  /** Whole pages outside page 0 are taken as they are. */
  lemma AlreadyAdjusted(iova: nat, sz: nat)
    requires iova >= PAGE && iova % PAGE == 0 && sz % PAGE == 0 && sz + PAGE <= U64
    ensures Adjusted(iova, sz) == (iova, sz)
  {
    RoundedSize(sz);
    RoundedStart(iova);
  }

  lemma RoundedSize(sz: nat)
    requires sz + PAGE <= U64
    ensures PageUp(sz) == sz + (PAGE - sz % PAGE) % PAGE && (sz > 0 ==> PageUp(sz) >= PAGE)
  {
    hide Wrap;
    Small(sz + (PAGE - 1));
    var q, r := sz / PAGE, sz % PAGE;
    assert sz == q * PAGE + r;
    if r == 0 {
      assert (PAGE - r) % PAGE == 0;
      assert (sz + (PAGE - 1)) % PAGE == PAGE - 1;
    } else {
      assert (PAGE - r) % PAGE == PAGE - r;
      assert (sz + (PAGE - 1)) % PAGE == r - 1;
    }
  }

  lemma RoundedStart(iova: nat)
    ensures PageDown(iova) == iova - iova % PAGE && (PageDown(iova) == 0 <==> iova < PAGE)
  {
  }

  /** Reserving nothing at address 0 of a new domain underflows the size and makes page 0, which must
      never be handed out, free. */
  lemma ReservingNothingFreesPageZero(limit: nat)
    requires PAGE < limit < U64
    ensures var (i, n) := Adjusted(0, 0);
            var (bs, ok) := IovaList.Reserve([Block(PAGE, limit - PAGE)], i, n, false);
            ok && bs == [Block(0, limit)] && IovaList.Alloc(bs, PAGE).1 == 0
  {
    var b := Block(PAGE, limit - PAGE);
    assert FirstHolding([b], PAGE, 0) == 0;
    LeftOver(b, PAGE, U64 - PAGE);
    assert Splice([b], 0, 1, [Block(0, limit)]) == [Block(0, limit)];
    assert FirstFit([Block(0, limit)], PAGE, 0) == 0;
  }
}
