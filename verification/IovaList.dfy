/** The free list of `src/iova.c` as a sequence of blocks: what reserving, allocating and freeing do
    to it, and what that means for the set of free addresses. */
module IovaList {
  import opened Sequences
  import opened Wrappers

  const U64 := 0x1_0000_0000_0000_0000
  const PAGE := 0x4000

  /** 64-bit arithmetic. */
  function Wrap(x: nat): (r: nat)
    ensures r < U64
  {
    x % U64
  }

  lemma Small(x: nat)
    requires x < U64
    ensures Wrap(x) == x
  {
  }

  lemma Wraps(x: nat)
    requires U64 <= x < 2 * U64
    ensures Wrap(x) == x - U64
  {
  }

  datatype Block = Block(iova: nat, sz: nat) {
    function End(): nat { iova + sz }
    predicate Has(a: int) { iova <= a < iova + sz }
  }

  predicate GoodRange(iova: nat, sz: nat) {
    sz > 0 && sz % PAGE == 0 && iova % PAGE == 0
  }

  /** Sorted, disjoint, non-empty, page-aligned blocks inside `[lo, hi)`. */
  ghost predicate Good(bs: seq<Block>, lo: nat, hi: nat) {
    && (forall i | 0 <= i < |bs| :: lo <= bs[i].iova && bs[i].End() <= hi && GoodRange(bs[i].iova, bs[i].sz))
    && (forall i, j | 0 <= i < j < |bs| :: bs[i].End() <= bs[j].iova)
  }

  ghost predicate Covered(bs: seq<Block>, a: int) {
    exists i :: 0 <= i < |bs| && bs[i].Has(a)
  }

  /** Page-aligned ranges are cut and joined into page-aligned ranges. */
  lemma RangeCut(iova: nat, sz: nat, n: nat)
    requires GoodRange(iova, sz) && n % PAGE == 0 && n < sz
    ensures GoodRange(iova + n, sz - n) && (n > 0 ==> GoodRange(iova, n))
  {
  }

  lemma RangeJoin(iova: nat, m: nat, n: nat)
    requires GoodRange(iova, m) && GoodRange(iova + m, n)
    ensures GoodRange(iova, m + n)
  {
  }

  lemma GoodNone(lo: nat, hi: nat)
    ensures Good([], lo, hi)
  {
  }

  lemma GoodOne(b: Block, lo: nat, hi: nat)
    requires GoodRange(b.iova, b.sz) && lo <= b.iova && b.End() <= hi
    ensures Good([b], lo, hi)
  {
  }

  lemma GoodTwo(b: Block, c: Block, lo: nat, hi: nat)
    requires GoodRange(b.iova, b.sz) && GoodRange(c.iova, c.sz) && lo <= b.iova && b.End() <= c.iova && c.End() <= hi
    ensures Good([b, c], lo, hi)
  {
  }

  /** The facts about one block of a good list, and about its neighbours. */
  lemma GoodAt(bs: seq<Block>, k: nat, lo: nat, hi: nat)
    requires Good(bs, lo, hi) && k < |bs|
    ensures GoodRange(bs[k].iova, bs[k].sz) && lo <= bs[k].iova && bs[k].End() <= hi
    ensures Floor(bs, k, lo) <= bs[k].iova && bs[k].End() <= Ceiling(bs, k + 1, hi)
    ensures k > 0 ==> GoodRange(bs[k - 1].iova, bs[k - 1].sz) && Floor(bs, k - 1, lo) <= bs[k - 1].iova
    ensures lo <= Floor(bs, k, lo)
  {
    hide GoodRange;
  }

  // ---------------------------------------------------------------------- replacing a stretch of the list

  function Floor(bs: seq<Block>, i: nat, lo: nat): nat
    requires i <= |bs|
  {
    if i == 0 then lo else bs[i - 1].End()
  }

  function Ceiling(bs: seq<Block>, j: nat, hi: nat): nat
    requires j <= |bs|
  {
    if j == |bs| then hi else bs[j].iova
  }

  lemma GoodSplice(bs: seq<Block>, i: nat, j: nat, mid: seq<Block>, lo: nat, hi: nat)
    requires Good(bs, lo, hi) && i <= j <= |bs| && Good(mid, Floor(bs, i, lo), Ceiling(bs, j, hi))
    ensures Good(Splice(bs, i, j, mid), lo, hi)
  {
    hide GoodRange, Block.Has;
    var r := Splice(bs, i, j, mid);
    var n := |mid|;
    forall k | 0 <= k < |r|
      ensures lo <= r[k].iova && r[k].End() <= hi && GoodRange(r[k].iova, r[k].sz)
      ensures k < i ==> r[k] == bs[k] && r[k].End() <= Floor(bs, i, lo)
      ensures i <= k < i + n ==> r[k] == mid[k - i]
      ensures i + n <= k ==> r[k] == bs[k - n - i + j] && Ceiling(bs, j, hi) <= r[k].iova
    {
    }
  }

  lemma CoveredConcat(x: seq<Block>, y: seq<Block>, a: int)
    ensures Covered(x + y, a) <==> Covered(x, a) || Covered(y, a)
  {
    if Covered(x, a) {
      var i :| 0 <= i < |x| && x[i].Has(a);
      assert (x + y)[i].Has(a);
    }
    if Covered(y, a) {
      var i :| 0 <= i < |y| && y[i].Has(a);
      assert (x + y)[|x| + i].Has(a);
    }
  }

  lemma CoveredNone(a: int)
    ensures !Covered([], a)
  {
  }

  lemma CoveredOne(b: Block, a: int)
    ensures Covered([b], a) <==> b.Has(a)
  {
    if b.Has(a) {
      assert [b][0].Has(a);
    }
  }

  /** The parts of the list before, at and after a stretch. */
  lemma CoveredSplice(bs: seq<Block>, i: nat, j: nat, mid: seq<Block>, a: int)
    requires i <= j <= |bs|
    ensures Covered(bs, a) <==> Covered(bs[..i], a) || Covered(bs[i..j], a) || Covered(bs[j..], a)
    ensures Covered(Splice(bs, i, j, mid), a) <==> Covered(bs[..i], a) || Covered(mid, a) || Covered(bs[j..], a)
  {
    hide Covered;
    assert bs == bs[..i] + bs[i..j] + bs[j..];
    CoveredConcat(bs[..i], bs[i..j], a);
    CoveredConcat(bs[..i] + bs[i..j], bs[j..], a);
    CoveredConcat(bs[..i], mid, a);
    CoveredConcat(bs[..i] + mid, bs[j..], a);
  }

  lemma CoveredOnce(bs: seq<Block>, k: nat, lo: nat, hi: nat, a: int)
    requires Good(bs, lo, hi) && k < |bs| && bs[k].Has(a)
    ensures !Covered(bs[..k], a) && !Covered(bs[k + 1..], a)
  {
  }

  // ---------------------------------------------------------------------- alloc

  function FirstFit(bs: seq<Block>, sz: nat, k: nat): (r: nat)
    requires k <= |bs|
    ensures k <= r <= |bs| && (r < |bs| ==> bs[r].sz >= sz) && forall j | k <= j < r :: bs[j].sz < sz
    decreases |bs| - k
  {
    if k == |bs| || bs[k].sz >= sz then k else FirstFit(bs, sz, k + 1)
  }

  function Alloc(bs: seq<Block>, sz: nat): (r: (seq<Block>, nat)) {
    var k := FirstFit(bs, sz, 0);
    if k == |bs| then (bs, 0)
    else
      var rest := if bs[k].sz == sz then [] else [Block(bs[k].iova + sz, bs[k].sz - sz)];
      (Splice(bs, k, k + 1, rest), bs[k].iova)
  }

  /** First fit: the returned address starts the lowest block that is large enough, and 0 means that
      no block is large enough. */
  lemma AllocTakesLowestFit(bs: seq<Block>, sz: nat, lo: nat, hi: nat)
    requires Good(bs, lo, hi) && lo > 0 && sz > 0 && sz % PAGE == 0
    ensures var (bs', r) := Alloc(bs, sz);
            && Good(bs', lo, hi)
            && (r == 0 <==> forall k | 0 <= k < |bs| :: bs[k].sz < sz)
            && (r == 0 ==> bs' == bs)
            && (r != 0 ==> exists k :: 0 <= k < |bs| && bs[k].iova == r && bs[k].sz >= sz
                                       && forall j | 0 <= j < k :: bs[j].sz < sz)
            && (r != 0 ==> GoodRange(r, sz) && lo <= r && r + sz <= hi)
  {
    hide GoodRange, Good, Splice, Floor, Ceiling;
    var k := FirstFit(bs, sz, 0);
    if k < |bs| {
      GoodAt(bs, k, lo, hi);
      GoodNone(Floor(bs, k, lo), Ceiling(bs, k + 1, hi));
      if bs[k].sz > sz {
        RangeCut(bs[k].iova, bs[k].sz, sz);
        GoodOne(Block(bs[k].iova + sz, bs[k].sz - sz), Floor(bs, k, lo), Ceiling(bs, k + 1, hi));
      }
      var rest := if bs[k].sz == sz then [] else [Block(bs[k].iova + sz, bs[k].sz - sz)];
      GoodSplice(bs, k, k + 1, rest, lo, hi);
      assert bs[k].iova == Alloc(bs, sz).1;
    }
  }

  /** Exactly the allocated range leaves the free set, and all of it was free. */
  lemma AllocFreeSet(bs: seq<Block>, sz: nat, lo: nat, hi: nat, a: int)
    requires Good(bs, lo, hi) && lo > 0 && sz > 0
    ensures var (bs', r) := Alloc(bs, sz);
            && (Covered(bs', a) <==> Covered(bs, a) && !(r != 0 && r <= a < r + sz))
            && (r != 0 && r <= a < r + sz ==> Covered(bs, a))
  {
    hide Covered, Splice;
    var k := FirstFit(bs, sz, 0);
    CoveredNone(a);
    if k < |bs| {
      var rest := if bs[k].sz == sz then [] else [Block(bs[k].iova + sz, bs[k].sz - sz)];
      CoveredSplice(bs, k, k + 1, rest, a);
      assert bs[k..k + 1] == [bs[k]];
      CoveredOne(bs[k], a);
      if rest != [] {
        CoveredOne(rest[0], a);
      }
      if bs[k].Has(a) {
        CoveredOnce(bs, k, lo, hi, a);
      }
    }
  }

  // ---------------------------------------------------------------------- reserve

  function FirstHolding(bs: seq<Block>, a: nat, k: nat): (r: nat)
    requires k <= |bs|
    ensures k <= r <= |bs| && (r < |bs| ==> bs[r].Has(a)) && forall j | k <= j < r :: !bs[j].Has(a)
    decreases |bs| - k
  {
    if k == |bs| || bs[k].Has(a) then k else FirstHolding(bs, a, k + 1)
  }

  /** What is left of a block around the range from `iova` to `e`. */
  function Around(b: Block, iova: nat, e: nat): (r: seq<Block>)
    requires b.Has(iova) && e < b.End()
  {
    (if iova == b.iova then [] else [Block(b.iova, iova - b.iova)]) + [Block(e, b.End() - e)]
  }

  /** `iova_reserve` after its adjustments of the range, in 64-bit arithmetic; `room` says whether memory for
      another block can be had.  A reservation that reaches the end of its block is refused, so the code
      that would remove a whole block or its tail is never reached. */
  function Reserve(bs: seq<Block>, iova: nat, sz: nat, room: bool): (r: (seq<Block>, bool)) {
    if sz == 0 then (bs, true)
    else
      var k := FirstHolding(bs, iova, 0);
      var e := Wrap(iova + sz);
      if k == |bs| || e >= bs[k].End() || (bs[k].iova != iova && !room) then (bs, false)
      else (Splice(bs, k, k + 1, Around(bs[k], iova, e)), true)
  }

  /** What a reservation promises: the range leaves the free set and nothing else does, or the list
      is as it was. */
  ghost predicate Reserved(bs: seq<Block>, bs': seq<Block>, ok: bool, iova: nat, sz: nat) {
    if ok then forall a: int :: LeavesFreeSet(bs, bs', iova, sz, a) else bs' == bs
  }

  ghost predicate LeavesFreeSet(bs: seq<Block>, bs': seq<Block>, iova: nat, sz: nat, a: int) {
    && (iova <= a < iova + sz ==> Covered(bs, a))
    && (Covered(bs', a) <==> Covered(bs, a) && !(iova <= a < iova + sz))
  }

  lemma AroundIsGood(b: Block, iova: nat, sz: nat, lo: nat, hi: nat)
    requires GoodRange(b.iova, b.sz) && lo <= b.iova && b.End() <= hi
    requires iova % PAGE == 0 && sz % PAGE == 0 && b.Has(iova) && iova + sz < b.End()
    ensures Good(Around(b, iova, iova + sz), lo, hi)
  {
    hide Good;
    assert iova - b.iova == (iova / PAGE - b.iova / PAGE) * PAGE;
    var left, right := Block(b.iova, iova - b.iova), Block(iova + sz, b.End() - (iova + sz));
    RangeCut(b.iova, b.sz, iova - b.iova + sz);
    if iova == b.iova {
      GoodOne(right, lo, hi);
      assert Around(b, iova, iova + sz) == [right];
    } else {
      RangeCut(b.iova, b.sz, iova - b.iova);
      GoodTwo(left, right, lo, hi);
      assert Around(b, iova, iova + sz) == [left, right];
    }
  }

  lemma ReserveKeepsGood(bs: seq<Block>, iova: nat, sz: nat, room: bool, lo: nat, hi: nat)
    requires Good(bs, lo, hi) && iova % PAGE == 0 && sz % PAGE == 0 && iova + sz < U64
    ensures Good(Reserve(bs, iova, sz, room).0, lo, hi)
    ensures sz > 0 && Reserve(bs, iova, sz, room).1 ==> lo <= iova && iova + sz < hi
  {
    hide GoodRange, Good, Splice, Floor, Ceiling, Wrap;
    Small(iova + sz);
    var k := FirstHolding(bs, iova, 0);
    if sz > 0 && Reserve(bs, iova, sz, room).1 {
      GoodAt(bs, k, lo, hi);
      var f, c, b := Floor(bs, k, lo), Ceiling(bs, k + 1, hi), bs[k];
      AroundIsGood(b, iova, sz, f, c);
      GoodSplice(bs, k, k + 1, Around(b, iova, iova + sz), lo, hi);
    }
  }

  lemma ReserveFreeSet(bs: seq<Block>, iova: nat, sz: nat, room: bool, lo: nat, hi: nat, a: int)
    requires Good(bs, lo, hi) && iova + sz < U64 && Reserve(bs, iova, sz, room).1
    ensures LeavesFreeSet(bs, Reserve(bs, iova, sz, room).0, iova, sz, a)
  {
    hide Covered, Good, Splice, Around, Wrap;
    Small(iova + sz);
    var k := FirstHolding(bs, iova, 0);
    if sz > 0 {
      CoveredSplice(bs, k, k + 1, Around(bs[k], iova, iova + sz), a);
      assert bs[k..k + 1] == [bs[k]];
      CoveredOne(bs[k], a);
      CoveredAround(bs[k], iova, sz, a);
      if bs[k].Has(a) {
        CoveredOnce(bs, k, lo, hi, a);
      }
    }
  }

  lemma CoveredAround(b: Block, iova: nat, sz: nat, a: int)
    requires b.Has(iova) && iova + sz < b.End()
    ensures Covered(Around(b, iova, iova + sz), a) <==> b.Has(a) && !(iova <= a < iova + sz)
  {
    hide Covered;
    var left, right := Block(b.iova, iova - b.iova), Block(iova + sz, b.End() - (iova + sz));
    CoveredOne(right, a);
    CoveredOne(left, a);
    CoveredConcat([left], [right], a);
    assert iova == b.iova ==> Around(b, iova, iova + sz) == [right];
  }

  /** Some free block holds the range and goes on behind it, and there is memory for another block unless the range
      starts that one. */
  ghost predicate Reservable(bs: seq<Block>, iova: nat, sz: nat, room: bool) {
    exists i :: 0 <= i < |bs| && bs[i].iova <= iova && iova + sz < bs[i].iova + bs[i].sz && (room || bs[i].iova == iova)
  }

  /** When a reservation succeeds. */
  lemma ReserveSucceedsExactly(bs: seq<Block>, iova: nat, sz: nat, room: bool, lo: nat, hi: nat)
    requires Good(bs, lo, hi) && 0 < sz && iova + sz < U64
    ensures Reserve(bs, iova, sz, room).1 <==> Reservable(bs, iova, sz, room)
  {
    hide Wrap, Splice, Around;
    Small(iova + sz);
    var k := FirstHolding(bs, iova, 0);
    if Reservable(bs, iova, sz, room) {
      var i :| 0 <= i < |bs| && bs[i].iova <= iova && iova + sz < bs[i].iova + bs[i].sz && (room || bs[i].iova == iova);
      assert bs[i].Has(iova) && bs[k].Has(iova);
      assert i == k;
    }
  }

  /** A reservation does what it promises exactly when its end does not wrap around 2^64, or its start is not
      free, or it is refused for want of memory. */
  lemma ReserveExact(bs: seq<Block>, iova: nat, sz: nat, room: bool, lo: nat, hi: nat)
    requires Good(bs, lo, hi) && hi < U64 && iova < U64 && 0 < sz < U64
    ensures Reserved(bs, Reserve(bs, iova, sz, room).0, Reserve(bs, iova, sz, room).1, iova, sz)
            <==> iova + sz < U64 || !Covered(bs, iova) || (!room && !StartsBlock(bs, iova))
  {
    var (bs', ok) := Reserve(bs, iova, sz, room);
    var k := FirstHolding(bs, iova, 0);
    if iova + sz < U64 {
      forall a: int | ok ensures LeavesFreeSet(bs, bs', iova, sz, a) {
        ReserveFreeSet(bs, iova, sz, room, lo, hi, a);
      }
    } else if Covered(bs, iova) {
      OnlyStart(bs, iova, k, lo, hi);
      Wraps(iova + sz);
      if room || StartsBlock(bs, iova) {
        assert ok;
        assert !Covered(bs, U64 - 1);
        assert !LeavesFreeSet(bs, bs', iova, sz, U64 - 1);
      }
    }
  }

  /** A block starts here. */
  ghost predicate StartsBlock(bs: seq<Block>, iova: nat) {
    exists i :: 0 <= i < |bs| && bs[i].iova == iova
  }

  lemma OnlyStart(bs: seq<Block>, iova: nat, k: nat, lo: nat, hi: nat)
    requires Good(bs, lo, hi) && Covered(bs, iova) && k == FirstHolding(bs, iova, 0)
    ensures k < |bs| && (StartsBlock(bs, iova) <==> bs[k].iova == iova)
  {
    if StartsBlock(bs, iova) {
      var i :| 0 <= i < |bs| && bs[i].iova == iova;
      assert bs[i].Has(iova);
    }
  }

  // ---------------------------------------------------------------------- free

  /** The first block that starts at or above `e`. */
  function FirstAbove(bs: seq<Block>, e: nat, k: nat): (r: nat)
    requires k <= |bs|
    ensures k <= r <= |bs| && (r < |bs| ==> bs[r].iova >= e) && forall j | k <= j < r :: bs[j].iova < e
    decreases |bs| - k
  {
    if k == |bs| || bs[k].iova >= e then k else FirstAbove(bs, e, k + 1)
  }

  /** `iova_free` in 64-bit arithmetic; `None` is its panic.  A range is joined to the block above it, and then
      also to the block below it, but not to the block below it alone. */
  function Free(bs: seq<Block>, iova: nat, sz: nat): (r: Option<seq<Block>>) {
    if bs == [] then Some([Block(iova, sz)])
    else
      var e := Wrap(iova + sz);
      var k := FirstAbove(bs, e, 0);
      if k == |bs| then None
      else if bs[k].iova > e then Some(Splice(bs, k, k, [Block(iova, sz)]))
      else
        var joined := Wrap(bs[k].sz + sz);
        if k > 0 && Wrap(bs[k - 1].End()) == iova then
          Some(Splice(bs, k - 1, k + 1, [Block(bs[k - 1].iova, Wrap(bs[k - 1].sz + joined))]))
        else Some(Splice(bs, k, k + 1, [Block(iova, joined)]))
  }

  /** Freeing returns exactly when the list is empty or some free block starts at or above the end of
      the range. */
  lemma FreeReturnsExactly(bs: seq<Block>, iova: nat, sz: nat)
    ensures Free(bs, iova, sz).Some? <==> bs == [] || exists k :: 0 <= k < |bs| && bs[k].iova >= Wrap(iova + sz)
  {
  }

  ghost predicate Disjoint(bs: seq<Block>, iova: nat, sz: nat) {
    forall i | 0 <= i < |bs| :: bs[i].End() <= iova || iova + sz <= bs[i].iova
  }

  /** Inside a domain below 2^64 nothing wraps: the four ways a free can go. */
  lemma FreeCases(bs: seq<Block>, iova: nat, sz: nat, lo: nat, hi: nat)
    requires Good(bs, lo, hi) && iova + sz <= hi < U64 && sz > 0 && Free(bs, iova, sz).Some? && bs != []
    ensures var k := FirstAbove(bs, iova + sz, 0);
            && k < |bs|
            && (bs[k].iova > iova + sz ==> Free(bs, iova, sz) == Some(Splice(bs, k, k, [Block(iova, sz)])))
            && (bs[k].iova == iova + sz && k > 0 && bs[k - 1].End() == iova ==>
                  Free(bs, iova, sz) ==
                  Some(Splice(bs, k - 1, k + 1, [Block(bs[k - 1].iova, bs[k - 1].sz + (bs[k].sz + sz))])))
            && (bs[k].iova == iova + sz && !(k > 0 && bs[k - 1].End() == iova) ==>
                  Free(bs, iova, sz) == Some(Splice(bs, k, k + 1, [Block(iova, bs[k].sz + sz)])))
  {
    hide Good, GoodRange, FirstAbove, Splice, Wrap, Floor, Ceiling;
    Small(iova + sz);
    var k := FirstAbove(bs, iova + sz, 0);
    GoodAt(bs, k, lo, hi);
    if bs[k].iova == iova + sz {
      Small(bs[k].sz + sz);
      if k > 0 {
        GoodAt(bs, k - 1, lo, hi);
        Small(bs[k - 1].End());
        if bs[k - 1].End() == iova {
          Small(bs[k - 1].sz + (bs[k].sz + sz));
        }
      }
    }
  }

  lemma FreeKeepsGood(bs: seq<Block>, iova: nat, sz: nat, lo: nat, hi: nat)
    requires Good(bs, lo, hi) && hi < U64 && GoodRange(iova, sz) && lo <= iova && iova + sz <= hi
    requires Disjoint(bs, iova, sz) && Free(bs, iova, sz).Some?
    ensures Good(Free(bs, iova, sz).value, lo, hi)
  {
    hide GoodRange, Good, Splice, FirstAbove, Floor, Free;
    RangeNonEmpty(iova, sz);
    if bs == [] {
      FreeIntoNothing(iova, sz);
      GoodOne(Block(iova, sz), lo, hi);
    } else {
      var k := FirstAbove(bs, iova + sz, 0);
      FreeCases(bs, iova, sz, lo, hi);
      ClearBelow(bs, k, iova, sz, lo);
      hide Disjoint;
      if bs[k].iova > iova + sz {
        InsertKeepsGood(bs, k, iova, sz, lo, hi);
      } else {
        JoinedRange(bs, k, iova, sz, lo, hi);
        if k > 0 && bs[k - 1].End() == iova {
          JoinBothKeepsGood(bs, k, iova, bs[k].sz + sz, lo, hi);
        } else {
          JoinKeepsGood(bs, k, iova, bs[k].sz + sz, lo, hi);
        }
      }
    }
  }

  lemma FreeIntoNothing(iova: nat, sz: nat)
    ensures Free([], iova, sz) == Some([Block(iova, sz)])
  {
  }

  /** The blocks below the first one above a range end below the range. */
  lemma ClearBelow(bs: seq<Block>, k: nat, iova: nat, sz: nat, lo: nat)
    requires Disjoint(bs, iova, sz) && k == FirstAbove(bs, iova + sz, 0) && lo <= iova
    ensures Floor(bs, k, lo) <= iova
  {
    hide FirstAbove;
  }

  lemma RangeNonEmpty(iova: nat, sz: nat)
    requires GoodRange(iova, sz)
    ensures sz > 0
  {
  }

  lemma JoinedRange(bs: seq<Block>, k: nat, iova: nat, sz: nat, lo: nat, hi: nat)
    requires Good(bs, lo, hi) && k < |bs| && GoodRange(iova, sz) && iova + sz == bs[k].iova
    ensures GoodRange(iova, bs[k].sz + sz)
  {
    hide GoodRange, Good;
    GoodAt(bs, k, lo, hi);
    RangeJoin(iova, sz, bs[k].sz);
  }

  lemma InsertKeepsGood(bs: seq<Block>, k: nat, iova: nat, sz: nat, lo: nat, hi: nat)
    requires Good(bs, lo, hi) && k < |bs| && GoodRange(iova, sz) && iova + sz <= bs[k].iova
    requires Floor(bs, k, lo) <= iova
    ensures Good(Splice(bs, k, k, [Block(iova, sz)]), lo, hi)
  {
    hide GoodRange, Good, Splice, Floor;
    GoodAt(bs, k, lo, hi);
    GoodOne(Block(iova, sz), Floor(bs, k, lo), Ceiling(bs, k, hi));
    GoodSplice(bs, k, k, [Block(iova, sz)], lo, hi);
  }

  lemma JoinKeepsGood(bs: seq<Block>, k: nat, iova: nat, n: nat, lo: nat, hi: nat)
    requires Good(bs, lo, hi) && k < |bs| && GoodRange(iova, n) && iova + n == bs[k].End()
    requires Floor(bs, k, lo) <= iova
    ensures Good(Splice(bs, k, k + 1, [Block(iova, n)]), lo, hi)
  {
    hide GoodRange, Good, Splice, Floor, Ceiling;
    GoodAt(bs, k, lo, hi);
    GoodOne(Block(iova, n), Floor(bs, k, lo), Ceiling(bs, k + 1, hi));
    GoodSplice(bs, k, k + 1, [Block(iova, n)], lo, hi);
  }

  lemma JoinBothKeepsGood(bs: seq<Block>, k: nat, iova: nat, n: nat, lo: nat, hi: nat)
    requires Good(bs, lo, hi) && 0 < k < |bs| && GoodRange(iova, n)
    requires bs[k - 1].End() == iova && iova + n == bs[k].End()
    ensures Good(Splice(bs, k - 1, k + 1, [Block(bs[k - 1].iova, bs[k - 1].sz + n)]), lo, hi)
  {
    hide GoodRange, Good, Splice, Floor, Ceiling;
    GoodAt(bs, k, lo, hi);
    var low := bs[k - 1];
    RangeJoin(low.iova, low.sz, n);
    var b := Block(low.iova, low.sz + n);
    GoodOne(b, Floor(bs, k - 1, lo), Ceiling(bs, k + 1, hi));
    GoodSplice(bs, k - 1, k + 1, [b], lo, hi);
  }

  /** Freeing a range of the domain keeps the list good exactly when no byte of the range is free: a range freed
      twice is listed twice. */
  lemma FreeGoodExactly(bs: seq<Block>, iova: nat, sz: nat, lo: nat, hi: nat)
    requires Good(bs, lo, hi) && hi < U64 && GoodRange(iova, sz) && lo <= iova && iova + sz <= hi
    requires Free(bs, iova, sz).Some?
    ensures Good(Free(bs, iova, sz).value, lo, hi) <==> Disjoint(bs, iova, sz)
  {
    hide GoodRange, Free, FirstAbove, Splice, Good;
    if Disjoint(bs, iova, sz) {
      FreeKeepsGood(bs, iova, sz, lo, hi);
    } else {
      RangeNonEmpty(iova, sz);
      OverlapsBelow(bs, iova, sz, lo, hi);
      FreeCases(bs, iova, sz, lo, hi);
      var k, r := FirstAbove(bs, iova + sz, 0), Free(bs, iova, sz).value;
      if bs[k].iova > iova + sz {
        NotGoodSplice(bs, k, k, Block(iova, sz), lo, hi);
      } else {
        NotGoodSplice(bs, k, k + 1, Block(iova, bs[k].sz + sz), lo, hi);
      }
    }
  }

  /** A page freed twice, with a free block above it, is listed twice. */
  lemma FreedTwice()
    ensures var bs := [Block(PAGE, PAGE), Block(4 * PAGE, PAGE)];
            && Good(bs, PAGE, 8 * PAGE)
            && Free(bs, PAGE, PAGE) == Some([Block(PAGE, PAGE), Block(PAGE, PAGE), Block(4 * PAGE, PAGE)])
  {
    var bs := [Block(PAGE, PAGE), Block(4 * PAGE, PAGE)];
    Small(2 * PAGE);
    assert FirstAbove(bs, 2 * PAGE, 0) == 1;
    assert Splice(bs, 1, 1, [Block(PAGE, PAGE)]) == [Block(PAGE, PAGE), Block(PAGE, PAGE), Block(4 * PAGE, PAGE)];
  }

  /** If any block overlaps a range, the last one below its end does. */
  lemma OverlapsBelow(bs: seq<Block>, iova: nat, sz: nat, lo: nat, hi: nat)
    requires Good(bs, lo, hi) && !Disjoint(bs, iova, sz)
    ensures var k := FirstAbove(bs, iova + sz, 0);
            0 < k <= |bs| && bs[k - 1].End() > iova
  {
    hide GoodRange, FirstAbove;
    var k := FirstAbove(bs, iova + sz, 0);
    var i :| 0 <= i < |bs| && !(bs[i].End() <= iova || iova + sz <= bs[i].iova);
    assert i < k - 1 ==> bs[i].End() <= bs[k - 1].iova;
  }

  lemma NotGoodSplice(bs: seq<Block>, k: nat, j: nat, b: Block, lo: nat, hi: nat)
    requires 0 < k <= j <= |bs| && bs[k - 1].End() > b.iova
    ensures !Good(Splice(bs, k, j, [b]), lo, hi)
  {
    hide GoodRange;
    var r := Splice(bs, k, j, [b]);
    assert r[k - 1] == bs[k - 1] && r[k] == b;
  }

  /** Exactly the freed range joins the free set. */
  lemma FreeFreeSet(bs: seq<Block>, iova: nat, sz: nat, lo: nat, hi: nat, a: int)
    requires Good(bs, lo, hi) && iova + sz <= hi < U64 && sz > 0 && Free(bs, iova, sz).Some?
    ensures Covered(Free(bs, iova, sz).value, a) <==> Covered(bs, a) || iova <= a < iova + sz
  {
    hide Covered, Splice, Good, FirstAbove, Free, Wrap;
    CoveredNone(a);
    CoveredOne(Block(iova, sz), a);
    FreeIntoNothing(iova, sz);
    if bs != [] {
      var k := FirstAbove(bs, iova + sz, 0);
      FreeCases(bs, iova, sz, lo, hi);
      CoveredOne(bs[k], a);
      assert bs[k..k + 1] == [bs[k]] && bs[k..k] == [];
      if bs[k].iova > iova + sz {
        CoveredSplice(bs, k, k, [Block(iova, sz)], a);
      } else if k > 0 && bs[k - 1].End() == iova {
        CoveredJoin(bs, k, iova, sz, a);
      } else {
        CoveredSplice(bs, k, k + 1, [Block(iova, bs[k].sz + sz)], a);
        CoveredOne(Block(iova, bs[k].sz + sz), a);
      }
    }
  }

  lemma CoveredJoin(bs: seq<Block>, k: nat, iova: nat, sz: nat, a: int)
    requires 0 < k < |bs| && bs[k - 1].End() == iova && iova + sz == bs[k].iova
    ensures Covered(Splice(bs, k - 1, k + 1, [Block(bs[k - 1].iova, bs[k - 1].sz + (bs[k].sz + sz))]), a)
            <==> Covered(bs, a) || iova <= a < iova + sz
  {
    hide Covered, Splice;
    var b := Block(bs[k - 1].iova, bs[k - 1].sz + (bs[k].sz + sz));
    CoveredSplice(bs, k - 1, k + 1, [b], a);
    assert bs[k - 1..k + 1] == [bs[k - 1]] + [bs[k]];
    CoveredConcat([bs[k - 1]], [bs[k]], a);
    CoveredOne(bs[k], a);
    CoveredOne(bs[k - 1], a);
    CoveredOne(b, a);
  }
}
