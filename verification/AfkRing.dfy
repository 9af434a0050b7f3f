/** The shared-memory record ring of `src/afk.c`: one producer, one consumer, records padded to a
    block, and the header written twice when a record does not fit above the write pointer.
    Every step of the producer and of the consumer is a method of its own, so that a script
    of steps is an interleaving of the two processors. */
module AfkRing {
  import opened Align
  import opened Sequences
  import opened Wrappers

  newtype byte = x: int | 0 <= x < 256
  type u32 = x: int | 0 <= x < 0x1_0000_0000

  const HDR := 16
  const QE_MAGIC: u32 := 0x20504F49

  // ---------------------------------------------------------------------- records as bytes

  datatype Record = Record(channel: u32, kind: u32, data: seq<byte>)

  function Le32(v: u32): (s: seq<byte>)
    ensures |s| == 4
  {
    [(v % 256) as byte, (v / 256 % 256) as byte, (v / 0x10000 % 256) as byte, (v / 0x1000000) as byte]
  }

  function Get32(s: seq<byte>, p: nat): (v: u32)
    requires p + 4 <= |s|
  {
    s[p] as int + 256 * (s[p + 1] as int) + 0x10000 * (s[p + 2] as int) + 0x1000000 * (s[p + 3] as int)
  }

  predicate Fits(r: Record, size: nat) {
    HDR <= size < 0x1_0000_0000 && |r.data| <= size - HDR
  }

  function HeaderBytes(r: Record): (s: seq<byte>)
    requires |r.data| < 0x1_0000_0000
    ensures |s| == HDR
  {
    Le32(QE_MAGIC) + Le32(|r.data|) + Le32(r.channel) + Le32(r.kind)
  }

  ghost predicate HeaderAt(b: seq<byte>, p: nat, r: Record)
    requires |r.data| < 0x1_0000_0000
  {
    p + HDR <= |b| && b[p..p + HDR] == HeaderBytes(r)
  }

  ghost predicate PayloadAt(b: seq<byte>, p: nat, r: Record) {
    p + HDR + |r.data| <= |b| && b[p + HDR..p + HDR + |r.data|] == r.data
  }

  ghost predicate ReadsAs(b: seq<byte>, p: nat, r: Record) {
    && p + HDR <= |b|
    && Get32(b, p) == QE_MAGIC && Get32(b, p + 4) == |r.data|
    && Get32(b, p + 8) == r.channel && Get32(b, p + 12) == r.kind
  }

  /** The four little-endian words read back from a header are the four that were written. */
  lemma HeaderDecodes(b: seq<byte>, p: nat, r: Record)
    requires |r.data| < 0x1_0000_0000 && HeaderAt(b, p, r)
    ensures ReadsAs(b, p, r)
  {
    var h := b[p..p + HDR];
    Le32RoundTrip(QE_MAGIC);
    Le32RoundTrip(|r.data|);
    Le32RoundTrip(r.channel);
    Le32RoundTrip(r.kind);
    assert forall i :: 0 <= i < HDR ==> b[p + i] == h[i];
    forall k: nat | k + 4 <= HDR ensures Get32(b, p + k) == Get32(h, k) {
      assert b[p + k] == h[k] && b[p + (k + 1)] == h[k + 1];
      assert b[p + (k + 2)] == h[k + 2] && b[p + (k + 3)] == h[k + 3];
    }
    assert h[0..4] == Le32(QE_MAGIC) && h[4..8] == Le32(|r.data|);
    assert h[8..12] == Le32(r.channel) && h[12..16] == Le32(r.kind);
    forall k: nat | k + 4 <= HDR ensures Get32(h, k) == Get32(h[k..k + 4], 0) {}
    assert Get32(b, p + 0) == QE_MAGIC;
  }

  /** The magic reads "IOP " in memory, and a small number has its byte first. */
  lemma HeaderLayout(r: Record)
    requires |r.data| < 256 && r.channel < 256 && r.kind < 256
    ensures HeaderBytes(r) ==
            [0x49, 0x4F, 0x50, 0x20, |r.data| as byte, 0, 0, 0, r.channel as byte, 0, 0, 0, r.kind as byte, 0, 0, 0]
  {
    assert Le32(QE_MAGIC) == [0x49, 0x4F, 0x50, 0x20];
    Le32Small(|r.data| as u32);
    Le32Small(r.channel);
    Le32Small(r.kind);
    hide Le32;
  }

  lemma Le32Small(v: u32)
    requires v < 256
    ensures Le32(v) == [v as byte, 0, 0, 0]
  {
  }

  lemma Le32RoundTrip(v: u32)
    ensures Get32(Le32(v), 0) == v
  {
    var s := Le32(v);
    var q1 := v / 256;
    var q2 := v / 0x10000;
    var q3 := v / 0x1000000;
    assert v == 256 * q1 + v % 256 && q1 == 256 * q2 + q1 % 256 && q2 == 256 * q3 + q2 % 256;
  }

  // ---------------------------------------------------------------------- layout of unread records

  /** Bytes a record takes in the ring. */
  function Extent(r: Record, block: nat): (n: nat)
    requires block > 0
  {
    AlignUp(HDR + |r.data|, block)
  }

  /** `recs` lie end to end from `p` to `q`. */
  ghost predicate Chain(b: seq<byte>, block: nat, p: nat, q: nat, recs: seq<Record>)
    requires block > 0
    decreases |recs|
  {
    if recs == [] then p == q
    else
      var r := recs[0];
      && Fits(r, |b|)
      && p + Extent(r, block) <= q
      && HeaderAt(b, p, r) && PayloadAt(b, p, r)
      && Chain(b, block, p + Extent(r, block), q, recs[1..])
  }

  /** The unread records run over the top: the first `k` of them from `rptr` to `e`, the others
      from the bottom to `wptr`.  When `e` is below the top, the header at `e` is the stale copy of
      a record that did not fit there. */
  ghost predicate Wrapped(b: seq<byte>, block: nat, rptr: nat, wptr: nat, recs: seq<Record>, e: nat, k: nat)
    requires block > 0
  {
    && k <= |recs| && wptr < rptr <= e <= |b| && Multiple(e, block)
    && Chain(b, block, rptr, e, recs[..k])
    && Chain(b, block, 0, wptr, recs[k..])
    && (e < |b| ==>
          k < |recs| && Fits(recs[k], |b|) && HeaderAt(b, e, recs[k]) && HDR + |recs[k].data| > |b| - e)
  }

  /** The bytes of the ring hold exactly `recs` between `rptr` and `wptr`. */
  ghost predicate Holds(b: seq<byte>, block: nat, rptr: nat, wptr: nat, recs: seq<Record>)
    requires block > 0
  {
    if rptr <= wptr then Chain(b, block, rptr, wptr, recs)
    else exists e: nat, k: nat :: Wrapped(b, block, rptr, wptr, recs, e, k)
  }

  /** What `afk_rb_init` accepts, and what every step keeps. */
  predicate Geometry(size: nat, block: nat, rptr: nat, wptr: nat) {
    && 0x40 <= block <= size < 0x1_0000_0000 && Multiple(size, block)
    && rptr < size && Multiple(rptr, block)
    && wptr < size && Multiple(wptr, block)
  }

  lemma ExtentBounds(r: Record, block: nat, p: nat, top: nat)
    requires block >= 0x40 && Multiple(p, block) && Multiple(top, block)
    ensures HDR + |r.data| <= Extent(r, block)
    ensures Extent(r, block) >= block
    ensures Multiple(p + Extent(r, block), block)
    ensures AlignUp(p + HDR + |r.data|, block) == p + Extent(r, block)
    ensures p + HDR + |r.data| <= top <==> p + Extent(r, block) <= top
  {
    var x := HDR + |r.data|;
    AlignUpBounds(x, block);
    MultipleGap(0, Extent(r, block), block);
    MultipleAdd(p, Extent(r, block), block);
    AlignUpShift(p, x, block);
    assert p + x == p + HDR + |r.data|;
    AlignUpLeast(p + x, block, top);
  }

  lemma {:induction false} ChainFrame(b: seq<byte>, b': seq<byte>, block: nat, p: nat, q: nat, recs: seq<Record>)
    requires block >= 0x40 && |b| == |b'| && q <= |b| && Multiple(p, block)
    requires Chain(b, block, p, q, recs)
    requires forall i :: p <= i < q ==> b'[i] == b[i]
    ensures Chain(b', block, p, q, recs)
    decreases |recs|
  {
    hide HeaderBytes, AlignUp;
    if recs != [] {
      var r := recs[0];
      ExtentBounds(r, block, p, 0);
      assert b'[p..p + HDR] == b[p..p + HDR];
      assert b'[p + HDR..p + HDR + |r.data|] == b[p + HDR..p + HDR + |r.data|];
      ChainFrame(b, b', block, p + Extent(r, block), q, recs[1..]);
    }
  }

  lemma {:induction false} ChainAppend(b: seq<byte>, block: nat, p: nat, q: nat, recs: seq<Record>, r: Record)
    requires block >= 0x40 && Multiple(p, block) && Chain(b, block, p, q, recs)
    requires Fits(r, |b|) && HeaderAt(b, q, r) && PayloadAt(b, q, r)
    ensures Chain(b, block, p, q + Extent(r, block), recs + [r])
    decreases |recs|
  {
    hide HeaderBytes, HeaderAt, PayloadAt, AlignUp;
    if recs == [] {
      assert (recs + [r])[1..] == [];
    } else {
      ExtentBounds(recs[0], block, p, 0);
      assert (recs + [r])[1..] == recs[1..] + [r];
      ChainAppend(b, block, p + Extent(recs[0], block), q, recs[1..], r);
    }
  }

  lemma {:induction false} ChainLength(b: seq<byte>, block: nat, p: nat, q: nat, recs: seq<Record>)
    requires block >= 0x40 && Multiple(p, block) && Chain(b, block, p, q, recs)
    ensures p <= q && Multiple(q, block)
    ensures recs == [] <==> p == q
    decreases |recs|
  {
    hide HeaderBytes, HeaderAt, PayloadAt, AlignUp;
    if recs != [] {
      ExtentBounds(recs[0], block, p, 0);
      ChainLength(b, block, p + Extent(recs[0], block), q, recs[1..]);
    }
  }

  /** Unread records exist exactly when the pointers differ. */
  lemma EmptyIffPointersMeet(b: seq<byte>, block: nat, rptr: nat, wptr: nat, recs: seq<Record>)
    requires Geometry(|b|, block, rptr, wptr) && Holds(b, block, rptr, wptr, recs)
    ensures recs == [] <==> rptr == wptr
  {
    hide HeaderBytes, Chain, AlignUp, Multiple;
    if rptr <= wptr {
      ChainLength(b, block, rptr, wptr, recs);
    } else {
      var e: nat, k: nat :| Wrapped(b, block, rptr, wptr, recs, e, k);
      ChainLength(b, block, rptr, e, recs[..k]);
      assert k == 0 ==> e < |b|;
    }
  }

  // ---------------------------------------------------------------------- the consumer's view

  /** What the reader finds at `rptr`: the oldest record's header; its payload behind it when the
      record fits above `rptr`, and otherwise the whole record once more at the bottom. */
  lemma OldestRecord(b: seq<byte>, block: nat, rptr: nat, wptr: nat, recs: seq<Record>)
    requires Geometry(|b|, block, rptr, wptr) && Holds(b, block, rptr, wptr, recs) && recs != []
    ensures Fits(recs[0], |b|) && HeaderAt(b, rptr, recs[0])
    ensures HDR + |recs[0].data| <= |b| - rptr ==> PayloadAt(b, rptr, recs[0])
    ensures HDR + |recs[0].data| > |b| - rptr ==>
              && HeaderAt(b, 0, recs[0]) && PayloadAt(b, 0, recs[0])
              && Holds(b, block, 0, wptr, recs)
  {
    hide HeaderBytes, AlignUp, Multiple;
    if rptr > wptr {
      var e: nat, k: nat :| Wrapped(b, block, rptr, wptr, recs, e, k);
      ChainLength(b, block, rptr, e, recs[..k]);
      if k == 0 {
        assert recs[k..] == recs;
      } else {
        assert recs[..k][0] == recs[0];
        ExtentBounds(recs[0], block, rptr, |b|);
      }
    } else {
      ExtentBounds(recs[0], block, rptr, |b|);
    }
  }

  /** Advancing over the oldest record stays inside the ring and leaves the others in place. */
  lemma DropOldest(b: seq<byte>, block: nat, rptr: nat, wptr: nat, recs: seq<Record>)
    requires Geometry(|b|, block, rptr, wptr) && Holds(b, block, rptr, wptr, recs) && recs != []
    requires HDR + |recs[0].data| <= |b| - rptr
    ensures rptr + Extent(recs[0], block) <= |b|
    ensures var n := rptr + Extent(recs[0], block);
            Holds(b, block, if n == |b| then 0 else n, wptr, recs[1..])
  {
    hide HeaderBytes, HeaderAt, PayloadAt, AlignUp, Multiple;
    var n := rptr + Extent(recs[0], block);
    ExtentBounds(recs[0], block, rptr, |b|);
    if rptr <= wptr {
      ChainLength(b, block, n, wptr, recs[1..]);
    } else {
      var e: nat, k: nat :| Wrapped(b, block, rptr, wptr, recs, e, k);
      ChainLength(b, block, rptr, e, recs[..k]);
      assert recs[..k][0] == recs[0] && recs[..k][1..] == recs[1..k];
      ChainLength(b, block, n, e, recs[1..k]);
      assert recs[1..][..k - 1] == recs[1..k] && recs[1..][k - 1..] == recs[k..];
      if n == |b| {
        assert recs[1..k] == [];
        assert recs[1..] == recs[k..];
      } else {
        assert Wrapped(b, block, n, wptr, recs[1..], e, k - 1);
      }
    }
  }

  // ---------------------------------------------------------------------- the producer's view

  /** The room test of `afk_epic_tx` for a record taking `n` bytes. */
  predicate Room(size: nat, rptr: nat, wptr: nat, n: nat) {
    if wptr < rptr then n < rptr - wptr
    else n < size - wptr || (n == size - wptr && rptr != 0) || n < rptr
  }

  /** Room found for a record stays when the consumer moves its pointer meanwhile. */
  lemma RoomSurvivesDrop(b: seq<byte>, block: nat, rptr: nat, wptr: nat, recs: seq<Record>, n: nat)
    requires Geometry(|b|, block, rptr, wptr) && Holds(b, block, rptr, wptr, recs) && recs != []
    requires Room(|b|, rptr, wptr, n)
    ensures HDR + |recs[0].data| <= |b| - rptr ==>
              var m := rptr + Extent(recs[0], block);
              Room(|b|, if m == |b| then 0 else m, wptr, n)
    ensures HDR + |recs[0].data| > |b| - rptr ==> Room(|b|, 0, wptr, n)
  {
    hide HeaderBytes, HeaderAt, PayloadAt, AlignUp, Multiple;
    ExtentBounds(recs[0], block, rptr, |b|);
    OldestRecord(b, block, rptr, wptr, recs);
    if rptr <= wptr {
      ChainLength(b, block, rptr, wptr, recs);
      ChainLength(b, block, rptr + Extent(recs[0], block), wptr, recs[1..]);
    }
  }

  /** An empty ring takes every record of at most half its size, wherever the pointers stand. */
  lemma EmptyRingTakesHalf(size: nat, block: nat, p: nat, n: nat)
    requires Geometry(size, block, p, p) && 2 * n <= size
    ensures Room(size, p, p, n)
  {
  }

  /** A bigger record can be refused by an empty ring: the exact condition, and a ring of four
      blocks whose pointers stand in the middle. */
  lemma EmptyRingRefuses(size: nat, block: nat, p: nat, n: nat)
    requires Geometry(size, block, p, p)
    ensures !Room(size, p, p, n) <==> n >= p && n >= size - p && (n == size - p ==> p == 0)
    ensures !Room(0x100, 0x80, 0x80, 0xc0) && Geometry(0x100, 0x40, 0x80, 0x80)
  {
  }

  /** The ring's bytes once a record is in place: header at `wptr`, and when the record does not
      fit there, header and payload at the bottom. */
  function Placed(b: seq<byte>, wptr: nat, r: Record): (b': seq<byte>)
    requires Fits(r, |b|) && wptr + HDR <= |b|
  {
    var b1 := Overlay(b, wptr, HeaderBytes(r));
    if |r.data| > |b| - (wptr + HDR) then Overlay(Overlay(b1, 0, HeaderBytes(r)), HDR, r.data)
    else Overlay(b1, wptr + HDR, r.data)
  }

  /** Where the write pointer goes. */
  function NextWptr(size: nat, block: nat, wptr: nat, r: Record): (w: nat)
    requires block > 0
  {
    var at := if |r.data| > size - (wptr + HDR) then 0 else wptr;
    if at + Extent(r, block) >= size then 0 else at + Extent(r, block)
  }

  /** Where the reader settles for a record. */
  function Settled(size: nat, rptr: nat, r: Record): (p: nat) {
    if HDR + |r.data| > size - rptr then 0 else rptr
  }

  /** Where the read pointer goes. */
  function NextRptr(size: nat, block: nat, rptr: nat, r: Record): (p: nat)
    requires block > 0
  {
    if rptr + Extent(r, block) == size then 0 else rptr + Extent(r, block)
  }

  /** The bytes `Placed` writes, and the ones it leaves alone. */
  lemma PlacedBytes(b: seq<byte>, wptr: nat, r: Record)
    requires Fits(r, |b|) && wptr + HDR <= |b|
    requires HDR + |r.data| > |b| - wptr ==> HDR + |r.data| <= wptr
    ensures |Placed(b, wptr, r)| == |b| && HeaderAt(Placed(b, wptr, r), wptr, r)
    ensures HDR + |r.data| <= |b| - wptr ==>
              && PayloadAt(Placed(b, wptr, r), wptr, r)
              && forall i :: 0 <= i < |b| && !(wptr <= i < wptr + HDR + |r.data|) ==> Placed(b, wptr, r)[i] == b[i]
    ensures HDR + |r.data| > |b| - wptr ==>
              && HeaderAt(Placed(b, wptr, r), 0, r) && PayloadAt(Placed(b, wptr, r), 0, r)
              && forall i :: HDR + |r.data| <= i < wptr ==> Placed(b, wptr, r)[i] == b[i]
  {
    var b' := Placed(b, wptr, r);
    var h := HeaderBytes(r);
    assert b'[wptr..wptr + HDR] == h;
    if HDR + |r.data| > |b| - wptr {
      assert b'[0..HDR] == h && b'[HDR..HDR + |r.data|] == r.data;
    } else {
      assert b'[wptr + HDR..wptr + HDR + |r.data|] == r.data;
    }
  }

  /** A record placed where there is room touches no unread byte, and behind it the ring holds the
      unread records followed by the new one. */
  lemma PlaceRecord(b: seq<byte>, block: nat, rptr: nat, wptr: nat, recs: seq<Record>, r: Record)
    requires Geometry(|b|, block, rptr, wptr) && Holds(b, block, rptr, wptr, recs)
    requires Fits(r, |b|) && wptr + HDR <= |b| && Room(|b|, rptr, wptr, Extent(r, block))
    ensures var b' := Placed(b, wptr, r);
            var w := NextWptr(|b|, block, wptr, r);
            && Geometry(|b|, block, rptr, w) && w != rptr
            && Holds(b', block, rptr, wptr, recs)
            && Holds(b', block, rptr, w, recs + [r])
  {
    hide Holds, Placed, AlignUp, Overlay;
    ExtentBounds(r, block, wptr, |b|);
    ExtentBounds(r, block, 0, |b|);
    if wptr < rptr {
      PlaceBelow(b, block, rptr, wptr, recs, r);
    } else if HDR + |r.data| > |b| - wptr {
      PlaceWrapped(b, block, rptr, wptr, recs, r);
    } else {
      PlaceAbove(b, block, rptr, wptr, recs, r);
    }
  }

  lemma PlaceBelow(b: seq<byte>, block: nat, rptr: nat, wptr: nat, recs: seq<Record>, r: Record)
    requires Geometry(|b|, block, rptr, wptr) && Holds(b, block, rptr, wptr, recs) && wptr < rptr
    requires Fits(r, |b|) && wptr + HDR <= |b| && Extent(r, block) < rptr - wptr
    ensures Holds(Placed(b, wptr, r), block, rptr, wptr, recs)
    ensures Holds(Placed(b, wptr, r), block, rptr, wptr + Extent(r, block), recs + [r])
  {
    hide Chain, HeaderBytes, PayloadAt, Placed, AlignUp, Overlay;
    var b' := Placed(b, wptr, r);
    ExtentBounds(r, block, wptr, |b|);
    PlacedBytes(b, wptr, r);
    var e: nat, k: nat :| Wrapped(b, block, rptr, wptr, recs, e, k);
    ChainFrame(b, b', block, rptr, e, recs[..k]);
    ChainFrame(b, b', block, 0, wptr, recs[k..]);
    if e < |b| {
      MultipleGap(e, |b|, block);
      assert b'[e..e + HDR] == b[e..e + HDR];
    }
    assert Wrapped(b', block, rptr, wptr, recs, e, k);
    ChainAppend(b', block, 0, wptr, recs[k..], r);
    assert (recs + [r])[..k] == recs[..k] && (recs + [r])[k..] == recs[k..] + [r];
    assert Wrapped(b', block, rptr, wptr + Extent(r, block), recs + [r], e, k);
  }

  lemma PlaceWrapped(b: seq<byte>, block: nat, rptr: nat, wptr: nat, recs: seq<Record>, r: Record)
    requires Geometry(|b|, block, rptr, wptr) && Holds(b, block, rptr, wptr, recs) && rptr <= wptr
    requires Fits(r, |b|) && wptr + HDR <= |b|
    requires HDR + |r.data| > |b| - wptr && Extent(r, block) < rptr
    ensures Holds(Placed(b, wptr, r), block, rptr, wptr, recs)
    ensures Holds(Placed(b, wptr, r), block, rptr, Extent(r, block), recs + [r])
  {
    hide HeaderBytes, HeaderAt, PayloadAt, Placed, AlignUp, Overlay;
    var b' := Placed(b, wptr, r);
    ExtentBounds(r, block, 0, |b|);
    PlacedBytes(b, wptr, r);
    ChainFrame(b, b', block, rptr, wptr, recs);
    var all := recs + [r];
    assert all[..|recs|] == recs && all[|recs|..] == [r];
    ChainAppend(b', block, 0, 0, [], r);
    assert [] + [r] == [r];
    assert Wrapped(b', block, rptr, Extent(r, block), all, wptr, |recs|);
  }

  lemma PlaceAbove(b: seq<byte>, block: nat, rptr: nat, wptr: nat, recs: seq<Record>, r: Record)
    requires Geometry(|b|, block, rptr, wptr) && Holds(b, block, rptr, wptr, recs) && rptr <= wptr
    requires Fits(r, |b|) && wptr + HDR <= |b|
    requires HDR + |r.data| <= |b| - wptr
    ensures wptr + Extent(r, block) <= |b|
    ensures Holds(Placed(b, wptr, r), block, rptr, wptr, recs)
    ensures var w := wptr + Extent(r, block);
            w < |b| || rptr != 0 ==> Holds(Placed(b, wptr, r), block, rptr, if w == |b| then 0 else w, recs + [r])
  {
    hide HeaderBytes, HeaderAt, PayloadAt, Placed, AlignUp, Multiple, Overlay;
    var b' := Placed(b, wptr, r);
    ExtentBounds(r, block, wptr, |b|);
    PlacedBytes(b, wptr, r);
    ChainFrame(b, b', block, rptr, wptr, recs);
    ChainAppend(b', block, rptr, wptr, recs, r);
    var all := recs + [r];
    if wptr + Extent(r, block) == |b| && rptr != 0 {
      assert all[..|all|] == all && all[|all|..] == [];
      assert Wrapped(b', block, rptr, 0, all, |b|, |all|);
    }
  }

  predicate Unread(rptr: nat, wptr: nat, i: nat) {
    if rptr <= wptr then rptr <= i < wptr else i < wptr || rptr <= i
  }

  /** A record that takes `n` bytes would make the ring look empty, overwrite an unread byte, or overwrite the
      header that the reader starts from. */
  ghost predicate Harms(size: nat, rptr: nat, wptr: nat, r: Record, n: nat) {
    var at := if HDR + |r.data| > size - wptr then 0 else wptr;
    || at + n == rptr || (at + n >= size && rptr == 0)
    || exists i: nat :: at <= i < at + n && (Unread(rptr, wptr, i) || (i == wptr && at != wptr))
  }

  /** `n` is the least whole number of blocks for header and payload. */
  predicate Takes(r: Record, block: nat, n: nat)
    requires block > 0
  {
    Multiple(n, block) && HDR + |r.data| <= n < HDR + |r.data| + block
  }

  lemma ExtentIsLeast(r: Record, block: nat, n: nat)
    requires block > 0 && Multiple(n, block) && HDR + |r.data| <= n
    ensures Extent(r, block) <= n && (Takes(r, block, n) ==> n == Extent(r, block))
  {
    AlignUpBounds(HDR + |r.data|, block);
    AlignUpLeast(HDR + |r.data|, block, n);
    if Extent(r, block) < n {
      MultipleGap(Extent(r, block), n, block);
    }
  }

  /** There is room exactly when the record does no harm: a refusal is never needless. */
  lemma RoomIsNecessary(size: nat, block: nat, rptr: nat, wptr: nat, r: Record)
    requires Geometry(size, block, rptr, wptr) && HDR + |r.data| <= size
    ensures Room(size, rptr, wptr, Extent(r, block)) <==> !Harms(size, rptr, wptr, r, Extent(r, block))
  {
    var n := Extent(r, block);
    ExtentBounds(r, block, wptr, size);
    ExtentBounds(r, block, 0, size);
    hide Extent, Multiple;
    if !Room(size, rptr, wptr, n) {
      if HDR + |r.data| > size - wptr {
        if wptr < rptr {
          assert Unread(rptr, wptr, 0);
        } else if n > rptr {
          assert Unread(rptr, wptr, rptr) || rptr == wptr != 0;
        }
      } else if wptr < rptr && n > rptr - wptr {
        assert Unread(rptr, wptr, rptr);
      }
    }
  }

  // ---------------------------------------------------------------------- initialisation

  predicate PowerOfTwo(n: nat) {
    n == 1 || (n > 0 && n % 2 == 0 && PowerOfTwo(n / 2))
  }

  /** A data area of `bufsz` bytes behind three blocks that hold its size and the two pointers. */
  predicate Partition(total: nat, bufsz: nat, block: nat, rptr: nat, wptr: nat) {
    && PowerOfTwo(block) && 3 * block + bufsz == total
    && Geometry(bufsz, block, rptr, wptr)
  }

  /** `afk_rb_init`: the block size it adopts, read off the region it is given. */
  function RbInit(region: nat, base: nat, total: nat, bufsz: u32, rptr: u32, wptr: u32): (b: Option<nat>)
    ensures b.Some? ==> base + total <= region && Partition(total, bufsz, b.value, rptr, wptr)
    ensures b.None? ==> base + total > region || forall k: nat :: !Partition(total, bufsz, k, rptr, wptr)
  {
    if base > region || total > region - base || total < 4 * 0x40 then None
    else if bufsz == 0 || bufsz >= total || (total - bufsz) % 3 != 0 then None
    else
      var block := (total - bufsz) / 3;
      if block < 0x40 || !PowerOfTwo(block) || bufsz % block != 0 then
        assert block >= 0x40 ==> (Multiple(bufsz, block) <==> bufsz % block == 0) by {
          if block >= 0x40 { MultipleIsMod(bufsz, block); }
        }
        None
      else
        MultipleIsMod(bufsz, block);
        MultipleIsMod(rptr, block);
        MultipleIsMod(wptr, block);
        MultipleGap(0, bufsz, block);
        if rptr >= bufsz || wptr >= bufsz || rptr % block != 0 || wptr % block != 0 then None
        else Some(block)
  }

  /** The smallest region there is: three blocks of 64 bytes and a data area of one. */
  lemma SmallestRing(region: nat, base: nat)
    requires base + 0x100 <= region
    ensures RbInit(region, base, 0x100, 0x40, 0, 0) == Some(0x40)
  {
    assert PowerOfTwo(0x40);
  }

  // ---------------------------------------------------------------------- the ring

  /** Where the producer stands inside `afk_epic_tx`: outside it, past the room test, or with the
      record in memory but the new write pointer not yet published. */
  datatype TxStep = Idle | Begun(rec: Record) | Filled(rec: Record, next: nat)

  /** What holds in every reachable state: `pending` are the records published and not yet
      acknowledged, `held` says that the consumer has looked at the oldest of them. */
  ghost predicate Consistent(b: seq<byte>, block: nat, rptr: nat, wptr: nat, tx: TxStep,
                             pending: seq<Record>, held: bool)
  {
    && Geometry(|b|, block, rptr, wptr)
    && Holds(b, block, rptr, wptr, pending)
    && (held ==> pending != [] && HDR + |pending[0].data| <= |b| - rptr)
    && (tx.Begun? ==> Fits(tx.rec, |b|) && Room(|b|, rptr, wptr, Extent(tx.rec, block)))
    && (tx.Filled? ==>
          && Geometry(|b|, block, rptr, tx.next) && tx.next != rptr
          && Holds(b, block, rptr, tx.next, pending + [tx.rec]))
  }

  lemma FillKeeps(b: seq<byte>, block: nat, rptr: nat, wptr: nat, r: Record, pending: seq<Record>, held: bool)
    requires Consistent(b, block, rptr, wptr, Begun(r), pending, held)
    ensures wptr + HDR <= |b|
    ensures Consistent(Placed(b, wptr, r), block, rptr, wptr, Filled(r, NextWptr(|b|, block, wptr, r)), pending, held)
  {
    hide Holds, AlignUp, Overlay, NextWptr;
    MultipleGap(wptr, |b|, block);
    PlaceRecord(b, block, rptr, wptr, pending, r);
  }

  /** The bytes of a record: in one piece at `wptr` if it fits above it, and otherwise at the bottom, with a copy of the
      header at `wptr`; what lies above the record and below `wptr` then stays. */
  ghost predicate LiesIn(b: seq<byte>, b': seq<byte>, wptr: nat, r: Record) {
    && |b'| == |b| && |r.data| < 0x1_0000_0000 && HeaderAt(b', wptr, r)
    && if HDR + |r.data| <= |b| - wptr then
         && PayloadAt(b', wptr, r)
         && forall i :: 0 <= i < |b| && !(wptr <= i < wptr + HDR + |r.data|) ==> b'[i] == b[i]
       else
         && HeaderAt(b', 0, r) && PayloadAt(b', 0, r)
         && forall i :: HDR + |r.data| <= i < wptr ==> b'[i] == b[i]
  }

  lemma Written(b: seq<byte>, block: nat, rptr: nat, wptr: nat, r: Record, pending: seq<Record>, held: bool)
    requires Consistent(b, block, rptr, wptr, Begun(r), pending, held)
    ensures wptr + HDR <= |b| && LiesIn(b, Placed(b, wptr, r), wptr, r)
  {
    MultipleGap(wptr, |b|, block);
    ExtentBounds(r, block, wptr, |b|);
    hide Holds, HeaderAt, PayloadAt, Placed, Extent, Multiple;
    PlacedBytes(b, wptr, r);
  }

  lemma MoveKeeps(b: seq<byte>, block: nat, rptr: nat, wptr: nat, tx: TxStep, pending: seq<Record>, held: bool)
    requires Consistent(b, block, rptr, wptr, tx, pending, held)
    requires pending != [] && HDR + |pending[0].data| > |b| - rptr
    ensures Consistent(b, block, 0, wptr, tx, pending, true) && wptr != 0
  {
    hide Holds, HeaderAt, PayloadAt, AlignUp, Room, Extent;
    OldestRecord(b, block, rptr, wptr, pending);
    if tx.Begun? {
      RoomSurvivesDrop(b, block, rptr, wptr, pending, Extent(tx.rec, block));
    } else if tx.Filled? {
      OldestRecord(b, block, rptr, tx.next, pending + [tx.rec]);
      EmptyIffPointersMeet(b, block, 0, tx.next, pending + [tx.rec]);
    }
    EmptyIffPointersMeet(b, block, 0, wptr, pending);
  }

  /** What `afk_epic_rx` reads when data is ready: every test it makes passes, and the place it
      settles on holds the oldest record. */
  lemma LookKeeps(b: seq<byte>, block: nat, rptr: nat, wptr: nat, tx: TxStep, pending: seq<Record>, held: bool)
    requires Consistent(b, block, rptr, wptr, tx, pending, held) && rptr != wptr
    ensures pending != [] && block > 0 && rptr + HDR <= |b| && rptr % block == 0
    ensures var r := pending[0];
            && HDR + |r.data| <= |b| && ReadsAs(b, rptr, r)
            && (HDR + |r.data| <= |b| - rptr ==>
                  PayloadAt(b, rptr, r) && Consistent(b, block, rptr, wptr, tx, pending, true))
            && (HDR + |r.data| > |b| - rptr ==>
                  && ReadsAs(b, 0, r) && PayloadAt(b, 0, r) && wptr != 0
                  && Consistent(b, block, 0, wptr, tx, pending, true))
  {
    hide HeaderBytes, Holds, Multiple, Room;
    EmptyIffPointersMeet(b, block, rptr, wptr, pending);
    OldestRecord(b, block, rptr, wptr, pending);
    MultipleIsMod(rptr, block);
    HeaderDecodes(b, rptr, pending[0]);
    if HDR + |pending[0].data| > |b| - rptr {
      HeaderDecodes(b, 0, pending[0]);
      MoveKeeps(b, block, rptr, wptr, tx, pending, held);
    }
  }

  lemma AckKeeps(b: seq<byte>, block: nat, rptr: nat, wptr: nat, tx: TxStep, pending: seq<Record>)
    requires Consistent(b, block, rptr, wptr, tx, pending, true)
    ensures pending != [] && block > 0 && ReadsAs(b, rptr, pending[0])
    ensures AlignUp(rptr + HDR + |pending[0].data|, block) == rptr + Extent(pending[0], block) <= |b|
    ensures var n := rptr + Extent(pending[0], block);
            Consistent(b, block, if n == |b| then 0 else n, wptr, tx, pending[1..], false)
  {
    hide Holds, HeaderAt, PayloadAt, AlignUp, ReadsAs, Room, Extent;
    var n := rptr + Extent(pending[0], block);
    ExtentBounds(pending[0], block, rptr, |b|);
    OldestRecord(b, block, rptr, wptr, pending);
    HeaderDecodes(b, rptr, pending[0]);
    DropOldest(b, block, rptr, wptr, pending);
    var p := if n == |b| then 0 else n;
    if tx.Begun? {
      RoomSurvivesDrop(b, block, rptr, wptr, pending, Extent(tx.rec, block));
    } else if tx.Filled? {
      DropOldest(b, block, rptr, tx.next, pending + [tx.rec]);
      assert (pending + [tx.rec])[1..] == pending[1..] + [tx.rec];
      EmptyIffPointersMeet(b, block, p, tx.next, pending[1..] + [tx.rec]);
    }
  }

  class Ring {
    const size: nat
    const block: nat
    const buf: array<byte>
    var rptr: nat
    var wptr: nat
    var tx: TxStep
    ghost var pending: seq<Record>
    ghost var held: bool

    ghost predicate Valid()
      reads this, buf
    {
      buf.Length == size && Consistent(buf[..], block, rptr, wptr, tx, pending, held)
    }

    /** A ring with the geometry that `afk_rb_init` accepts, empty. */
    constructor (size: nat, block: nat, p: nat)
      requires Geometry(size, block, p, p)
      ensures Valid() && fresh(buf) && pending == [] && tx == Idle && !held
      ensures this.size == size && this.block == block && rptr == wptr == p
    {
      this.size, this.block := size, block;
      rptr, wptr := p, p;
      tx := Idle;
      buf := new byte[size];
      pending, held := [], false;
    }

    method PutBytes(at: nat, s: seq<byte>)
      requires at + |s| <= buf.Length
      modifies buf
      ensures buf[..] == Overlay(old(buf[..]), at, s)
    {
      forall i | 0 <= i < |s| {
        buf[at + i] := s[i];
      }
    }

    /** The size and room tests of `afk_epic_tx`.  A refused record changes nothing. */
    method TxBegin(rec: Record) returns (ok: bool)
      requires Valid() && tx.Idle?
      modifies this`tx
      ensures Valid()
      ensures ok == (Fits(rec, size) && Room(size, rptr, wptr, Extent(rec, block)))
      ensures block > 0 && forall n: nat | Takes(rec, block, n) ::
                ok <==> HDR + |rec.data| <= size && !Harms(size, rptr, wptr, rec, n)
      ensures tx == if ok then Begun(rec) else Idle
    {
      hide Holds, AlignUp, Multiple, Harms;
      if HDR + |rec.data| <= size {
        RoomIsNecessary(size, block, rptr, wptr, rec);
      }
      forall n: nat | Takes(rec, block, n) ensures n == Extent(rec, block) {
        ExtentIsLeast(rec, block, n);
      }
      ok := false;
      if |rec.data| <= size - HDR {
        var advance := AlignUp(HDR + |rec.data|, block);
        ok := true;
        if wptr < rptr && advance >= rptr - wptr {
          ok := false;
        }
        if wptr >= rptr {
          var fitsAbove := advance < size - wptr || (advance == size - wptr && rptr != 0);
          if !fitsAbove && advance >= rptr {
            ok := false;
          }
        }
        if ok {
          tx := Begun(rec);
        }
      }
    }

    /** The writes of `afk_epic_tx` into the buffer, before the pointer is published: the unread
        records stay what they are. */
    method TxFill()
      requires Valid() && tx.Begun?
      modifies this`tx, buf
      ensures Valid() && tx == Filled(old(tx.rec), NextWptr(size, block, wptr, old(tx.rec)))
      ensures LiesIn(old(buf[..]), buf[..], wptr, old(tx.rec))
    {
      Written(buf[..], block, rptr, wptr, tx.rec, pending, held);
      hide Holds, AlignUp, Overlay, Placed, NextWptr, LiesIn;
      FillKeeps(buf[..], block, rptr, wptr, tx.rec, pending, held);
      var next := Place(tx.rec);
      tx := Filled(tx.rec, next);
    }

    method Place(rec: Record) returns (w: nat)
      requires Fits(rec, size) && buf.Length == size && wptr + HDR <= size && block >= 0x40
      requires Multiple(wptr, block) && Multiple(size, block)
      modifies buf
      ensures buf[..] == Placed(old(buf[..]), wptr, rec) && w == NextWptr(size, block, wptr, rec)
    {
      hide HeaderBytes, Overlay, AlignUp;
      PutBytes(wptr, HeaderBytes(rec));
      var at := wptr;
      w := wptr + HDR;
      if |rec.data| > size - w {
        assert buf[at..at + HDR] == HeaderBytes(rec);
        PutBytes(0, buf[at..at + HDR]);
        at := 0;
        w := HDR;
      }
      ExtentBounds(rec, block, at, size);
      w := AlignUp(w + |rec.data|, block);
      if w >= size {
        w := 0;
      }
      PutBytes(at + HDR, rec.data);
    }

    /** The store to `*rb->wptr`. */
    method TxPublish()
      requires Valid() && tx.Filled?
      modifies this
      ensures Valid() && tx.Idle? && pending == old(pending) + [old(tx.rec)]
      ensures wptr == old(tx).next && wptr != rptr && rptr == old(rptr) && held == old(held)
    {
      hide Holds, AlignUp, Multiple, Room;
      wptr := tx.next;
      pending := pending + [tx.rec];
      tx := Idle;
    }

    /** `afk_epic_rx` once data is known to be ready: it never reports an error, and it yields the
        oldest record. */
    method Rx() returns (rec: Option<Record>)
      requires Valid() && rptr != wptr
      modifies this`rptr, this`held
      ensures Valid() && held && rptr != wptr
      ensures pending != [] && rec == Some(pending[0]) && rptr == Settled(size, old(rptr), pending[0])
    {
      hide Consistent, HeaderAt, Multiple, Get32;
      ghost var b := buf[..];
      LookKeeps(b, block, rptr, wptr, tx, pending, held);
      ghost var oldest := pending[0];
      var p := rptr;
      var ok := p < size && p % block == 0;
      var n := 0;
      if ok {
        n := Get32(buf[..], p + 4);
        ok := Get32(buf[..], p) == QE_MAGIC && n <= size - HDR;
      }
      if ok && HDR + n > size - p {
        p := 0;
        n := Get32(buf[..], p + 4);
        ok := Get32(buf[..], p) == QE_MAGIC && n <= size - HDR;
        if ok {
          rptr := p;
        }
      }
      rec := None;
      if ok {
        rec := Some(Record(Get32(buf[..], p + 8), Get32(buf[..], p + 12), buf[p + HDR..p + HDR + n]));
      }
      held := true;
    }

    /** `afk_epic_rx_ack`: the assertion of the source holds, and the oldest record is gone. */
    method RxAck()
      requires Valid() && held
      modifies this`rptr, this`held, this`pending
      ensures old(pending) != [] && Valid() && !held && pending == old(pending)[1..]
      ensures rptr == NextRptr(size, block, old(rptr), old(pending)[0])
    {
      hide Consistent, HeaderAt, Multiple, AlignUp;
      AckKeeps(buf[..], block, rptr, wptr, tx, pending);
      var p := AlignUp(rptr + HDR + Get32(buf[..], rptr + 4), block);
      assert p <= size;
      if p == size {
        p := 0;
      }
      rptr := p;
      pending := pending[1..];
      held := false;
    }

    ghost predicate Shows(s: State)
      reads this
    {
      rptr == s.rptr && wptr == s.wptr && tx == s.tx && pending == s.pending && held == s.held
    }

    lemma EmptyExactly()
      requires Valid()
      ensures pending == [] <==> rptr == wptr
    {
      EmptyIffPointersMeet(buf[..], block, rptr, wptr, pending);
    }
  }

  // ---------------------------------------------------------------------- whole runs

  datatype Step = Begin(rec: Record) | Fill | Publish | Receive | Acknowledge

  /** The ring as a queue: what has been accepted, what has been received, what lies between, and of the bytes
      only the two pointers, which decide whether there is room. */
  datatype State = State(rptr: nat, wptr: nat, tx: TxStep, pending: seq<Record>, held: bool,
                         accepted: seq<Record>, received: seq<Record>)

  /** One step; a step whose turn it is not is passed over. */
  function After(size: nat, block: nat, s: State, step: Step): (s': State)
    requires block > 0
  {
    match step
    case Begin(r) =>
      if s.tx.Idle? && Fits(r, size) && Room(size, s.rptr, s.wptr, Extent(r, block)) then s.(tx := Begun(r)) else s
    case Fill =>
      if s.tx.Begun? then s.(tx := Filled(s.tx.rec, NextWptr(size, block, s.wptr, s.tx.rec))) else s
    case Publish =>
      if s.tx.Filled? then
        s.(wptr := s.tx.next, tx := Idle, pending := s.pending + [s.tx.rec], accepted := s.accepted + [s.tx.rec])
      else s
    case Receive =>
      if s.pending != [] then s.(rptr := Settled(size, s.rptr, s.pending[0]), held := true) else s
    case Acknowledge =>
      if s.held && s.pending != [] then
        s.(rptr := NextRptr(size, block, s.rptr, s.pending[0]), held := false,
           pending := s.pending[1..], received := s.received + [s.pending[0]])
      else s
  }

  function Play(size: nat, block: nat, p: nat, script: seq<Step>): (s: State)
    requires block > 0
  {
    if script == [] then State(p, p, Idle, [], false, [], [])
    else After(size, block, Play(size, block, p, script[..|script| - 1]), script[|script| - 1])
  }

  /** A queue: what was accepted is what was received followed by what is pending. */
  lemma {:induction false} NothingLostOrReordered(size: nat, block: nat, p: nat, script: seq<Step>)
    requires block > 0
    ensures var s := Play(size, block, p, script);
            && s.accepted == s.received + s.pending && s.received <= s.accepted
            && (!s.tx.Idle? ==> Begin(s.tx.rec) in script && Fits(s.tx.rec, size))
            && forall r | r in s.accepted :: Begin(r) in script && Fits(r, size)
    decreases |script|
  {
    hide Fits, After;
    if script != [] {
      var before, step := script[..|script| - 1], script[|script| - 1];
      NothingLostOrReordered(size, block, p, before);
      var s := Play(size, block, p, before);
      QueueStep(size, block, s, step);
      assert forall x | x in before :: x in script;
      assert step in script;
    }
  }

  /** One step of the queue. */
  lemma QueueStep(size: nat, block: nat, s: State, step: Step)
    requires block > 0 && s.accepted == s.received + s.pending
    ensures var s' := After(size, block, s, step);
            && s'.accepted == s'.received + s'.pending
            && (!s'.tx.Idle? ==>
                  || (!s.tx.Idle? && s'.tx.rec == s.tx.rec)
                  || (step == Begin(s'.tx.rec) && Fits(s'.tx.rec, size)))
            && forall r | r in s'.accepted :: r in s.accepted || (!s.tx.Idle? && r == s.tx.rec)
  {
    hide Fits, Room, Extent, NextWptr, NextRptr, Settled;
    match step
    case Begin(_) =>
    case Fill =>
    case Publish =>
      if s.tx.Filled? {
        assert s.received + s.pending + [s.tx.rec] == s.received + (s.pending + [s.tx.rec]);
      }
    case Receive =>
    case Acknowledge =>
      if s.pending != [] {
        assert s.received + s.pending == s.received + [s.pending[0]] + s.pending[1..];
      }
  }

  /** An empty ring accepts every record whose header and payload take, in whole blocks, at most half of it. */
  lemma HalfIsAccepted(size: nat, block: nat, p: nat, r: Record, n: nat)
    requires Geometry(size, block, p, p) && Multiple(n, block) && HDR + |r.data| <= n && 2 * n <= size
    ensures Play(size, block, p, [Begin(r), Fill, Publish]).accepted == [r]
  {
    ExtentIsLeast(r, block, n);
    EmptyRingTakesHalf(size, block, p, Extent(r, block));
    hide Extent, Room, NextWptr, Multiple;
    var script := [Begin(r), Fill, Publish];
    var s0 := State(p, p, Idle, [], false, [], []);
    assert script[..2] == [Begin(r), Fill] && script[..2][..1] == [Begin(r)] && script[..2][..1][..0] == [];
    assert Play(size, block, p, []) == s0;
    assert Play(size, block, p, [Begin(r)]) == s0.(tx := Begun(r));
    assert Play(size, block, p, [Begin(r), Fill]).tx.Filled?;
  }

  lemma PlayStep(size: nat, block: nat, p: nat, script: seq<Step>, step: Step)
    requires block > 0
    ensures Play(size, block, p, script + [step]) == After(size, block, Play(size, block, p, script), step)
  {
    hide After;
    assert (script + [step])[..|script + [step]| - 1] == script;
  }

  /** Any script of producer and consumer steps on a ring started empty, and then the consumer drains the ring.
      What is accepted and received is at every moment what the queue says, so what was received is a prefix
      of what was accepted; and draining yields the rest. */
  method Run(size: nat, block: nat, p: nat, script: seq<Step>)
      returns (accepted: seq<Record>, received: seq<Record>, drained: seq<Record>)
    requires Geometry(size, block, p, p)
    ensures var s := Play(size, block, p, script);
            accepted == s.accepted && received == s.received && drained == s.pending
    ensures received <= accepted && received + drained == accepted
  {
    hide Ring.Valid, Geometry, Fits, Play, Room, Extent, NextWptr, NextRptr, Settled;
    BlockPositive(size, block, p);
    var ring := new Ring(size, block, p);
    accepted, received, drained := [], [], [];
    var held: Option<Record> := None;
    PlayNothing(size, block, p);
    for i := 0 to |script|
      invariant ring.Valid() && ring.size == size && ring.block == block && fresh(ring) && fresh(ring.buf)
      invariant ring.Shows(Play(size, block, p, script[..i])) && held.Some? == ring.held
      invariant held.Some? ==> ring.pending != [] && held.value == ring.pending[0]
      invariant accepted == Play(size, block, p, script[..i]).accepted
      invariant received == Play(size, block, p, script[..i]).received
    {
      var step := script[i];
      assert script[..i + 1] == script[..i] + [step];
      PlayStep(size, block, p, script[..i], step);
      ring.EmptyExactly();
      if step.Begin? && ring.tx.Idle? {
        var ok := ring.TxBegin(step.rec);
      } else if step.Fill? && ring.tx.Begun? {
        ring.TxFill();
      } else if step.Publish? && ring.tx.Filled? {
        accepted := accepted + [ring.tx.rec];
        ring.TxPublish();
      } else if step.Receive? && ring.rptr != ring.wptr {
        held := ring.Rx();
      } else if step.Acknowledge? && held.Some? {
        received := received + [held.value];
        ring.RxAck();
        held := None;
      }
    }
    assert script[..|script|] == script;
    NothingLostOrReordered(size, block, p, script);
    ghost var rest := ring.pending;
    while ring.rptr != ring.wptr
      invariant ring.Valid() && fresh(ring) && fresh(ring.buf)
      invariant rest == drained + ring.pending
      decreases |ring.pending|
    {
      var r := ring.Rx();
      drained := drained + [r.value];
      ring.RxAck();
    }
    ring.EmptyExactly();
  }

  lemma BlockPositive(size: nat, block: nat, p: nat)
    requires Geometry(size, block, p, p)
    ensures block > 0
  {
  }

  lemma PlayNothing(size: nat, block: nat, p: nat)
    requires block > 0
    ensures Play(size, block, p, []) == State(p, p, Idle, [], false, [], [])
  {
  }
}
