/** VMSAv8-64 descriptors with 16K pages, field by field, as `src/memory.c` builds and adds to them. */
module Descriptors {
  import opened Align
  import opened Wrappers

  const FIELD_PAGES := 0x10_0000_0000  // values of bits 14..49, the target page
  const FIELD_HIGH := 0x4000           // values of bits 50..63
  const FIELD_LOW := 0x1000            // values of bits 2..13
  const FAN := 2048                    // entries of a table below the root
  const BLOCK_L1 := 0x40_0000          // pages under an L1 entry
  const PAGE := 0x4000                 // bytes of a page

  /** `table` is bit 1: a table or a page when set, a block when clear. */
  datatype Desc = Desc(valid: bool, table: bool, page: nat, low: nat, high: nat)

  const ZERO := Desc(false, false, 0, 0, 0)

  predicate Word(d: Desc) {
    d.page < FIELD_PAGES && d.low < FIELD_LOW && d.high < FIELD_HIGH
  }

  function Pack(d: Desc): (w: nat) {
    d.high * 0x4_0000_0000_0000 + d.page * PAGE + d.low * 4
    + (if d.table then 2 else 0) + (if d.valid then 1 else 0)
  }

  function Unpack(w: nat): (d: Desc) {
    Desc(w % 2 == 1, w / 2 % 2 == 1, w / PAGE % FIELD_PAGES, w / 4 % FIELD_LOW, w / 0x4_0000_0000_0000)
  }

  /** Adding `n` pages to the 64-bit word: a carry out of the target runs into the bits above it. */
  function Add(d: Desc, n: nat): (r: Desc) {
    var p := d.page + n;
    d.(page := p % FIELD_PAGES, high := (d.high + p / FIELD_PAGES) % FIELD_HIGH)
  }

  lemma PackRoundTrip(d: Desc)
    requires Word(d)
    ensures Pack(d) < 0x1_0000_0000_0000_0000 && Unpack(Pack(d)) == d
  {
    var w := Pack(d);
    var b0, b1 := if d.valid then 1 else 0, if d.table then 1 else 0;
    var z := d.high * FIELD_PAGES + d.page;
    var y := z * FIELD_LOW + d.low;
    assert w == (y * 2 + b1) * 2 + b0;
    DivUnique(w, 2, y * 2 + b1, b0);
    DivUnique(y * 2 + b1, 2, y, b1);
    DivUnique(w, 4, y, b1 * 2 + b0);
    DivUnique(y, FIELD_LOW, z, d.low);
    DivUnique(w, PAGE, z, d.low * 4 + b1 * 2 + b0);
    DivUnique(z, FIELD_PAGES, d.high, d.page);
    DivUnique(w, 0x4_0000_0000_0000, d.high, w - d.high * 0x4_0000_0000_0000);
  }

  /** `Add` is addition modulo 2^64 on the packed word. */
  lemma PackAdd(d: Desc, n: nat)
    requires Word(d)
    ensures Word(Add(d, n))
    ensures Pack(Add(d, n)) == (Pack(d) + n * PAGE) % 0x1_0000_0000_0000_0000
  {
    hide Unpack;
    var p := d.page + n;
    var q := p / FIELD_PAGES;
    Quotient(p, FIELD_PAGES);
    var h := d.high + q;
    var k := h / FIELD_HIGH;
    Quotient(h, FIELD_HIGH);
    PackRoundTrip(Add(d, n));
    DivUnique(Pack(d) + n * PAGE, 0x1_0000_0000_0000_0000, k, Pack(Add(d, n)));
  }

  lemma Quotient(x: nat, b: nat)
    requires b > 0
    ensures x == x / b * b + x % b && x % b < b
  {
  }

  lemma AddAdd(d: Desc, m: nat, n: nat)
    ensures Add(Add(d, m), n) == Add(d, m + n)
  {
    var p := d.page + m;
    CarryOn(p, n, FIELD_PAGES);
    CarryOn(d.high + p / FIELD_PAGES, (p % FIELD_PAGES + n) / FIELD_PAGES, FIELD_HIGH);
  }

  /** Adding in two steps carries the same. */
  lemma CarryOn(x: nat, n: nat, b: nat)
    requires b > 0
    ensures (x % b + n) % b == (x + n) % b && x / b + (x % b + n) / b == (x + n) / b
  {
    Quotient(x, b);
    Quotient(x % b + n, b);
    Regrouped(x, n, b, x / b, x % b, (x % b + n) / b, (x % b + n) % b);
  }

  lemma Regrouped(x: nat, n: nat, b: nat, q: nat, r: nat, k: nat, t: nat)
    requires b > 0 && x == q * b + r && r + n == k * b + t && t < b
    ensures (x + n) / b == q + k && (x + n) % b == t
  {
    assert (q + k) * b == q * b + k * b;
    DivUnique(x + n, b, q + k, t);
  }

  lemma AddZero(d: Desc)
    requires Word(d)
    ensures Add(d, 0) == d
  {
    DivUnique(d.page, FIELD_PAGES, 0, d.page);
    DivUnique(d.high, FIELD_HIGH, 0, d.high);
  }

  /** Inside a block that starts on a multiple of its size the addition does not carry. */
  lemma AddWithin(d: Desc, span: nat, n: nat)
    requires Word(d) && (span == FAN || span == BLOCK_L1) && d.page % span == 0 && n < span
    ensures Add(d, n) == d.(page := d.page + n)
    ensures d.page + n < FIELD_PAGES
  {
    var q := d.page / span;
    if span == FAN {
      assert d.page == q * FAN && q < FIELD_PAGES / FAN;
    } else {
      assert d.page == q * BLOCK_L1 && q < FIELD_PAGES / BLOCK_L1;
    }
    DivUnique(d.page + n, FIELD_PAGES, 0, d.page + n);
    DivUnique(d.high, FIELD_HIGH, 0, d.high);
  }

  // ---------------------------------------------------------------------- leaves

  /** What a translation yields: the physical page and the attribute bits. */
  datatype Leaf = Leaf(page: nat, low: nat, high: nat)

  function LeafOf(d: Desc): (l: Option<Leaf>) {
    if d.valid then Some(Leaf(d.page, d.low, d.high)) else None
  }
}
