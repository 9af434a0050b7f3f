/** The entries of DART tables, `src/dart.c`: an address field somewhere in a 64-bit word, put together
    with flag bits by bitwise or and taken apart by mask and shift.  Bitwise operations are defined bit
    by bit. */
module DartPte {

  function Pow2(k: nat): (p: nat)
    ensures p > 0
  {
    if k == 0 then 1 else 2 * Pow2(k - 1)
  }

  function BitOr(x: nat, y: nat): (r: nat)
    decreases x + y
  {
    if x == 0 then y else if y == 0 then x
    else (if x % 2 == 1 || y % 2 == 1 then 1 else 0) + 2 * BitOr(x / 2, y / 2)
  }

  function Shr(x: nat, k: nat): (r: nat)
    decreases k
  {
    if k == 0 then x else Shr(x / 2, k - 1)
  }

  function Shl(x: nat, k: nat): (r: nat) {
    if k == 0 then x else 2 * Shl(x, k - 1)
  }

  /** The lowest `k` bits. */
  function Low(x: nat, k: nat): (r: nat)
    decreases k
  {
    if k == 0 then 0 else x % 2 + 2 * Low(x / 2, k - 1)
  }

  lemma OrHalves(x: nat, y: nat)
    ensures BitOr(x, y) / 2 == BitOr(x / 2, y / 2)
    ensures BitOr(x, y) % 2 == if x % 2 == 1 || y % 2 == 1 then 1 else 0
  {
  }

  /** Shifting right and masking distribute over bitwise or. */
  lemma {:induction false} OrShift(x: nat, y: nat, k: nat)
    ensures Shr(BitOr(x, y), k) == BitOr(Shr(x, k), Shr(y, k))
    decreases k
  {
    if k > 0 {
      OrHalves(x, y);
      OrShift(x / 2, y / 2, k - 1);
    }
  }

  lemma {:induction false} OrLow(x: nat, y: nat, k: nat)
    ensures Low(BitOr(x, y), k) == BitOr(Low(x, k), Low(y, k))
    decreases k
  {
    if k > 0 {
      var a, b := Low(x, k), Low(y, k);
      LowHalves(x, k);
      LowHalves(y, k);
      LowHalves(BitOr(x, y), k);
      OrLow(x / 2, y / 2, k - 1);
      OrHalves(x, y);
      OrHalves(a, b);
      hide BitOr, Low;
      SameHalves(Low(BitOr(x, y), k), BitOr(a, b));
    }
  }

  lemma LowHalves(x: nat, k: nat)
    requires k > 0
    ensures Low(x, k) / 2 == Low(x / 2, k - 1) && Low(x, k) % 2 == x % 2
  {
  }

  lemma SameHalves(x: nat, y: nat)
    requires x / 2 == y / 2 && x % 2 == y % 2
    ensures x == y
  {
  }

  lemma {:induction false} ShiftBack(x: nat, j: nat, k: nat)
    requires k <= j
    ensures Shr(Shl(x, j), k) == Shl(x, j - k)
    decreases k
  {
    if k > 0 {
      ShiftBack(x, j - 1, k - 1);
    }
  }

  lemma {:induction false} LowOfShifted(x: nat, j: nat, k: nat)
    requires k <= j
    ensures Low(Shl(x, j), k) == 0
    decreases k
  {
    if k > 0 {
      LowOfShifted(x, j - 1, k - 1);
    }
  }

  lemma {:induction false} LowFixes(x: nat, k: nat)
    ensures Low(x, k) < Pow2(k)
    ensures Low(x, k) == x <==> x < Pow2(k)
    ensures Low(Low(x, k), k) == Low(x, k)
    decreases k
  {
    if k > 0 {
      LowFixes(x / 2, k - 1);
    }
  }

  lemma {:induction false} ShiftAllOut(x: nat, k: nat)
    requires x < Pow2(k)
    ensures Shr(x, k) == 0
    decreases k
  {
    if k > 0 {
      ShiftAllOut(x / 2, k - 1);
    }
  }

  lemma {:induction false} LowZero(k: nat)
    ensures Low(0, k) == 0
  {
    if k > 0 {
      LowZero(k - 1);
    }
  }

  // ---------------------------------------------------------------------- the four formats

  datatype Format = T8020 | T6000 | T8110 | Gen3 {
    /** The lowest bit of the address field. */
    function Shift(): nat {
      if T8020? then 14 else 10
    }
    function Width(): nat {
      match this case T8020 => 26 case T6000 => 30 case T8110 => 30 case Gen3 => 28
    }
    /** The flag bits of every leaf: subpage end, the disable bit of the oldest format, valid. */
    function Flags(): nat {
      BitOr(Shl(0xfff, 40), if T8020? then 3 else 1)
    }
    function Roots(): nat {
      if T8020? || T6000? then 4 else 1
    }
    /** Pages that the address field can hold. */
    function Pages(): nat {
      Pow2(Width())
    }
  }

  /** `FIELD_GET(offset_mask, pte)`. */
  function Field(f: Format, w: nat): (page: nat) {
    Low(Shr(w, f.Shift()), f.Width())
  }

  /** `FIELD_PREP(offset_mask, page)`. */
  function Prep(f: Format, page: nat): (w: nat) {
    Shl(Low(page, f.Width()), f.Shift())
  }

  predicate IsValid(w: nat) {
    w % 2 == 1
  }

  function LeafEntry(f: Format, page: nat, flags: nat): (w: nat) {
    BitOr(BitOr(Prep(f, page), f.Flags()), flags)
  }

  function TableEntry(f: Format, page: nat): (w: nat) {
    BitOr(Prep(f, page), 1)
  }

  lemma FieldOr(f: Format, x: nat, y: nat)
    ensures Field(f, BitOr(x, y)) == BitOr(Field(f, x), Field(f, y))
  {
    OrShift(x, y, f.Shift());
    OrLow(Shr(x, f.Shift()), Shr(y, f.Shift()), f.Width());
  }

  lemma FieldPrep(f: Format, page: nat)
    ensures Field(f, Prep(f, page)) == Low(page, f.Width())
  {
    ShiftBack(Low(page, f.Width()), f.Shift(), f.Shift());
    LowFixes(page, f.Width());
  }

  lemma FieldOfFlags(f: Format, flags: nat)
    requires flags < Pow2(f.Shift())
    ensures Field(f, flags) == 0
  {
    ShiftAllOut(flags, f.Shift());
    LowZero(f.Width());
  }

  /** The fixed flags lie outside the address field. */
  lemma FlagsClear(f: Format)
    ensures Field(f, f.Flags()) == 0 && Field(f, 1) == 0 && IsValid(f.Flags())
  {
    hide Shl, Low;
    var low := if f.T8020? then 3 else 1;
    assert Pow2(3) == 8 && Pow2(f.Shift()) >= Pow2(3) by { Growing(3, f.Shift()); }
    FieldOfFlags(f, low);
    FieldOfFlags(f, 1);
    ShiftBack(0xfff, 40, f.Shift());
    LowOfShifted(0xfff, 40 - f.Shift(), f.Width());
    FieldOr(f, Shl(0xfff, 40), low);
    OrHalves(Shl(0xfff, 40), low);
  }

  lemma {:induction false} Growing(j: nat, k: nat)
    requires j <= k
    ensures Pow2(j) <= Pow2(k)
  {
    if j < k {
      Growing(j, k - 1);
    }
  }

  /** What comes back from a leaf: the page cut to the field, or-ed with whatever caller flags fall
      into the field. */
  lemma LeafDecodes(f: Format, page: nat, flags: nat)
    ensures IsValid(LeafEntry(f, page, flags))
    ensures Field(f, LeafEntry(f, page, flags)) == BitOr(Low(page, f.Width()), Field(f, flags))
  {
    hide Shl, Low;
    var p := Prep(f, page);
    FieldOr(f, BitOr(p, f.Flags()), flags);
    FieldOr(f, p, f.Flags());
    FlagsClear(f);
    FieldPrep(f, page);
    OrHalves(BitOr(p, f.Flags()), flags);
    OrHalves(p, f.Flags());
  }

  lemma TableDecodes(f: Format, page: nat)
    requires page < f.Pages()
    ensures IsValid(TableEntry(f, page)) && Field(f, TableEntry(f, page)) == page
  {
    hide Shl, Low;
    FieldOr(f, Prep(f, page), 1);
    FlagsClear(f);
    FieldPrep(f, page);
    OrHalves(Prep(f, page), 1);
    LowFixes(page, f.Width());
  }

  /** With flags below the field, encoding and decoding is the identity exactly on the pages that the
      field can hold. */
  lemma RoundTrip(f: Format, page: nat, flags: nat)
    requires flags < Pow2(f.Shift())
    ensures Field(f, LeafEntry(f, page, flags)) == page <==> page < f.Pages()
  {
    LeafDecodes(f, page, flags);
    FieldOfFlags(f, flags);
    LowFixes(page, f.Width());
  }
}
