/** A DART, `src/dart.c`: mapping with rollback, unmapping, translation, reverse search and the search
    for a free window, on its two-level tables. */
module Dart {
  import opened Align
  import opened DartPte
  import opened DartSpec
  import opened DartTables
  import opened Wrappers

  const U64 := 0x1_0000_0000_0000_0000
  const PTR_ERR := 0x8000_0000_0000_0000

  lemma PageStep(iova: nat, k: nat)
    requires iova % PAGE == 0
    ensures PageNo(iova + k * PAGE) == (PageNo(iova) + k) % SPACE && (iova + k * PAGE) % PAGE == 0
  {
    var i := iova / PAGE;
    assert iova + k * PAGE == (i + k) * PAGE;
    assert (iova + k * PAGE) / PAGE == i + k;
    ModShift(i, k);
  }

  lemma ModShift(i: nat, k: nat)
    ensures (i % SPACE + k) % SPACE == (i + k) % SPACE
  {
    var q := i / SPACE;
    assert i + k == q * SPACE + (i % SPACE + k);
  }

  // ---------------------------------------------------------------------- the tables show a flat map

  ghost predicate Mirrors(f: Format, m: Memory, roots: Roots, s: Flat) {
    && (forall x: nat :: Look(f, m, roots, x) == Lookup(s.look, x))
    && (forall q: nat :: q in s.slots <==> L2Table(f, m, roots, q).Some?)
  }

  lemma MirrorsSane(f: Format, m: Memory, roots: Roots, s: Flat)
    requires Mirrors(f, m, roots, s)
    ensures Sane(roots, s)
  {
    hide Field;
    forall x | x in s.look ensures x / FAN in s.slots {
      assert Look(f, m, roots, x).Some?;
    }
    forall q | q in s.slots ensures HasRoot(roots, q / FAN) {
      assert L2Table(f, m, roots, q).Some?;
    }
  }

  /** There is always a page for another table: tables are few. */
  lemma PageLeft(f: Format, m: Memory, roots: Roots, s: Flat) returns (c: nat)
    requires Mirrors(f, m, roots, s) && |roots| <= 4 && |m| <= 4 + |s.slots|
    ensures c !in m && c < f.Pages()
  {
    hide Format.Pages, Mirrors;
    MirrorsSane(f, m, roots, s);
    forall q | q in s.slots ensures q < 4 * FAN {
      assert HasRoot(roots, q / FAN);
    }
    AtMost(s.slots, 4 * FAN);
    ManyPages(f);
    c := Missing(m.Keys, 0x4000);
  }

  lemma ManyPages(f: Format)
    ensures f.Pages() >= 0x4000
  {
    assert Pow2(2) == 4;
    assert Pow2(4) == 0x10;
    assert Pow2(6) == 0x40;
    assert Pow2(8) == 0x100;
    assert Pow2(10) == 0x400;
    assert Pow2(12) == 0x1000;
    assert Pow2(14) == 0x4000;
    Growing(14, f.Width());
  }

  lemma {:induction false} AtMost(s: set<nat>, n: nat)
    requires forall x | x in s :: x < n
    ensures |s| <= n
  {
    if n > 0 {
      AtMost(s - {n - 1}, n - 1);
    } else {
      assert s == {};
    }
  }

  lemma {:induction false} Missing(s: set<nat>, n: nat) returns (c: nat)
    requires |s| < n
    ensures c !in s && c < n
  {
    if n - 1 in s {
      c := Missing(s - {n - 1}, n - 1);
    } else {
      c := n - 1;
    }
  }

  function AsSet(ts: seq<nat>): (s: set<nat>)
    ensures forall t :: t in s <==> t in ts
  {
    set t | t in ts
  }

  lemma {:induction false} FewTables(ts: seq<nat>)
    ensures |AsSet(ts)| <= |ts|
  {
    if ts != [] {
      FewTables(ts[1..]);
      assert AsSet(ts) == {ts[0]} + AsSet(ts[1..]);
    }
  }

  class Dev {
    const format: Format
    const roots: Roots
    const vmBase: nat
    const locked: bool
    var mem: Memory
    var grants: seq<bool>   // what `memalign` is going to answer
    ghost var view: Flat

    ghost predicate Valid()
      reads this
    {
      && |roots| == format.Roots() && Shape(format, mem, roots) && Mirrors(format, mem, roots, view)
      && view.grants == grants && |mem| <= 4 + |view.slots|
    }

    /** A device whose L1 tables are there and empty. */
    constructor (format: Format, tables: seq<nat>, vmBase: nat, locked: bool, grants: seq<bool>)
      requires |tables| == format.Roots() && forall i, j | 0 <= i < j < |tables| :: tables[i] != tables[j]
      ensures Valid() && this.format == format && this.vmBase == vmBase && this.locked == locked
      ensures roots == AllThere(tables) && view == Flat(map[], {}, grants)
    {
      this.format, this.vmBase, this.locked := format, vmBase, locked;
      roots := AllThere(tables);
      mem := map a | a in tables :: seq(FAN, _ => 0);
      this.grants := grants;
      view := Flat(map[], {}, grants);
      FewTables(tables);
      new;
      hide Field, Look;
      assert mem.Keys == AsSet(tables);
      EmptyTables(format, mem, roots);
    }

    /** `memalign` of a table: any page that is not in use and that the address field can hold, or a failure. */
    method Memalign() returns (c: Option<nat>)
      requires Valid()
      modifies this`grants
      ensures c.Some? <==> old(grants) != [] && old(grants)[0]
      ensures c.Some? ==> c.value !in mem && c.value < format.Pages()
      ensures grants == if old(grants) == [] then [] else old(grants)[1..]
    {
      hide Shape, Mirrors, Format.Pages;
      if grants == [] {
        return None;
      }
      var granted := grants[0];
      grants := grants[1..];
      if !granted {
        return None;
      }
      ghost var any := PageLeft(format, mem, roots, view);
      var page: nat :| page !in mem && page < format.Pages();
      c := Some(page);
    }

    /** `dart_get_l2`. */
    method GetL2(q: nat) returns (t: Option<nat>)
      requires Valid()
      modifies this`mem, this`grants, this`view
      ensures Valid() && (view, t.Some?) == GetTable(roots, old(view), q)
      ensures t.Some? ==> L2Table(format, mem, roots, q) == t && TableAt(mem, t.value).Some?
    {
      hide Field, Look, Format.Pages, TableEntry, Mirrors, Shape;
      if q / FAN >= |roots| || roots[q / FAN].None? {
        return None;
      }
      var root := roots[q / FAN].value;
      RootIsTable(format, mem, roots, q);
      var e := mem[root][q % FAN];
      SlotShown(format, mem, roots, view, q);
      if IsValid(e) {
        return Some(Field(format, e));
      }
      var c := Memalign();
      if c.None? {
        GrantsUnseen(format, mem, roots, view, grants);
        view := view.(grants := grants);
        return None;
      }
      var empty: seq<nat> := seq(FAN, _ => 0);
      HungShown(format, mem, roots, view, q, c.value, empty, grants);
      mem := mem[c.value := empty];
      var l1: seq<nat> := mem[root][q % FAN := TableEntry(format, c.value)];
      mem := mem[root := l1];
      view := view.(slots := view.slots + {q}, grants := grants);
      t := c;
    }

    /** `dart_map_page`. */
    method MapPage(x: nat, p: nat, flags: nat) returns (ok: bool)
      requires Valid()
      modifies this`mem, this`grants, this`view
      ensures Valid() && (view, ok) == MapOne(format, roots, old(view), x, p, flags)
    {
      hide Field, LeafEntry, Shape, IsValid, GetTable, Mirrors, Look;
      var l2 := GetL2(x / FAN);
      if l2.None? {
        return false;
      }
      var t := l2.value;
      PageShown(format, mem, roots, view, x, t);
      if IsValid(mem[t][x % FAN]) {
        return false;
      }
      LeafDecodes(format, p, flags);
      LeafShown(format, mem, roots, view, x, LeafEntry(format, p, flags));
      var entries: seq<nat> := mem[t][x % FAN := LeafEntry(format, p, flags)];
      mem := mem[t := entries];
      view := view.(look := view.look[x := Target(format, p, flags)]);
      ok := true;
    }

    /** `dart_unmap_page`; `fault` is a null pointer followed. */
    method UnmapPage(x: nat) returns (fault: bool)
      requires Valid()
      modifies this`mem, this`grants, this`view
      ensures Valid() && UnmapOne(roots, old(view), x) == if fault then None else Some(view)
    {
      hide Field, Shape, IsValid, GetTable, Mirrors, Look;
      RootOf(x);
      if x / ROOT_PAGES >= |roots| || roots[x / ROOT_PAGES].None? {
        return true;
      }
      var q := x / FAN;
      RootIsTable(format, mem, roots, q);
      SlotShown(format, mem, roots, view, q);
      if !IsValid(mem[roots[q / FAN].value][q % FAN]) {
        return false;
      }
      var y := x % ROOT_PAGES;
      var l2 := GetL2(y / FAN);
      if l2.None? {
        return true;
      }
      var t := l2.value;
      NotValid();
      LeafShown(format, mem, roots, view, y, 0);
      var entries: seq<nat> := mem[t][y % FAN := 0];
      mem := mem[t := entries];
      view := view.(look := view.look - {y});
      fault := false;
    }

    /** `dart_unmap`. */
    method Unmap(iova: nat, len: nat) returns (fault: bool)
      requires Valid()
      modifies this`mem, this`grants, this`view
      ensures Valid() && UnmapCall(roots, locked, old(view), iova, len) == if fault then None else Some(view)
      ensures !locked && len % PAGE == 0 && iova % PAGE == 0 && iova + len <= ROOT_BYTES && HasRoot(roots, 0) ==>
                !fault && NoByteMapped(format, mem, roots, iova, len)
    {
      MirrorsSane(format, mem, roots, view);
      hide Shape, Mirrors, UnmapUp, Unmapped, NoByteMapped, Sane;
      if locked || len % PAGE != 0 || iova % PAGE != 0 {
        return false;
      }
      fault := UnmapPages(iova, len);
      if iova + len <= ROOT_BYTES && HasRoot(roots, 0) {
        BytesUnmapped(format, mem, roots, old(view), iova, len);
      }
    }

    /** The loop of `dart_unmap`. */
    method UnmapPages(iova: nat, len: nat) returns (fault: bool)
      requires Valid() && len % PAGE == 0 && iova % PAGE == 0
      modifies this`mem, this`grants, this`view
      ensures Valid()
      ensures UnmapUp(roots, old(view), PageNo(iova), len / PAGE) == if fault then None else Some(view)
    {
      hide Shape, Mirrors, UnmapOne;
      ghost var x0, n := PageNo(iova), len / PAGE;
      var left, cur := len, iova;
      ghost var k := 0;
      hide PageNo;
      while left > 0
        invariant k <= n && left == (n - k) * PAGE && cur == iova + k * PAGE && Valid()
        invariant UnmapUp(roots, old(view), x0, n) == UnmapUp(roots, view, x0 + k, n - k)
        decreases left
      {
        PageStep(iova, k);
        var stop := UnmapPage(PageNo(cur));
        if stop {
          return true;
        }
        left, cur := left - PAGE, cur + PAGE;
        k := k + 1;
      }
      fault := false;
    }

    /** `dart_map_flags`, with the rollback of a map that fails part way. */
    method MapFlags(iova: nat, paddr: nat, len: nat, flags: nat) returns (ret: int, fault: bool)
      requires Valid()
      modifies this`mem, this`grants, this`view
      ensures var (r, code) := MapCall(format, roots, locked, old(view), MapOp(iova, paddr, len, flags));
              Valid() && ret == code && r == if fault then None else Some(view)
      ensures ret == 0 && flags == 0 && iova + len <= SPACE * PAGE && paddr + len <= format.Pages() * PAGE ==>
                MapsBytes(format, mem, roots, iova, paddr, len)
    {
      MirrorsSane(format, mem, roots, view);
      hide Shape, Mirrors, UnmapUp, MapUp, MapsBytes, Sane;
      if locked || len % PAGE != 0 || paddr % PAGE != 0 || iova % PAGE != 0 {
        return -1, false;
      }
      var mapped := MapPages(iova, paddr, len, flags);
      if mapped < len {
        fault := Unmap(iova, mapped);
        return -1, fault;
      }
      if flags == 0 && iova + len <= SPACE * PAGE && paddr + len <= format.Pages() * PAGE {
        BytesMapped(format, mem, roots, locked, old(view), view, MapOp(iova, paddr, len, flags));
      }
      return 0, false;
    }

    /** The loop of `dart_map_flags`: how many bytes were mapped when a page failed. */
    method MapPages(iova: nat, paddr: nat, len: nat, flags: nat) returns (offset: nat)
      requires Valid() && len % PAGE == 0 && paddr % PAGE == 0 && iova % PAGE == 0
      modifies this`mem, this`grants, this`view
      ensures Valid() && offset % PAGE == 0 && offset <= len
      ensures (view, offset / PAGE) == MapUp(format, roots, old(view), PageNo(iova), len / PAGE, paddr / PAGE, flags)
    {
      hide Shape, Mirrors, MapOne, MapUp;
      ghost var x0, n, p := PageNo(iova), len / PAGE, paddr / PAGE;
      offset := 0;
      ghost var k := 0;
      hide PageNo;
      while offset < len
        invariant k <= n && offset == k * PAGE && len == n * PAGE && Valid()
        invariant var (s, j) := MapUp(format, roots, view, x0 + k, n - k, p + k, flags);
                  MapUp(format, roots, old(view), x0, n, p, flags) == (s, k + j)
      {
        PageStep(iova, k);
        PagesOf(paddr, k);
        MapUpStep(format, roots, view, x0 + k, n - k, p + k, flags);
        var ok := MapPage(PageNo(iova + offset), (paddr + offset) / PAGE, flags);
        if !ok {
          PagesOf(0, k);
          return;
        }
        offset := offset + PAGE;
        k := k + 1;
      }
      PagesOf(0, k);
      MapUpStep(format, roots, view, x0 + k, n - k, p + k, flags);
    }

    /** `dart_free_l2`; `broken` is a null pointer followed, or a table freed that root 0 still points to. */
    method FreeL2(iova: nat) returns (broken: bool)
      requires Valid()
      modifies this`mem, this`grants, this`view
      ensures FreeCall(roots, locked, old(view), iova) == if broken then None else Some(view)
      ensures !broken ==> Valid()
    {
      hide Field, Shape, Mirrors, Look, L2Table, GetTable, SlotVacant;
      if locked || iova % 0x200_0000 != 0 {
        return false;
      }
      var root, low := iova / ROOT_BYTES % 4, iova / 0x200_0000 % FAN;
      SlotOf(root, low);
      if root >= |roots| || roots[root].None? {
        return true;
      }
      RootIsTable(format, mem, roots, root * FAN + low);
      SlotShown(format, mem, roots, view, root * FAN + low);
      if !IsValid(mem[roots[root].value][low]) {
        return false;
      }
      var l2 := GetL2(low);
      if l2.None? {
        return true;
      }
      var t := l2.value;
      TableVacant(format, mem, roots, view, low, t);
      var idx := 0;
      while idx < FAN
        invariant 0 <= idx <= FAN && forall k | 0 <= k < idx :: !IsValid(mem[t][k])
      {
        if IsValid(mem[t][idx]) {
          return false;
        }
        idx := idx + 1;
      }
      RootIsTable(format, mem, roots, root * FAN + low);
      if root == 0 {
        DroppedShown(format, mem, roots, view, low);
        view := view.(slots := view.slots - {low});
      }
      var l1: seq<nat> := mem[roots[root].value][low := 0];
      mem := mem[roots[root].value := l1];
      mem := mem - {t};
      broken := root > 0;
    }

    /** `dart_translate_internal`: the address, or 0 for a null pointer. */
    method Translate(iova: nat) returns (addr: nat)
      requires Valid()
      ensures addr == Addr(format, mem, roots, iova)
      ensures match Look(format, mem, roots, iova / PAGE % SPACE)
              case None => addr == 0
              case Some(p) => addr / PAGE == p && addr % PAGE == iova % PAGE
    {
      AddrParts(format, mem, roots, iova);
      hide Field;
      var q := PageNo(iova) / FAN;
      if q / FAN >= |roots| || roots[q / FAN].None? {
        return 0;
      }
      RootIsTable(format, mem, roots, q);
      var e := mem[roots[q / FAN].value][q % FAN];
      if !IsValid(e) {
        return 0;
      }
      assert L2Table(format, mem, roots, q) == Some(Field(format, e));
      var l2 := mem[Field(format, e)];
      var leaf := l2[PageNo(iova) % FAN];
      if !IsValid(leaf) {
        return 0;
      }
      addr := Field(format, leaf) * PAGE + iova % PAGE;
    }

    /** The inner loop of `dart_search_range`: the pages after the first. */
    method Contiguous(x: nat, p: nat, n: nat) returns (yes: bool)
      requires Valid() && x < SPACE && n > 0 && (p + n) * PAGE < U64 + PAGE && Look(format, mem, roots, x) == Some(p)
      ensures yes <==> Matches(format, mem, roots, x, p, n)
    {
      hide Look, Shape, Field;
      assert (x + 0) % SPACE == x;
      var k := 1;
      while k < n
        invariant 1 <= k <= n && forall j: nat | j < k :: MatchAt(format, mem, roots, x, p, j)
      {
        var beyond := k > (U64 - 1 - x * PAGE) / PAGE;
        assert beyond <==> (x + k) * PAGE >= U64;
        assert (x + k) * PAGE / PAGE == x + k && (x + k) * PAGE % PAGE == 0;
        var addr := Translate((x + k) * PAGE);
        if beyond || addr != (p + k) * PAGE {
          assert !MatchAt(format, mem, roots, x, p, k);
          return false;
        }
        k := k + 1;
      }
      yes := true;
    }

    /** `dart_search_range`: the least IOVA page from which on every byte translates to its byte of the physical range,
        below the window's bits, or the error value exactly when there is none or the request is malformed. */
    method SearchRange(paddr: nat, len: nat) returns (r: nat)
      requires Valid()
      ensures if len == 0 || paddr % PAGE != 0 || paddr + len >= U64 || len + PAGE > U64
                 || forall y: nat | y < SPACE :: !AllHit(format, mem, roots, y, paddr, len)
              then r == PTR_ERR
              else
                exists x: nat ::
                  && x < SPACE && r == x * PAGE + (if format.Gen3? then vmBase / ROOT_BYTES * ROOT_BYTES else 0)
                  && AllHit(format, mem, roots, x, paddr, len)
                  && forall y: nat | y < x :: !AllHit(format, mem, roots, y, paddr, len)
    {
      hide Look, Shape, Field, AllHit, Matches;
      if len == 0 || paddr % PAGE != 0 || paddr > U64 - 1 - len || len > U64 - PAGE {
        return PTR_ERR;
      }
      var p, n := paddr / PAGE, PageCount(len);
      assert n > 0 && (p + n) * PAGE < U64 + PAGE;
      forall y: nat | y < SPACE
        ensures Matches(format, mem, roots, y, p, n) <==> AllHit(format, mem, roots, y, paddr, len)
      {
        MatchesBytes(format, mem, roots, y, paddr, len);
      }
      hide PageCount;
      var found := SearchPages(p, n);
      r := PTR_ERR;
      if found.Some? {
        r := found.value * PAGE + if format.Gen3? then vmBase / ROOT_BYTES * ROOT_BYTES else 0;
      }
    }

    /** Its loops over roots, tables and pages. */
    method SearchPages(p: nat, n: nat) returns (found: Option<nat>)
      requires Valid() && n > 0 && (p + n) * PAGE < U64 + PAGE
      ensures found.None? ==> NoneBelow(format, mem, roots, SPACE, p, n)
      ensures found.Some? ==> && found.value < SPACE && Matches(format, mem, roots, found.value, p, n)
                              && NoneBelow(format, mem, roots, found.value, p, n)
    {
      hide Look, Shape, Field, L2Table, L1Entry;
      var ttbr := 0;
      while ttbr < |roots|
        invariant ttbr <= |roots| <= 4 && NoneBelow(format, mem, roots, ttbr * ROOT_PAGES, p, n)
      {
        if roots[ttbr].None? {
          SkipRoot(format, mem, roots, ttbr);
          SkipPages(format, mem, roots, ttbr * ROOT_PAGES, (ttbr + 1) * ROOT_PAGES, p, n);
        } else {
          found := SearchRoot(ttbr, p, n);
          if found.Some? {
            return;
          }
        }
        ttbr := ttbr + 1;
      }
      SkipRest(format, mem, roots, p, n);
      found := None;
    }

    method SearchRoot(ttbr: nat, p: nat, n: nat) returns (found: Option<nat>)
      requires Valid() && ttbr < |roots| && roots[ttbr].Some? && n > 0 && (p + n) * PAGE < U64 + PAGE
      requires NoneBelow(format, mem, roots, ttbr * ROOT_PAGES, p, n)
      ensures found.None? ==> NoneBelow(format, mem, roots, (ttbr + 1) * ROOT_PAGES, p, n)
      ensures found.Some? ==> && found.value < SPACE && Matches(format, mem, roots, found.value, p, n)
                              && NoneBelow(format, mem, roots, found.value, p, n)
    {
      hide Look, Field;
      var l1 := 0;
      while l1 < FAN
        invariant l1 <= FAN && NoneBelow(format, mem, roots, (ttbr * FAN + l1) * FAN, p, n)
      {
        var q := ttbr * FAN + l1;
        assert q / FAN == ttbr && q % FAN == l1;
        RootIsTable(format, mem, roots, q);
        var e := mem[roots[ttbr].value][l1];
        if !IsValid(e) {
          SkipSlot(format, mem, roots, q);
          SkipPages(format, mem, roots, q * FAN, (q + 1) * FAN, p, n);
        } else {
          assert L2Table(format, mem, roots, q) == Some(Field(format, e));
          found := SearchTable(q, Field(format, e), p, n);
          if found.Some? {
            return;
          }
        }
        l1 := l1 + 1;
      }
      found := None;
    }

    method SearchTable(q: nat, t: nat, p: nat, n: nat) returns (found: Option<nat>)
      requires Valid() && q < 4 * FAN && L2Table(format, mem, roots, q) == Some(t) && TableAt(mem, t).Some?
      requires n > 0 && (p + n) * PAGE < U64 + PAGE && NoneBelow(format, mem, roots, q * FAN, p, n)
      ensures found.None? ==> NoneBelow(format, mem, roots, (q + 1) * FAN, p, n)
      ensures found.Some? ==> && found.value < SPACE && Matches(format, mem, roots, found.value, p, n)
                              && NoneBelow(format, mem, roots, found.value, p, n)
    {
      hide Field, Shape, L2Table, Matches;
      var page := 0;
      while page < FAN
        invariant page <= FAN && NoneBelow(format, mem, roots, q * FAN + page, p, n)
      {
        var x := q * FAN + page;
        assert x / FAN == q && x % FAN == page;
        if IsValid(mem[t][page]) && Field(format, mem[t][page]) == p {
          assert Look(format, mem, roots, x) == Some(p);
          var yes := Contiguous(x, p, n);
          if yes {
            return Some(x);
          }
        } else {
          SkipPages(format, mem, roots, x, x + 1, p, n);
        }
        page := page + 1;
      }
      found := None;
    }

    /** `dart_find_iova`: the least window of null translations at or above `start` that ends within the 36 bits
        above `vm_base`, found with its skip over the page that ended a window, and the error value exactly when
        there is none; the sums must not leave 64 bits. */
    method FindIova(start: int, len: nat) returns (r: int)
      requires Valid() && vmBase + ROOT_BYTES + len < U64 && start + len < U64
      requires len == 0 ==> vmBase + ROOT_BYTES + 2 * PAGE < U64
      ensures len % PAGE != 0 || start < 0 || start % PAGE != 0 ==> r == -1
      ensures len == 0 && start >= 0 && start % PAGE == 0 ==> r == PTR_ERR
      ensures len % PAGE == 0 && start >= 0 && start % PAGE == 0 && len > 0 ==>
                var s, n, e := start / PAGE, len / PAGE, (vmBase + ROOT_BYTES) / PAGE;
                if forall y: nat | s <= y && y + n <= e :: !Window(format, mem, roots, y, n) then r == PTR_ERR
                else
                  exists x: nat ::
                    && r == x * PAGE && s <= x && x + n <= e && Window(format, mem, roots, x, n)
                    && forall y: nat | s <= y < x :: !Window(format, mem, roots, y, n)
    {
      hide Look, Shape, Addr;
      if len % PAGE != 0 || start < 0 || start % PAGE != 0 {
        return -1;
      }
      var n, e := len / PAGE, (vmBase + ROOT_BYTES) / PAGE;
      ghost var s := start / PAGE;
      var x := start / PAGE;
      while x + n <= e
        invariant x >= s && (n > 0 ==> forall y: nat | s <= y < x :: !Window(format, mem, roots, y, n))
        decreases e - x
      {
        var first := Translate(x * PAGE);
        if first == 0 {
          var size := 1;
          while size < n
            invariant 1 <= size && (n > 0 ==> size <= n) && Window(format, mem, roots, x, size)
          {
            var next := Translate((x + size) * PAGE);
            if next != 0 {
              break;
            }
            size := size + 1;
          }
          if size == n {
            return x * PAGE;
          }
          x := x + size + 1;
        } else {
          x := x + 1;
        }
      }
      r := PTR_ERR;
    }
  }

  lemma SkipRest(f: Format, m: Memory, roots: Roots, p: nat, n: nat)
    requires |roots| <= 4 && n > 0 && NoneBelow(f, m, roots, |roots| * ROOT_PAGES, p, n)
    ensures NoneBelow(f, m, roots, SPACE, p, n)
  {
    hide Matches;
    forall y: nat | |roots| * ROOT_PAGES <= y < SPACE ensures Look(f, m, roots, y) != Some(p) {
      assert y / FAN / FAN >= |roots|;
    }
    SkipPages(f, m, roots, |roots| * ROOT_PAGES, SPACE, p, n);
  }

  // ---------------------------------------------------------------------- searching

  /** `n` pages from IOVA page `x` on translate to the physical pages from `p` on. */
  ghost predicate Matches(f: Format, m: Memory, roots: Roots, x: nat, p: nat, n: nat) {
    forall k: nat | k < n :: MatchAt(f, m, roots, x, p, k)
  }

  predicate MatchAt(f: Format, m: Memory, roots: Roots, x: nat, p: nat, k: nat) {
    (x + k) * PAGE < U64 && Look(f, m, roots, (x + k) % SPACE) == Some(p + k)
  }

  function PageCount(len: nat): (n: nat) {
    (len + (PAGE - 1)) / PAGE
  }

  /** Byte `j` from IOVA page `x` on translates to byte `j` of the physical range. */
  predicate Hits(f: Format, m: Memory, roots: Roots, x: nat, paddr: nat, j: nat) {
    var a := x * PAGE + j;
    && a < U64
    && match Look(f, m, roots, a / PAGE % SPACE)
       case None => false
       case Some(p) => p * PAGE + a % PAGE == paddr + j
  }

  ghost predicate AllHit(f: Format, m: Memory, roots: Roots, x: nat, paddr: nat, len: nat) {
    forall j: nat | j < len :: Hits(f, m, roots, x, paddr, j)
  }

  /** Page by page is byte by byte. */
  lemma MatchesBytes(f: Format, m: Memory, roots: Roots, x: nat, paddr: nat, len: nat)
    requires paddr % PAGE == 0
    ensures Matches(f, m, roots, x, paddr / PAGE, PageCount(len)) <==> AllHit(f, m, roots, x, paddr, len)
  {
    hide Look;
    if Matches(f, m, roots, x, paddr / PAGE, PageCount(len)) {
      forall j: nat | j < len ensures Hits(f, m, roots, x, paddr, j) {
        ByteHit(f, m, roots, x, paddr, len, j);
      }
    }
    if AllHit(f, m, roots, x, paddr, len) {
      forall k: nat | k < PageCount(len) ensures MatchAt(f, m, roots, x, paddr / PAGE, k) {
        PageHit(f, m, roots, x, paddr, len, k);
      }
    }
  }

  lemma ByteHit(f: Format, m: Memory, roots: Roots, x: nat, paddr: nat, len: nat, j: nat)
    requires paddr % PAGE == 0 && j < len && Matches(f, m, roots, x, paddr / PAGE, PageCount(len))
    ensures Hits(f, m, roots, x, paddr, j)
  {
    hide Look;
    var k := j / PAGE;
    assert j == k * PAGE + j % PAGE && k < PageCount(len);
    assert MatchAt(f, m, roots, x, paddr / PAGE, k);
    DivUnique(x * PAGE + j, PAGE, x + k, j % PAGE);
  }

  lemma PageHit(f: Format, m: Memory, roots: Roots, x: nat, paddr: nat, len: nat, k: nat)
    requires paddr % PAGE == 0 && k < PageCount(len) && AllHit(f, m, roots, x, paddr, len)
    ensures MatchAt(f, m, roots, x, paddr / PAGE, k)
  {
    hide Look;
    assert k * PAGE < len;
    assert Hits(f, m, roots, x, paddr, k * PAGE);
    DivUnique(x * PAGE + k * PAGE, PAGE, x + k, 0);
    var p := Look(f, m, roots, (x + k) % SPACE).value;
    assert p * PAGE == (paddr / PAGE + k) * PAGE;
  }

  /** Nothing below `x` matches. */
  ghost predicate NoneBelow(f: Format, m: Memory, roots: Roots, x: nat, p: nat, n: nat) {
    forall y: nat | y < x :: !Matches(f, m, roots, y, p, n)
  }

  /** The first of several pages does not match, so none of them starts a match. */
  lemma SkipPages(f: Format, m: Memory, roots: Roots, x: nat, x': nat, p: nat, n: nat)
    requires NoneBelow(f, m, roots, x, p, n) && n > 0 && x' <= SPACE
    requires forall y: nat | x <= y < x' :: Look(f, m, roots, y) != Some(p)
    ensures NoneBelow(f, m, roots, x', p, n)
  {
    hide Look;
    forall y: nat | y < x' ensures !Matches(f, m, roots, y, p, n) {
      if x <= y {
        assert (y + 0) % SPACE == y;
        assert !MatchAt(f, m, roots, y, p, 0);
      }
    }
  }

  lemma SkipSlot(f: Format, m: Memory, roots: Roots, q: nat)
    requires L2Table(f, m, roots, q).None?
    ensures forall y: nat | q * FAN <= y < (q + 1) * FAN :: Look(f, m, roots, y).None?
  {
    forall y: nat | q * FAN <= y < (q + 1) * FAN ensures Look(f, m, roots, y).None? {
      assert y / FAN == q;
    }
  }

  lemma SkipRoot(f: Format, m: Memory, roots: Roots, r: nat)
    requires r >= |roots| || roots[r].None?
    ensures forall y: nat | r * ROOT_PAGES <= y < (r + 1) * ROOT_PAGES :: Look(f, m, roots, y).None?
  {
    forall y: nat | r * ROOT_PAGES <= y < (r + 1) * ROOT_PAGES ensures Look(f, m, roots, y).None? {
      assert y / FAN / FAN == r;
    }
  }

  /** No page of the `n` from `y` on is translated, in the sense of `dart_find_iova`: the pointer that
      translation returns is null. */
  ghost predicate Window(f: Format, m: Memory, roots: Roots, y: nat, n: nat) {
    forall k: nat | y <= k < y + n :: Addr(f, m, roots, k * PAGE) == 0
  }

  /** A null pointer means an untranslated page, except for a page mapped to physical page 0. */
  lemma NullIsVacant(f: Format, m: Memory, roots: Roots, k: nat)
    ensures Addr(f, m, roots, k * PAGE) == 0 <==> Look(f, m, roots, k % SPACE) in {None, Some(0)}
  {
    hide Look;
    assert k * PAGE / PAGE == k && k * PAGE % PAGE == 0;
  }

  ghost predicate NothingMapped(f: Format, m: Memory, roots: Roots, y: nat, n: nat) {
    forall k: nat | y <= k < y + n :: Look(f, m, roots, k % SPACE).None?
  }

  /** A window of null translations is free exactly when no page of it is mapped to physical page 0. */
  lemma WindowFreeExactly(f: Format, m: Memory, roots: Roots, y: nat, n: nat)
    requires Window(f, m, roots, y, n)
    ensures NothingMapped(f, m, roots, y, n) <==>
            forall k: nat | y <= k < y + n :: Look(f, m, roots, k % SPACE) != Some(0)
  {
    hide Look;
    forall k: nat | y <= k < y + n ensures Look(f, m, roots, k % SPACE) in {None, Some(0)} {
      assert Addr(f, m, roots, k * PAGE) == 0;
      NullIsVacant(f, m, roots, k);
    }
  }

  /** A device on which the search for a free page yields one that is mapped. */
  method FindsMappedPage() returns (r: int, m: Memory, roots: Roots)
    ensures r == 0 && Look(T8110, m, roots, 0) == Some(0)
  {
    hide Look, Shape, Field, LeafEntry, MapCall;
    var dev := new Dev(T8110, [1], 0, false, [true]);
    assert Target(T8110, 0, 0) == 0 by { LowPage(T8110, 0); }
    hide Target;
    assert dev.roots == [Some(1)];
    OnePage(T8110, dev.roots, 0);
    var ret, fault := dev.MapFlags(0, 0, PAGE, 0);
    m, roots := dev.mem, dev.roots;
    assert Look(T8110, m, roots, 0) == Lookup(dev.view.look, 0);
    assert Window(T8110, m, roots, 0, 1) by { assert 0 * PAGE == 0 && PageNo(0) == 0; }
    hide Window;
    assert 0 / PAGE == 0 && 0 % PAGE == 0 && PAGE / PAGE == 1 && PAGE % PAGE == 0 && ROOT_BYTES / PAGE == ROOT_PAGES;
    r := dev.FindIova(0, PAGE);
    assert !forall y: nat | 0 <= y && y + 1 <= ROOT_PAGES :: !Window(T8110, m, roots, y, 1);
  }

  /** A Gen3 device whose window starts at 2^36: the search for the one page that is mapped yields an address that
      does not translate. */
  method SearchYieldsNull() returns (r: nat, addr: nat, low: nat)
    ensures r == ROOT_BYTES && addr == 0 && low == PAGE
  {
    hide Look, Shape, Field, LeafEntry, MapCall;
    var dev := new Dev(Gen3, [1], ROOT_BYTES, false, [true]);
    assert Target(Gen3, 1, 0) == 1 by { LowPage(Gen3, 1); }
    hide Target;
    assert dev.roots == [Some(1)];
    OnePage(Gen3, dev.roots, 1);
    var ret, fault := dev.MapFlags(0, PAGE, PAGE, 0);
    assert forall x: nat :: Look(Gen3, dev.mem, dev.roots, x) == if x == 0 then Some(1) else None;
    OnlyMatch(dev.mem, dev.roots);
    hide Matches, AllHit, Addr, MapsBytes, Mirrors, PageNo;
    assert ROOT_BYTES / PAGE % SPACE == ROOT_PAGES && 0 / PAGE % SPACE == 0 && ROOT_BYTES / ROOT_BYTES == 1;
    assert AllHit(Gen3, dev.mem, dev.roots, 0, PAGE, PAGE);
    r := dev.SearchRange(PAGE, PAGE);
    addr := dev.Translate(r);
    low := dev.Translate(0);
  }

  lemma OnlyMatch(m: Memory, roots: Roots)
    requires forall x: nat :: Look(Gen3, m, roots, x) == if x == 0 then Some(1) else None
    ensures forall x: nat | x < SPACE :: Matches(Gen3, m, roots, x, 1, 1) <==> x == 0
    ensures forall x: nat | x < SPACE :: AllHit(Gen3, m, roots, x, PAGE, PAGE) <==> x == 0
  {
    hide Look;
    forall x: nat | x < SPACE ensures Matches(Gen3, m, roots, x, 1, 1) <==> x == 0 {
      assert (x + 0) % SPACE == x;
      assert MatchAt(Gen3, m, roots, x, 1, 0) <==> x == 0;
    }
    hide Matches, AllHit;
    assert PAGE / PAGE == 1 && PageCount(PAGE) == 1;
    forall x: nat | x < SPACE ensures AllHit(Gen3, m, roots, x, PAGE, PAGE) <==> x == 0 {
      MatchesBytes(Gen3, m, roots, x, PAGE, PAGE);
    }
  }

  lemma LowPage(f: Format, p: nat)
    requires p < 0x4000
    ensures Target(f, p, 0) == p
  {
    ManyPages(f);
    hide Field, LeafEntry;
    RoundTrip(f, p, 0);
  }

  lemma OnePage(f: Format, roots: Roots, p: nat)
    requires roots == [Some(1)]
    ensures MapCall(f, roots, false, Flat(map[], {}, [true]), MapOp(0, p * PAGE, PAGE, 0)) ==
            (Some(Flat(map[0 := Target(f, p, 0)], {0}, [])), 0)
  {
    hide Target;
    var s, t := Flat(map[], {}, [true]), Target(f, p, 0);
    PagesOf(0, p);
    assert PageNo(0) == 0 && PAGE / PAGE == 1 && PAGE % PAGE == 0 && 0 / FAN == 0 && 0 % SPACE == 0;
    assert [true][1..] == [] && {} + {0} == {0} && s.look[0 := t] == map[0 := t];
    assert MapOne(f, roots, s, 0, p, 0) == (Flat(map[0 := t], {0}, []), true);
    assert MapUp(f, roots, s, 0, 1, p, 0) == (Flat(map[0 := t], {0}, []), 1);
  }

  /** The window above a Gen3 device's base: its address bits from 36 up. */
  function Above(f: Format, vmBase: nat): (w: nat) {
    if f.Gen3? then vmBase / ROOT_BYTES * ROOT_BYTES else 0
  }

  /** An address found by the search, with the window's bits added, translates as it did without them
      exactly when bits 36 and 37 of the window are clear or the address is not mapped anyway. */
  lemma WindowTranslates(m: Memory, roots: Roots, vmBase: nat, iova: nat)
    requires |roots| == 1 && iova < ROOT_BYTES
    ensures Addr(Gen3, m, roots, iova + Above(Gen3, vmBase)) == Addr(Gen3, m, roots, iova)
            <==> vmBase / ROOT_BYTES % 4 == 0 || Addr(Gen3, m, roots, iova) == 0
  {
    var w := vmBase / ROOT_BYTES;
    var x := iova / PAGE;
    WindowParts(iova, w);
    WindowPage(x, w);
    if w % 4 != 0 {
      LaterRoot(x, w % 4);
    }
  }

  lemma WindowParts(iova: nat, w: nat)
    requires iova < ROOT_BYTES
    ensures (iova + w * ROOT_BYTES) / PAGE == iova / PAGE + w * ROOT_PAGES
    ensures (iova + w * ROOT_BYTES) % PAGE == iova % PAGE && iova / PAGE < ROOT_PAGES
  {
    var x := iova / PAGE;
    assert iova == x * PAGE + iova % PAGE;
    DivUnique(iova + w * ROOT_BYTES, PAGE, x + w * ROOT_PAGES, iova % PAGE);
  }

  lemma LaterRoot(x: nat, r: nat)
    requires r > 0
    ensures (x + r * ROOT_PAGES) / FAN / FAN >= 1
  {
  }

  lemma WindowPage(x: nat, w: nat)
    requires x < ROOT_PAGES
    ensures (x + w * ROOT_PAGES) % SPACE == x + w % 4 * ROOT_PAGES
  {
    var a, b := w / 4, w % 4;
    assert w == a * 4 + b;
    InSpace(x + w * ROOT_PAGES, a, x + b * ROOT_PAGES);
  }

  lemma InSpace(n: nat, q: nat, r: nat)
    requires r < SPACE && n == q * SPACE + r
    ensures n % SPACE == r
  {
    DivUnique(n, SPACE, q, r);
  }

  function Addr(f: Format, m: Memory, roots: Roots, iova: nat): (a: nat) {
    match Look(f, m, roots, PageNo(iova))
    case None => 0
    case Some(p) => p * PAGE + iova % PAGE
  }

  /** The page is that of the tables, the offset in it that of the address. */
  lemma AddrParts(f: Format, m: Memory, roots: Roots, iova: nat)
    ensures match Look(f, m, roots, iova / PAGE % SPACE)
            case None => Addr(f, m, roots, iova) == 0
            case Some(p) => Addr(f, m, roots, iova) / PAGE == p && Addr(f, m, roots, iova) % PAGE == iova % PAGE
  {
    hide Look;
    match Look(f, m, roots, iova / PAGE % SPACE)
    case None =>
    case Some(p) => DivUnique(p * PAGE + iova % PAGE, PAGE, p, iova % PAGE);
  }

  /** Every byte of a mapped range translates to its own physical byte. */
  ghost predicate MapsBytes(f: Format, m: Memory, roots: Roots, iova: nat, paddr: nat, len: nat) {
    forall a: nat | iova <= a < iova + len :: Addr(f, m, roots, a) == paddr + (a - iova)
  }

  ghost predicate NoByteMapped(f: Format, m: Memory, roots: Roots, iova: nat, len: nat) {
    forall a: nat | iova <= a < iova + len :: Addr(f, m, roots, a) == 0
  }

  lemma LowPages(iova: nat, len: nat)
    requires iova % PAGE == 0 && len % PAGE == 0 && iova + len <= ROOT_BYTES
    ensures iova / PAGE + len / PAGE <= ROOT_PAGES && (len > 0 ==> PageNo(iova) == iova / PAGE)
  {
    ByteOf(iova, len);
    if len > 0 {
      InSpace(iova / PAGE, 0, iova / PAGE);
    }
  }

  lemma ByteOf(a: nat, j: nat)
    requires a % PAGE == 0
    ensures (a + j) / PAGE == a / PAGE + j / PAGE && (a + j) % PAGE == j % PAGE
  {
    assert a == a / PAGE * PAGE && j == j / PAGE * PAGE + j % PAGE;
    DivUnique(a + j, PAGE, a / PAGE + j / PAGE, j % PAGE);
  }

  lemma PagesBefore(j: nat, len: nat)
    requires j < len && len % PAGE == 0
    ensures j / PAGE < len / PAGE
  {
  }

  lemma ByteMapped(f: Format, m: Memory, roots: Roots, s: Flat, look: map<nat, nat>, iova: nat, paddr: nat, len: nat,
                   j: nat)
    requires Mirrors(f, m, roots, s) && iova % PAGE == 0 && paddr % PAGE == 0 && len % PAGE == 0 && j < len
    requires iova + len <= SPACE * PAGE && paddr + len <= f.Pages() * PAGE
    requires Mapped(f, look, s.look, iova / PAGE, len / PAGE, paddr / PAGE, 0)
    ensures Addr(f, m, roots, iova + j) == paddr + j
  {
    hide Field, LeafEntry, Look;
    var x, k := iova / PAGE, j / PAGE;
    ByteOf(iova, j);
    ByteOf(paddr, j);
    PagesBefore(j, len);
    assert (x + k) % SPACE == x + k;
    assert Lookup(s.look, x + k) == Some(Target(f, paddr / PAGE + k, 0));
    assert paddr / PAGE + k < f.Pages();
    RoundTrip(f, paddr / PAGE + k, 0);
    assert Look(f, m, roots, x + k) == Some(paddr / PAGE + k);
  }

  lemma BytesMapped(f: Format, m: Memory, roots: Roots, locked: bool, s: Flat, s': Flat, op: Op)
    requires op.MapOp? && MapCall(f, roots, locked, s, op) == (Some(s'), 0)
    requires Mirrors(f, m, roots, s') && Sane(roots, s)
    requires op.iova + op.len <= SPACE * PAGE && op.paddr + op.len <= f.Pages() * PAGE && op.flags == 0
    ensures MapsBytes(f, m, roots, op.iova, op.paddr, op.len)
  {
    hide Mirrors, Addr, Target, MapUp, Sane, Mapped;
    if op.len > 0 {
      InSpace(op.iova / PAGE, 0, op.iova / PAGE);
      MapUpEffect(f, roots, s, op.iova / PAGE, op.len / PAGE, op.paddr / PAGE, 0);
      forall a: nat | op.iova <= a < op.iova + op.len ensures Addr(f, m, roots, a) == op.paddr + (a - op.iova) {
        ByteMapped(f, m, roots, s', s.look, op.iova, op.paddr, op.len, a - op.iova);
      }
    }
  }

  lemma BytesUnmapped(f: Format, m: Memory, roots: Roots, s: Flat, iova: nat, len: nat)
    requires Sane(roots, s) && HasRoot(roots, 0) && iova % PAGE == 0 && len % PAGE == 0 && iova + len <= ROOT_BYTES
    ensures var r := UnmapUp(roots, s, PageNo(iova), len / PAGE);
            r.Some? && (Mirrors(f, m, roots, r.value) ==> NoByteMapped(f, m, roots, iova, len))
  {
    hide Mirrors, Unmapped, Sane, Look;
    LowPages(iova, len);
    if len == 0 {
      UnmapNothing(roots, s, PageNo(iova));
    } else {
      UnmapsRange(roots, s, iova / PAGE, len / PAGE);
      hide UnmapUp;
      var s' := UnmapUp(roots, s, iova / PAGE, len / PAGE).value;
      if Mirrors(f, m, roots, s') {
        forall a: nat | iova <= a < iova + len ensures Addr(f, m, roots, a) == 0 {
          ByteUnmapped(f, m, roots, s', s.look, iova, len, a - iova);
        }
      }
    }
  }

  lemma ByteUnmapped(f: Format, m: Memory, roots: Roots, s: Flat, look: map<nat, nat>, iova: nat, len: nat, j: nat)
    requires Mirrors(f, m, roots, s) && iova % PAGE == 0 && len % PAGE == 0 && iova + len <= ROOT_BYTES && j < len
    requires Unmapped(look, s.look, iova / PAGE, len / PAGE)
    ensures Addr(f, m, roots, iova + j) == 0
  {
    hide Look;
    ByteOf(iova, j);
    PagesBefore(j, len);
    var x := iova / PAGE + j / PAGE;
    assert x % SPACE == x;
    assert Lookup(s.look, x).None?;
  }

  // ---------------------------------------------------------------------- what a change of the tables shows

  lemma EmptyTables(f: Format, m: Memory, roots: Roots)
    requires forall r: nat | r < |roots| :: roots[r].Some? && TableAt(m, roots[r].value) == Some(seq(FAN, _ => 0))
    requires forall r: nat, s: nat | r < s < |roots| :: roots[r] != roots[s]
    ensures Shape(f, m, roots) && forall grants: seq<bool> :: Mirrors(f, m, roots, Flat(map[], {}, grants))
  {
    hide Field;
    assert forall q: nat :: L2Table(f, m, roots, q).None?;
  }

  lemma RootIsTable(f: Format, m: Memory, roots: Roots, q: nat)
    requires Shape(f, m, roots) && q / FAN < |roots| && roots[q / FAN].Some?
    ensures TableAt(m, roots[q / FAN].value).Some? && L1Entry(m, roots, q) == Some(m[roots[q / FAN].value][q % FAN])
  {
    hide L2Table;
  }

  /** A slot has a table exactly when its L1 entry is valid. */
  lemma SlotShown(f: Format, m: Memory, roots: Roots, s: Flat, q: nat)
    requires Shape(f, m, roots) && Mirrors(f, m, roots, s) && L1Entry(m, roots, q).Some?
    ensures q in s.slots <==> IsValid(L1Entry(m, roots, q).value)
    ensures q in s.slots ==>
              && L2Table(f, m, roots, q) == Some(Field(f, L1Entry(m, roots, q).value))
              && TableAt(m, L2Table(f, m, roots, q).value).Some?
    ensures q !in s.slots ==> L2Table(f, m, roots, q).None?
  {
    hide Field, Look;
  }

  lemma PageShown(f: Format, m: Memory, roots: Roots, s: Flat, x: nat, t: nat)
    requires Mirrors(f, m, roots, s) && L2Table(f, m, roots, x / FAN) == Some(t) && TableAt(m, t).Some?
    ensures x in s.look <==> IsValid(m[t][x % FAN])
  {
    hide Field, L2Table;
    assert Look(f, m, roots, x) == Lookup(s.look, x);
  }

  lemma GrantsUnseen(f: Format, m: Memory, roots: Roots, s: Flat, grants: seq<bool>)
    requires Mirrors(f, m, roots, s)
    ensures Mirrors(f, m, roots, s.(grants := grants))
  {
    hide Look, L2Table;
  }

  lemma HungShown(f: Format, m: Memory, roots: Roots, s: Flat, q: nat, c: nat, t: seq<nat>, grants: seq<bool>)
    requires Shape(f, m, roots) && Mirrors(f, m, roots, s) && L1Entry(m, roots, q).Some?
    requires L2Table(f, m, roots, q).None?
    requires c !in m && c < f.Pages() && |t| == FAN && forall k | 0 <= k < FAN :: t[k] == 0
    requires |m| <= 4 + |s.slots|
    ensures var m' := Store(m[c := t], roots[q / FAN].value, q % FAN, TableEntry(f, c));
            && Shape(f, m', roots) && Mirrors(f, m', roots, s.(slots := s.slots + {q}, grants := grants))
            && |m'| <= 4 + |s.slots + {q}| && L2Table(f, m', roots, q) == Some(c) && TableAt(m', c).Some?
  {
    hide Field, Look, L2Table, TableEntry, Format.Pages, Shape, Lookup;
    var m' := Store(m[c := t], roots[q / FAN].value, q % FAN, TableEntry(f, c));
    TableHung(f, m, roots, q, c, t);
    assert m'.Keys == m.Keys + {c};
    assert q !in s.slots;
    assert |m'| == |m| + 1 && |s.slots + {q}| == |s.slots| + 1;
    assert m'[c] == t by { RootIsNotNew(f, m, roots, q, c); }
  }

  lemma RootIsNotNew(f: Format, m: Memory, roots: Roots, q: nat, c: nat)
    requires Shape(f, m, roots) && L1Entry(m, roots, q).Some? && c !in m
    ensures roots[q / FAN].value != c
  {
  }

  lemma LeafShown(f: Format, m: Memory, roots: Roots, s: Flat, x: nat, w: nat)
    requires Shape(f, m, roots) && Mirrors(f, m, roots, s) && L2Table(f, m, roots, x / FAN).Some?
    requires TableAt(m, L2Table(f, m, roots, x / FAN).value).Some? && |m| <= 4 + |s.slots|
    ensures var m' := Store(m, L2Table(f, m, roots, x / FAN).value, x % FAN, w);
            var look := if IsValid(w) then s.look[x := Field(f, w)] else s.look - {x};
            Shape(f, m', roots) && Mirrors(f, m', roots, s.(look := look)) && |m'| <= 4 + |s.slots|
  {
    hide Field, Look, L2Table, Shape, IsValid;
    var t := L2Table(f, m, roots, x / FAN).value;
    LeafStored(f, m, roots, x / FAN, x % FAN, w);
    assert x / FAN * FAN + x % FAN == x;
    assert Store(m, t, x % FAN, w).Keys == m.Keys;
  }

  lemma DroppedShown(f: Format, m: Memory, roots: Roots, s: Flat, q: nat)
    requires Shape(f, m, roots) && Mirrors(f, m, roots, s) && L2Table(f, m, roots, q).Some?
    requires TableAt(m, L2Table(f, m, roots, q).value).Some? && |m| <= 4 + |s.slots|
    requires forall k | 0 <= k < FAN :: !IsValid(m[L2Table(f, m, roots, q).value][k])
    ensures var m' := Store(m, roots[q / FAN].value, q % FAN, 0) - {L2Table(f, m, roots, q).value};
            Shape(f, m', roots) && Mirrors(f, m', roots, s.(slots := s.slots - {q})) && |m'| <= 4 + |s.slots - {q}|
  {
    TableDropped(f, m, roots, q);
    var t := L2Table(f, m, roots, q).value;
    var m' := Store(m, roots[q / FAN].value, q % FAN, 0) - {t};
    assert m'.Keys == m.Keys - {t};
    assert q in s.slots;
    hide Field, Look, L2Table, Shape;
  }

  lemma TableVacant(f: Format, m: Memory, roots: Roots, s: Flat, q: nat, t: nat)
    requires Mirrors(f, m, roots, s) && L2Table(f, m, roots, q) == Some(t) && TableAt(m, t).Some?
    ensures SlotVacant(s.look, q) <==> forall k | 0 <= k < FAN :: !IsValid(m[t][k])
  {
    forall k | 0 <= k < FAN ensures q * FAN + k in s.look <==> IsValid(m[t][k]) {
      SlotAndPlace(q * FAN + k, q, k);
      PageShown(f, m, roots, s, q * FAN + k, t);
    }
    hide L2Table, Field, IsValid, Look, Mirrors;
    if SlotVacant(s.look, q) {
      forall k | 0 <= k < FAN ensures !IsValid(m[t][k]) {
        assert q * FAN + k !in s.look;
      }
    } else {
      var y: nat :| q * FAN <= y < q * FAN + FAN && y in s.look;
      var k := y - q * FAN;
      assert q * FAN + k in s.look && IsValid(m[t][k]);
    }
  }

  lemma MapUpStep(f: Format, roots: Roots, s: Flat, x: nat, n: nat, p: nat, flags: nat)
    ensures n == 0 ==> MapUp(f, roots, s, x, n, p, flags) == (s, 0)
    ensures n > 0 ==>
              var (s1, ok) := MapOne(f, roots, s, x % SPACE, p, flags);
              var (s2, k) := MapUp(f, roots, s1, x + 1, n - 1, p + 1, flags);
              MapUp(f, roots, s, x, n, p, flags) == if ok then (s2, k + 1) else (s1, 0)
  {
    hide MapOne;
  }

  lemma RootOf(x: nat)
    ensures x / ROOT_PAGES == x / FAN / FAN
  {
  }

  lemma SlotOf(root: nat, low: nat)
    requires low < FAN
    ensures (root * FAN + low) / FAN == root && (root * FAN + low) % FAN == low
    ensures low / FAN == 0 && low % FAN == low
  {
  }

  lemma PagesOf(paddr: nat, k: nat)
    requires paddr % PAGE == 0
    ensures (paddr + k * PAGE) / PAGE == paddr / PAGE + k && (paddr + k * PAGE) % PAGE == 0
  {
    assert paddr + k * PAGE == (paddr / PAGE + k) * PAGE;
  }

  lemma NotValid()
    ensures !IsValid(0)
  {
  }

  // ---------------------------------------------------------------------- whole runs

  function AllThere(tables: seq<nat>): (roots: Roots) {
    seq(|tables|, i requires 0 <= i < |tables| => Some(tables[i]))
  }

  /** Any sequence of calls on a device with empty tables, whatever `memalign` answers, up to a call that follows a
      null pointer or frees a table in use: results and translations are those of the flat map.  For calls under
      root 0 there is no such call, and `RunsExactly` says what each one does. */
  method Run(f: Format, tables: seq<nat>, locked: bool, grants: seq<bool>, ops: seq<Op>)
      returns (m: Memory, rets: seq<int>, halted: bool)
    requires |tables| == f.Roots() && forall i, j | 0 <= i < j < |tables| :: tables[i] != tables[j]
    ensures var s := Play(f, AllThere(tables), locked, grants, ops);
            && rets == s.rets && halted == s.halted
            && (!halted ==> forall x: nat :: Look(f, m, AllThere(tables), x) == Lookup(s.flat.look, x))
  {
    hide Look, Shape, Play, MapCall, UnmapCall, FreeCall, AllThere;
    var roots := AllThere(tables);
    var dev := new Dev(f, tables, 0, locked, grants);
    rets, halted := [], false;
    PlayNothing(f, roots, locked, grants);
    for i := 0 to |ops|
      invariant fresh(dev) && dev.format == f && dev.locked == locked && dev.roots == roots
      invariant !halted ==> dev.Valid() && State(dev.view, rets, halted) == Play(f, roots, locked, grants, ops[..i])
      invariant halted ==>
                  var s := Play(f, roots, locked, grants, ops[..i]); s.halted && s.rets == rets
    {
      assert ops[..i + 1] == ops[..i] + [ops[i]];
      PlayStep(f, roots, locked, grants, ops[..i], ops[i]);
      if !halted {
        var ret := 0;
        match ops[i] {
          case MapOp(iova, paddr, len, flags) => ret, halted := dev.MapFlags(iova, paddr, len, flags);
          case UnmapOp(iova, len) => halted := dev.Unmap(iova, len);
          case FreeOp(iova) => halted := dev.FreeL2(iova);
        }
        if !halted {
          rets := rets + [ret];
        }
      }
    }
    assert ops[..|ops|] == ops;
    m := dev.mem;
  }

  lemma PlayNothing(f: Format, roots: Roots, locked: bool, grants: seq<bool>)
    ensures Play(f, roots, locked, grants, []) == State(Flat(map[], {}, grants), [], false)
  {
  }

  lemma PlayStep(f: Format, roots: Roots, locked: bool, grants: seq<bool>, ops: seq<Op>, op: Op)
    ensures Play(f, roots, locked, grants, ops + [op]) ==
            After(f, roots, locked, Play(f, roots, locked, grants, ops), op)
  {
    hide After;
    assert (ops + [op])[..|ops + [op]| - 1] == ops;
  }
}
