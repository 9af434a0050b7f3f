/** Variables handed from one boot stage to the next: `src/chainload.c` writes them behind the image, and
    `src/payload.c` of the next stage scans them. */
module Handoff {
  import opened Wrappers

  newtype byte = x: int | 0 <= x < 256

  const MAX_NAME := 64      // MAX_VAR_NAME
  const MAX_VALUE := 1024   // MAX_VAR_SIZE
  const SZ_16K := 0x4000
  const U64_MAX := 0xffff_ffff_ffff_ffff
  const EQUALS: byte := 0x3d
  const NEWLINE: byte := 0x0a

  /** A variable: a C string up to its first '=', and the rest. */
  datatype Var = Var(name: seq<byte>, value: seq<byte>)

  predicate IsVar(v: Var) {
    EQUALS !in v.name && 0 !in v.name && 0 !in v.value
  }

  function Text(v: Var): (s: seq<byte>)
    ensures |s| == |v.name| + 1 + |v.value|
  {
    v.name + [EQUALS] + v.value
  }

  function Line(v: Var): (s: seq<byte>)
    ensures |s| == |v.name| + |v.value| + 2
  {
    Text(v) + [NEWLINE]
  }

  function Lines(vars: seq<Var>): (s: seq<byte>) {
    if vars == [] then [] else Line(vars[0]) + Lines(vars[1..])
  }

  function Zeros(n: nat): (s: seq<byte>)
    ensures |s| == n && forall k | 0 <= k < n :: s[k] == 0
  {
    seq(n, _ => 0)
  }

  // ---------------------------------------------------------------------- strings in memory

  /** `strnlen`: the length of the string at `p`, at most `max`; memory ends like a string. */
  function StrNLen(mem: seq<byte>, p: nat, max: nat): (n: nat)
    requires p <= |mem|
    ensures n <= max && p + n <= |mem| && forall j | p <= j < p + n :: mem[j] != 0
    ensures n < max && p + n < |mem| ==> mem[p + n] == 0
    decreases max
  {
    if max == 0 || p == |mem| || mem[p] == 0 then 0 else 1 + StrNLen(mem, p + 1, max - 1)
  }

  /** `memchr`: the first place of `c` in the `n` bytes at `p`. */
  function MemChr(mem: seq<byte>, p: nat, n: nat, c: byte): (k: Option<nat>)
    requires p + n <= |mem|
    ensures k.Some? ==> k.value < n && mem[p + k.value] == c && forall j | p <= j < p + k.value :: mem[j] != c
    ensures k.None? ==> forall j | p <= j < p + n :: mem[j] != c
    decreases n
  {
    if n == 0 then None
    else if mem[p] == c then Some(0)
    else
      match MemChr(mem, p + 1, n - 1, c)
      case None => None
      case Some(k) => Some(k + 1)
  }

  /** `memchr` bounded by `strnlen`: the first `c` in a string whose first `max` bytes may stand before it. */
  function FindIn(mem: seq<byte>, p: nat, max: nat, c: byte): (k: Option<nat>)
    requires p <= |mem|
    ensures k.Some? ==>
              && k.value <= max && p + k.value < |mem| && mem[p + k.value] == c
              && forall j | p <= j < p + k.value :: mem[j] != c && mem[j] != 0
  {
    MemChr(mem, p, StrNLen(mem, p, max + 1), c)
  }

  predicate Matches(mem: seq<byte>, p: nat, magic: seq<byte>) {
    p + |magic| <= |mem| && mem[p..p + |magic|] == magic
  }

  /** The payload magics that are looked for before a variable. */
  predicate HasMagic(mem: seq<byte>, p: nat) {
    || Matches(mem, p, [0x1f, 0x8b])
    || Matches(mem, p, [0xfd, 0x37, 0x7a, 0x58, 0x5a, 0x00])
    || Matches(mem, p, [0xd0, 0x0d, 0xfe, 0xed])
    || Matches(mem, p, [0x30, 0x37, 0x30, 0x37, 0x30])
    || Matches(mem, p + 0x38, [0x41, 0x52, 0x4d, 0x64])
    || Matches(mem, p, [0x6d, 0x31, 0x6e, 0x31, 0x5f, 0x73, 0x69, 0x67])
    || Matches(mem, p, [0x6d, 0x31, 0x6e, 0x31, 0x5f, 0x69, 0x6e, 0x69, 0x74, 0x72, 0x61, 0x6d, 0x66, 0x73])
    || Matches(mem, p, [0x6d, 0x31, 0x6e, 0x31, 0x5f, 0x6c, 0x6f, 0x67, 0x6f, 0x5f, 0x32, 0x35, 0x36, 0x31, 0x32, 0x38])
  }

  /** `check_var`: the variable at `p`. */
  function CheckVar(mem: seq<byte>, p: nat): (v: Option<Var>)
    requires p <= |mem|
    ensures v.Some? ==> p + |v.value.name| + |v.value.value| + 2 <= |mem|
  {
    match FindIn(mem, p, MAX_NAME, EQUALS)
    case None => None
    case Some(e) =>
      var val := p + e + 1;
      match FindIn(mem, val, MAX_VALUE, NEWLINE)
      case None => None
      case Some(n) => Some(Var(mem[p..p + e], mem[val..val + n]))
  }

  /** How a scan ends: at another payload, at zeros, at the SEP firmware, or at something unknown. */
  datatype Stop = Payload | Empty | Img4 | Unknown

  function Ending(mem: seq<byte>, p: nat): Stop {
    if Matches(mem, p, [0, 0, 0, 0]) then Empty
    else if Matches(mem, p + 5, [0x16, 0x04, 0x49, 0x4d, 0x47, 0x34]) then Img4 else Unknown
  }

  /** The scan loop over `load_one_payload`, for variables. */
  function ScanFrom(mem: seq<byte>, p: nat): (r: (seq<Var>, Stop))
    requires p <= |mem|
    decreases |mem| - p
  {
    if HasMagic(mem, p) then ([], Payload)
    else
      match CheckVar(mem, p)
      case None =>
        ([], Ending(mem, p))
      case Some(v) =>
        var (rest, stop) := ScanFrom(mem, p + |v.name| + |v.value| + 2);
        ([v] + rest, stop)
  }

  /** The bytes of a text. */
  function Ascii(s: string): (b: seq<byte>)
    requires forall i | 0 <= i < |s| :: s[i] as int < 128
    ensures |b| == |s| && forall i | 0 <= i < |s| :: b[i] as int == s[i] as int
  {
    seq(|s|, i requires 0 <= i < |s| => s[i] as int as byte)
  }

  /** What stops the scan as another payload: gzip, xz, a device tree, a cpio archive, a kernel, and the three
      kinds that are marked for this loader. */
  lemma PayloadsStop(mem: seq<byte>, p: nat)
    requires p <= |mem|
    ensures HasMagic(mem, p) <==>
              || Matches(mem, p, [0x1f, 0x8b]) || Matches(mem, p, [0xfd] + Ascii("7zXZ") + [0])
              || Matches(mem, p, [0xd0, 0x0d, 0xfe, 0xed]) || Matches(mem, p, Ascii("07070"))
              || Matches(mem, p + 0x38, Ascii("ARMd"))
              || Matches(mem, p, Ascii("m1n1_sig")) || Matches(mem, p, Ascii("m1n1_initramfs"))
              || Matches(mem, p, Ascii("m1n1_logo_256128"))
    ensures HasMagic(mem, p) ==> ScanFrom(mem, p) == ([], Payload)
  {
    hide Matches;
    MagicTexts();
  }

  lemma MagicTexts()
    ensures [0xfd] + Ascii("7zXZ") + [0] == [0xfd, 0x37, 0x7a, 0x58, 0x5a, 0x00]
    ensures Ascii("07070") == [0x30, 0x37, 0x30, 0x37, 0x30] && Ascii("ARMd") == [0x41, 0x52, 0x4d, 0x64]
    ensures Ascii("m1n1_sig") == [0x6d, 0x31, 0x6e, 0x31, 0x5f, 0x73, 0x69, 0x67]
    ensures Ascii("m1n1_initramfs") ==
            [0x6d, 0x31, 0x6e, 0x31, 0x5f, 0x69, 0x6e, 0x69, 0x74, 0x72, 0x61, 0x6d, 0x66, 0x73]
    ensures Ascii("m1n1_logo_256128") ==
            [0x6d, 0x31, 0x6e, 0x31, 0x5f, 0x6c, 0x6f, 0x67, 0x6f, 0x5f, 0x32, 0x35, 0x36, 0x31, 0x32, 0x38]
    ensures [0x16, 0x04] + Ascii("IMG4") == [0x16, 0x04, 0x49, 0x4d, 0x47, 0x34]
  {
  }

  /** Where no payload and no variable is: four zeros end the scan, the SEP firmware is known by its tag, and everything
      else is unknown. */
  lemma EndsAs(mem: seq<byte>, p: nat)
    requires p <= |mem| && !HasMagic(mem, p) && CheckVar(mem, p).None?
    ensures var (vars, stop) := ScanFrom(mem, p);
            && vars == []
            && (stop == Empty <==> p + 4 <= |mem| && forall i | p <= i < p + 4 :: mem[i] == 0)
            && (stop == Img4 <==> stop != Empty && Matches(mem, p + 5, [0x16, 0x04] + Ascii("IMG4")))
  {
    hide HasMagic, CheckVar;
    MagicTexts();
    if p + 4 <= |mem| {
      assert mem[p..p + 4] == [0, 0, 0, 0] <==> forall i | p <= i < p + 4 :: mem[i] == 0 by {
        var s := mem[p..p + 4];
        assert mem[p] == s[0] && mem[p + 1] == s[1] && mem[p + 2] == s[2] && mem[p + 3] == s[3];
      }
    }
  }

  // ---------------------------------------------------------------------- writing, then scanning

  /** What the scan can take: a name and a value within the limits, and no newline in the value. */
  predicate Scannable(v: Var) {
    |v.name| <= MAX_NAME && |v.value| <= MAX_VALUE && NEWLINE !in v.value
  }

  ghost predicate At(mem: seq<byte>, p: nat, s: seq<byte>) {
    p + |s| <= |mem| && mem[p..p + |s|] == s
  }

  /** A line in memory, byte by byte. */
  lemma LineBytes(mem: seq<byte>, p: nat, v: Var)
    requires At(mem, p, Line(v))
    ensures var e := p + |v.name|;
            var end := e + 1 + |v.value|;
            && end < |mem| && mem[p..e] == v.name && mem[e] == EQUALS
            && mem[e + 1..end] == v.value && mem[end] == NEWLINE
  {
    hide Line, Text;
    var n, w := |v.name|, |v.value|;
    var s := mem[p..p + n + w + 2];
    LineParts(v);
    assert s == Line(v);
    SubSlice(mem, p, p + n + w + 2, 0, n);
    SubSlice(mem, p, p + n + w + 2, n + 1, n + 1 + w);
    assert mem[p + n] == s[n] && mem[p + (n + 1 + w)] == s[n + 1 + w];
  }

  lemma SubSlice(mem: seq<byte>, p: nat, q: nat, a: nat, b: nat)
    requires p <= q <= |mem| && a <= b <= q - p
    ensures mem[p..q][a..b] == mem[p + a..p + b]
  {
    forall k | 0 <= k < b - a ensures mem[p..q][a..b][k] == mem[p + a..p + b][k] {
      assert mem[p..q][a + k] == mem[p + (a + k)];
    }
  }

  lemma LineParts(v: Var)
    ensures var s, n, w := Line(v), |v.name|, |v.value|;
            s[..n] == v.name && s[n] == EQUALS && s[n + 1..n + 1 + w] == v.value && s[n + 1 + w] == NEWLINE
  {
  }

  /** At a line, the variable found is the one written exactly when it is scannable. */
  lemma CheckVarAtLine(mem: seq<byte>, p: nat, v: Var)
    requires IsVar(v) && At(mem, p, Line(v))
    ensures CheckVar(mem, p) == Some(v) <==> Scannable(v)
  {
    hide FindIn, Line, Text;
    LineBytes(mem, p, v);
    var e := p + |v.name|;
    forall j | p <= j < e ensures mem[j] != EQUALS && mem[j] != 0 {
      assert mem[p..e][j - p] == mem[j];
    }
    FindsName(mem, p, |v.name|);
    FindsValue(mem, e + 1, v.value);
    LookAhead(mem, p, v);
  }

  /** `CheckVar` at a line, once the two searches are known. */
  lemma LookAhead(mem: seq<byte>, p: nat, v: Var)
    requires p + |v.name| + |v.value| + 2 <= |mem|
    requires mem[p..p + |v.name|] == v.name && mem[p + |v.name| + 1..p + |v.name| + 1 + |v.value|] == v.value
    requires FindIn(mem, p, MAX_NAME, EQUALS) == if |v.name| <= MAX_NAME then Some(|v.name|) else None
    ensures CheckVar(mem, p) == Some(v) <==>
              && |v.name| <= MAX_NAME
              && FindIn(mem, p + |v.name| + 1, MAX_VALUE, NEWLINE) == Some(|v.value|)
  {
    hide FindIn;
  }

  lemma FindsName(mem: seq<byte>, p: nat, n: nat)
    requires p + n < |mem| && mem[p + n] == EQUALS && forall j | p <= j < p + n :: mem[j] != EQUALS && mem[j] != 0
    ensures FindIn(mem, p, MAX_NAME, EQUALS) == if n <= MAX_NAME then Some(n) else None
  {
    hide StrNLen, MemChr;
    var l := StrNLen(mem, p, MAX_NAME + 1);
    assert n <= MAX_NAME ==> l > n;
    var k := MemChr(mem, p, l, EQUALS);
    assert n < l ==> mem[p + n] == EQUALS;
  }

  lemma FindsValue(mem: seq<byte>, val: nat, value: seq<byte>)
    requires val + |value| < |mem| && mem[val..val + |value|] == value && mem[val + |value|] == NEWLINE && 0 !in value
    ensures FindIn(mem, val, MAX_VALUE, NEWLINE) == Some(|value|) <==> |value| <= MAX_VALUE && NEWLINE !in value
  {
    hide StrNLen, MemChr;
    var n := |value|;
    forall j | val <= j < val + n ensures mem[j] == value[j - val] {
      assert mem[val..val + n][j - val] == mem[j];
    }
    var l := StrNLen(mem, val, MAX_VALUE + 1);
    var k := MemChr(mem, val, l, NEWLINE);
    if n <= MAX_VALUE && NEWLINE !in value {
      assert l > n;
      assert k.Some? && k.value == n;
    } else if NEWLINE in value {
      var i :| 0 <= i < n && value[i] == NEWLINE;
      assert mem[val + i] == NEWLINE;
    }
  }

  /** No payload magic where a line starts or the lines end. */
  ghost predicate Clean(mem: seq<byte>, p: nat, vars: seq<Var>)
    decreases |vars|
  {
    !HasMagic(mem, p) && (vars == [] || Clean(mem, p + |Line(vars[0])|, vars[1..]))
  }

  ghost predicate AllVars(vars: seq<Var>) {
    forall k | 0 <= k < |vars| :: IsVar(vars[k])
  }

  ghost predicate AllScannable(vars: seq<Var>) {
    forall k | 0 <= k < |vars| :: Scannable(vars[k])
  }

  lemma LinesSplit(mem: seq<byte>, p: nat, vars: seq<Var>)
    requires vars != [] && At(mem, p, Lines(vars))
    ensures At(mem, p, Line(vars[0])) && At(mem, p + |Line(vars[0])|, Lines(vars[1..]))
    ensures |Lines(vars)| == |Line(vars[0])| + |Lines(vars[1..])|
  {
    hide Line;
    var a, b := Line(vars[0]), Lines(vars[1..]);
    var s := mem[p..p + |a + b|];
    assert s == a + b;
    SubSlice(mem, p, p + |a + b|, 0, |a|);
    SubSlice(mem, p, p + |a + b|, |a|, |a| + |b|);
    assert (a + b)[..|a|] == a && (a + b)[|a|..|a| + |b|] == b;
  }

  /** Written lines scan back to the variables, in order, and the scan stops at the zeros behind them. */
  lemma {:induction false} LinesScanBack(mem: seq<byte>, p: nat, vars: seq<Var>)
    requires AllVars(vars) && AllScannable(vars) && At(mem, p, Lines(vars)) && Clean(mem, p, vars)
    requires At(mem, p + |Lines(vars)|, [0, 0, 0, 0])
    ensures ScanFrom(mem, p) == (vars, Empty)
    decreases |vars|
  {
    hide HasMagic, Line, CheckVar;
    if vars == [] {
      assert p + |Lines(vars)| == p;
      assert mem[p] == mem[p..p + 4][0] == 0;
      NoVarAtZero(mem, p);
    } else {
      LinesSplit(mem, p, vars);
      var v := vars[0];
      CheckVarAtLine(mem, p, v);
      LinesScanBack(mem, p + |Line(v)|, vars[1..]);
      assert [v] + vars[1..] == vars;
    }
  }

  lemma NoVarAtZero(mem: seq<byte>, p: nat)
    requires p < |mem| && mem[p] == 0
    ensures CheckVar(mem, p).None?
  {
    assert StrNLen(mem, p, MAX_NAME + 1) == 0;
  }

  /** A list that comes back was scannable, and no magic stood in the way if the scan reached the zeros. */
  lemma {:induction false} OnlyScannableComeBack(mem: seq<byte>, p: nat, vars: seq<Var>)
    requires AllVars(vars) && At(mem, p, Lines(vars)) && ScanFrom(mem, p).0 == vars
    ensures AllScannable(vars) && (ScanFrom(mem, p).1 == Empty ==> Clean(mem, p, vars))
    decreases |vars|
  {
    hide HasMagic, Line, CheckVar;
    if vars != [] {
      LinesSplit(mem, p, vars);
      var v := vars[0];
      assert !HasMagic(mem, p) && CheckVar(mem, p) == Some(v);
      CheckVarAtLine(mem, p, v);
      var (rest, stop) := ScanFrom(mem, p + |Line(v)|);
      assert ([v] + rest)[1..] == rest;
      OnlyScannableComeBack(mem, p + |Line(v)|, vars[1..]);
      forall k | 0 <= k < |vars| ensures Scannable(vars[k]) {
        assert k > 0 ==> vars[1..][k - 1] == vars[k];
      }
    }
  }

  /** The hand-off: the scan yields the list that was written and stops at the zeros behind it exactly when
      every variable is within the limits and has no newline in its value, and no line looks like another
      payload. */
  lemma HandoffExact(mem: seq<byte>, p: nat, vars: seq<Var>)
    requires AllVars(vars) && At(mem, p, Lines(vars)) && At(mem, p + |Lines(vars)|, [0, 0, 0, 0])
    ensures ScanFrom(mem, p) == (vars, Empty) <==> AllScannable(vars) && Clean(mem, p, vars)
  {
    hide ScanFrom, Clean, Lines;
    if AllScannable(vars) && Clean(mem, p, vars) {
      LinesScanBack(mem, p, vars);
    } else if ScanFrom(mem, p) == (vars, Empty) {
      OnlyScannableComeBack(mem, p, vars);
    }
  }

  // ---------------------------------------------------------------------- the code

  function TotalLength(texts: seq<seq<byte>>): (n: nat) {
    if texts == [] then 0 else TotalLength(texts[..|texts| - 1]) + |texts[|texts| - 1]| + 1
  }

  function TextLines(texts: seq<seq<byte>>): (s: seq<byte>)
    ensures |s| == TotalLength(texts)
  {
    if texts == [] then [] else TextLines(texts[..|texts| - 1]) + (texts[|texts| - 1] + [NEWLINE])
  }

  /** The size of the block that `chainload_image` lays out; none exactly when a 64-bit sum would overflow. */
  method Measure(size: nat, texts: seq<seq<byte>>) returns (total: Option<nat>)
    requires size <= U64_MAX
    ensures total.None? <==> size + TotalLength(texts) + 4 + (SZ_16K - 1) > U64_MAX
    ensures total.Some? ==> total.value == RoundUp(size + TotalLength(texts) + 4)
  {
    var sum := size;
    var i := 0;
    while i < |texts|
      invariant i <= |texts| && sum == size + TotalLength(texts[..i]) && sum <= U64_MAX
    {
      TotalStep(texts, i);
      var len := |texts[i]| + 1;
      if sum > U64_MAX - len {
        TotalGrows(texts, i + 1);
        return None;
      }
      sum := sum + len;
      i := i + 1;
    }
    assert texts[..|texts|] == texts;
    if sum > U64_MAX - 4 - (SZ_16K - 1) {
      return None;
    }
    total := Some(RoundUp(sum + 4));
  }

  /** The layout part of `chainload_image`: the image, one line for each variable, and zeros up to a multiple
      of 16K, at least four of them; refused exactly when the image is empty or the size overflows. */
  method WriteImage(image: seq<byte>, texts: seq<seq<byte>>) returns (block: Option<seq<byte>>)
    requires |image| <= U64_MAX
    ensures block.None? <==> image == [] || |image| + TotalLength(texts) + 4 + (SZ_16K - 1) > U64_MAX
    ensures block.Some? ==> block.value == Laid(image, TextLines(texts)) && |block.value| % SZ_16K == 0
  {
    if image == [] {
      return None;
    }
    var total := Measure(|image|, texts);
    if total.None? {
      return None;
    }
    var buf := new byte[total.value](_ => 0);
    assert buf[..] == Zeros(buf.Length);
    hide RoundUp, TotalLength, TextLines, Zeros;
    WriteLines(buf, image, texts);
    block := Some(buf[..]);
  }

  /** The image and the lines written into zeroed memory. */
  method WriteLines(buf: array<byte>, image: seq<byte>, texts: seq<seq<byte>>)
    requires buf[..] == Zeros(buf.Length) && |image| + TotalLength(texts) <= buf.Length
    modifies buf
    ensures buf[..] == image + TextLines(texts) + Zeros(buf.Length - |image| - TotalLength(texts))
  {
    NothingWritten(image);
    hide TotalLength, TextLines;
    CopyInto(buf, 0, image, []);
    var p := |image|;
    var i := 0;
    assert texts[..0] == [];
    while i < |texts|
      invariant i <= |texts| && p == |image| + TotalLength(texts[..i]) && p <= buf.Length
      invariant buf[..] == image + TextLines(texts[..i]) + Zeros(buf.Length - p)
    {
      TotalStep(texts, i);
      TotalGrows(texts, i + 1);
      ghost var done := image + TextLines(texts[..i]);
      CopyInto(buf, p, texts[i] + [NEWLINE], done);
      assert image + TextLines(texts[..i + 1]) == done + (texts[i] + [NEWLINE]);
      p := p + |texts[i]| + 1;
      i := i + 1;
    }
    assert texts[..|texts|] == texts;
  }

  lemma NothingWritten(image: seq<byte>)
    ensures TotalLength([]) == 0 && [] + image == image + TextLines([])
  {
  }

  /** How many zeros follow `n` bytes. */
  function Padding(n: nat): (pad: nat)
    ensures 4 <= pad < SZ_16K + 4 && (n + pad) % SZ_16K == 0
  {
    RoundUp(n + 4) - n
  }

  /** An image, lines behind it, and zeros. */
  function Laid(image: seq<byte>, lines: seq<byte>): (s: seq<byte>) {
    image + lines + Zeros(Padding(|image| + |lines|))
  }

  function RoundUp(x: nat): (r: nat)
    ensures r % SZ_16K == 0 && x <= r < x + SZ_16K
  {
    (x + (SZ_16K - 1)) / SZ_16K * SZ_16K
  }

  lemma TotalStep(texts: seq<seq<byte>>, i: nat)
    requires i < |texts|
    ensures TotalLength(texts[..i + 1]) == TotalLength(texts[..i]) + |texts[i]| + 1
    ensures TextLines(texts[..i + 1]) == TextLines(texts[..i]) + (texts[i] + [NEWLINE])
  {
    assert texts[..i + 1][..i] == texts[..i];
  }

  lemma {:induction false} TotalGrows(texts: seq<seq<byte>>, i: nat)
    requires i <= |texts|
    ensures TotalLength(texts[..i]) <= TotalLength(texts)
    decreases |texts| - i
  {
    if i < |texts| {
      TotalStep(texts, i);
      TotalGrows(texts, i + 1);
    } else {
      assert texts[..i] == texts;
    }
  }

  /** Bytes copied over the zeros behind what has been written. */
  method CopyInto(buf: array<byte>, at: nat, s: seq<byte>, ghost done: seq<byte>)
    requires at + |s| <= buf.Length && |done| == at
    requires buf[..] == done + Zeros(buf.Length - at)
    modifies buf
    ensures buf[..] == done + s + Zeros(buf.Length - at - |s|)
  {
    forall i | 0 <= i < |s| {
      buf[at + i] := s[i];
    }
    forall j | 0 <= j < buf.Length ensures buf[j] == (done + s + Zeros(buf.Length - at - |s|))[j] {
      assert old(buf[..])[j] == (done + Zeros(buf.Length - at))[j];
    }
  }

  // ---------------------------------------------------------------------- the next stage's scan

  function Strings(vars: seq<Var>): (s: seq<byte>) {
    if vars == [] then [] else Strings(vars[..|vars| - 1]) + (Text(vars[|vars| - 1]) + [0])
  }

  ghost predicate SameFrom(m: seq<byte>, m': seq<byte>, p: nat) {
    |m| == |m'| && forall j | p <= j < |m| :: m[j] == m'[j]
  }

  lemma {:induction false} StrNLenLocal(m: seq<byte>, m': seq<byte>, p: nat, max: nat)
    requires SameFrom(m, m', p) && p <= |m|
    ensures StrNLen(m, p, max) == StrNLen(m', p, max)
    decreases max
  {
    if max > 0 && p < |m| {
      StrNLenLocal(m, m', p + 1, max - 1);
    }
  }

  lemma {:induction false} MemChrLocal(m: seq<byte>, m': seq<byte>, p: nat, n: nat, c: byte)
    requires SameFrom(m, m', p) && p + n <= |m|
    ensures MemChr(m, p, n, c) == MemChr(m', p, n, c)
    decreases n
  {
    if n > 0 {
      MemChrLocal(m, m', p + 1, n - 1, c);
    }
  }

  lemma FindInLocal(m: seq<byte>, m': seq<byte>, p: nat, max: nat, c: byte)
    requires SameFrom(m, m', p) && p <= |m|
    ensures FindIn(m, p, max, c) == FindIn(m', p, max, c)
  {
    StrNLenLocal(m, m', p, max + 1);
    MemChrLocal(m, m', p, StrNLen(m, p, max + 1), c);
  }

  /** What is found at `p` depends only on the memory from `p` on. */
  lemma CheckVarLocal(m: seq<byte>, m': seq<byte>, p: nat)
    requires SameFrom(m, m', p) && p <= |m|
    ensures CheckVar(m, p) == CheckVar(m', p)
  {
    hide FindIn;
    FindInLocal(m, m', p, MAX_NAME, EQUALS);
    match FindIn(m, p, MAX_NAME, EQUALS)
    case None =>
    case Some(e) =>
      var val := p + e + 1;
      assert m[p..p + e] == m'[p..p + e];
      FindInLocal(m, m', val, MAX_VALUE, NEWLINE);
      match FindIn(m, val, MAX_VALUE, NEWLINE)
      case None =>
      case Some(n) =>
        assert m[val..val + n] == m'[val..val + n];
  }

  lemma MatchesLocal(m: seq<byte>, m': seq<byte>, p: nat, magic: seq<byte>)
    requires SameFrom(m, m', p)
    ensures Matches(m, p, magic) == Matches(m', p, magic)
  {
    if p + |magic| <= |m| {
      assert m[p..p + |magic|] == m'[p..p + |magic|];
    }
  }

  lemma HasMagicLocal(m: seq<byte>, m': seq<byte>, p: nat)
    requires SameFrom(m, m', p)
    ensures HasMagic(m, p) == HasMagic(m', p)
  {
    hide Matches;
    forall q: nat, magic | p <= q ensures Matches(m, q, magic) == Matches(m', q, magic) {
      MatchesLocal(m, m', q, magic);
    }
  }

  /** Where `check_var` finds the value's end: the newline of the line it returns. */
  lemma CheckVarShape(mem: seq<byte>, p: nat)
    requires p <= |mem| && CheckVar(mem, p).Some?
    ensures var v := CheckVar(mem, p).value;
            IsVar(v) && Scannable(v) && At(mem, p, Line(v))
  {
    hide FindIn;
    var e := FindIn(mem, p, MAX_NAME, EQUALS).value;
    var val := p + e + 1;
    var n := FindIn(mem, val, MAX_VALUE, NEWLINE).value;
    LineAt(mem, p, e, val, val + n);
  }

  lemma LineAt(mem: seq<byte>, p: nat, e: nat, val: nat, end: nat)
    requires p + e < |mem| && val == p + e + 1 && val <= end < |mem| && mem[p + e] == EQUALS && mem[end] == NEWLINE
    ensures At(mem, p, Line(Var(mem[p..p + e], mem[val..end])))
  {
  }

  /** `check_var`, which ends the variable it finds by overwriting the newline. */
  method TakeVar(mem: array<byte>, p: nat) returns (v: Option<Var>)
    requires p <= mem.Length
    modifies mem
    ensures v == CheckVar(old(mem[..]), p)
    ensures v.None? ==> mem[..] == old(mem[..])
    ensures v.Some? ==> mem[..] == old(mem[..])[p + |v.value.name| + |v.value.value| + 1 := 0]
  {
    hide FindIn;
    var e := FindIn(mem[..], p, MAX_NAME, EQUALS);
    if e.None? {
      return None;
    }
    var val := p + e.value + 1;
    var end := FindIn(mem[..], val, MAX_VALUE, NEWLINE);
    if end.None? {
      return None;
    }
    v := Some(Var(mem[p..p + e.value], mem[val..val + end.value]));
    mem[val + end.value] := 0;
  }

  /** One line becomes one C string. */
  lemma LineBecomesString(m: seq<byte>, p: nat, v: Var)
    requires At(m, p, Line(v))
    ensures var end := p + |Line(v)|;
            m[end - 1 := 0][..end] == m[..p] + (Text(v) + [0])
  {
    hide Text;
    var end := p + |Line(v)|;
    var m' := m[end - 1 := 0];
    forall k | p <= k < end ensures m'[k] == (Text(v) + [0])[k - p] {
      assert m[p..end][k - p] == m[k];
    }
  }

  lemma EndingLocal(m: seq<byte>, m': seq<byte>, p: nat)
    requires SameFrom(m, m', p)
    ensures Ending(m, p) == Ending(m', p)
  {
    MatchesLocal(m, m', p, [0, 0, 0, 0]);
    MatchesLocal(m, m', p + 5, [0x16, 0x04, 0x49, 0x4d, 0x47, 0x34]);
  }

  lemma ScanStep(m: seq<byte>, p: nat, v: Var, found: seq<Var>)
    requires p <= |m| && !HasMagic(m, p) && CheckVar(m, p) == Some(v)
    ensures var q := p + |v.name| + |v.value| + 2;
            found + ScanFrom(m, p).0 == (found + [v]) + ScanFrom(m, q).0 && ScanFrom(m, p).1 == ScanFrom(m, q).1
  {
    hide HasMagic, CheckVar;
  }

  lemma ScanStops(m: seq<byte>, p: nat, found: seq<Var>)
    requires p <= |m| && (HasMagic(m, p) || CheckVar(m, p).None?)
    ensures found + ScanFrom(m, p).0 == found
    ensures ScanFrom(m, p).1 == if HasMagic(m, p) then Payload else Ending(m, p)
  {
    hide HasMagic, CheckVar;
  }

  lemma StringsSnoc(vars: seq<Var>, v: Var)
    ensures Strings(vars + [v]) == Strings(vars) + (Text(v) + [0])
  {
    assert (vars + [v])[..|vars|] == vars;
  }

  /** `payload_run`'s scan: it yields what `ScanFrom` says of the memory as it was, and leaves each variable
      found as a C string, the memory in front and behind as it was. */
  method Scan(mem: array<byte>, start: nat) returns (found: seq<Var>, stop: Stop)
    requires start <= mem.Length
    modifies mem
    ensures found == ScanFrom(old(mem[..]), start).0 && stop == ScanFrom(old(mem[..]), start).1
    ensures start + |Strings(found)| <= mem.Length
    ensures mem[..] == old(mem[..start]) + Strings(found) + old(mem[..])[start + |Strings(found)|..]
  {
    hide CheckVar, HasMagic, ScanFrom, Ending, Scanning, Strings;
    ghost var m0 := mem[..];
    var p := start;
    found := [];
    ScanningStart(m0, start);
    while true
      invariant p <= mem.Length && Scanning(m0, mem[..], start, found, p)
      decreases mem.Length - p
    {
      ScanningLocal(m0, mem[..], start, found, p);
      if HasMagic(mem[..], p) {
        stop := Payload;
        break;
      }
      ghost var m := mem[..];
      var v := TakeVar(mem, p);
      if v.None? {
        stop := Ending(mem[..], p);
        break;
      }
      ScanningStep(m0, m, start, found, p, v.value);
      p := p + |v.value.name| + |v.value.value| + 2;
      found := found + [v.value];
    }
    ScanningEnd(m0, mem[..], start, found, p);
  }

  /** A scan that began at `start` has come to `p`: what it found is in front as C strings, the memory from `p` on is
      as it was, and the rest is still to be found. */
  ghost predicate Scanning(m0: seq<byte>, m: seq<byte>, start: nat, found: seq<Var>, p: nat) {
    && start <= p <= |m0| && p == start + |Strings(found)| && SameFrom(m0, m, p)
    && m[..p] == m0[..start] + Strings(found)
    && ScanFrom(m0, start).0 == found + ScanFrom(m0, p).0 && ScanFrom(m0, start).1 == ScanFrom(m0, p).1
  }

  lemma ScanningStart(m0: seq<byte>, start: nat)
    requires start <= |m0|
    ensures Scanning(m0, m0, start, [], start)
  {
    hide ScanFrom;
    assert [] + ScanFrom(m0, start).0 == ScanFrom(m0, start).0;
  }

  /** What is seen at `p` is what was there, and tells whether the scan is over. */
  lemma ScanningLocal(m0: seq<byte>, m: seq<byte>, start: nat, found: seq<Var>, p: nat)
    requires Scanning(m0, m, start, found, p)
    ensures p <= |m| && HasMagic(m, p) == HasMagic(m0, p) && CheckVar(m, p) == CheckVar(m0, p)
    ensures Ending(m, p) == Ending(m0, p)
    ensures HasMagic(m, p) || CheckVar(m, p).None? ==>
              && found == ScanFrom(m0, start).0
              && ScanFrom(m0, start).1 == if HasMagic(m, p) then Payload else Ending(m, p)
  {
    hide HasMagic, CheckVar, Ending, ScanFrom, Strings;
    HasMagicLocal(m0, m, p);
    CheckVarLocal(m0, m, p);
    EndingLocal(m0, m, p);
    if HasMagic(m, p) || CheckVar(m, p).None? {
      ScanStops(m0, p, found);
    }
  }

  lemma ScanningStep(m0: seq<byte>, m: seq<byte>, start: nat, found: seq<Var>, p: nat, v: Var)
    requires Scanning(m0, m, start, found, p) && !HasMagic(m, p) && CheckVar(m, p) == Some(v)
    ensures var q := p + |v.name| + |v.value| + 2;
            q <= |m| && Scanning(m0, m[q - 1 := 0], start, found + [v], q)
  {
    hide HasMagic, CheckVar, Ending, ScanFrom, Text, Strings;
    ScanningLocal(m0, m, start, found, p);
    CheckVarShape(m, p);
    LineBecomesString(m, p, v);
    ScanStep(m0, p, v, found);
    StringsSnoc(found, v);
  }

  lemma ScanningEnd(m0: seq<byte>, m: seq<byte>, start: nat, found: seq<Var>, p: nat)
    requires Scanning(m0, m, start, found, p)
    ensures start + |Strings(found)| <= |m0| && m == m0[..start] + Strings(found) + m0[start + |Strings(found)|..]
  {
    hide ScanFrom, Strings;
    assert m == m[..p] + m[p..] && m[p..] == m0[p..];
  }

  // ---------------------------------------------------------------------- from stage to stage

  function Texts(vars: seq<Var>): (s: seq<seq<byte>>) {
    seq(|vars|, i requires 0 <= i < |vars| => Text(vars[i]))
  }

  lemma {:induction false} LinesSnoc(vars: seq<Var>, v: Var)
    ensures Lines(vars + [v]) == Lines(vars) + Line(v)
    decreases |vars|
  {
    hide Line;
    if vars == [] {
      assert [v] == [] + [v] && [v][1..] == [];
      assert Lines([v]) == Line(v) + [];
    } else {
      assert (vars + [v])[1..] == vars[1..] + [v];
      LinesSnoc(vars[1..], v);
    }
  }

  /** The lines the writer appends one by one are the lines of the list. */
  lemma {:induction false} TextLinesAreLines(vars: seq<Var>)
    ensures TextLines(Texts(vars)) == Lines(vars)
    decreases |vars|
  {
    if vars != [] {
      var n := |vars| - 1;
      assert Texts(vars)[..n] == Texts(vars[..n]);
      TextLinesAreLines(vars[..n]);
      LinesSnoc(vars[..n], vars[n]);
      assert vars[..n] + [vars[n]] == vars;
    }
  }

  lemma LaidLines(image: seq<byte>, vars: seq<Var>, tail: seq<byte>)
    ensures var mem := Laid(image, Lines(vars)) + tail;
            At(mem, |image|, Lines(vars)) && At(mem, |image| + |Lines(vars)|, [0, 0, 0, 0])
  {
    hide Lines;
    var pad := Padding(|image| + |Lines(vars)|);
    Apart(image, Lines(vars), Zeros(pad) + tail);
    assert Laid(image, Lines(vars)) + tail == image + Lines(vars) + (Zeros(pad) + tail);
  }

  lemma Apart(a: seq<byte>, b: seq<byte>, c: seq<byte>)
    requires |c| >= 4 && c[..4] == [0, 0, 0, 0]
    ensures At(a + b + c, |a|, b) && At(a + b + c, |a| + |b|, [0, 0, 0, 0])
  {
    var m := a + b + c;
    forall k | 0 <= k < 4 ensures m[|a| + |b|..|a| + |b| + 4][k] == c[..4][k] {
    }
  }

  /** One stage writes its variables behind an image, and the next one, with anything at all behind the block,
      scans them: the same list comes out, up to the zeros, exactly under the condition of `HandoffExact`. */
  method HandOver(image: seq<byte>, vars: seq<Var>, tail: seq<byte>)
    returns (block: Option<seq<byte>>, found: seq<Var>, stop: Stop)
    requires |image| <= U64_MAX && AllVars(vars)
    ensures block.None? <==> image == [] || |image| + |Lines(vars)| + 4 + (SZ_16K - 1) > U64_MAX
    ensures block.Some? ==>
              && block.value == Laid(image, Lines(vars))
              && (found == vars && stop == Empty <==>
                    AllScannable(vars) && Clean(Laid(image, Lines(vars)) + tail, |image|, vars))
  {
    hide ScanFrom, Clean, Lines, Strings, Laid;
    TextLinesAreLines(vars);
    found, stop := [], Unknown;
    block := WriteImage(image, Texts(vars));
    if block.Some? {
      LaidLines(image, vars, tail);
      var mem := ToArray(block.value + tail);
      HandoffExact(mem[..], |image|, vars);
      found, stop := Scan(mem, |image|);
    }
  }

  method ToArray(s: seq<byte>) returns (a: array<byte>)
    ensures fresh(a) && a[..] == s
  {
    a := new byte[|s|](i requires 0 <= i < |s| => s[i]);
  }
}
