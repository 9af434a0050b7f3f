/** Withdrawing the external scanout from the display masters, `src/kboot.c`: specifier lists of variable
    width parsed as a whole before anything is edited, and a snapshot of the tree around the edits. */
module Scanout {
  import opened Wrappers

  const MAX_CELLS := 64
  const MAX_MASTERS := 8

  /** A property: absent, unreadable or of a length that is no whole number of cells, or its cells. */
  datatype Prop = Missing | Broken | Cells(s: seq<nat>)

  datatype Node = Node(phandle: Option<nat>, iommuCells: Prop, iommus: Prop, display: bool)

  /** The first node with the phandle. */
  function Provider(nodes: seq<Node>, phandle: nat): (n: Option<Node>) {
    if nodes == [] then None
    else if nodes[0].phandle == Some(phandle) then Some(nodes[0])
    else Provider(nodes[1..], phandle)
  }

  /** How many argument cells a provider takes. */
  function ArgCount(nodes: seq<Node>, phandle: nat): (n: Option<nat>) {
    match Provider(nodes, phandle)
    case None => None
    case Some(p) => if p.iommuCells.Cells? && |p.iommuCells.s| == 1 then Some(p.iommuCells.s[0]) else None
  }

  /** `dt_t8140_iommu_width`: the width of the specifier at the start of `cells`. */
  function Width(nodes: seq<Node>, cells: seq<nat>): (w: Option<nat>)
    ensures w.Some? ==> 1 <= w.value <= |cells|
  {
    if cells == [] then None
    else
      match ArgCount(nodes, cells[0])
      case None => None
      case Some(count) => if count > 16 || count >= |cells| then None else Some(count + 1)
  }

  /** A specifier is one cell wider than the provider's `#iommu-cells` says, the provider being the first node with that
      phandle; it is turned down when there is none, when the property is not one cell, when it is more than 16, or
      when the list is too short. */
  lemma SpecifierWidth(nodes: seq<Node>, cells: seq<nat>, i: nat)
    requires cells != [] && i <= |nodes| && forall j | 0 <= j < i :: nodes[j].phandle != Some(cells[0])
    requires i < |nodes| ==> nodes[i].phandle == Some(cells[0])
    ensures Width(nodes, cells) ==
            if i < |nodes| && nodes[i].iommuCells.Cells? && |nodes[i].iommuCells.s| == 1
               && nodes[i].iommuCells.s[0] <= 16 && nodes[i].iommuCells.s[0] + 1 <= |cells|
            then Some(nodes[i].iommuCells.s[0] + 1) else None
  {
    FirstProvider(nodes, cells[0], i);
  }

  lemma {:induction false} FirstProvider(nodes: seq<Node>, phandle: nat, i: nat)
    requires i <= |nodes| && forall j | 0 <= j < i :: nodes[j].phandle != Some(phandle)
    requires i < |nodes| ==> nodes[i].phandle == Some(phandle)
    ensures Provider(nodes, phandle) == if i < |nodes| then Some(nodes[i]) else None
    decreases i
  {
    if i > 0 {
      FirstProvider(nodes[1..], phandle, i - 1);
    }
  }

  /** A specifier list cut into its specifiers. */
  function Tuples(nodes: seq<Node>, cells: seq<nat>): (ts: Option<seq<seq<nat>>>)
    ensures ts.Some? ==> NonEmpty(ts.value)
    decreases |cells|
  {
    if cells == [] then Some([])
    else
      match Width(nodes, cells)
      case None => None
      case Some(w) =>
        match Tuples(nodes, cells[w..])
        case None => None
        case Some(rest) => Some([cells[..w]] + rest)
  }

  function Flatten(ts: seq<seq<nat>>): (cells: seq<nat>) {
    if ts == [] then [] else ts[0] + Flatten(ts[1..])
  }

  /** A provider followed by exactly its arguments. */
  predicate WholeTuple(nodes: seq<Node>, t: seq<nat>) {
    && t != [] && ArgCount(nodes, t[0]).Some?
    && ArgCount(nodes, t[0]).value <= 16 && |t| == ArgCount(nodes, t[0]).value + 1
  }

  /** Cutting is the inverse of joining: it succeeds exactly on joined whole specifiers, and gives them
      back; so no argument cell is ever taken for a provider. */
  lemma {:induction false} TuplesOfFlatten(nodes: seq<Node>, ts: seq<seq<nat>>)
    requires forall k | 0 <= k < |ts| :: WholeTuple(nodes, ts[k])
    ensures Tuples(nodes, Flatten(ts)) == Some(ts)
    decreases |ts|
  {
    if ts != [] {
      var t, rest := ts[0], ts[1..];
      TuplesOfFlatten(nodes, rest);
      var cells := Flatten(ts);
      assert cells[0] == t[0] && cells[..|t|] == t && cells[|t|..] == Flatten(rest);
      assert [t] + rest == ts;
    }
  }

  lemma {:induction false} FlattenOfTuples(nodes: seq<Node>, cells: seq<nat>)
    requires Tuples(nodes, cells).Some?
    ensures Flatten(Tuples(nodes, cells).value) == cells
    ensures forall k | 0 <= k < |Tuples(nodes, cells).value| :: WholeTuple(nodes, Tuples(nodes, cells).value[k])
    decreases |cells|
  {
    if cells != [] {
      var w := Width(nodes, cells).value;
      FlattenOfTuples(nodes, cells[w..]);
      var rest := Tuples(nodes, cells[w..]).value;
      assert ([cells[..w]] + rest)[1..] == rest;
    }
  }

  // ---------------------------------------------------------------------- filtering

  function Providers(ts: seq<seq<nat>>): (s: set<nat>)
    requires NonEmpty(ts)
  {
    set k | 0 <= k < |ts| :: ts[k][0]
  }

  predicate NonEmpty(ts: seq<seq<nat>>) {
    forall k | 0 <= k < |ts| :: ts[k] != []
  }

  ghost function AsSet(s: seq<nat>): (r: set<nat>)
    ensures forall d :: d in r <==> d in s
  {
    set d | d in s
  }

  /** The specifiers whose provider is not withdrawn, in order. */
  function Keep(ts: seq<seq<nat>>, gone: set<nat>): (r: seq<seq<nat>>)
    requires NonEmpty(ts)
  {
    if ts == [] then []
    else
      var before := Keep(ts[..|ts| - 1], gone);
      var t := ts[|ts| - 1];
      if t[0] in gone then before else before + [t]
  }

  lemma {:induction false} FlattenSnoc(ts: seq<seq<nat>>, t: seq<nat>)
    ensures Flatten(ts + [t]) == Flatten(ts) + t
    decreases |ts|
  {
    if ts == [] {
      assert ts + [t] == [t] && Flatten([t][1..]) == [];
    } else {
      FlattenSnoc(ts[1..], t);
      assert (ts + [t])[1..] == ts[1..] + [t];
      assert ts[0] + (Flatten(ts[1..]) + t) == ts[0] + Flatten(ts[1..]) + t;
    }
  }

  /** What is kept are whole specifiers of other providers, and each that was there is there as often. */
  lemma {:induction false} KeepExactly(ts: seq<seq<nat>>, gone: set<nat>)
    requires NonEmpty(ts)
    ensures forall k | 0 <= k < |Keep(ts, gone)| :: Keep(ts, gone)[k] in ts && Keep(ts, gone)[k][0] !in gone
    ensures forall t | t != [] && t[0] !in gone :: multiset(Keep(ts, gone))[t] == multiset(ts)[t]
    decreases |ts|
  {
    if ts != [] {
      var n := |ts| - 1;
      KeepExactly(ts[..n], gone);
      assert ts == ts[..n] + [ts[n]];
    }
  }

  /** Keeping looks at one specifier at a time and leaves the order alone. */
  lemma {:induction false} KeepConcat(ts: seq<seq<nat>>, us: seq<seq<nat>>, gone: set<nat>)
    requires NonEmpty(ts) && NonEmpty(us)
    ensures NonEmpty(ts + us) && Keep(ts + us, gone) == Keep(ts, gone) + Keep(us, gone)
    decreases |us|
  {
    if us == [] {
      assert ts + us == ts;
    } else {
      var n := |us| - 1;
      KeepConcat(ts, us[..n], gone);
      KeepLast(ts + us[..n], us[n], gone);
      KeepLast(us[..n], us[n], gone);
      assert ts + us == ts + us[..n] + [us[n]] && us == us[..n] + [us[n]];
    }
  }

  lemma KeepLast(ts: seq<seq<nat>>, t: seq<nat>, gone: set<nat>)
    requires NonEmpty(ts) && t != []
    ensures NonEmpty(ts + [t]) && Keep(ts + [t], gone) == Keep(ts, gone) + if t[0] in gone then [] else [t]
  {
    assert (ts + [t])[..|ts|] == ts;
  }

  /** Cutting the rewritten list gives the kept specifiers: withdrawing leaves a list that reads as exactly
      the old specifiers minus those of the withdrawn providers. */
  lemma RewrittenReadsAsKept(nodes: seq<Node>, cells: seq<nat>, gone: set<nat>)
    requires Tuples(nodes, cells).Some?
    ensures var kept := Keep(Tuples(nodes, cells).value, gone);
            Tuples(nodes, Flatten(kept)) == Some(kept)
  {
    var ts := Tuples(nodes, cells).value;
    FlattenOfTuples(nodes, cells);
    KeepExactly(ts, gone);
    var kept := Keep(ts, gone);
    forall k | 0 <= k < |kept| ensures WholeTuple(nodes, kept[k]) {
      var j :| 0 <= j < |ts| && ts[j] == kept[k];
    }
    TuplesOfFlatten(nodes, kept);
  }

  // ---------------------------------------------------------------------- the edit of the tree

  /** The external controller's DMA node: absent, an error, or a node. */
  datatype Sub = NoSub | SubError | SubNode(i: nat)

  /** The providers to withdraw; `None` when the external list cannot be read. */
  function Gone(nodes: seq<Node>, sub: Sub): (g: Option<set<nat>>)
    requires sub.SubNode? ==> sub.i < |nodes|
  {
    match sub
    case NoSub => Some({})
    case SubError => None
    case SubNode(i) =>
      match nodes[i].iommus
      case Missing => Some({})
      case Broken => None
      case Cells(s) =>
        if |s| > MAX_CELLS || Tuples(nodes, s).None? then None else Some(Providers(Tuples(nodes, s).value))
  }

  /** A display master whose list, if it has one, can be read. */
  predicate Readable(nodes: seq<Node>, n: Node) {
    match n.iommus
    case Missing => true
    case Broken => false
    case Cells(s) => |s| <= MAX_CELLS && Tuples(nodes, s).Some?
  }

  /** A node as it is to be afterwards. */
  function Rewritten(nodes: seq<Node>, n: Node, gone: set<nat>): (r: Node)
    requires n.display ==> Readable(nodes, n)
  {
    if !n.display || !n.iommus.Cells? then n
    else n.(iommus := Cells(Flatten(Keep(Tuples(nodes, n.iommus.s).value, gone))))
  }

  ghost predicate AllReadable(nodes: seq<Node>, j: nat)
    requires j <= |nodes|
  {
    forall k | 0 <= k < j :: nodes[k].display ==> Readable(nodes, nodes[k])
  }

  /** A display master that has something to give up. */
  predicate Loses(nodes: seq<Node>, n: Node, gone: set<nat>) {
    n.display && Readable(nodes, n) && Rewritten(nodes, n, gone) != n
  }

  function Losers(nodes: seq<Node>, gone: set<nat>, j: nat): (n: nat)
    requires j <= |nodes|
  {
    if j == 0 then 0 else Losers(nodes, gone, j - 1) + if Loses(nodes, nodes[j - 1], gone) then 1 else 0
  }

  lemma {:induction false} LosersGrow(nodes: seq<Node>, gone: set<nat>, i: nat, j: nat)
    requires i <= j <= |nodes|
    ensures Losers(nodes, gone, i) <= Losers(nodes, gone, j)
    decreases j
  {
    if i < j {
      LosersGrow(nodes, gone, i, j - 1);
    }
  }

  /** What the code can handle: every list in the way can be read, and at most eight change. */
  ghost predicate Withdrawable(nodes: seq<Node>, gone: Option<set<nat>>) {
    && gone.Some?
    && (gone.value != {} ==> AllReadable(nodes, |nodes|) && Losers(nodes, gone.value, |nodes|) <= MAX_MASTERS)
  }

  datatype Edit = Edit(idx: nat, cells: seq<nat>)

  function Applied(nodes: seq<Node>, edits: seq<Edit>): (r: seq<Node>)
    ensures |r| == |nodes|
  {
    if edits == [] then nodes
    else
      var m, e := Applied(nodes, edits[..|edits| - 1]), edits[|edits| - 1];
      if e.idx < |m| then m[e.idx := m[e.idx].(iommus := Cells(e.cells))] else m
  }

  /** The nodes before `j` as they are to be, the others as they are. */
  ghost predicate DoneUpTo(nodes: seq<Node>, m: seq<Node>, gone: set<nat>, j: nat) {
    && |m| == |nodes| && j <= |nodes|
    && (forall k | 0 <= k < j ::
          && (nodes[k].display ==> Readable(nodes, nodes[k]))
          && m[k] == Rewritten(nodes, nodes[k], gone))
    && (forall k | j <= k < |nodes| :: m[k] == nodes[k])
  }

  lemma AppliedMore(nodes: seq<Node>, edits: seq<Edit>, e: Edit)
    requires e.idx < |nodes|
    ensures Applied(nodes, edits + [e]) ==
            Applied(nodes, edits)[e.idx := Applied(nodes, edits)[e.idx].(iommus := Cells(e.cells))]
  {
    assert (edits + [e])[..|edits|] == edits;
  }

  lemma KeepSnoc(ts: seq<seq<nat>>, t: seq<nat>, gone: set<nat>)
    requires NonEmpty(ts) && t != []
    ensures NonEmpty(ts + [t])
    ensures Flatten(Keep(ts + [t], gone)) == Flatten(Keep(ts, gone)) + if t[0] in gone then [] else t
  {
    assert (ts + [t])[..|ts|] == ts;
    FlattenSnoc(Keep(ts, gone), t);
  }

  /** One specifier further: what has been cut off, and the rest. */
  lemma TuplesStep(nodes: seq<Node>, cells: seq<nat>, i: nat, done: seq<seq<nat>>)
    requires i < |cells| && Width(nodes, cells[i..]).Some?
    ensures var w := Width(nodes, cells[i..]).value;
            && i + w <= |cells|
            && (Tuples(nodes, cells[i..]).Some? <==> Tuples(nodes, cells[i + w..]).Some?)
            && (Tuples(nodes, cells[i..]).Some? ==>
                  done + Tuples(nodes, cells[i..]).value ==
                      (done + [cells[i..i + w]]) + Tuples(nodes, cells[i + w..]).value)
  {
    var w := Width(nodes, cells[i..]).value;
    assert cells[i..][w..] == cells[i + w..] && cells[i..][..w] == cells[i..i + w];
  }

  /** Where the loops over a list stand: `done` are the specifiers before `i`. */
  ghost predicate CutUpTo(nodes: seq<Node>, cells: seq<nat>, i: nat, done: seq<seq<nat>>) {
    && i <= |cells| && NonEmpty(done)
    && (Tuples(nodes, cells).Some? <==> Tuples(nodes, cells[i..]).Some?)
    && (Tuples(nodes, cells).Some? ==> Tuples(nodes, cells).value == done + Tuples(nodes, cells[i..]).value)
  }

  lemma CutNext(nodes: seq<Node>, cells: seq<nat>, i: nat, done: seq<seq<nat>>)
    requires CutUpTo(nodes, cells, i, done) && i < |cells|
    ensures Width(nodes, cells[i..]).None? ==> Tuples(nodes, cells).None?
    ensures Width(nodes, cells[i..]).Some? ==>
              var w := Width(nodes, cells[i..]).value;
              i + w <= |cells| && CutUpTo(nodes, cells, i + w, done + [cells[i..i + w]])
  {
    if Width(nodes, cells[i..]).Some? {
      TuplesStep(nodes, cells, i, done);
    }
  }

  class Fdt {
    var nodes: seq<Node>

    constructor (nodes: seq<Node>)
      ensures this.nodes == nodes
    {
      this.nodes := nodes;
    }

    /** The first loop of `dt_t8140_withdraw_external_scanout`. */
    method ReadProviders(refs: seq<nat>) returns (darts: Option<seq<nat>>)
      ensures darts.Some? <==> Tuples(nodes, refs).Some?
      ensures darts.Some? ==> AsSet(darts.value) == Providers(Tuples(nodes, refs).value)
    {
      hide Width, Tuples;
      var found: seq<nat> := [];
      var i := 0;
      ghost var done: seq<seq<nat>> := [];
      CutStart(nodes, refs);
      while i < |refs|
        invariant CutUpTo(nodes, refs, i, done)
        invariant |found| == |done| && forall k | 0 <= k < |done| :: found[k] == done[k][0]
        decreases |refs| - i
      {
        CutNext(nodes, refs, i, done);
        var width := Width(nodes, refs[i..]);
        if width.None? {
          return None;
        }
        assert 1 <= width.value by { WidthPositive(nodes, refs[i..]); }
        found := found + [refs[i]];
        done := done + [refs[i..i + width.value]];
        i := i + width.value;
      }
      CutEnd(nodes, refs, done);
      assert forall d :: d in found <==> exists k :: 0 <= k < |done| && done[k][0] == d;
      darts := Some(found);
    }

    /** The loop over one master's list. */
    method Retain(refs: seq<nat>, darts: seq<nat>) returns (kept: Option<seq<nat>>)
      ensures kept.Some? <==> Tuples(nodes, refs).Some?
      ensures kept.Some? ==> kept.value == Flatten(Keep(Tuples(nodes, refs).value, AsSet(darts)))
    {
      hide Width, Tuples, Keep, Flatten;
      ghost var gone := AsSet(darts);
      var retained: seq<nat> := [];
      var i := 0;
      ghost var done: seq<seq<nat>> := [];
      CutStart(nodes, refs);
      KeepNothing(gone);
      while i < |refs|
        invariant CutUpTo(nodes, refs, i, done)
        invariant retained == Flatten(Keep(done, gone))
        decreases |refs| - i
      {
        CutNext(nodes, refs, i, done);
        var width := Width(nodes, refs[i..]);
        if width.None? {
          return None;
        }
        assert 1 <= width.value by { WidthPositive(nodes, refs[i..]); }
        var t := refs[i..i + width.value];
        var remove := refs[i] in darts;
        KeepSnoc(done, t, gone);
        if !remove {
          retained := retained + t;
        }
        done := done + [t];
        i := i + width.value;
      }
      CutEnd(nodes, refs, done);
      kept := Some(retained);
    }

    /** The search over the display masters; nothing is written yet.  `calm` says that no call of libfdt fails
        on its own account. */
    method CollectEdits(darts: seq<nat>, calm: bool) returns (edits: Option<seq<Edit>>)
      ensures edits.Some? || calm ==> (edits.Some? <==>
              AllReadable(nodes, |nodes|) && Losers(nodes, AsSet(darts), |nodes|) <= MAX_MASTERS)
      ensures edits.Some? ==> DoneUpTo(nodes, Applied(nodes, edits.value), AsSet(darts), |nodes|)
    {
      hide Tuples, Keep, Flatten, Applied, Losers;
      ghost var gone := AsSet(darts);
      var es: seq<Edit> := [];
      LosersStep(nodes, gone, 0);
      AppliedNone(nodes);
      for j := 0 to |nodes|
        invariant DoneUpTo(nodes, Applied(nodes, es), gone, j)
        invariant AllReadable(nodes, j) && |es| == Losers(nodes, gone, j) <= MAX_MASTERS
      {
        LosersStep(nodes, gone, j);
        var n := nodes[j];
        if n.display {
          if n.iommus.Broken? || (n.iommus.Cells? && |n.iommus.s| > MAX_CELLS) {
            return None;
          }
          if n.iommus.Cells? {
            var kept := Retain(n.iommus.s, darts);
            if kept.None? {
              return None;
            }
            var same := |kept.value| == |n.iommus.s|;
            if same {
              KeptAll(nodes, n.iommus.s, gone);
            } else {
              var pathOk: bool := *;
              pathOk := pathOk || calm;
              if |es| == MAX_MASTERS || !pathOk {
                LosersGrow(nodes, gone, j + 1, |nodes|);
                return None;
              }
              AppliedMore(nodes, es, Edit(j, kept.value));
              es := es + [Edit(j, kept.value)];
            }
          }
        }
      }
      var walkOk: bool := *;
      edits := if walkOk || calm then Some(es) else None;
    }

    /** `dt_t8140_withdraw_external_scanout`.  If it succeeds, each display master's list is exactly the old
        specifiers minus those of the external providers and nothing else changed; if it fails, nothing
        changed.  It succeeds only on what it can handle, and then always unless a library call fails. */
    method Withdraw(sub: Sub, calm: bool) returns (ok: bool)
      requires sub.SubNode? ==> sub.i < |nodes|
      modifies this
      ensures !ok ==> nodes == old(nodes)
      ensures ok || calm ==> (ok <==> Withdrawable(old(nodes), Gone(old(nodes), sub)))
      ensures ok && Gone(old(nodes), sub).value == {} ==> nodes == old(nodes)
      ensures ok && Gone(old(nodes), sub).value != {} ==>
                DoneUpTo(old(nodes), nodes, Gone(old(nodes), sub).value, |old(nodes)|)
    {
      hide Tuples, Keep, Flatten, Applied, Losers, AllReadable;
      if sub.NoSub? {
        return true;
      }
      if sub.SubError? {
        return false;
      }
      var refs := nodes[sub.i].iommus;
      if refs.Missing? {
        return true;
      }
      if refs.Broken? || |refs.s| > MAX_CELLS {
        return false;
      }
      var darts := ReadProviders(refs.s);
      if darts.None? {
        return false;
      }
      if darts.value == [] {
        assert AsSet(darts.value) == {};
        return true;
      }
      assert darts.value[0] in AsSet(darts.value);
      var edits := CollectEdits(darts.value, calm);
      if edits.None? {
        return false;
      }
      ok := Commit(edits.value, calm);
    }

    /** The edits written one by one, with the whole tree put back if one fails. */
    method Commit(edits: seq<Edit>, calm: bool) returns (ok: bool)
      modifies this
      ensures calm ==> ok
      ensures nodes == if ok then Applied(old(nodes), edits) else old(nodes)
    {
      AppliedNone(nodes);
      if edits == [] {
        return true;
      }
      var memory: bool := *;
      if !memory && !calm {
        return false;
      }
      var saved := nodes;
      ok := true;
      var i := 0;
      while i < |edits| && ok
        invariant i <= |edits| && |nodes| == |saved| && (ok ==> nodes == Applied(saved, edits[..i])) && (calm ==> ok)
      {
        var e := edits[i];
        ok := *;
        ok := ok || calm;
        if ok && e.idx < |nodes| {
          nodes := nodes[e.idx := nodes[e.idx].(iommus := Cells(e.cells))];
        }
        assert edits[..i + 1][..|edits[..i + 1]| - 1] == edits[..i];
        i := i + 1;
      }
      assert edits[..|edits|] == edits;
      if !ok {
        nodes := saved;
      }
    }
  }

  lemma WidthPositive(nodes: seq<Node>, cells: seq<nat>)
    requires Width(nodes, cells).Some?
    ensures 1 <= Width(nodes, cells).value <= |cells|
  {
  }

  lemma CutStart(nodes: seq<Node>, cells: seq<nat>)
    ensures CutUpTo(nodes, cells, 0, [])
  {
    hide Tuples;
    assert cells[0..] == cells;
    if Tuples(nodes, cells).Some? {
      assert [] + Tuples(nodes, cells).value == Tuples(nodes, cells).value;
    }
  }

  lemma CutEnd(nodes: seq<Node>, cells: seq<nat>, done: seq<seq<nat>>)
    requires CutUpTo(nodes, cells, |cells|, done)
    ensures Tuples(nodes, cells) == Some(done)
  {
    assert cells[|cells|..] == [];
    assert done + [] == done;
  }

  lemma LosersStep(nodes: seq<Node>, gone: set<nat>, j: nat)
    requires j <= |nodes|
    ensures j == 0 ==> Losers(nodes, gone, j) == 0
    ensures j < |nodes| ==>
              Losers(nodes, gone, j + 1) == Losers(nodes, gone, j) + if Loses(nodes, nodes[j], gone) then 1 else 0
  {
  }

  lemma KeepNothing(gone: set<nat>)
    ensures Flatten(Keep([], gone)) == []
  {
  }

  lemma AppliedNone(nodes: seq<Node>)
    ensures Applied(nodes, []) == nodes
  {
  }

  /** A list that kept its length kept every specifier. */
  lemma KeptAll(nodes: seq<Node>, cells: seq<nat>, gone: set<nat>)
    requires Tuples(nodes, cells).Some? && |Flatten(Keep(Tuples(nodes, cells).value, gone))| == |cells|
    ensures Flatten(Keep(Tuples(nodes, cells).value, gone)) == cells
  {
    FlattenOfTuples(nodes, cells);
    KeptLength(Tuples(nodes, cells).value, gone);
  }

  lemma {:induction false} KeptLength(ts: seq<seq<nat>>, gone: set<nat>)
    requires NonEmpty(ts)
    ensures |Flatten(Keep(ts, gone))| <= |Flatten(ts)|
    ensures |Flatten(Keep(ts, gone))| == |Flatten(ts)| ==> Keep(ts, gone) == ts
    decreases |ts|
  {
    if ts != [] {
      var n := |ts| - 1;
      KeptLength(ts[..n], gone);
      assert ts == ts[..n] + [ts[n]];
      FlattenSnoc(ts[..n], ts[n]);
      KeepSnoc(ts[..n], ts[n], gone);
    }
  }

  ghost predicate AllWhole(nodes: seq<Node>, ts: seq<seq<nat>>) {
    forall k | 0 <= k < |ts| :: WholeTuple(nodes, ts[k])
  }

  /** Withdrawn are exactly the providers that the external controller's list names. */
  lemma GoneExactly(nodes: seq<Node>, i: nat, ext: seq<seq<nat>>, x: nat)
    requires i < |nodes| && AllWhole(nodes, ext) && nodes[i].iommus == Cells(Flatten(ext))
    requires |Flatten(ext)| <= MAX_CELLS
    ensures Gone(nodes, SubNode(i)).Some?
    ensures x in Gone(nodes, SubNode(i)).value <==> exists k :: 0 <= k < |ext| && ext[k][0] == x
  {
    hide Tuples, Flatten;
    TuplesOfFlatten(nodes, ext);
  }

  /** A display master has something to lose exactly when its list names one of them, and then is left with the other
      specifiers. */
  lemma LosesExactly(nodes: seq<Node>, n: Node, ts: seq<seq<nat>>, gone: set<nat>)
    requires n.display && AllWhole(nodes, ts) && n.iommus == Cells(Flatten(ts)) && |Flatten(ts)| <= MAX_CELLS
    ensures Readable(nodes, n) && NonEmpty(ts)
    ensures Rewritten(nodes, n, gone) == n.(iommus := Cells(Flatten(Keep(ts, gone))))
    ensures Loses(nodes, n, gone) <==> exists k :: 0 <= k < |ts| && ts[k][0] in gone
  {
    hide Tuples, Flatten;
    TuplesOfFlatten(nodes, ts);
    KeptLength(ts, gone);
    KeepExactly(ts, gone);
    if forall k | 0 <= k < |ts| :: ts[k][0] !in gone {
      KeepEverything(ts, gone);
    }
  }

  lemma {:induction false} KeepEverything(ts: seq<seq<nat>>, gone: set<nat>)
    requires NonEmpty(ts) && forall k | 0 <= k < |ts| :: ts[k][0] !in gone
    ensures Keep(ts, gone) == ts
    decreases |ts|
  {
    if ts != [] {
      var n := |ts| - 1;
      KeepEverything(ts[..n], gone);
      assert ts == ts[..n] + [ts[n]];
    }
  }

  lemma {:induction false} LosersCount(nodes: seq<Node>, gone: set<nat>, j: nat)
    requires j <= |nodes|
    ensures Losers(nodes, gone, j) == |set k | 0 <= k < j && Loses(nodes, nodes[k], gone)|
    decreases j
  {
    hide Loses;
    var s := set k | 0 <= k < j && Loses(nodes, nodes[k], gone);
    if j == 0 {
      assert s == {};
    } else {
      LosersCount(nodes, gone, j - 1);
      var s' := set k | 0 <= k < j - 1 && Loses(nodes, nodes[k], gone);
      assert s == if Loses(nodes, nodes[j - 1], gone) then s' + {j - 1} else s';
    }
  }

  /** The withdrawal of any tree, as a function of its nodes. */
  method WithdrawFrom(nodes: seq<Node>, sub: Sub, calm: bool) returns (ok: bool, after: seq<Node>)
    requires sub.SubNode? ==> sub.i < |nodes|
    ensures !ok ==> after == nodes
    ensures ok || calm ==> (ok <==> Withdrawable(nodes, Gone(nodes, sub)))
    ensures ok && Gone(nodes, sub).value == {} ==> after == nodes
    ensures ok && Gone(nodes, sub).value != {} ==> DoneUpTo(nodes, after, Gone(nodes, sub).value, |nodes|)
  {
    hide Tuples, Keep, Flatten, Losers;
    var fdt := new Fdt(nodes);
    ok := fdt.Withdraw(sub, calm);
    after := fdt.nodes;
  }
}
