/** The console fan-out of `src/iodev.c`: one circular history buffer, a read position for each device,
    and devices that take any part of what they are offered. */
module Console {
  import opened Sequences
  import opened Wrappers

  newtype byte = x: int | 0 <= x < 256

  const SIZE := 8192
  const NUM := 13   // IODEV_NUM

  /** What a device is to the console at the moment. */
  datatype Use = Absent | Idle | Active

  /** One device's account since its last rewind at position `base`: the positions of the stream it took
      in `log`, their bytes in `out`, and how many positions it was moved past. */
  datatype Reader = Reader(base: nat, rp: nat, log: seq<nat>, out: seq<byte>, lost: nat)

  function Fresh(p: nat): (r: Reader) {
    Reader(p, p, [], [], 0)
  }

  /** Where a device's next stretch starts: at its read position, but not before the history. */
  function Start(wp: nat, rp: nat): (s: nat) {
    if wp > SIZE && rp < wp - SIZE then wp - SIZE else rp
  }

  function Range(start: nat, n: nat): (s: seq<nat>)
    ensures |s| == n && forall k | 0 <= k < n :: s[k] == start + k
  {
    seq(n, k requires 0 <= k < n => start + k)
  }

  /** How a device answers on one turn: whether it can be written to, and what it makes of one offer after the
      other, `rest` standing for all that are not listed. */
  datatype Reply = Reply(ready: bool, takes: seq<int>, rest: int)

  function Willing(reply: Reply, i: nat): (n: int) {
    if i < |reply.takes| then reply.takes[i] else reply.rest
  }

  /** The bytes offered at position `p`: of the history no more than lies in one piece in the buffer, and then
      everything new. */
  function Offered(p: nat, wp: nat, end: nat): (n: nat)
    requires p < end && wp <= end
    ensures 0 < n <= end - p && (p < wp ==> n <= wp - p)
  {
    if p >= wp then end - p
    else if wp - p < SIZE - p % SIZE then wp - p
    else SIZE - p % SIZE
  }

  /** Where a device is after its offers from the `i`-th on, which start at position `p`: at the end, or at the
      first offer of which it takes nothing. */
  function Sent(reply: Reply, i: nat, p: nat, wp: nat, end: nat): (q: nat)
    requires p <= end && wp <= end
    ensures p <= q <= end
    decreases end - p
  {
    if p == end || Willing(reply, i) <= 0 then p
    else
      var n := Offered(p, wp, end);
      Sent(reply, i + 1, p + (if Willing(reply, i) < n then Willing(reply, i) else n), wp, end)
  }

  /** One offer of `n` bytes on the way. */
  lemma SentStep(reply: Reply, i: nat, p: nat, wp: nat, end: nat, n: nat)
    requires p < end && wp <= end && n == Offered(p, wp, end)
    ensures var ret := if Willing(reply, i) < n then Willing(reply, i) else n;
            if ret <= 0 then Sent(reply, i, p, wp, end) == p
            else p + ret <= end && Sent(reply, i, p, wp, end) == Sent(reply, i + 1, p + ret, wp, end)
  {
    hide Offered;
  }

  /** An offer of history. */
  lemma HistoryOffer(reply: Reply, i: nat, p: nat, wp: nat, end: nat, n: nat)
    requires p < wp <= end && n == if wp - p < SIZE - p % SIZE then wp - p else SIZE - p % SIZE
    ensures n > 0 && p + n <= wp && p % SIZE + n <= SIZE
    ensures var ret := if Willing(reply, i) < n then Willing(reply, i) else n;
            if ret <= 0 then Sent(reply, i, p, wp, end) == p
            else p + ret <= wp && Sent(reply, i, p, wp, end) == Sent(reply, i + 1, p + ret, wp, end)
  {
    hide Willing, Sent;
    SentStep(reply, i, p, wp, end, n);
  }

  lemma SentDone(reply: Reply, i: nat, p: nat, wp: nat)
    requires wp <= p
    ensures Sent(reply, i, p, wp, p) == p
  {
  }

  predicate NeverRefuses(reply: Reply) {
    reply.ready && reply.rest > 0 && forall i | 0 <= i < |reply.takes| :: reply.takes[i] > 0
  }

  /** A device that takes something of every offer gets everything. */
  lemma {:induction false} WillingGetsAll(reply: Reply, i: nat, p: nat, wp: nat, end: nat)
    requires NeverRefuses(reply) && p <= end && wp <= end
    ensures Sent(reply, i, p, wp, end) == end
    decreases end - p
  {
    if p < end {
      var n := Offered(p, wp, end);
      WillingGetsAll(reply, i + 1, p + (if Willing(reply, i) < n then Willing(reply, i) else n), wp, end);
    }
  }

  /** A device's turn when `data` is written behind `stream`: nothing for an absent one, no data for one
      that is no console, and otherwise what it takes, if it can be written to. */
  function Turn(r: Reader, use: Use, stream: seq<byte>, data: seq<byte>, reply: Reply): (r': Reader)
    requires r.rp <= |stream|
    ensures r'.rp <= |stream| + |data|
  {
    match use
    case Absent => r
    case Idle =>
      var end := |stream| + |data|;
      r.(rp := end, lost := r.lost + (end - r.rp))
    case Active =>
      if !reply.ready then r
      else
        var start := Start(|stream|, r.rp);
        var end := Sent(reply, 0, start, |stream|, |stream| + |data|);
        Reader(r.base, end, r.log + Range(start, end - start), r.out + (stream + data)[start..end],
               r.lost + (start - r.rp))
  }

  /** The stream in order and without duplication: positions rise, bytes are those of the stream, and
      every position up to the read position was taken or counted as lost. */
  ghost predicate InOrder(r: Reader, stream: seq<byte>) {
    && r.base <= r.rp <= |stream|
    && |r.out| == |r.log| && |r.log| + r.lost == r.rp - r.base
    && (forall k | 0 <= k < |r.log| :: r.base <= r.log[k] < r.rp && r.out[k] == stream[r.log[k]])
    && (forall i, j | 0 <= i < j < |r.log| :: r.log[i] < r.log[j])
  }

  lemma TurnInOrder(r: Reader, use: Use, stream: seq<byte>, data: seq<byte>, reply: Reply)
    requires InOrder(r, stream)
    ensures InOrder(Turn(r, use, stream, data, reply), stream + data)
  {
    var r', total := Turn(r, use, stream, data, reply), stream + data;
    hide Sent;
    forall k | 0 <= k < |r'.log| ensures r.base <= r'.log[k] < r'.rp && r'.out[k] == total[r'.log[k]] {
      if k < |r.log| {
        assert r'.log[k] == r.log[k] && r'.out[k] == r.out[k];
      }
    }
  }

  /** A console that can be written to loses exactly what has left the history since it was last served, and goes on
      with the oldest byte of the history that it does not have. */
  lemma TurnLosesWhatIsGone(r: Reader, stream: seq<byte>, data: seq<byte>, reply: Reply)
    requires r.rp <= |stream| && reply.ready
    ensures var r' := Turn(r, Active, stream, data, reply);
            var from := if |stream| - SIZE > r.rp then |stream| - SIZE else r.rp;
            && r'.lost == r.lost + (from - r.rp) && from <= r'.rp <= |stream| + |data|
            && r'.out == r.out + (stream + data)[from..r'.rp]
  {
  }

  /** Of the history two offers are made at most, and of the new bytes one: a device that takes three offers whole gets
      everything, whatever it makes of a fourth. */
  lemma ThreeOffers(rp: nat, wp: nat, end: nat, n: nat)
    requires rp <= wp <= end && wp - rp <= SIZE && end - rp <= n
    ensures Sent(Reply(true, [n, n, n], 0), 0, rp, wp, end) == end
  {
    var reply := Reply(true, [n, n, n], 0);
    if rp < end {
      var p1 := rp + Offered(rp, wp, end);
      SentStep(reply, 0, rp, wp, end, p1 - rp);
      if p1 < end {
        var p2 := p1 + Offered(p1, wp, end);
        SentStep(reply, 1, p1, wp, end, p2 - p1);
        if p2 < end {
          HistoryInTwo(rp, wp, end);
          SentStep(reply, 2, p2, wp, end, Offered(p2, wp, end));
        }
      }
    }
  }

  lemma HistoryInTwo(rp: nat, wp: nat, end: nat)
    requires rp <= wp <= end && wp - rp <= SIZE && rp < end
    ensures var p1 := rp + Offered(rp, wp, end);
            p1 < end ==> p1 + Offered(p1, wp, end) >= wp
  {
    var p1 := rp + Offered(rp, wp, end);
    if rp < p1 < wp {
      assert p1 % SIZE == 0;
    }
  }

  /** A device has lost nothing exactly when it took every position since its rewind. */
  lemma CompleteIffNothingLost(r: Reader, stream: seq<byte>)
    requires InOrder(r, stream)
    ensures r.lost == 0 <==> r.log == Range(r.base, r.rp - r.base)
    ensures r.lost == 0 ==> r.out == stream[r.base..r.rp]
  {
    if r.lost == 0 {
      forall k | 0 <= k < |r.log| ensures r.log[k] == r.base + k {
        RisesFast(r.log, 0, k);
        RisesFast(r.log, k, |r.log| - 1);
      }
    }
  }

  lemma {:induction false} RisesFast(log: seq<nat>, i: nat, j: nat)
    requires i <= j < |log| && forall a, b | 0 <= a < b < |log| :: log[a] < log[b]
    ensures log[i] + (j - i) <= log[j]
    decreases j - i
  {
    if i < j {
      RisesFast(log, i, j - 1);
    }
  }

  /** The history buffer holds the last `SIZE` bytes of the stream, as far as they are at or above
      `from`. */
  ghost predicate Retains(buf: seq<byte>, stream: seq<byte>, from: nat) {
    |buf| == SIZE && forall i: nat | from <= i && |stream| - SIZE <= i < |stream| :: buf[i % SIZE] == stream[i]
  }

  // ---------------------------------------------------------------------- the buffer

  /** A block that does not run over the end of the buffer is a stretch of the stream. */
  lemma BlockIsStream(buf: seq<byte>, stream: seq<byte>, rp: nat, n: nat)
    requires Retains(buf, stream, 0) && |stream| - SIZE <= rp && rp + n <= |stream| && rp % SIZE + n <= SIZE
    ensures buf[rp % SIZE..rp % SIZE + n] == stream[rp..rp + n]
  {
    var x, y := buf[rp % SIZE..rp % SIZE + n], stream[rp..rp + n];
    forall j | 0 <= j < n ensures x[j] == y[j] {
      assert (rp + j) % SIZE == rp % SIZE + j;
      assert buf[(rp + j) % SIZE] == stream[rp + j];
    }
  }

  lemma BufferSize(buf: seq<byte>, stream: seq<byte>)
    requires Retains(buf, stream, 0)
    ensures |buf| == SIZE
  {
  }

  lemma HistoryBlock(buf: seq<byte>, stream: seq<byte>, data: seq<byte>, rp: nat, n: nat)
    requires Retains(buf, stream, 0) && |stream| - SIZE <= rp && rp + n <= |stream| && rp % SIZE + n <= SIZE
    ensures |buf| == SIZE && buf[rp % SIZE..rp % SIZE + n] == (stream + data)[rp..rp + n]
  {
    BlockIsStream(buf, stream, rp, n);
    hide Retains;
    assert (stream + data)[rp..rp + n] == stream[rp..rp + n];
  }

  /** A block written at the write position extends what the buffer retains. */
  lemma OverlayRetains(buf: seq<byte>, stream: seq<byte>, s: seq<byte>, from: nat)
    requires Retains(buf, stream, from) && |stream| % SIZE + |s| <= SIZE
    ensures Retains(Overlay(buf, |stream| % SIZE, s), stream + s, from)
  {
    var w := |stream|;
    var all := stream + s;
    var r := Overlay(buf, w % SIZE, s);
    forall i: nat | from <= i && |all| - SIZE <= i < |all| ensures r[i % SIZE] == all[i] {
      if i >= w {
        assert i % SIZE == w % SIZE + (i - w);
      } else {
        NotOverwritten(w, |s|, i);
      }
    }
  }

  lemma NotOverwritten(w: nat, n: nat, i: nat)
    requires w % SIZE + n <= SIZE && w + n - SIZE <= i < w
    ensures !(w % SIZE <= i % SIZE < w % SIZE + n)
  {
    var b := w - w % SIZE;
    if i >= b {
      assert i % SIZE == i - b;
    } else {
      assert i % SIZE == i - b + SIZE;
    }
  }

  // ---------------------------------------------------------------------- the console

  class Console {
    const buf: array<byte>
    var wp: nat
    var rp: seq<nat>
    var use: seq<Use>
    var out: seq<seq<byte>>            // what each device took since its last rewind
    ghost var stream: seq<byte>        // every byte ever written to the console
    ghost var readers: seq<Reader>

    ghost predicate Sized()
      reads this
    {
      |rp| == |use| == |out| == |readers| == NUM
    }

    /** The read position and the output of device `id` are those of its account. */
    ghost predicate Booked(id: nat)
      requires Sized() && id < NUM
      reads this
    {
      rp[id] == readers[id].rp && out[id] == readers[id].out && rp[id] <= |stream|
    }

    ghost predicate Valid()
      reads this, buf
    {
      && Sized() && wp == |stream| && Retains(buf[..], stream, 0)
      && forall id: nat | id < NUM :: Booked(id)
    }

    constructor (use: seq<Use>)
      requires |use| == NUM
      ensures Valid() && fresh(buf) && stream == [] && readers == seq(NUM, _ => Fresh(0)) && this.use == use
    {
      buf := new byte[SIZE];
      wp := 0;
      this.use := use;
      rp, out := seq(NUM, _ => 0), seq(NUM, _ => []);
      readers, stream := seq(NUM, _ => Fresh(0)), [];
    }

    /** A device's `write_nonblocking`: of the bytes it is offered it takes as many as it is willing to. */
    method Offer(id: nat, bytes: seq<byte>, reply: Reply, i: nat) returns (ret: int)
      requires Sized() && id < NUM
      modifies this`out
      ensures Sized() && ret == if Willing(reply, i) < |bytes| then Willing(reply, i) else |bytes|
      ensures out == old(out)[id := old(out)[id] + if ret > 0 then bytes[..ret] else []]
    {
      ret := Willing(reply, i);
      if ret > |bytes| {
        ret := |bytes|;
      }
      if ret > 0 {
        out := out[id := out[id] + bytes[..ret]];
      } else {
        assert out[id] + [] == out[id];
      }
    }

    /** The next bytes of `total` offered, and the read position moved by what was taken. */
    method Send(id: nat, bytes: seq<byte>, reply: Reply, i: nat, ghost total: seq<byte>, ghost start: nat,
                ghost got: seq<byte>) returns (ret: int)
      requires Sized() && id < NUM && start <= rp[id] && rp[id] + |bytes| <= |total|
      requires bytes == total[rp[id]..rp[id] + |bytes|] && out[id] == got + total[start..rp[id]]
      modifies this`out, this`rp
      ensures Sized() && ret == if Willing(reply, i) < |bytes| then Willing(reply, i) else |bytes|
      ensures rp == old(rp)[id := old(rp)[id] + if ret > 0 then ret else 0]
      ensures out == old(out)[id := got + total[start..rp[id]]]
    {
      ret := Offer(id, bytes, reply, i);
      ghost var n := if ret > 0 then ret else 0;
      assert total[start..rp[id] + n] == total[start..rp[id]] + bytes[..n];
      assert out[id] == got + total[start..rp[id] + n];
      if ret > 0 {
        rp := rp[id := rp[id] + ret];
      }
    }

    /** The flush of the history in `iodev_console_write`; `on` if the device is through with it after `i` offers. */
    method Flush(id: nat, data: seq<byte>, reply: Reply, ghost start: nat, ghost got: seq<byte>)
        returns (i: nat, on: bool)
      requires Sized() && id < NUM && wp == |stream| && Retains(buf[..], stream, 0)
      requires start == rp[id] <= wp && wp - SIZE <= start && out[id] == got
      modifies this`out, this`rp
      ensures Sized() && start <= rp[id] <= wp && rp == old(rp)[id := rp[id]]
      ensures var end := Sent(reply, 0, start, wp, wp + |data|);
              if on then rp[id] == wp && Sent(reply, i, wp, wp, wp + |data|) == end else rp[id] == end
      ensures out == old(out)[id := got + (stream + data)[start..rp[id]]]
    {
      hide Retains, Willing, Sent, Offered;
      ghost var total := stream + data;
      assert got + total[start..start] == got;
      assert out == out[id := got];
      i, on := 0, false;
      while rp[id] < wp
        invariant Sized() && start <= rp[id] <= wp && rp == old(rp)[id := rp[id]]
        invariant Sent(reply, i, rp[id], wp, wp + |data|) == Sent(reply, 0, start, wp, wp + |data|)
        invariant out == old(out)[id := got + total[start..rp[id]]]
        decreases wp - rp[id]
      {
        var at := rp[id] % SIZE;
        var block := if wp - rp[id] < SIZE - at then wp - rp[id] else SIZE - at;
        HistoryOffer(reply, i, rp[id], wp, wp + |data|, block);
        HistoryBlock(buf[..], stream, data, rp[id], block);
        var ret := Send(id, buf[..][at..at + block], reply, i, total, start, got);
        if ret <= 0 {
          return;
        }
        i := i + 1;
      }
      on := true;
    }

    /** The history, then the new bytes. */
    method SendHistory(id: nat, data: seq<byte>, reply: Reply, ghost start: nat, ghost got: seq<byte>)
      requires Sized() && id < NUM && wp == |stream| && Retains(buf[..], stream, 0)
      requires start == rp[id] <= wp && wp - SIZE <= start && out[id] == got
      modifies this`out, this`rp
      ensures Sized() && rp == old(rp)[id := Sent(reply, 0, start, wp, wp + |data|)]
      ensures out == old(out)[id := got + (stream + data)[start..rp[id]]]
    {
      hide Retains, Sent;
      var i, on := Flush(id, data, reply, start, got);
      if on {
        SendNew(id, data, reply, i, start, got);
      }
    }

    method SendNew(id: nat, data: seq<byte>, reply: Reply, first: nat, ghost start: nat, ghost got: seq<byte>)
      requires Sized() && id < NUM && wp == |stream| && start <= rp[id] == wp
      requires out[id] == got + (stream + data)[start..rp[id]]
      modifies this`out, this`rp
      ensures Sized() && rp == old(rp)[id := Sent(reply, first, wp, wp, wp + |data|)]
      ensures out == old(out)[id := got + (stream + data)[start..rp[id]]]
    {
      hide Willing, Sent;
      ghost var total := stream + data;
      var wrote, i := 0, first;
      while wrote < |data|
        invariant Sized() && 0 <= wrote <= |data| && rp == old(rp)[id := wp + wrote]
        invariant Sent(reply, i, wp + wrote, wp, wp + |data|) == Sent(reply, first, wp, wp, wp + |data|)
        invariant out == old(out)[id := got + total[start..rp[id]]]
      {
        assert data[wrote..] == total[rp[id]..rp[id] + |data[wrote..]|];
        SentStep(reply, i, rp[id], wp, wp + |data|, |data| - wrote);
        var ret := Send(id, data[wrote..], reply, i, total, start, got);
        if ret <= 0 {
          return;
        }
        wrote, i := wrote + ret, i + 1;
      }
      SentDone(reply, i, wp + wrote, wp);
    }

    /** One device's turn in `iodev_console_write`. */
    method Serve(id: nat, data: seq<byte>, reply: Reply)
      requires Sized() && id < NUM && wp == |stream| && Retains(buf[..], stream, 0) && Booked(id)
      modifies this`out, this`rp, this`readers
      ensures Sized() && readers == old(readers)[id := Turn(old(readers)[id], use[id], stream, data, reply)]
      ensures rp == old(rp)[id := readers[id].rp] && out == old(out)[id := readers[id].out]
    {
      hide Retains, Sent;
      ghost var r := readers[id];
      if use[id].Idle? {
        rp := rp[id := wp + |data|];
      } else if use[id].Active? && reply.ready {
        if wp > SIZE {
          rp := rp[id := if wp - SIZE > rp[id] then wp - SIZE else rp[id]];
        }
        SendHistory(id, data, reply, rp[id], out[id]);
      }
      readers := readers[id := Turn(r, use[id], stream, data, reply)];
    }

    /** `iodev_console_write`, on the path that holds the console. */
    method Write(data: seq<byte>, replies: seq<Reply>)
      requires Valid() && |replies| == NUM
      modifies this`wp, this`out, this`rp, this`readers, this`stream, buf
      ensures Valid() && stream == old(stream) + data
      ensures forall id | 0 <= id < NUM :: old(readers)[id].rp <= |old(stream)|
      ensures forall id | 0 <= id < NUM ::
                readers[id] == Turn(old(readers)[id], use[id], old(stream), data, replies[id])
    {
      hide Retains, Turn;
      forall id | 0 <= id < NUM ensures readers[id].rp <= |stream| {
        assert Booked(id);
      }
      for id := 0 to NUM
        invariant Sized() && stream == old(stream) && wp == |stream| && Retains(buf[..], stream, 0)
        invariant forall k: nat | id <= k < NUM :: Booked(k) && readers[k] == old(readers)[k]
        invariant forall k: nat | k < id ::
                    && rp[k] == readers[k].rp && out[k] == readers[k].out
                    && readers[k] == Turn(old(readers)[k], use[k], stream, data, replies[k])
      {
        Serve(id, data, replies[id]);
      }
      Store(data);
      stream := stream + data;
    }

    /** The update of the history buffer. */
    method Store(data: seq<byte>)
      requires wp == |stream| && Retains(buf[..], stream, 0)
      modifies this`wp, buf
      ensures wp == |stream + data| && Retains(buf[..], stream + data, 0)
    {
      BufferSize(buf[..], stream);
      hide Retains, Overlay;
      var d := data;
      ghost var written, from := stream, 0;
      if |d| > SIZE {
        written := stream + d[..|d| - SIZE];
        from := |written|;
        RetainsNothing(buf[..], written);
        wp := wp + (|d| - SIZE);
        d := d[|d| - SIZE..];
      }
      assert written + d == stream + data;
      while |d| > 0
        invariant wp == |written| && written + d == stream + data && buf.Length == SIZE
        invariant Retains(buf[..], written, from)
        invariant from == 0 || from + SIZE == |stream + data|
        decreases |d|
      {
        var at := wp % SIZE;
        var block := if |d| < SIZE - at then |d| else SIZE - at;
        OverlayRetains(buf[..], written, d[..block], from);
        CopyIn(at, d[..block]);
        written := written + d[..block];
        wp := wp + block;
        assert d == d[..block] + d[block..];
        d := d[block..];
      }
      assert written == stream + data;
      RetainsAll(buf[..], written, from);
    }

    method CopyIn(at: nat, bytes: seq<byte>)
      requires at + |bytes| <= buf.Length
      modifies buf
      ensures buf[..] == Overlay(old(buf[..]), at, bytes)
    {
      forall i | 0 <= i < |bytes| {
        buf[at + i] := bytes[i];
      }
    }

    /** `iodev_console_rewind`: the retained history is sent once more, so the device's account starts
        anew at the start of the history. */
    method Rewind(id: nat)
      requires Valid()
      modifies this`rp, this`readers, this`out
      ensures Valid()
      ensures readers == if id < NUM && use[id] != Absent then old(readers)[id := Fresh(Start(wp, 0))] else old(readers)
    {
      hide Retains;
      if id >= NUM || use[id] == Absent {
        return;
      }
      rp := rp[id := if wp > SIZE then wp - SIZE else 0];
      out := out[id := []];
      readers := readers[id := Fresh(rp[id])];
      forall k: nat | k < NUM ensures Booked(k) {
        assert old(Booked(k));
      }
    }

    /** A device registered, unregistered or given another use. */
    method Configure(id: nat, u: Use)
      requires Valid() && id < NUM
      modifies this`use
      ensures Valid() && use == old(use)[id := u]
    {
      hide Retains;
      use := use[id := u];
      forall k: nat | k < NUM ensures Booked(k) {
        assert old(Booked(k));
      }
    }
  }

  lemma RetainsNothing(buf: seq<byte>, stream: seq<byte>)
    requires |buf| == SIZE
    ensures Retains(buf, stream, |stream|)
  {
  }

  lemma RetainsAll(buf: seq<byte>, stream: seq<byte>, from: nat)
    requires Retains(buf, stream, from) && (from == 0 || from + SIZE == |stream|)
    ensures Retains(buf, stream, 0)
  {
  }

  // ---------------------------------------------------------------------- whole runs

  datatype Op = WriteOp(data: seq<byte>) | RewindOp(id: nat) | ConfigureOp(id: nat, use: Use)

  /** All bytes written in a run. */
  function Written(ops: seq<Op>): (s: seq<byte>) {
    if ops == [] then []
    else
      var before := Written(ops[..|ops| - 1]);
      match ops[|ops| - 1]
      case WriteOp(data) => before + data
      case _ => before
  }

  function UseAfter(ops: seq<Op>, id: nat, use: Use): (u: Use) {
    if ops == [] then use
    else
      match ops[|ops| - 1]
      case ConfigureOp(k, u) => if k == id then u else UseAfter(ops[..|ops| - 1], id, use)
      case _ => UseAfter(ops[..|ops| - 1], id, use)
  }

  /** The account of one device after a run in which it answers with `replies[i]` on its turn in call `i`. */
  function ReaderAfter(ops: seq<Op>, replies: seq<Reply>, id: nat, use: Use): (r: Reader)
    requires |ops| == |replies|
    ensures r.rp <= |Written(ops)|
    decreases |ops|
  {
    if ops == [] then Fresh(0)
    else
      var n := |ops| - 1;
      var before := ReaderAfter(ops[..n], replies[..n], id, use);
      var u, stream := UseAfter(ops[..n], id, use), Written(ops[..n]);
      match ops[n]
      case WriteOp(data) => Turn(before, u, stream, data, replies[n])
      case RewindOp(k) => if k == id && u != Absent then Fresh(Start(|stream|, 0)) else before
      case ConfigureOp(_, _) => before
  }

  /** In every run, every device gets the stream in order and without duplication. */
  lemma {:induction false} RunsInOrder(ops: seq<Op>, replies: seq<Reply>, id: nat, use: Use)
    requires |ops| == |replies|
    ensures InOrder(ReaderAfter(ops, replies, id, use), Written(ops))
    decreases |ops|
  {
    hide InOrder, Turn;
    if ops == [] {
      FreshInOrder(0, []);
    } else {
      var n := |ops| - 1;
      RunsInOrder(ops[..n], replies[..n], id, use);
      var r, stream := ReaderAfter(ops[..n], replies[..n], id, use), Written(ops[..n]);
      match ops[n]
      case WriteOp(data) => TurnInOrder(r, UseAfter(ops[..n], id, use), stream, data, replies[n]);
      case RewindOp(_) => FreshInOrder(Start(|stream|, 0), stream);
      case ConfigureOp(_, _) =>
    }
  }

  lemma FreshInOrder(p: nat, stream: seq<byte>)
    requires p <= |stream|
    ensures InOrder(Fresh(p), stream)
  {
  }

  /** The first call after the device's last rewind. */
  function Since(ops: seq<Op>, id: nat, use: Use): (n: nat)
    ensures n <= |ops|
    decreases |ops|
  {
    if ops == [] then 0
    else
      var n := |ops| - 1;
      if ops[n] == RewindOp(id) && UseAfter(ops[..n], id, use) != Absent then |ops| else Since(ops[..n], id, use)
  }

  /** On its turn in call `i` the device was not further behind than the history, or as no console it had no byte to
      get. */
  predicate KeptUpAt(ops: seq<Op>, replies: seq<Reply>, id: nat, use: Use, i: nat)
    requires |ops| == |replies| && i < |ops|
  {
    var r, stream := ReaderAfter(ops[..i], replies[..i], id, use), Written(ops[..i]);
    ops[i].WriteOp? ==>
      match UseAfter(ops[..i], id, use)
      case Absent => true
      case Idle => r.rp == |stream| + |ops[i].data|
      case Active => replies[i].ready ==> |stream| - r.rp <= SIZE
  }

  ghost predicate KeptUp(ops: seq<Op>, replies: seq<Reply>, id: nat, use: Use)
    requires |ops| == |replies|
  {
    forall i: nat | Since(ops, id, use) <= i < |ops| :: KeptUpAt(ops, replies, id, use, i)
  }

  /** Since its last rewind a device has lost a byte exactly when its backlog exceeded the history on a turn, or it
      was no console when there was something to get. */
  lemma {:induction false} NothingLostExactly(ops: seq<Op>, replies: seq<Reply>, id: nat, use: Use)
    requires |ops| == |replies|
    ensures ReaderAfter(ops, replies, id, use).lost == 0 <==> KeptUp(ops, replies, id, use)
    decreases |ops|
  {
    hide KeptUpAt;
    if ops != [] {
      var n := |ops| - 1;
      NothingLostExactly(ops[..n], replies[..n], id, use);
      KeptUpBefore(ops, replies, id, use, n);
      LostOnTurn(ops, replies, id, use);
      hide ReaderAfter, UseAfter, Written;
      var since := Since(ops[..n], id, use);
      if Since(ops, id, use) <= n {
        assert KeptUp(ops, replies, id, use) <==>
               KeptUp(ops[..n], replies[..n], id, use) && KeptUpAt(ops, replies, id, use, n);
      }
    }
  }

  /** What the last call adds to the losses. */
  lemma LostOnTurn(ops: seq<Op>, replies: seq<Reply>, id: nat, use: Use)
    requires |ops| == |replies| > 0
    ensures var n := |ops| - 1;
            var before, after := ReaderAfter(ops[..n], replies[..n], id, use), ReaderAfter(ops, replies, id, use);
            && (Since(ops, id, use) == |ops| ==> after.lost == 0)
            && (Since(ops, id, use) < |ops| ==>
                  && Since(ops, id, use) == Since(ops[..n], id, use)
                  && (after.lost == 0 <==> before.lost == 0 && KeptUpAt(ops, replies, id, use, n)))
  {
  }

  lemma KeptUpBefore(ops: seq<Op>, replies: seq<Reply>, id: nat, use: Use, n: nat)
    requires |ops| == |replies| && n <= |ops|
    ensures forall i: nat | i < n ::
              KeptUpAt(ops[..n], replies[..n], id, use, i) <==> KeptUpAt(ops, replies, id, use, i)
  {
    hide ReaderAfter, UseAfter, Written;
    forall i: nat | i < n ensures KeptUpAt(ops[..n], replies[..n], id, use, i) <==> KeptUpAt(ops, replies, id, use, i) {
      assert ops[..n][..i] == ops[..i] && replies[..n][..i] == replies[..i];
    }
  }

  /** A console that never refuses gets every byte: after each write it has the stream in full up to its end, from
      the start of the history at its last rewind on. */
  lemma {:induction false} WillingLosesNothing(ops: seq<Op>, replies: seq<Reply>, id: nat)
    requires |ops| == |replies| && forall i | 0 <= i < |ops| :: NeverRefuses(replies[i])
    requires forall op | op in ops :: op.ConfigureOp? && op.id == id ==> op.use == Active
    ensures var r, stream := ReaderAfter(ops, replies, id, Active), Written(ops);
            && r.base <= r.rp <= |stream| && r.out == stream[r.base..r.rp]
            && (r.rp == |stream| || r == Fresh(Start(|stream|, 0)))
            && (ops != [] && ops[|ops| - 1].WriteOp? ==> r.rp == |stream|)
  {
    RunsInOrder(ops, replies, id, Active);
    WillingKeepsUp(ops, replies, id);
    hide ReaderAfter;
    CompleteIffNothingLost(ReaderAfter(ops, replies, id, Active), Written(ops));
  }

  /** A rewind and then a write to a console that never refuses sends the retained history once more, and then the new
      bytes. */
  lemma RewindReplays(ops: seq<Op>, replies: seq<Reply>, id: nat, use: Use, data: seq<byte>, any: Reply, reply: Reply)
    requires |ops| == |replies| && UseAfter(ops, id, use) == Active && NeverRefuses(reply)
    ensures var stream := Written(ops);
            var r := ReaderAfter(ops + [RewindOp(id)] + [WriteOp(data)], replies + [any] + [reply], id, use);
            var from := if |stream| > SIZE then |stream| - SIZE else 0;
            r.out == (stream + data)[from..] && r.base == from && r.lost == 0
  {
    var stream, from := Written(ops), if |Written(ops)| > SIZE then |Written(ops)| - SIZE else 0;
    ReaderStep(ops, replies, RewindOp(id), any, id, use);
    UseStep(ops, RewindOp(id), id, use);
    WrittenStep(ops, RewindOp(id));
    ReaderStep(ops + [RewindOp(id)], replies + [any], WriteOp(data), reply, id, use);
    hide ReaderAfter, UseAfter, Written;
    WillingTurn(Fresh(from), stream, data, reply);
    TurnLosesWhatIsGone(Fresh(from), stream, data, reply);
    assert [] + (stream + data)[from..|stream| + |data|] == (stream + data)[from..];
  }

  lemma {:induction false} WillingKeepsUp(ops: seq<Op>, replies: seq<Reply>, id: nat)
    requires |ops| == |replies| && forall i | 0 <= i < |ops| :: NeverRefuses(replies[i])
    requires forall op | op in ops :: op.ConfigureOp? && op.id == id ==> op.use == Active
    ensures var r, stream := ReaderAfter(ops, replies, id, Active), Written(ops);
            && r.lost == 0 && UseAfter(ops, id, Active) == Active
            && (r.rp == |stream| || r == Fresh(Start(|stream|, 0)))
            && (ops != [] && ops[|ops| - 1].WriteOp? ==> r.rp == |stream|)
    decreases |ops|
  {
    hide Sent, NeverRefuses, Turn;
    if ops != [] {
      var n := |ops| - 1;
      WillingKeepsUp(ops[..n], replies[..n], id);
      assert ops[n] in ops;
      var r, stream := ReaderAfter(ops[..n], replies[..n], id, Active), Written(ops[..n]);
      if ops[n].WriteOp? {
        WillingTurn(r, stream, ops[n].data, replies[n]);
      }
    }
  }

  lemma WillingTurn(r: Reader, stream: seq<byte>, data: seq<byte>, reply: Reply)
    requires NeverRefuses(reply) && r.rp <= |stream| && |stream| - r.rp <= SIZE
    ensures var r' := Turn(r, Active, stream, data, reply); r'.rp == |stream| + |data| && r'.lost == r.lost
  {
    hide Sent;
    WillingGetsAll(reply, 0, Start(|stream|, r.rp), |stream|, |stream| + |data|);
  }

  function RepliesOf(replies: seq<seq<Reply>>, id: nat): (r: seq<Reply>)
    requires id < NUM && forall row | row in replies :: |row| == NUM
    ensures |r| == |replies| && forall i | 0 <= i < |r| :: r[i] == replies[i][id]
  {
    seq(|replies|, i requires 0 <= i < |replies| => assert replies[i] in replies; replies[i][id])
  }

  /** Any sequence of writes, rewinds and changes of use, with the devices answering as they like, `replies[i][id]`
      in call `i`: at the end each device has exactly the account that its turns add up to, and the buffer holds the
      last `SIZE` bytes. */
  method Run(use: seq<Use>, ops: seq<Op>, replies: seq<seq<Reply>>)
      returns (rps: seq<nat>, outs: seq<seq<byte>>, history: seq<byte>)
    requires |use| == NUM && forall op | op in ops :: op.ConfigureOp? ==> op.id < NUM
    requires |replies| == |ops| && forall row | row in replies :: |row| == NUM
    ensures |rps| == |outs| == NUM && Retains(history, Written(ops), 0)
    ensures forall id | 0 <= id < NUM ::
              && rps[id] == ReaderAfter(ops, RepliesOf(replies, id), id, use[id]).rp
              && outs[id] == ReaderAfter(ops, RepliesOf(replies, id), id, use[id]).out
  {
    hide Retains, Written, ReaderAfter, UseAfter, Turn, RepliesOf;
    var c := new Console(use);
    RunStart(use);
    for i := 0 to |ops|
      invariant c.Valid() && fresh(c) && fresh(c.buf) && c.stream == Written(ops[..i])
      invariant forall id: nat | id < NUM ::
                  && c.use[id] == UseAfter(ops[..i], id, use[id])
                  && c.readers[id] == ReaderAfter(ops[..i], RepliesOf(replies, id)[..i], id, use[id])
    {
      assert ops[i] in ops && replies[i] in replies;
      ghost var readers := c.readers;
      match ops[i] {
        case WriteOp(data) => c.Write(data, replies[i]);
        case RewindOp(id) => c.Rewind(id);
        case ConfigureOp(id, u) => c.Configure(id, u);
      }
      WrittenStep(ops[..i], ops[i]);
      forall id: nat | id < NUM
        ensures c.use[id] == UseAfter(ops[..i + 1], id, use[id])
        ensures c.readers[id] == ReaderAfter(ops[..i + 1], RepliesOf(replies, id)[..i + 1], id, use[id])
      {
        DeviceStep(ops, replies, i, id, use[id]);
      }
      assert ops[..i + 1] == ops[..i] + [ops[i]];
    }
    rps, outs, history := c.rp, c.out, c.buf[..];
    assert ops[..|ops|] == ops;
    forall id: nat | id < NUM
      ensures && rps[id] == ReaderAfter(ops, RepliesOf(replies, id), id, use[id]).rp
              && outs[id] == ReaderAfter(ops, RepliesOf(replies, id), id, use[id]).out
    {
      assert c.Booked(id);
      assert RepliesOf(replies, id)[..|ops|] == RepliesOf(replies, id);
    }
  }

  lemma DeviceStep(ops: seq<Op>, replies: seq<seq<Reply>>, i: nat, id: nat, use: Use)
    requires |replies| == |ops| && i < |ops| && id < NUM && forall row | row in replies :: |row| == NUM
    ensures var mine, u, stream := RepliesOf(replies, id), UseAfter(ops[..i], id, use), Written(ops[..i]);
            var r := ReaderAfter(ops[..i], mine[..i], id, use);
            && UseAfter(ops[..i + 1], id, use) == (if ops[i].ConfigureOp? && ops[i].id == id then ops[i].use else u)
            && ReaderAfter(ops[..i + 1], mine[..i + 1], id, use) ==
               match ops[i]
               case WriteOp(data) => Turn(r, u, stream, data, replies[i][id])
               case RewindOp(k) => if k == id && u != Absent then Fresh(Start(|stream|, 0)) else r
               case ConfigureOp(_, _) => r
  {
    hide Written, ReaderAfter, UseAfter, Turn;
    var mine := RepliesOf(replies, id);
    UseStep(ops[..i], ops[i], id, use);
    ReaderStep(ops[..i], mine[..i], ops[i], mine[i], id, use);
    assert mine[..i + 1] == mine[..i] + [mine[i]] && ops[..i + 1] == ops[..i] + [ops[i]];
  }

  lemma RunStart(use: seq<Use>)
    requires |use| == NUM
    ensures Written([]) == []
    ensures forall id: nat | id < NUM ::
              UseAfter([], id, use[id]) == use[id] && ReaderAfter([], [], id, use[id]) == Fresh(0)
  {
  }

  lemma WrittenStep(ops: seq<Op>, op: Op)
    ensures Written(ops + [op]) == if op.WriteOp? then Written(ops) + op.data else Written(ops)
  {
    assert (ops + [op])[..|ops + [op]| - 1] == ops;
  }

  lemma UseStep(ops: seq<Op>, op: Op, id: nat, use: Use)
    ensures UseAfter(ops + [op], id, use) == if op.ConfigureOp? && op.id == id then op.use else UseAfter(ops, id, use)
  {
    assert (ops + [op])[..|ops + [op]| - 1] == ops;
  }

  lemma ReaderStep(ops: seq<Op>, replies: seq<Reply>, op: Op, reply: Reply, id: nat, use: Use)
    requires |ops| == |replies|
    ensures var r, u, stream := ReaderAfter(ops, replies, id, use), UseAfter(ops, id, use), Written(ops);
            ReaderAfter(ops + [op], replies + [reply], id, use) ==
            match op
            case WriteOp(data) => Turn(r, u, stream, data, reply)
            case RewindOp(k) => if k == id && u != Absent then Fresh(Start(|stream|, 0)) else r
            case ConfigureOp(_, _) => r
  {
    hide Turn, UseAfter, Written;
    assert (ops + [op])[..|ops|] == ops && (replies + [reply])[..|ops|] == replies;
  }
}
