/** File transfers (lib/channel.c, lib/stream.c): blocks cut into chunks on one
    side, fragments merged on the other, over a connection that keeps order. */
module Channel {
  type Byte = x: int | 0 <= x < 256

  const CHUNK_SIZE: nat := 1400
  const STREAM_READ_BLOCK: nat := 10000
  const RETRANSM_TIMEOUT: nat := 2000000

  /** Offsets go over the wire as 32-bit unsigned numbers. */
  const OFFSETS: nat := 0x1_0000_0000

  /** The `copy` query. */
  datatype Copy = Copy(offset: nat, data: seq<Byte>, eof: bool)

  // ----- sender -----

  /** A part of the file, sent at once. */
  datatype Piece = Piece(start: nat, end: nat, eof: bool)

  function Sent(file: seq<Byte>, p: Piece): Copy
    requires p.start <= p.end <= |file|
  { Copy(p.start % OFFSETS, file[p.start..p.end], p.eof) }

  /** The chunks of a block: at least one. */
  function Chunks(start: nat, end: nat, eof: bool): (r: seq<Piece>)
    requires start <= end
    ensures r != [] && Within(r, end)
    decreases end - start
  {
    if end - start > CHUNK_SIZE then [Piece(start, start + CHUNK_SIZE, false)] + Chunks(start + CHUNK_SIZE, end, eof)
    else [Piece(start, end, eof)]
  }

  /** The pieces of a file of this size from an offset on. */
  function Pieces(from: nat, size: nat): (r: seq<Piece>)
    requires from <= size
    ensures r != [] && Within(r, size)
    decreases size - from
  {
    if from + STREAM_READ_BLOCK >= size then Chunks(from, size, true)
    else Chunks(from, from + STREAM_READ_BLOCK, false) + Pieces(from + STREAM_READ_BLOCK, size)
  }

  predicate Within(ps: seq<Piece>, size: nat) { forall i :: 0 <= i < |ps| ==> ps[i].start <= ps[i].end <= size }

  function Wire(file: seq<Byte>, ps: seq<Piece>): (r: seq<Copy>)
    requires Within(ps, |file|)
  { seq(|ps|, i requires 0 <= i < |ps| => Sent(file, ps[i])) }

  lemma WireJoins(file: seq<Byte>, a: seq<Piece>, b: seq<Piece>)
    requires Within(a, |file|) && Within(b, |file|)
    ensures Within(a + b, |file|) && Wire(file, a + b) == Wire(file, a) + Wire(file, b)
  {
  }

  lemma Wider(ps: seq<Piece>, small: nat, size: nat)
    requires Within(ps, small) && small <= size
    ensures Within(ps, size)
  {
  }

  lemma PiecesStep(done: seq<Piece>, from: nat, size: nat)
    requires from <= size
    ensures from + STREAM_READ_BLOCK >= size ==> done + Pieces(from, size) == done + Chunks(from, size, true)
    ensures from + STREAM_READ_BLOCK < size ==>
      done + Pieces(from, size) == done + Chunks(from, from + STREAM_READ_BLOCK, false) + Pieces(from + STREAM_READ_BLOCK, size)
  {
    hide Chunks;
  }

  /** The first of the chunks and the others. */
  lemma ChunksStep(done: seq<Piece>, offset: nat, end: nat, eof: bool)
    requires offset <= end
    ensures var first := Chunks(offset, end, eof)[0];
      && offset <= first.start <= first.end <= end
      && done + Chunks(offset, end, eof) == if first.end < end then done + [first] + Chunks(first.end, end, eof) else done + [first]
  {
  }

  lemma WireAppended(a: seq<Copy>, b: seq<Copy>, c: Copy)
    ensures a + b + [c] == a + (b + [c])
  {
  }

  lemma OnWire(file: seq<Byte>, p: Piece)
    requires p.start <= p.end <= |file|
    ensures Within([p], |file|) && Wire(file, [p]) == [Sent(file, p)]
  {
  }

  lemma Nothing(file: seq<Byte>)
    ensures Within([], |file|) && Wire(file, []) == []
  {
  }

  class Sender {
    const file: seq<Byte>
    var endOffset: nat
    var wire: seq<Copy>

    constructor (file: seq<Byte>)
      ensures this.file == file && endOffset == 0 && wire == []
    {
      this.file := file;
      endOffset, wire := 0, [];
    }

    /** One chunk of a fragment; the end of file mark only if nothing is left of it. */
    method SendChunk(end: nat, eof: bool, offset: nat) returns (sent: nat)
      requires offset <= end <= |file|
      modifies this`wire
      ensures wire == old(wire) + [Sent(file, Chunks(offset, end, eof)[0])]
      ensures offset + sent == Chunks(offset, end, eof)[0].end && sent <= CHUNK_SIZE
    {
      sent := end - offset;
      var last := eof;
      if sent > CHUNK_SIZE {
        sent := CHUNK_SIZE;
        last := false;
      }
      wire := wire + [Copy(offset % OFFSETS, file[offset..offset + sent], last)];
    }

    method SendAllChunks(start: nat, end: nat, eof: bool)
      requires start <= end <= |file|
      modifies this`wire
      ensures wire == old(wire) + Wire(file, Chunks(start, end, eof))
    {
      hide Wire, Within, Chunks, Sent;
      var offset := start;
      ChunksStep([], start, end, eof);
      OnWire(file, Chunks(start, end, eof)[0]);
      var sent := SendChunk(end, eof, offset);
      ghost var done: seq<Piece> := [Chunks(start, end, eof)[0]];
      assert [] + Chunks(start, end, eof) == Chunks(start, end, eof) && [] + done == done;
      offset := offset + sent;
      while offset < end
        invariant start <= offset <= end && Within(done, |file|)
        invariant wire == old(wire) + Wire(file, done)
        invariant Chunks(start, end, eof) == if offset < end then done + Chunks(offset, end, eof) else done
      {
        ChunksStep(done, offset, end, eof);
        ghost var next := Chunks(offset, end, eof)[0];
        OnWire(file, next);
        sent := SendChunk(end, eof, offset);
        WireJoins(file, done, [next]);
        WireAppended(old(wire), Wire(file, done), Sent(file, next));
        offset := offset + sent;
        done := done + [next];
      }
    }

    /** `chn_tx_write`: a fragment is made at the end of what was sent. */
    method Write(size: nat, eof: bool)
      requires endOffset + size <= |file|
      modifies this`wire, this`endOffset
      ensures endOffset == old(endOffset) + size
      ensures wire == old(wire) + Wire(file, Chunks(old(endOffset), endOffset, eof))
    {
      var start := endOffset;
      endOffset := endOffset + size;
      SendAllChunks(start, endOffset, eof);
    }

    /** Reads and sends one block. */
    method PushBlock(ghost done: seq<Piece>) returns (eof: bool, ghost next: seq<Piece>)
      requires Pushed(done, endOffset, wire, false)
      modifies this`wire, this`endOffset
      ensures Pushed(done + next, endOffset, wire, eof) && (!eof ==> endOffset > old(endOffset))
    {
      hide Wire, Within, Chunks, Pieces;
      eof := false;
      var size := STREAM_READ_BLOCK;
      if size + endOffset >= |file| {
        size := |file| - endOffset;
        eof := true;
      }
      next := Chunks(endOffset, endOffset + size, eof);
      PiecesStep(done, endOffset, |file|);
      Wider(next, endOffset + size, |file|);
      WireJoins(file, done, next);
      Write(size, eof);
    }

    /** All blocks up to here are on the wire, as the pieces `done`. */
    ghost predicate Pushed(done: seq<Piece>, offset: nat, wire: seq<Copy>, eof: bool) {
      && offset <= |file| && (eof ==> offset == |file|)
      && Within(done, |file|) && wire == Wire(file, done)
      && Pieces(0, |file|) == if eof then done else done + Pieces(offset, |file|)
    }

    /** The loop of `stream_push` for one reader, up to the block with the end of the file. */
    method StreamPush()
      requires endOffset == 0 && wire == []
      modifies this`wire, this`endOffset
      ensures wire == Wire(file, Pieces(0, |file|)) && endOffset == |file|
    {
      var eof := false;
      ghost var done: seq<Piece> := [];
      Nothing(file);
      assert Pushed(done, endOffset, wire, eof);
      while !eof
        invariant Pushed(done, endOffset, wire, eof)
        decreases |file| - endOffset, if eof then 0 else 1
      {
        hide Wire, Within, Chunks, Pieces;
        ghost var next;
        eof, next := PushBlock(done);
        done := done + next;
      }
    }
  }

  // ----- receiver -----

  datatype Frag = Frag(ts: int, start: nat, end: nat, eof: bool)

  predicate LongAgo(ts: int, now: int) { ts + RETRANSM_TIMEOUT < now }

  function InsertedByOffset(q: seq<Frag>, f: Frag): seq<Frag> {
    if q == [] || f.start < q[0].start then [f] + q
    else [q[0]] + InsertedByOffset(q[1..], f)
  }

  /** The loop of `check_in_frags`: fragments are merged except at an old gap. */
  function Swept(done: seq<Frag>, lastEnd: nat, rest: seq<Frag>, now: int): seq<Frag>
    decreases |rest|
  {
    if rest == [] then done
    else
      var f := rest[0];
      if f.start > lastEnd && LongAgo(f.ts, now) then Swept(done + [f.(ts := now)], f.end, rest[1..], now)
      else if done != [] then
        var m := Merge(done[|done| - 1], f);
        Swept(done[..|done| - 1] + [m], m.end, rest[1..], now)
      else Swept([f], f.end, rest[1..], now)
  }

  function Merge(last: Frag, f: Frag): Frag { if f.end >= last.end then last.(end := f.end, eof := f.eof) else last }

  /** A last fragment without end of file is waited for anew. */
  function Refreshed(q: seq<Frag>, now: int): (r: seq<Frag>)
  {
    if q == [] then []
    else
      var last := q[|q| - 1];
      if !last.eof && LongAgo(last.ts, now) then q[..|q| - 1] + [last.(ts := now)] else q
  }

  function WrittenAt(file: seq<Byte>, offset: nat, data: seq<Byte>): seq<Byte> {
    if data == [] then file
    else
      Resized(file, if |file| < offset then offset else |file|)[..offset] + data
      + (if offset + |data| < |file| then file[offset + |data|..] else [])
  }

  function Resized(file: seq<Byte>, size: nat): (r: seq<Byte>)
    ensures |r| == size
  { if size <= |file| then file[..size] else file + seq(size - |file|, _ => 0) }

  /** The writing end of a stream with a file, and what the receiving transfer knows. */
  datatype Receiver = Receiver(frags: seq<Frag>, stored: seq<Byte>, thanks: nat)

  function Stored(file: seq<Byte>, c: Copy): seq<Byte> {
    var w := WrittenAt(file, c.offset, c.data);
    if c.eof then Resized(w, c.offset + |c.data|) else w
  }

  predicate Complete(q: seq<Frag>) { |q| == 1 && q[0].eof && q[0].start == 0 }

  function Served(r: Receiver, c: Copy, now: int): Receiver {
    var f := Frag(now, c.offset, c.offset + |c.data|, c.eof);
    var q := Refreshed(Swept([], 0, InsertedByOffset(r.frags, f), now), now);
    Receiver(q, Stored(r.stored, c), if Complete(q) then r.thanks + 1 else r.thanks)
  }

  /** All queries in order, each at its time. */
  function Received(r: Receiver, cs: seq<Copy>, clock: nat -> int): Receiver {
    if cs == [] then r
    else Served(Received(r, cs[..|cs| - 1], clock), cs[|cs| - 1], clock(|cs| - 1))
  }

  lemma TakeOne(q: seq<Frag>, i: nat, rest: seq<Frag>)
    requires i < |q|
    ensures q[..i] + ([q[i]] + rest) == q[..i + 1] + rest
  {
  }

  lemma PutBetween(a: seq<Frag>, f: Frag, b: seq<Frag>)
    ensures a + ([f] + b) == a + [f] + b
  {
  }

  lemma InsertedStep(q: seq<Frag>, i: nat, f: Frag)
    requires i <= |q|
    ensures InsertedByOffset(q[i..], f) == if i == |q| || f.start < q[i].start then [f] + q[i..] else [q[i]] + InsertedByOffset(q[i + 1..], f)
  {
    if i < |q| { assert q[i..][1..] == q[i + 1..]; }
  }

  class Transfer {
    var frags: seq<Frag>
    var stored: seq<Byte>
    var thanks: nat

    ghost function State(): Receiver
      reads this
    { Receiver(frags, stored, thanks) }

    method InsertByOffset(f: Frag)
      modifies this`frags
      ensures frags == InsertedByOffset(old(frags), f)
    {
      hide InsertedByOffset;
      var i := 0;
      var q := frags;
      assert q[0..] == q && q[..0] + InsertedByOffset(q[0..], f) == InsertedByOffset(q, f);
      while i < |q| && f.start >= q[i].start
        invariant 0 <= i <= |q|
        invariant InsertedByOffset(q, f) == q[..i] + InsertedByOffset(q[i..], f)
      {
        InsertedStep(q, i, f);
        TakeOne(q, i, InsertedByOffset(q[i + 1..], f));
        i := i + 1;
      }
      InsertedStep(q, i, f);
      PutBetween(q[..i], f, q[i..]);
      frags := q[..i] + [f] + q[i..];
    }

    method CheckInFrags(now: int)
      modifies this`frags
      ensures frags == Refreshed(Swept([], 0, old(frags), now), now)
    {
      var done: seq<Frag>, lastEnd := [], 0;
      for i := 0 to |frags|
        invariant frags == old(frags)
        invariant Swept([], 0, frags, now) == Swept(done, lastEnd, frags[i..], now)
      {
        assert frags[i..][1..] == frags[i + 1..];
        var f := frags[i];
        if f.start > lastEnd && LongAgo(f.ts, now) {
          done, lastEnd := done + [f.(ts := now)], f.end;
        } else if done != [] {
          var m := Merge(done[|done| - 1], f);
          done, lastEnd := done[..|done| - 1] + [m], m.end;
        } else {
          done, lastEnd := [f], f.end;
        }
      }
      if done != [] {
        var last := done[|done| - 1];
        if !last.eof && LongAgo(last.ts, now) { done := done[..|done| - 1] + [last.(ts := now)]; }
      }
      frags := done;
    }

    method StreamWrite(c: Copy)
      modifies this`stored
      ensures stored == Stored(old(stored), c)
    {
      stored := WrittenAt(stored, c.offset, c.data);
      if c.eof { stored := Resized(stored, c.offset + |c.data|); }
    }

    method ServeCopy(c: Copy, now: int)
      modifies this
      ensures State() == Served(old(State()), c, now)
    {
      StreamWrite(c);
      InsertByOffset(Frag(now, c.offset, c.offset + |c.data|, c.eof));
      CheckInFrags(now);
      if |frags| == 1 && frags[0].eof && frags[0].start == 0 { thanks := thanks + 1; }
    }
  }

  // ----- the pieces cover the file -----

  /** Consecutive pieces, none larger than a chunk, the end mark on the last alone. */
  predicate Covers(ps: seq<Piece>, from: nat, end: nat, eof: bool) {
    && ps != [] && ps[0].start == from && ps[|ps| - 1].end == end && ps[|ps| - 1].eof == eof
    && (forall i :: 0 <= i < |ps| ==> ps[i].start <= ps[i].end <= ps[i].start + CHUNK_SIZE)
    && (forall i :: 0 <= i < |ps| - 1 ==> ps[i].end == ps[i + 1].start && !ps[i].eof)
  }

  lemma CoversJoin(a: seq<Piece>, b: seq<Piece>, from: nat, mid: nat, end: nat, eof: bool)
    requires Covers(a, from, mid, false) && Covers(b, mid, end, eof)
    ensures Covers(a + b, from, end, eof)
  {
  }

  lemma OneCovers(start: nat, end: nat, eof: bool)
    ensures start <= end <= start + CHUNK_SIZE ==> Covers([Piece(start, end, eof)], start, end, eof)
  {
  }

  lemma {:induction false} ChunksCover(start: nat, end: nat, eof: bool)
    requires start <= end
    ensures Covers(Chunks(start, end, eof), start, end, eof)
    decreases end - start
  {
    OneCovers(start, end, eof);
    OneCovers(start, start + CHUNK_SIZE, false);
    hide Covers;
    if end - start > CHUNK_SIZE {
      ChunksCover(start + CHUNK_SIZE, end, eof);
      CoversJoin([Piece(start, start + CHUNK_SIZE, false)], Chunks(start + CHUNK_SIZE, end, eof), start, start + CHUNK_SIZE, end, eof);
    }
  }

  lemma {:induction false} PiecesCover(from: nat, size: nat)
    requires from <= size
    ensures Covers(Pieces(from, size), from, size, true)
    decreases size - from
  {
    if from + STREAM_READ_BLOCK >= size {
      ChunksCover(from, size, true);
    } else {
      ChunksCover(from, from + STREAM_READ_BLOCK, false);
      PiecesCover(from + STREAM_READ_BLOCK, size);
      CoversJoin(Chunks(from, from + STREAM_READ_BLOCK, false), Pieces(from + STREAM_READ_BLOCK, size), from, from + STREAM_READ_BLOCK, size, true);
    }
  }

  // ----- in order -----

  /** What was received is one interval from 0. */
  predicate Interval(q: seq<Frag>, end: nat, eof: bool) {
    if q == [] then end == 0 && !eof
    else |q| == 1 && q[0].start == 0 && q[0].end == end && q[0].eof == eof
  }

  lemma NextFragment(r: Receiver, end: nat, c: Copy, now: int)
    requires Interval(r.frags, end, false) && c.offset == end
    ensures var t := Served(r, c, now);
      Interval(t.frags, end + |c.data|, c.eof) && t.frags != [] && t.thanks == r.thanks + (if c.eof then 1 else 0)
  {
    var f := Frag(now, c.offset, c.offset + |c.data|, c.eof);
    if r.frags == [] {
      InsertFirst(f);
      SweepOne(f, now);
      RefreshOne(f, now);
    } else {
      var g := r.frags[0];
      assert r.frags == [g];
      InsertSecond(g, f);
      SweepTwo(g, f, now);
      RefreshOne(Merge(g, f), now);
    }
    hide Swept, Refreshed, InsertedByOffset, Stored;
  }

  lemma InsertFirst(f: Frag)
    ensures InsertedByOffset([], f) == [f]
  {
  }

  lemma InsertSecond(g: Frag, f: Frag)
    requires g.start <= f.start
    ensures InsertedByOffset([g], f) == [g, f]
  {
    InsertFirst(f);
    assert [g][1..] == [];
  }

  lemma SweepOne(f: Frag, now: int)
    ensures f.start == 0 ==> Swept([], 0, [f], now) == [f]
  {
    assert [f][1..] == [];
    assert Swept([f], f.end, [], now) == [f];
  }

  lemma SweepTwo(g: Frag, f: Frag, now: int)
    requires g.start == 0 && f.start == g.end
    ensures Swept([], 0, [g, f], now) == [Merge(g, f)]
  {
    var m := Merge(g, f);
    assert [g, f][1..] == [f] && [f][1..] == [] && [g][..0] + [m] == [m];
    assert Swept([m], m.end, [], now) == [m];
    assert Swept([g], g.end, [f], now) == Swept([m], m.end, [], now);
  }

  lemma RefreshOne(f: Frag, now: int)
    ensures var q := Refreshed([f], now); |q| == 1 && q[0].start == f.start && q[0].end == f.end && q[0].eof == f.eof
  {
  }

  /** Writing the next part of a file after a prefix of it. */
  lemma NextPart(file: seq<Byte>, stored: seq<Byte>, p: Piece)
    requires p.start <= p.end <= |file| && p.start < OFFSETS && p.start <= |stored| && stored[..p.start] == file[..p.start]
    ensures var s := Stored(stored, Sent(file, p));
      p.end <= |s| && s[..p.end] == file[..p.end] && (p.eof ==> |s| == p.end)
  {
    hide WrittenAt, OFFSETS;
    SentIs(file, p);
    PrefixWritten(stored, p.start, file[p.start..p.end]);
    TwoParts(file, p.start, p.end);
  }

  /** Data written right behind a prefix. */
  lemma PrefixWritten(stored: seq<Byte>, at: nat, data: seq<Byte>)
    requires at <= |stored|
    ensures var w := WrittenAt(stored, at, data); |w| >= at + |data| && w[..at + |data|] == stored[..at] + data
  {
  }

  lemma TwoParts(file: seq<Byte>, a: nat, b: nat)
    requires a <= b <= |file|
    ensures file[..b] == file[..a] + file[a..b]
  {
  }

  /** After the first `k` pieces: a prefix of the file, no thanks before the last. */
  ghost predicate Reached(r: Receiver, file: seq<Byte>, ps: seq<Piece>, k: nat)
    requires 0 < k <= |ps|
  {
    var end := ps[k - 1].end;
    && Interval(r.frags, end, k == |ps|) && r.thanks == (if k == |ps| then 1 else 0)
    && end <= |file| && end <= |r.stored| && r.stored[..end] == file[..end]
    && (k == |ps| ==> |r.stored| == end)
  }

  lemma ReachedFirst(r: Receiver, file: seq<Byte>, ps: seq<Piece>, now: int)
    requires r.frags == [] && r.thanks == 0 && Covers(ps, 0, |file|, true) && Within(ps, |file|)
    ensures Reached(Served(r, Sent(file, ps[0]), now), file, ps, 1)
  {
    NextFragment(r, 0, Sent(file, ps[0]), now);
    NextPart(file, r.stored, ps[0]);
    hide Served, Stored, Sent;
    assert Stored(r.stored, Sent(file, ps[0])) == Served(r, Sent(file, ps[0]), now).stored by { ServedStores(r, Sent(file, ps[0]), now); }
    SentIs(file, ps[0]);
  }

  lemma ReachedNext(r: Receiver, file: seq<Byte>, ps: seq<Piece>, k: nat, now: int)
    requires 0 < k < |ps| && Covers(ps, 0, |file|, true) && Within(ps, |file|) && ps[k].start < OFFSETS
    requires Reached(r, file, ps, k)
    ensures Reached(Served(r, Sent(file, ps[k]), now), file, ps, k + 1)
  {
    var c := Sent(file, ps[k]);
    assert ps[k - 1].end == ps[k].start && ps[k].eof == (k + 1 == |ps|);
    SentIs(file, ps[k]);
    hide Served, Stored, Sent, Interval;
    NextFragment(r, ps[k].start, c, now);
    NextPart(file, r.stored, ps[k]);
    ServedStores(r, c, now);
  }

  lemma SentIs(file: seq<Byte>, p: Piece)
    requires p.start <= p.end <= |file| && p.start < OFFSETS
    ensures var c := Sent(file, p); c.offset == p.start && c.data == file[p.start..p.end] && c.eof == p.eof
  {
  }

  lemma ServedStores(r: Receiver, c: Copy, now: int)
    ensures Served(r, c, now).stored == Stored(r.stored, c)
  {
  }

  lemma {:induction false} PrefixReceived(r0: Receiver, file: seq<Byte>, ps: seq<Piece>, k: nat, clock: nat -> int)
    requires r0.frags == [] && r0.thanks == 0 && 0 < k <= |ps|
    requires Covers(ps, 0, |file|, true) && Within(ps, |file|) && forall i :: 0 <= i < k ==> ps[i].start < OFFSETS
    ensures Reached(Received(r0, Wire(file, ps)[..k], clock), file, ps, k)
    decreases k
  {
    var w := Wire(file, ps);
    assert w[..k][..k - 1] == w[..k - 1] && w[..k][k - 1] == Sent(file, ps[k - 1]);
    hide Served, Sent, Reached, Wire;
    if k > 1 {
      PrefixReceived(r0, file, ps, k - 1, clock);
      ReachedNext(Received(r0, w[..k - 1], clock), file, ps, k - 1, clock(k - 1));
    } else {
      assert Received(r0, w[..0], clock) == r0;
      ReachedFirst(r0, file, ps, clock(0));
    }
  }

  lemma {:induction false} StartsGrow(ps: seq<Piece>, from: nat, end: nat, i: nat, k: nat)
    requires Covers(ps, from, end, true) && i <= k < |ps|
    ensures ps[i].start <= ps[k].start
    decreases k
  {
    if i < k { StartsGrow(ps, from, end, i, k - 1); }
  }

  /** The last chunk cuts the file where its offset, as sent, says. */
  lemma LastCuts(file: seq<Byte>, ps: seq<Piece>, r0: Receiver, clock: nat -> int)
    requires Covers(ps, 0, |file|, true) && Within(ps, |file|)
    ensures |Received(r0, Wire(file, ps), clock).stored| == ps[|ps| - 1].start % OFFSETS + (|file| - ps[|ps| - 1].start)
  {
    var w := Wire(file, ps);
    var last := w[|w| - 1];
    assert last == Sent(file, ps[|ps| - 1]);
    ServedStores(Received(r0, w[..|w| - 1], clock), last, clock(|w| - 1));
    hide Served, Resized, WrittenAt;
  }

  /** A file whose last chunk starts below 2^32 arrives whole over whatever was
      there, thanked once, by its last chunk; any other arrives cut short. */
  lemma TransferExact(file: seq<Byte>, r0: Receiver, clock: nat -> int)
    requires r0.frags == [] && r0.thanks == 0
    ensures var ps := Pieces(0, |file|);
      Received(r0, Wire(file, ps), clock).stored == file <==> ps[|ps| - 1].start < OFFSETS
    ensures var ps := Pieces(0, |file|);
      ps[|ps| - 1].start < OFFSETS ==> Reached(Received(r0, Wire(file, ps), clock), file, ps, |ps|) && ThankedLast(r0, Wire(file, ps), clock)
  {
    var ps := Pieces(0, |file|);
    PiecesCover(0, |file|);
    hide Covers, Reached, ThankedLast, Received, Wire, Pieces;
    if ps[|ps| - 1].start < OFFSETS {
      TransferWhole(file, ps, r0, clock);
    } else {
      LastCuts(file, ps, r0, clock);
    }
  }

  lemma TransferWhole(file: seq<Byte>, ps: seq<Piece>, r0: Receiver, clock: nat -> int)
    requires r0.frags == [] && r0.thanks == 0
    requires Covers(ps, 0, |file|, true) && Within(ps, |file|) && ps[|ps| - 1].start < OFFSETS
    ensures var r := Received(r0, Wire(file, ps), clock);
      r.stored == file && Reached(r, file, ps, |ps|) && ThankedLast(r0, Wire(file, ps), clock)
  {
    hide Received, Reached, OFFSETS;
    var w := Wire(file, ps);
    assert |w| == |ps|;
    forall i | 0 <= i < |ps| ensures ps[i].start < OFFSETS { StartsGrow(ps, 0, |file|, i, |ps| - 1); }
    assert w[..|ps|] == w;
    forall k | 0 <= k < |w| ensures Received(r0, w[..k], clock).thanks == 0 {
      if k > 0 {
        PrefixReceived(r0, file, ps, k, clock);
        NoThanksYet(Received(r0, w[..k], clock), file, ps, k);
      } else {
        NothingReceived(r0, clock);
        assert w[..0] == [];
      }
    }
    PrefixReceived(r0, file, ps, |ps|, clock);
    AllReached(Received(r0, w, clock), file, ps);
  }

  lemma NothingReceived(r: Receiver, clock: nat -> int)
    ensures Received(r, [], clock) == r
  {
  }

  lemma NoThanksYet(r: Receiver, file: seq<Byte>, ps: seq<Piece>, k: nat)
    requires 0 < k < |ps| && Reached(r, file, ps, k)
    ensures r.thanks == 0
  {
  }

  lemma AllReached(r: Receiver, file: seq<Byte>, ps: seq<Piece>)
    requires Covers(ps, 0, |file|, true) && ps != [] && Reached(r, file, ps, |ps|)
    ensures r.stored == file && r.thanks == 1
  {
    hide Interval;
    assert r.stored[..|file|] == r.stored && file[..|file|] == file;
  }

  /** No thanks are sent before the last query. */
  ghost predicate ThankedLast(r0: Receiver, w: seq<Copy>, clock: nat -> int) {
    Received(r0, w, clock).thanks == 1 && forall k :: 0 <= k < |w| ==> Received(r0, w[..k], clock).thanks == 0
  }

  // ----- what is stored, and when fragments stay apart -----

  /** Byte for byte: the data at its offset, what was there elsewhere, zeros in a hole. */
  lemma WrittenBytes(file: seq<Byte>, offset: nat, data: seq<Byte>)
    ensures var w, end := WrittenAt(file, offset, data), offset + |data|;
      && |w| == (if data != [] && end > |file| then end else |file|)
      && forall i :: 0 <= i < |w| ==> w[i] == if offset <= i < end then data[i - offset] else if i < |file| then file[i] else 0
  {
  }

  /** The file is cut at the end mark, and only there. */
  lemma StoredBytes(file: seq<Byte>, c: Copy)
    ensures var s, w := Stored(file, c), WrittenAt(file, c.offset, c.data);
      && (c.eof ==> |s| == c.offset + |c.data|) && (!c.eof ==> s == w)
      && forall i :: 0 <= i < |s| ==> s[i] == if i < |w| then w[i] else 0
  {
    hide WrittenAt;
  }

  /** The first chunk to arrive is thanked for if and only if it is the whole file. */
  lemma FirstChunk(r: Receiver, c: Copy, now: int)
    requires r.frags == []
    ensures var t, end := Served(r, c, now), c.offset + |c.data|;
      && |t.frags| == 1 && t.frags[0].start == c.offset && t.frags[0].end == end && t.frags[0].eof == c.eof
      && t.thanks == r.thanks + (if c.eof && c.offset == 0 then 1 else 0)
  {
    var f := Frag(now, c.offset, c.offset + |c.data|, c.eof);
    assert InsertedByOffset([], f) == [f];
    assert [f][1..] == [] && [] + [f] == [f];
    assert Swept([], 0, [f], now) == [f];
    RefreshOne(f, now);
    hide Swept, Refreshed, InsertedByOffset, Stored;
  }

  /** A chunk before the one fragment received so far: the two are kept apart, and
      nothing is thanked for, if and only if there is a gap between them and the
      fragment was not looked at for longer than the time-out. */
  lemma OldGapKept(r: Receiver, c: Copy, now: int)
    requires |r.frags| == 1 && c.offset < r.frags[0].start
    ensures var t, end, g := Served(r, c, now), c.offset + |c.data|, r.frags[0];
      if g.start > end && now - g.ts > RETRANSM_TIMEOUT then
        && |t.frags| == 2 && t.thanks == r.thanks && t.frags[0].start == c.offset && t.frags[0].end == end
        && t.frags[1] == g.(ts := now)
      else
        && |t.frags| == 1 && t.frags[0].start == c.offset && t.frags[0].end == (if g.end >= end then g.end else end)
  {
    var f, g := Frag(now, c.offset, c.offset + |c.data|, c.eof), r.frags[0];
    assert r.frags == [g] && [f] + [g] == [f, g];
    assert InsertedByOffset([g], f) == [f, g];
    SweepPair(f, g, now);
    if g.start > f.end && LongAgo(g.ts, now) {
      RefreshedLast([f, g.(ts := now)], now);
    } else {
      RefreshOne(Merge(f, g), now);
    }
    hide Swept, Refreshed, InsertedByOffset, Stored;
  }

  lemma SweepPair(f: Frag, g: Frag, now: int)
    requires f.ts == now
    ensures Swept([], 0, [f, g], now) == if g.start > f.end && LongAgo(g.ts, now) then [f, g.(ts := now)] else [Merge(f, g)]
  {
    hide Merge;
    assert [f, g][1..] == [g] && [g][1..] == [] && [] + [f] == [f];
    assert Swept([f], f.end, [g], now) == if g.start > f.end && LongAgo(g.ts, now) then [f, g.(ts := now)] else [Merge(f, g)] by {
      assert [f] + [g.(ts := now)] == [f, g.(ts := now)];
      assert [f][..0] + [Merge(f, g)] == [Merge(f, g)];
    }
  }

  /** Only the time of the last fragment may change: when the end is not there and it
      was not looked at for longer than the time-out. */
  lemma RefreshedLast(q: seq<Frag>, now: int)
    requires q != []
    ensures var r, k := Refreshed(q, now), |q| - 1;
      && |r| == |q| && r[..k] == q[..k] && r[k] == q[k].(ts := r[k].ts)
      && (r[k].ts != q[k].ts <==> !q[k].eof && now - q[k].ts > RETRANSM_TIMEOUT) && (r[k].ts != q[k].ts ==> r[k].ts == now)
  {
  }

  // ----- out of order -----

  /** One fragment from 0 and whatever comes next: a new fragment is never old, so
      that the gap before it, if any, is merged away. */
  lemma AnyGapMerged(r: Receiver, c: Copy, now: int)
    requires |r.frags| == 1 && r.frags[0].start == 0
    ensures var t, end := Served(r, c, now), c.offset + |c.data|;
      && |t.frags| == 1 && t.frags[0].start == 0
      && t.frags[0].end == (if end >= r.frags[0].end then end else r.frags[0].end)
      && t.frags[0].eof == (if end >= r.frags[0].end then c.eof else r.frags[0].eof)
      && t.thanks == r.thanks + if t.frags[0].eof then 1 else 0
  {
    var f, g := Frag(now, c.offset, c.offset + |c.data|, c.eof), r.frags[0];
    assert r.frags == [g];
    InsertSecond(g, f);
    SweepAny(g, f, now);
    RefreshOne(Merge(g, f), now);
    hide Swept, Refreshed, InsertedByOffset, Stored;
  }

  lemma SweepAny(g: Frag, f: Frag, now: int)
    requires g.start == 0 && f.ts == now
    ensures Swept([], 0, [g, f], now) == [Merge(g, f)]
  {
    var m := Merge(g, f);
    assert [g, f][1..] == [f] && [f][1..] == [] && [g][..0] + [m] == [m];
    assert Swept([m], m.end, [], now) == [m];
    assert Swept([g], g.end, [f], now) == Swept([m], m.end, [], now);
  }

  /** Once the first chunk to arrive is the one at 0, no hole is ever seen,
      whatever the order of the others and however long they take. */
  lemma {:induction false} HolesNeverSeen(r0: Receiver, cs: seq<Copy>, clock: nat -> int)
    requires r0.frags == [] && cs != [] && cs[0].offset == 0
    ensures var q := Received(r0, cs, clock).frags; |q| == 1 && q[0].start == 0
    decreases |cs|
  {
    var n := |cs| - 1;
    if n == 0 {
      var f := Frag(clock(0), 0, |cs[0].data|, cs[0].eof);
      assert Received(r0, cs[..0], clock) == r0;
      InsertFirst(f);
      SweepOne(f, clock(0));
      RefreshOne(f, clock(0));
    } else {
      HolesNeverSeen(r0, cs[..n], clock);
      AnyGapMerged(Received(r0, cs[..n], clock), cs[n], clock(n));
      hide Served;
    }
  }

  /** So the end mark is thanked for as soon as it arrives, holes or not. */
  lemma ThankedEarly(r0: Receiver, cs: seq<Copy>, c: Copy, clock: nat -> int)
    requires r0.frags == [] && cs != [] && cs[0].offset == 0 && c.eof
    requires var q := Received(r0, cs, clock).frags; q != [] && c.offset + |c.data| >= q[0].end
    ensures Received(r0, cs + [c], clock).thanks == Received(r0, cs, clock).thanks + 1
  {
    hide Served, Received;
    HolesNeverSeen(r0, cs, clock);
    AnyGapMerged(Received(r0, cs, clock), c, clock(|cs|));
    ReceivedMore(r0, cs, c, clock);
  }

  lemma ReceivedMore(r0: Receiver, cs: seq<Copy>, c: Copy, clock: nat -> int)
    ensures Received(r0, cs + [c], clock) == Served(Received(r0, cs, clock), c, clock(|cs|))
  {
    assert (cs + [c])[..|cs|] == cs;
    hide Served;
  }
}
