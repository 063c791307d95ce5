/** The stream splitter: cuts a byte stream at absolute points, however it is cut into calls already. */
module StreamSplit {
  import opened Io

  /** `count` segments of `bytes` bytes each; either number may be nonsense. */
  datatype RepeatedSplit = RepeatedSplit(count: int, bytes: int)

  function Repeat(count: nat, bytes: nat): (s: seq<nat>)
    ensures |s| == count
  {
    seq(count, _ => bytes)
  }

  /** The segment lengths a list of repeated splits stands for. */
  function Segments(splits: seq<RepeatedSplit>): (s: seq<nat>) {
    if splits == [] then [] else
    (if splits[0].count > 0 && splits[0].bytes > 0 then Repeat(splits[0].count, splits[0].bytes) else [])
    + Segments(splits[1..])
  }

  predicate Positive(s: seq<nat>) {
    forall i :: 0 <= i < |s| ==> s[i] > 0
  }

  lemma {:induction false} SegmentsPositive(splits: seq<RepeatedSplit>)
    ensures Positive(Segments(splits))
  {
    if splits != [] {
      SegmentsPositive(splits[1..]);
    }
  }

  lemma {:induction false} SegmentsSnoc(splits: seq<RepeatedSplit>, x: RepeatedSplit)
    ensures Segments(splits + [x]) == Segments(splits) + Segments([x])
  {
    if splits == [] {
      assert [] + [x] == [x] && [x][1..] == [];
    } else {
      assert (splits + [x])[1..] == splits[1..] + [x];
      SegmentsSnoc(splits[1..], x);
    }
  }

  /** The split points after offset `from`: the prefix sums of the segments. */
  function Points(from: nat, segments: seq<nat>): (s: set<nat>)
    decreases segments
  {
    if segments == [] then {} else {from + segments[0]} + Points(from + segments[0], segments[1..])
  }

  lemma {:induction false} PointsAhead(from: nat, segments: seq<nat>)
    requires Positive(segments)
    ensures forall p :: p in Points(from, segments) ==> p > from
    decreases segments
  {
    if segments != [] {
      PointsAhead(from + segments[0], segments[1..]);
    }
  }

  lemma {:induction false} PointsHead(from: nat, segments: seq<nat>)
    ensures Points(from, segments) ==
            if segments == [] then {} else {from + segments[0]} + Points(from + segments[0], segments[1..])
  {
  }

  /** Yields the segment lengths one by one, then zeros. */
  class SplitIterator {
    var splits: seq<RepeatedSplit>

    ghost predicate Valid()
      reads this
    {
      forall i :: 0 <= i < |splits| ==> splits[i].count > 0 && splits[i].bytes > 0
    }

    constructor (input: seq<RepeatedSplit>)
      ensures Valid() && Segments(splits) == Segments(input)
    {
      var clean: seq<RepeatedSplit> := [];
      for i := 0 to |input|
        invariant forall j :: 0 <= j < |clean| ==> clean[j].count > 0 && clean[j].bytes > 0
        invariant Segments(clean) == Segments(input[..i])
      {
        var split := input[i];
        assert input[..i + 1] == input[..i] + [split] && [split][1..] == [];
        SegmentsSnoc(input[..i], split);
        if split.count > 0 && split.bytes > 0 {
          SegmentsSnoc(clean, split);
          clean := clean + [split];
        }
      }
      assert input[..|input|] == input;
      splits := clean;
    }

    method Next() returns (n: nat)
      requires Valid()
      modifies this
      ensures Valid()
      ensures if old(Segments(splits)) == [] then n == 0 && Segments(splits) == []
              else n > 0 && old(Segments(splits)) == [n] + Segments(splits)
    {
      if |splits| == 0 {
        return 0;
      }
      hide Segments;
      n := splits[0].bytes;
      var count := splits[0].count - 1;
      SegmentsHead(splits[0], splits[1..]);
      assert splits == [splits[0]] + splits[1..];
      splits := if count == 0 then splits[1..] else [RepeatedSplit(count, n)] + splits[1..];
    }
  }

  lemma {:induction false} RepeatHead(count: nat, bytes: nat)
    ensures count > 0 ==> Repeat(count, bytes) == [bytes] + Repeat(count - 1, bytes)
    ensures Repeat(0, bytes) == []
  {
  }

  lemma {:induction false} SegmentsCons(x: RepeatedSplit, rest: seq<RepeatedSplit>)
    requires x.count > 0 && x.bytes > 0
    ensures Segments([x] + rest) == Repeat(x.count, x.bytes) + Segments(rest)
  {
    hide Repeat;
    assert ([x] + rest)[1..] == rest;
  }

  lemma {:induction false} SegmentsHead(x: RepeatedSplit, rest: seq<RepeatedSplit>)
    requires x.count > 0 && x.bytes > 0
    ensures Segments([x] + rest) ==
            [x.bytes] + if x.count == 1 then Segments(rest)
                        else Segments([RepeatedSplit(x.count - 1, x.bytes)] + rest)
  {
    hide Segments, Repeat;
    RepeatHead(x.count, x.bytes);
    RepeatHead(0, x.bytes);
    SegmentsCons(x, rest);
    var tail := Repeat(x.count - 1, x.bytes);
    Assoc([x.bytes], tail, Segments(rest));
    if x.count == 1 {
      assert tail + Segments(rest) == Segments(rest);
    } else {
      SegmentsCons(RepeatedSplit(x.count - 1, x.bytes), rest);
    }
  }

  function At(from: nat, k: nat, bytes: nat): (p: nat) {
    from + k * bytes
  }

  /** One of the `count` points that lie `bytes` apart behind `from`. */
  ghost predicate OnGrid(p: nat, from: nat, count: nat, bytes: nat) {
    exists k: nat :: 1 <= k <= count && p == At(from, k, bytes)
  }

  lemma {:induction false} GridStep(p: nat, from: nat, count: nat, bytes: nat)
    requires count > 0
    ensures OnGrid(p, from, count, bytes) <==> p == from + bytes || OnGrid(p, from + bytes, count - 1, bytes)
  {
    assert At(from, 1, bytes) == from + bytes;
    if OnGrid(p, from + bytes, count - 1, bytes) {
      var k: nat :| 1 <= k <= count - 1 && p == At(from + bytes, k, bytes);
      assert p == At(from, k + 1, bytes);
    }
    if OnGrid(p, from, count, bytes) && p != from + bytes {
      var k: nat :| 1 <= k <= count && p == At(from, k, bytes);
      assert k * bytes == bytes + (k - 1) * bytes;
      assert p == At(from + bytes, k - 1, bytes);
    }
  }

  lemma {:induction false} RepeatedPoints(p: nat, from: nat, count: nat, bytes: nat, rest: seq<nat>)
    ensures p in Points(from, Repeat(count, bytes) + rest) <==>
            OnGrid(p, from, count, bytes) || p in Points(from + count * bytes, rest)
    decreases count
  {
    hide OnGrid, Repeat, Points;
    RepeatHead(count, bytes);
    if count == 0 {
      NoGrid(p, from, bytes);
      assert [] + rest == rest;
    } else {
      var tail := Repeat(count - 1, bytes) + rest;
      assert Repeat(count, bytes) + rest == [bytes] + tail;
      PointsHead(from, [bytes] + tail);
      assert ([bytes] + tail)[1..] == tail;
      RepeatedPoints(p, from + bytes, count - 1, bytes, rest);
      GridStep(p, from, count, bytes);
      assert from + bytes + (count - 1) * bytes == from + count * bytes;
    }
  }

  lemma {:induction false} NoGrid(p: nat, from: nat, bytes: nat)
    ensures !OnGrid(p, from, 0, bytes)
  {
  }

  /** The split points of a list of splits: each entry that makes sense gives `count` points `bytes` apart, and the
      next one goes on from there. */
  lemma {:induction false} PointsMeaning(p: nat, from: nat, splits: seq<RepeatedSplit>)
    ensures p in Points(from, Segments(splits)) <==>
            splits != []
            && var x := splits[0];
               if x.count > 0 && x.bytes > 0
               then OnGrid(p, from, x.count, x.bytes)
                    || p in Points(from + x.count * x.bytes, Segments(splits[1..]))
               else p in Points(from, Segments(splits[1..]))
  {
    hide OnGrid, Repeat;
    if splits != [] && splits[0].count > 0 && splits[0].bytes > 0 {
      RepeatedPoints(p, from, splits[0].count, splits[0].bytes, Segments(splits[1..]));
    } else if splits != [] {
      assert [] + Segments(splits[1..]) == Segments(splits[1..]);
    }
  }

  // ---------------------------------------------------------------- boundaries

  function Total(writes: seq<seq<byte>>): (n: nat) {
    if writes == [] then 0 else Total(writes[..|writes| - 1]) + |writes[|writes| - 1]|
  }

  /** The offsets at which the writes of a list end. */
  function Ends(writes: seq<seq<byte>>): (s: set<nat>) {
    if writes == [] then {} else Ends(writes[..|writes| - 1]) + {Total(writes)}
  }

  lemma {:induction false} EndsSnoc(writes: seq<seq<byte>>, x: seq<byte>)
    ensures Total(writes + [x]) == Total(writes) + |x|
    ensures Ends(writes + [x]) == Ends(writes) + {Total(writes) + |x|}
  {
    assert (writes + [x])[..|writes|] == writes;
  }

  /** No point lies strictly inside what any write was offered; an offer is an offset and a length. */
  ghost predicate Uncut(offers: seq<(nat, nat)>, points: set<nat>) {
    forall i, p :: 0 <= i < |offers| && p in points ==> !(offers[i].0 < p < offers[i].0 + offers[i].1)
  }

  lemma {:induction false} UncutSnoc(offers: seq<(nat, nat)>, points: set<nat>, from: nat, size: nat)
    requires Uncut(offers, points) && forall p :: p in points ==> !(from < p < from + size)
    ensures Uncut(offers + [(from, size)], points)
  {
  }

  /** The points behind offset `at`. */
  function After(points: set<nat>, at: nat): (s: set<nat>) {
    set p | p in points && p > at
  }

  /** The points strictly between two offsets. */
  function Inside(points: set<nat>, from: nat, to: nat): (s: set<nat>) {
    set p | p in points && from < p < to
  }

  function Below(points: set<nat>, total: nat): (s: set<nat>) {
    set p | p in points && p < total
  }

  class SplitWriter {
    const base: Sink
    const nextSegmentLength: SplitIterator
    /** Bytes to go before the next split point; zero when there are no more. */
    var nextSplitBytes: nat
    /** The split points of the whole stream. */
    ghost const points: set<nat>

    /** The next split point is where `nextSplitBytes` says, and behind it come those of the iterator. */
    ghost predicate Tracks(at: nat)
      reads this`nextSplitBytes, nextSegmentLength
    {
      var rest := Segments(nextSegmentLength.splits);
      && nextSegmentLength.Valid()
      && After(points, at) ==
         (if nextSplitBytes == 0 then {} else {at + nextSplitBytes} + Points(at + nextSplitBytes, rest))
      && (nextSplitBytes == 0 ==> rest == [])
    }

    ghost predicate Valid()
      reads this, nextSegmentLength, base
    {
      && Tracks(|base.received|) && Uncut(base.offered, points)
      && Flatten(base.calls) == base.received && Total(base.calls) == |base.received|
    }

    constructor (base: Sink, splits: seq<RepeatedSplit>)
      requires base.received == [] && base.calls == [] && base.offered == []
      ensures Valid() && this.base == base && fresh(nextSegmentLength)
      ensures points == Points(0, Segments(splits))
    {
      var it := new SplitIterator(splits);
      var n := it.Next();
      this.base, nextSegmentLength, nextSplitBytes := base, it, n;
      points := Points(0, Segments(splits));
      new;
      SegmentsPositive(splits);
      PointsAhead(0, Segments(splits));
      if n > 0 {
        assert Segments(splits)[1..] == Segments(it.splits);
      }
    }

    /** Moves on by `n` bytes, at most up to the next split point. */
    method Advance(n: nat, ghost at: nat)
      requires Tracks(at) && (nextSplitBytes > 0 ==> n <= nextSplitBytes)
      modifies this`nextSplitBytes, nextSegmentLength
      ensures Tracks(at + n)
      ensures n < old(nextSplitBytes) ==> nextSplitBytes == old(nextSplitBytes) - n
    {
      hide Segments, Points;
      ghost var rest, next := Segments(nextSegmentLength.splits), nextSplitBytes;
      SegmentsPositive(nextSegmentLength.splits);
      AfterMoves(at, n, next, rest);
      if nextSplitBytes == 0 {
        return;
      }
      nextSplitBytes := nextSplitBytes - n;
      if nextSplitBytes > 0 {
        return;
      }
      nextSplitBytes := nextSegmentLength.Next();
      PointsHead(at + next, rest);
      if rest != [] {
        assert rest[1..] == Segments(nextSegmentLength.splits);
      }
    }

    lemma {:induction false} AfterMoves(at: nat, n: nat, next: nat, rest: seq<nat>)
      requires Positive(rest) && (n <= next || next == 0)
      requires After(points, at) == if next == 0 then {} else {at + next} + Points(at + next, rest)
      ensures After(points, at + n) ==
              if next == 0 then {} else if n < next then After(points, at) else Points(at + next, rest)
    {
      if next > 0 {
        PointsAhead(at + next, rest);
      }
      forall p
        ensures p in After(points, at + n) <==> p in After(points, at) && p > at + n
      {
      }
    }

    /** One write to the base, which must not reach over the next split point. */
    method Emit(p: seq<byte>) returns (n: nat, err: Err)
      requires Valid() && (nextSplitBytes > 0 ==> |p| <= nextSplitBytes)
      modifies this, base, nextSegmentLength
      ensures Valid() && n <= |p| && base.received == old(base.received) + p[..n]
      ensures n < |p| ==> err != NoErr
      ensures base.faults == old(base.faults) + (if err == NoErr then 0 else 1) && (err == NoErr || err == base.fault)
      ensures base.calls == old(base.calls) + [p[..n]]
      ensures base.offered == old(base.offered) + [(|old(base.received)|, |p|)]
      ensures n < old(nextSplitBytes) ==> nextSplitBytes == old(nextSplitBytes) - n
      ensures old(base.script) == [] ==> base.script == [] && err == NoErr
    {
      hide Tracks, Flatten, Ends, Total;
      ghost var at := |base.received|;
      NoneInside(at, |p|);
      n, err := base.Write(p);
      FlattenSnoc(old(base.calls), p[..n]);
      EndsSnoc(old(base.calls), p[..n]);
      Advance(n, at);
    }

    lemma {:induction false} NoneInside(at: nat, size: nat)
      requires Tracks(at) && (nextSplitBytes > 0 ==> size <= nextSplitBytes)
      ensures forall p :: p in points ==> !(at < p < at + size)
    {
      SegmentsPositive(nextSegmentLength.splits);
      PointsAhead(at + nextSplitBytes, Segments(nextSegmentLength.splits));
      forall p | p in points && at < p
        ensures at + size <= p
      {
        assert p in After(points, at);
      }
    }

    lemma {:induction false} NextIsPoint(at: nat)
      requires Tracks(at) && nextSplitBytes > 0
      ensures at + nextSplitBytes in points
    {
      assert at + nextSplitBytes in After(points, at);
    }

    /** `io.Writer`.  Short writes keep the split points where they are; over an accepting base the writes
        that come out end at the points inside `data` and at its end, and nowhere else. */
    method Write(data: seq<byte>) returns (written: nat, err: Err)
      requires Valid()
      modifies this, base, nextSegmentLength
      ensures Valid() && written <= |data| && base.received == old(base.received) + data[..written]
      ensures written < |data| ==> err != NoErr
      ensures base.faults == old(base.faults) + (if err == NoErr then 0 else 1) && (err == NoErr || err == base.fault)
      ensures old(base.script) == [] ==>
                && base.script == [] && written == |data| && err == NoErr
                && var at := |old(base.received)|;
                   Ends(base.calls) == old(Ends(base.calls)) + {at + |data|} + Inside(points, at, at + |data|)
    {
      hide Tracks, Flatten, Ends, Total, Uncut, Inside;
      written := 0;
      ghost var at := |base.received|;
      assert base.received + data[..0] == base.received;
      InsideEmpty(at);
      while 0 < nextSplitBytes < |data| - written
        invariant Valid() && written <= |data|
        invariant base.received == old(base.received) + data[..written] && base.faults == old(base.faults)
        invariant old(base.script) == [] ==>
                    && base.script == []
                    && Ends(base.calls) == old(Ends(base.calls)) + Inside(points, at, at + written + 1)
        decreases |data| - written
      {
        InsideStep(at, written, nextSplitBytes);
        var n;
        n, err := Step(data, written, nextSplitBytes);
        written := written + n;
        if err != NoErr {
          return;
        }
      }
      InsideLast(at, written, |data| - written);
      var n;
      n, err := Step(data, written, |data| - written);
      written := written + n;
    }

    lemma {:induction false} InsideEmpty(at: nat)
      ensures Inside(points, at, at + 1) == {}
    {
    }

    lemma {:induction false} InsideStep(at: nat, done: nat, size: nat)
      requires Tracks(at + done) && size == nextSplitBytes > 0
      ensures Inside(points, at, at + done + size + 1) == Inside(points, at, at + done + 1) + {at + done + size}
    {
      NoneInside(at + done, size);
      NextIsPoint(at + done);
    }

    lemma {:induction false} InsideLast(at: nat, done: nat, size: nat)
      requires Tracks(at + done) && (nextSplitBytes > 0 ==> size <= nextSplitBytes)
      ensures {at + done + size} + Inside(points, at, at + done + size) ==
              {at + done + size} + Inside(points, at, at + done + 1)
    {
      NoneInside(at + done, size);
    }

    /** Emits `data[from..from + size]`. */
    method Step(data: seq<byte>, from: nat, size: nat) returns (n: nat, err: Err)
      requires Valid() && from + size <= |data| && (nextSplitBytes > 0 ==> size <= nextSplitBytes)
      modifies this, base, nextSegmentLength
      ensures Valid() && n <= size && base.received == old(base.received) + data[from..from + n]
      ensures |base.received| == |old(base.received)| + n
      ensures forall was :: old(base.received) == was + data[..from] ==> base.received == was + data[..from + n]
      ensures n < size ==> err != NoErr
      ensures base.faults == old(base.faults) + (if err == NoErr then 0 else 1) && (err == NoErr || err == base.fault)
      ensures Ends(base.calls) == old(Ends(base.calls)) + {|base.received|}
      ensures old(base.script) == [] ==> base.script == [] && err == NoErr
    {
      hide Tracks, Flatten, Ends, Total, Uncut;
      ghost var before := base.calls;
      n, err := Emit(data[from..from + size]);
      assert data[from..from + size][..n] == data[from..from + n];
      EndsSnoc(before, data[from..from + n]);
      assert data[..from + n] == data[..from] + data[from..from + n];
      forall was | old(base.received) == was + data[..from]
        ensures base.received == was + data[..from + n]
      {
        Assoc(was, data[..from], data[from..from + n]);
      }
    }

    /** One `ReadFrom` of the base, up to the next split point if there is one; `done` bytes went out before. */
    method Piece(src: Source, size: nat, ghost at: nat, ghost done: nat) returns (n: nat, err: Err)
      requires Valid() && size > 0 && |base.received| == at + done
      modifies this, base, nextSegmentLength, src
      ensures Valid() && n <= |old(src.data)| && base.received == old(base.received) + old(src.data)[..n]
      ensures Ends(base.calls) == old(Ends(base.calls)) + {at + done + n}
      ensures {at + done + n} + Inside(points, at, at + done + n) == {at + done + n} + Inside(points, at, at + done + 1)
      ensures n == old(nextSplitBytes) > 0 ==>
                Inside(points, at, at + done + n + 1) == Inside(points, at, at + done + 1) + {at + done + n}
      ensures old(nextSplitBytes) > 0 ==> n <= old(nextSplitBytes)
      ensures err == NoErr ==> src.data == old(src.data)[n..]
      ensures err == NoErr && (old(nextSplitBytes) == 0 || n < old(nextSplitBytes)) ==> src.data == [] && src.end == Eof
      ensures err == NoErr ==> base.faults == old(base.faults)
      ensures err != NoErr ==>
                || (base.faults == old(base.faults) + 1 && err == base.fault)
                || (base.faults == old(base.faults) && err == src.end != Eof && src.data == [] && n == |old(src.data)|)
      ensures old(base.script) == [] ==> base.script == [] && base.faults == old(base.faults)
      ensures old(base.script) == [] && err != NoErr ==> err == src.end != Eof && n == |old(src.data)|
    {
      hide Tracks, Flatten, Ends, Total, Uncut, Inside;
      ghost var data, before, offered := src.data, base.calls, base.offered;
      n, err := base.ReadFrom(src, if nextSplitBytes == 0 then None else Some(nextSplitBytes), size);
      InsideLast(at, done, n);
      if n == nextSplitBytes > 0 {
        InsideStep(at, done, n);
      }
      NoneInside(at + done, n);
      UncutSnoc(offered, points, at + done, n);
      FlattenSnoc(before, data[..n]);
      EndsSnoc(before, data[..n]);
      Advance(n, at + done);
    }

    /** `io.ReaderFrom`: each `ReadFrom` of the base stops at a split point, whether or not the base fails; the
        pieces moved end at the points inside what was moved, and at its end. */
    method ReadFrom(src: Source, size: nat) returns (written: nat, err: Err)
      requires Valid() && size > 0
      modifies this, base, nextSegmentLength, src
      ensures Valid() && written <= |old(src.data)|
      ensures base.received == old(base.received) + old(src.data)[..written]
      ensures var at := |old(base.received)|;
              Ends(base.calls) == old(Ends(base.calls)) + {at + written} + Inside(points, at, at + written)
      ensures err == NoErr ==> written == |old(src.data)| && src.end == Eof
      ensures err == NoErr ==> base.faults == old(base.faults)
      ensures err != NoErr ==>
                || (base.faults == old(base.faults) + 1 && err == base.fault)
                || (base.faults == old(base.faults) && err == src.end != Eof && written == |old(src.data)|)
      ensures old(base.script) == [] ==>
                && base.script == [] && base.faults == old(base.faults) && written == |old(src.data)|
                && err == if src.end == Eof then NoErr else src.end
    {
      hide Tracks, Flatten, Ends, Total, Uncut, Inside;
      written := 0;
      ghost var at, data := |base.received|, src.data;
      assert base.received + data[..0] == base.received;
      InsideEmpty(at);
      while nextSplitBytes > 0
        invariant Valid() && written <= |data| && src.data == data[written..]
        invariant base.received == old(base.received) + data[..written]
        invariant Ends(base.calls) == old(Ends(base.calls)) + Inside(points, at, at + written + 1)
        invariant base.faults == old(base.faults) && (old(base.script) == [] ==> base.script == [])
        decreases |src.data|
      {
        var expected := nextSplitBytes;
        var n;
        n, err := Piece(src, size, at, written);
        TakeMore(old(base.received), data, written, n);
        DropMore(data, written, n);
        written := written + n;
        if err != NoErr || n < expected {
          return;
        }
      }
      var n;
      n, err := Piece(src, size, at, written);
      TakeMore(old(base.received), data, written, n);
      DropMore(data, written, n);
      written := written + n;
    }
  }

  // ---------------------------------------------------------------- whole runs

  /** One call on a splitter: a `Write`, or a `ReadFrom` with pieces of `size` bytes at most. */
  datatype Call = Bytes(p: seq<byte>) | Pull(data: seq<byte>, script: seq<Move>, end: EndErr, size: nat)
  {
    function Input(): (s: seq<byte>) {
      if Bytes? then p else data
    }

    predicate Ok() {
      Pull? ==> size > 0
    }
  }

  function Inputs(calls: seq<Call>): (s: seq<seq<byte>>)
    ensures |s| == |calls|
  {
    seq(|calls|, i requires 0 <= i < |calls| => calls[i].Input())
  }

  method Perform(w: SplitWriter, call: Call)
    requires w.Valid() && w.base.script == [] && call.Ok()
    modifies w, w.base, w.nextSegmentLength
    ensures w.Valid() && w.base.script == [] && w.base.received == old(w.base.received) + call.Input()
    ensures var at, size := |old(w.base.received)|, |call.Input()|;
            Ends(w.base.calls) == old(Ends(w.base.calls)) + {at + size} + Inside(w.points, at, at + size)
  {
    hide SplitWriter.Valid, Inside, Ends;
    match call {
      case Bytes(p) =>
        var n, _ := w.Write(p);
        assert p[..n] == p;
      case Pull(data, script, end, size) =>
        var src := new Source(data, script, end);
        var n, _ := w.ReadFrom(src, size);
        assert data[..n] == data;
    }
  }

  /** What has come out of a splitter that was given `writes`. */
  ghost predicate CutsAs(received: seq<byte>, taken: seq<seq<byte>>, points: set<nat>, writes: seq<seq<byte>>) {
    && received == Flatten(writes) && |received| == Total(writes)
    && Ends(taken) == Ends(writes) + Below(points, Total(writes))
  }

  lemma {:induction false} CutsAsNothing(points: set<nat>)
    requires forall p :: p in points ==> p > 0
    ensures CutsAs([], [], points, [])
  {
    BelowNothing(points);
  }

  method PerformNext(w: SplitWriter, call: Call, ghost writes: seq<seq<byte>>)
    requires w.Valid() && w.base.script == [] && call.Ok() && forall p :: p in w.points ==> p > 0
    requires CutsAs(w.base.received, w.base.calls, w.points, writes)
    modifies w, w.base, w.nextSegmentLength
    ensures w.Valid() && w.base.script == []
    ensures CutsAs(w.base.received, w.base.calls, w.points, writes + [call.Input()])
  {
    hide SplitWriter.Valid, Flatten, Total, Ends, Below, Inside;
    var x := call.Input();
    FlattenSnoc(writes, x);
    EndsSnoc(writes, x);
    BelowGrows(w.points, writes, |x|);
    Perform(w, call);
  }

  /** Any list of calls, of either kind, through a splitter over an accepting base: the stream is unchanged, and
      the pieces that come out end where the given ones end and at every split point before the end. */
  method Run(splits: seq<RepeatedSplit>, calls: seq<Call>) returns (issued: seq<seq<byte>>)
    requires forall i :: 0 <= i < |calls| ==> calls[i].Ok()
    ensures Flatten(issued) == Flatten(Inputs(calls)) && Total(issued) == Total(Inputs(calls))
    ensures Ends(issued) == Ends(Inputs(calls)) + Below(Points(0, Segments(splits)), Total(Inputs(calls)))
  {
    SegmentsPositive(splits);
    PointsAhead(0, Segments(splits));
    hide SplitWriter.Valid, CutsAs, Points, Segments, Inputs, Flatten, Total, Ends, Below;
    var base := new Sink([], Fault);
    var w := new SplitWriter(base, splits);
    CutsAsNothing(w.points);
    ghost var writes := Inputs(calls);
    for i := 0 to |calls|
      invariant w.Valid() && w.base == base && base.script == []
      invariant fresh(w) && fresh(base) && fresh(w.nextSegmentLength)
      invariant CutsAs(base.received, w.base.calls, w.points, writes[..i])
    {
      NextInput(calls, i);
      PerformNext(w, calls[i], writes[..i]);
    }
    assert writes[..|calls|] == writes;
    Issued(w, writes);
    issued := base.calls;
  }

  lemma {:induction false} NextInput(calls: seq<Call>, i: nat)
    requires i < |calls|
    ensures Inputs(calls)[..i + 1] == Inputs(calls)[..i] + [calls[i].Input()]
  {
  }

  lemma {:induction false} Issued(w: SplitWriter, writes: seq<seq<byte>>)
    requires w.Valid() && CutsAs(w.base.received, w.base.calls, w.points, writes)
    ensures Flatten(w.base.calls) == Flatten(writes) && Total(w.base.calls) == Total(writes)
    ensures Ends(w.base.calls) == Ends(writes) + Below(w.points, Total(writes))
  {
  }

  /** A caller that retries from what was not taken, over a base that fails as it likes: the bytes arrive in
      order, each once, and no write to the base ever reaches over a split point. */
  method SendWithRetries(w: SplitWriter, p: seq<byte>, attempts: nat) returns (rest: seq<byte>)
    requires w.Valid()
    modifies w, w.base, w.nextSegmentLength
    ensures w.Valid() && Uncut(w.base.offered, w.points) && w.base.received + rest == old(w.base.received) + p
    ensures old(w.base.script) == [] && attempts > 0 ==> rest == []
  {
    hide Uncut, Flatten, Total, SplitWriter.Tracks;
    rest := p;
    for i := 0 to attempts
      invariant w.Valid() && w.base.received + rest == old(w.base.received) + p
      invariant old(w.base.script) == [] ==> w.base.script == [] && (i > 0 ==> rest == [])
    {
      ghost var was := w.base.received;
      var n, _ := w.Write(rest);
      Assoc(was, rest[..n], rest[n..]);
      assert rest[..n] + rest[n..] == rest;
      rest := rest[n..];
    }
  }

  lemma {:induction false} BelowNothing(points: set<nat>)
    requires forall p :: p in points ==> p > 0
    ensures Below(points, 0) == {} && Ends([]) == {}
  {
  }

  lemma {:induction false} TotalIsEnd(writes: seq<seq<byte>>)
    ensures writes == [] ==> Total(writes) == 0
    ensures writes != [] ==> Total(writes) in Ends(writes)
  {
  }

  lemma {:induction false} BelowGrows(points: set<nat>, writes: seq<seq<byte>>, size: nat)
    requires forall p :: p in points ==> p > 0
    ensures var at := Total(writes);
            Ends(writes) + Below(points, at) + {at + size} + Inside(points, at, at + size) ==
            Ends(writes) + {at + size} + Below(points, at + size)
  {
    TotalIsEnd(writes);
  }

  /** A splitter on top of a splitter cuts at the union of the two sets of points. */
  method RunNested(outer: seq<RepeatedSplit>, inner: seq<RepeatedSplit>, calls: seq<Call>)
    returns (issued: seq<seq<byte>>)
    requires forall i :: 0 <= i < |calls| ==> calls[i].Ok()
    ensures Flatten(issued) == Flatten(Inputs(calls))
    ensures Ends(issued) ==
            Ends(Inputs(calls))
            + Below(Points(0, Segments(outer)) + Points(0, Segments(inner)), Total(Inputs(calls)))
  {
    hide Points, Segments, Flatten, Ends, Total;
    var middle := Run(outer, calls);
    var writes := seq(|middle|, i requires 0 <= i < |middle| => Bytes(middle[i]));
    assert Inputs(writes) == middle;
    issued := Run(inner, writes);
    BelowUnion(Points(0, Segments(outer)), Points(0, Segments(inner)), Total(Inputs(calls)));
  }

  lemma {:induction false} BelowUnion(a: set<nat>, b: set<nat>, total: nat)
    ensures Below(a + b, total) == Below(a, total) + Below(b, total)
  {
  }
}
