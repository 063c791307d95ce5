/** The `io.Reader` and `io.Writer` contracts that every component is written against.

    A `Source` or a `Sink` carries a script of what it will do call by call (how many bytes it moves,
    whether it fails).  A statement about every script is a statement about every conforming reader
    or writer: every fragmentation, every short write, every moment of failure. */
module Io {
  type byte = b: int | 0 <= b < 256

  datatype Option<+T> = None | Some(value: T)

  datatype Err = NoErr | Eof | UnexpectedEof | ShortBuffer | BadTag | Fault

  /** What a reader can end with: `io.EOF` or some other error. */
  type EndErr = e: Err | e != NoErr witness Eof

  function Min(a: nat, b: nat): (m: nat)
    ensures m <= a && m <= b && (m == a || m == b)
  {
    if a < b then a else b
  }

  /** `binary.BigEndian`, for 16 bits. */
  function BigEndian16(v: nat): (s: seq<byte>)
    requires v < 0x1_0000
    ensures |s| == 2
  {
    [v / 256, v % 256]
  }

  function FromBigEndian16(s: seq<byte>): (v: nat)
    requires |s| == 2
    ensures v < 0x1_0000
  {
    s[0] as int * 256 + s[1] as int
  }

  /** The concatenation of a list of byte strings. */
  function Flatten(parts: seq<seq<byte>>): (r: seq<byte>)
  {
    if parts == [] then [] else parts[0] + Flatten(parts[1..])
  }

  lemma {:induction false} FlattenAppend(a: seq<seq<byte>>, b: seq<seq<byte>>)
    ensures Flatten(a + b) == Flatten(a) + Flatten(b)
  {
    if a == [] {
      assert a + b == b;
    } else {
      assert (a + b)[0] == a[0] && (a + b)[1..] == a[1..] + b;
      FlattenAppend(a[1..], b);
    }
  }

  lemma {:induction false} FlattenSnoc(a: seq<seq<byte>>, x: seq<byte>)
    ensures Flatten(a + [x]) == Flatten(a) + x
  {
    FlattenAppend(a, [x]);
    assert [x][1..] == [] && Flatten([x]) == x + [];
  }

  lemma {:induction false} Assoc<T>(a: seq<T>, b: seq<T>, c: seq<T>)
    ensures a + b + c == a + (b + c)
  {
  }

  lemma {:induction false} TakeMore(base: seq<byte>, p: seq<byte>, q: nat, n: nat)
    requires q + n <= |p|
    ensures base + p[..q] + p[q..][..n] == base + p[..q + n]
  {
    assert p[..q + n] == p[..q] + p[q..][..n];
  }

  lemma {:induction false} DropMore(p: seq<byte>, q: nat, n: nat)
    requires q + n <= |p|
    ensures p[q..][n..] == p[q + n..]
  {
  }

  /** One scripted call: move at most `size` bytes; `stop` reports the end (reader) or a failure (writer). */
  datatype Move = Move(size: nat, stop: bool)

  /** A reader that never returns nothing without an error. */
  predicate Prompt(script: seq<Move>) {
    forall i :: 0 <= i < |script| ==> script[i].size > 0
  }

  function Tail(script: seq<Move>): (r: seq<Move>) {
    if script == [] then [] else script[1..]
  }

  /** The next read, into a buffer with room, will return neither a byte nor an error. */
  predicate Idle(script: seq<Move>, data: seq<byte>) {
    script != [] && script[0].size == 0 && !(data == [] && script[0].stop)
  }

  /** How many bytes the next read, into a buffer of `cap` bytes, will return of the `avail` there are. */
  function NextSize(script: seq<Move>, cap: nat, avail: nat): (n: nat)
    ensures n <= cap && n <= avail
  {
    if script == [] then Min(cap, avail) else Min(script[0].size, Min(cap, avail))
  }

  /** Whether a read that returns `n` of the `avail` bytes reports the end. */
  predicate EndSeen(script: seq<Move>, n: nat, avail: nat) {
    if script == [] then avail == 0 else n == avail && (script[0].stop || (avail == 0 && script[0].size > 0))
  }

  /** What a script is once `want` bytes have been read in full, or all of the `avail` there were. */
  function AfterFull(script: seq<Move>, avail: nat, want: nat): (r: seq<Move>)
    decreases |script|
  {
    if want == 0 || script == [] then script else
    var n := NextSize(script, want, avail);
    if EndSeen(script, n, avail) then script[1..] else AfterFull(script[1..], avail - n, want - n)
  }

  class Source {
    var data: seq<byte>
    var script: seq<Move>
    const end: EndErr

    constructor (data: seq<byte>, script: seq<Move>, end: EndErr)
      ensures this.data == data && this.script == script && this.end == end
    {
      this.data, this.script, this.end := data, script, end;
    }

    ghost function Left(): (n: nat)
      reads this
    {
      |data| + |script|
    }

    /** `io.Reader.Read` of at most `cap` bytes; the end may be reported with the last bytes or after them. */
    method Next(cap: nat) returns (out: seq<byte>, err: Err)
      modifies this
      ensures |out| <= cap && old(data) == out + data
      ensures err == NoErr || (err == end && data == [])
      ensures if out != [] || (0 < cap && err == NoErr) then Left() < old(Left()) else Left() <= old(Left())
      ensures old(script) == [] ==> script == []
      ensures old(script) == [] && 0 < cap ==> |out| == Min(cap, |old(data)|) && (err != NoErr <==> old(data) == [])
      ensures old(Prompt(script)) ==> Prompt(script) && (0 < cap ==> out != [] || err != NoErr)
      ensures script == Tail(old(script)) && (0 < cap ==> (out == [] && err == NoErr <==> Idle(old(script), old(data))))
      ensures |out| == NextSize(old(script), cap, |old(data)|)
      ensures err != NoErr <==> EndSeen(old(script), |out|, |old(data)|)
    {
      var n := Min(cap, |data|);
      if script == [] {
        err := if data == [] then end else NoErr;
      } else {
        n := Min(script[0].size, n);
        err := if n == |data| && (script[0].stop || (data == [] && script[0].size > 0)) then end else NoErr;
        script := script[1..];
      }
      out, data := data[..n], data[n..];
    }

    /** The same into `buf[lo..hi]`. */
    method Read(buf: array<byte>, lo: nat, hi: nat) returns (n: nat, err: Err)
      requires lo <= hi <= buf.Length
      modifies this, buf
      ensures n <= hi - lo && n <= |old(data)|
      ensures data == old(data)[n..]
      ensures buf[lo..lo + n] == old(data)[..n]
      ensures forall i :: 0 <= i < buf.Length && !(lo <= i < lo + n) ==> buf[i] == old(buf[i])
      ensures err == NoErr || (err == end && data == [])
      ensures if n > 0 || (lo < hi && err == NoErr) then Left() < old(Left()) else Left() <= old(Left())
      ensures old(script) == [] ==> script == []
      ensures old(script) == [] && lo < hi ==> n == Min(hi - lo, |old(data)|) && (err != NoErr <==> old(data) == [])
      ensures old(Prompt(script)) ==> Prompt(script)
      ensures script == Tail(old(script)) && n == NextSize(old(script), hi - lo, |old(data)|)
      ensures err != NoErr <==> EndSeen(old(script), n, |old(data)|)
    {
      hide Prompt, Idle, Tail, NextSize, EndSeen;
      var out;
      out, err := Next(hi - lo);
      n := |out|;
      forall i | 0 <= i < n {
        buf[lo + i] := out[i];
      }
    }

    /** `Read` behind what `buf[from..lo]`, the start of `all`, holds already. */
    method ReadMore(buf: array<byte>, ghost from: nat, lo: nat, hi: nat, ghost all: seq<byte>)
      returns (n: nat, err: Err)
      requires from <= lo < hi <= buf.Length && all == buf[from..lo] + data
      modifies this, buf
      ensures n <= hi - lo && |data| + n == |old(data)|
      ensures all == buf[from..lo + n] + data
      ensures forall i :: 0 <= i < buf.Length && !(lo <= i < lo + n) ==> buf[i] == old(buf[i])
      ensures err == NoErr || (err == end && data == [])
      ensures if n > 0 || err == NoErr then Left() < old(Left()) else Left() <= old(Left())
      ensures old(script) == [] ==> script == []
      ensures old(Prompt(script)) ==> Prompt(script)
      ensures AfterFull(old(script), |old(data)|, hi - lo) ==
              AfterFull(script, |data|, if err == NoErr then hi - lo - n else 0)
    {
      hide Prompt, Left, Tail, NextSize, EndSeen, AfterFull;
      FullStep(script, |data|, hi - lo);
      ghost var was, got := data, buf[from..lo];
      n, err := Read(buf, lo, hi);
      assert buf[from..lo] == got;
      assert buf[from..lo + n] == buf[from..lo] + buf[lo..lo + n];
      assert was == was[..n] + data;
      Assoc(got, was[..n], data);
    }

    /** `io.ReadFull` into `buf[lo..hi]`. */
    method ReadFull(buf: array<byte>, lo: nat, hi: nat) returns (n: nat, err: Err)
      requires lo <= hi <= buf.Length
      modifies this, buf
      ensures n == Min(hi - lo, |old(data)|)
      ensures data == old(data)[n..]
      ensures buf[lo..lo + n] == old(data)[..n]
      ensures forall i :: 0 <= i < buf.Length && !(lo <= i < lo + n) ==> buf[i] == old(buf[i])
      ensures err == FullErr(n, hi - lo, end)
      ensures if n > 0 then Left() < old(Left()) else Left() <= old(Left())
      ensures old(script) == [] ==> script == []
      ensures old(Prompt(script)) ==> Prompt(script)
      ensures script == AfterFull(old(script), |old(data)|, hi - lo)
    {
      hide Prompt, Left, Tail, NextSize, EndSeen, AfterFull;
      n, err := 0, NoErr;
      ghost var after := AfterFull(script, |data|, hi - lo);
      ghost var all := data;
      while n < hi - lo && err == NoErr
        invariant n <= hi - lo && |data| + n == |all|
        invariant all == buf[lo..lo + n] + data
        invariant forall i :: 0 <= i < buf.Length && !(lo <= i < lo + n) ==> buf[i] == old(buf[i])
        invariant err == NoErr || (err == end && data == [])
        invariant if n > 0 then Left() < old(Left()) else Left() <= old(Left())
        invariant old(script) == [] ==> script == []
        invariant old(Prompt(script)) ==> Prompt(script)
        invariant after == AfterFull(script, |data|, if err == NoErr then hi - lo - n else 0)
        decreases if err == NoErr then Left() + 1 else 0
      {
        var m;
        m, err := ReadMore(buf, lo, lo + n, hi, all);
        n := n + m;
      }
      assert all[n..] == data;
      FullDone(script, |data|, 0);
      if n >= hi - lo {
        err := NoErr;
      } else if n > 0 && err == Eof {
        err := UnexpectedEof;
      }
    }
  }

  lemma {:induction false} FullDone(script: seq<Move>, avail: nat, want: nat)
    ensures want == 0 ==> AfterFull(script, avail, want) == script
  {
  }

  lemma {:induction false} FullStep(script: seq<Move>, avail: nat, want: nat)
    requires want > 0
    ensures var n := NextSize(script, want, avail);
            AfterFull(script, avail, want) ==
            AfterFull(Tail(script), avail - n, if EndSeen(script, n, avail) then 0 else want - n)
  {
  }

  /** What `io.ReadFull` reports after `got` of `want` bytes from a reader that ends with `end`. */
  function FullErr(got: nat, want: nat, end: EndErr): (e: Err)
    requires got <= want
  {
    if got == want then NoErr else if got > 0 && end == Eof then UnexpectedEof else end
  }

  /** What one scripted write of `size` bytes does. */
  predicate Played(was: seq<Move>, size: nat, n: nat, err: Err, now: seq<Move>) {
    if was == [] then n == size && err == NoErr && now == []
    else n == Min(was[0].size, size) && (err != NoErr <==> was[0].stop || n < size) && now == was[1..]
  }

  class Sink {
    var received: seq<byte>
    var script: seq<Move>
    /** The error it reports when it fails. */
    const fault: EndErr
    /** How many calls have failed. */
    var faults: nat
    /** What it took of each call. */
    var calls: seq<seq<byte>>
    /** Where in the stream each call began, and how much it brought. */
    var offered: seq<(nat, nat)>

    constructor (script: seq<Move>, fault: EndErr)
      ensures received == [] && this.script == script && this.fault == fault && faults == 0
      ensures calls == [] && offered == []
    {
      received, this.script, this.fault, faults, calls, offered := [], script, fault, 0, [], [];
    }

    /** `io.Writer.Write`: a short count always comes with an error, an error may come with a full count. */
    method Write(p: seq<byte>) returns (n: nat, err: Err)
      modifies this
      ensures n <= |p|
      ensures received == old(received) + p[..n]
      ensures err == NoErr || err == fault
      ensures n < |p| ==> err != NoErr
      ensures faults == old(faults) + if err == NoErr then 0 else 1
      ensures old(script) == [] ==> script == [] && err == NoErr
      ensures Played(old(script), |p|, n, err, script)
      ensures calls == old(calls) + [p[..n]] && offered == old(offered) + [(|old(received)|, |p|)]
    {
      offered := offered + [(|received|, |p|)];
      n, err := Take(p);
      calls := calls + [p[..n]];
    }

    method Take(p: seq<byte>) returns (n: nat, err: Err)
      modifies this`received, this`script, this`faults
      ensures n <= |p|
      ensures received == old(received) + p[..n]
      ensures err == NoErr || err == fault
      ensures n < |p| ==> err != NoErr
      ensures faults == old(faults) + if err == NoErr then 0 else 1
      ensures old(script) == [] ==> script == [] && err == NoErr
      ensures Played(old(script), |p|, n, err, script)
    {
      if script == [] {
        n, err := |p|, NoErr;
      } else {
        n := Min(script[0].size, |p|);
        err := if script[0].stop || n < |p| then fault else NoErr;
        script := script[1..];
      }
      received := received + p[..n];
      if err != NoErr {
        faults := faults + 1;
      }
    }

    /** `io.ReaderFrom.ReadFrom`: reads at most `limit` bytes of `src` in pieces of its own choice, of `size` bytes
        at most, and reports how many it took; it may fail with some of what it has read.  To the outside it
        is one call. */
    method ReadFrom(src: Source, limit: Option<nat>, size: nat) returns (n: nat, err: Err)
      requires size > 0
      modifies this, src
      ensures n <= |old(src.data)| && received == old(received) + old(src.data)[..n]
      ensures limit.Some? ==> n <= limit.value
      ensures err == NoErr ==>
                && src.data == old(src.data)[n..]
                && ((limit.Some? && n == limit.value) || (src.data == [] && src.end == Eof))
      ensures err == NoErr ==> faults == old(faults)
      ensures err != NoErr ==>
                || (faults == old(faults) + 1 && err == fault)
                || (faults == old(faults) && err == src.end != Eof && src.data == [] && n == |old(src.data)|)
      ensures old(script) == [] ==>
                script == [] && faults == old(faults) && src.data == old(src.data)[n..]
      ensures old(script) == [] && err != NoErr ==> err == src.end != Eof && src.data == []
      ensures calls == old(calls) + [old(src.data)[..n]] && offered == old(offered) + [(|old(received)|, n)]
    {
      hide Played, Idle, NextSize, EndSeen, Tail;
      n, err := 0, NoErr;
      ghost var data := src.data;
      var start, writeErr := |received|, NoErr;
      while err == NoErr && writeErr == NoErr && (limit == None || n < limit.value)
        invariant n <= |data| && (limit.Some? ==> n <= limit.value)
        invariant writeErr == NoErr ==> src.data == data[n..]
        invariant received == old(received) + data[..n]
        invariant err == NoErr || (err == src.end && src.data == [])
        invariant faults == old(faults) + if writeErr == NoErr then 0 else 1
        invariant writeErr == NoErr || writeErr == fault
        invariant old(script) == [] ==> script == [] && writeErr == NoErr
        invariant calls == old(calls) && offered == old(offered) && start == |old(received)|
        decreases if err == NoErr && writeErr == NoErr then src.Left() + 1 else 0
      {
        var out;
        out, err := src.Next(if limit == None then size else Min(size, limit.value - n));
        var m;
        m, writeErr := Take(out);
        assert out == data[n..][..|out|] && out[..m] == data[n..][..m];
        TakeMore(old(received), data, n, m);
        DropMore(data, n, m);
        n := n + m;
      }
      calls, offered := calls + [received[start..]], offered + [(start, n)];
      if writeErr != NoErr {
        err := writeErr;
      } else if err == Eof {
        err := NoErr;
      }
    }
  }
}
