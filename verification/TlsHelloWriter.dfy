/** The buffering fragmenter: holds the first record back until it is complete, splits it in place inside
    the buffer it was collected in, and flushes it before anything else. */
module TlsHelloWriter {
  import opened Io
  import opened TlsRecord

  datatype Outcome = More | FullyReceived | Invalid | Failed(err: Err)

  /** Collects a header, then exactly the record it announces, with room for one more header behind it. */
  class HelloBuffer {
    var data: array<byte>
    var len: nat
    var invalid: bool

    ghost predicate Valid()
      reads this, data
    {
      && len <= data.Length
      && (len < HEADER_LEN ==> data.Length == HEADER_LEN && !invalid)
      && (len >= HEADER_LEN && !invalid ==>
            ValidHeader(data[..HEADER_LEN]) && data.Length == 2 * HEADER_LEN + PayloadLen(data[..HEADER_LEN])
            && len <= data.Length - HEADER_LEN)
      && (invalid ==> len == HEADER_LEN && data.Length == HEADER_LEN && !ValidHeader(data[..HEADER_LEN]))
    }

    ghost function Bytes(): (s: seq<byte>)
      requires len <= data.Length
      reads this, data
    {
      data[..len]
    }

    constructor ()
      ensures Valid() && Bytes() == [] && fresh(data)
    {
      data := new byte[HEADER_LEN];
      len, invalid := 0, false;
    }

    /** Reads until the record is complete, turns out not to be a handshake record, or `src` ends. */
    method ReadFrom(src: Source) returns (n: nat, outcome: Outcome)
      requires Valid() && !invalid
      modifies this, data, src
      ensures Valid() && (data == old(data) || fresh(data))
      ensures Bytes() + src.data == old(Bytes()) + old(src.data) && |src.data| + n == |old(src.data)|
      ensures invalid <==> outcome == Invalid
      ensures outcome == FullyReceived <==> len >= HEADER_LEN && !invalid && len == data.Length - HEADER_LEN
      ensures outcome == More ==> (src.end == Eof || src.end == UnexpectedEof) && src.data == []
      ensures outcome.Failed? ==> outcome.err == src.end != Eof && src.data == []
      ensures Held(Bytes()) <==> outcome == More || outcome.Failed?
    {
      n := 0;
      if len < HEADER_LEN {
        outcome, n := FillHeader(src);
        if outcome != FullyReceived {
          return;
        }
      }
      outcome := FullyReceived;
      ghost var all := Bytes() + src.data;
      while len < data.Length - HEADER_LEN
        invariant Valid() && !invalid && len >= HEADER_LEN && outcome == FullyReceived
        invariant data == old(data) || fresh(data)
        invariant Bytes() + src.data == all && |src.data| + n == |old(src.data)|
        decreases src.Left()
      {
        var m, e := ReadMore(src);
        n := n + m;
        if len == data.Length - HEADER_LEN {
          return;
        }
        if e != NoErr {
          return n, if e == Eof then More else Failed(e);
        }
      }
    }

    method ReadMore(src: Source) returns (m: nat, e: Err)
      requires Valid() && !invalid && HEADER_LEN <= len < data.Length - HEADER_LEN
      modifies this`len, data, src
      ensures Valid() && len >= HEADER_LEN
      ensures Bytes() + src.data == old(Bytes()) + old(src.data) && |src.data| + m == |old(src.data)|
      ensures if e == NoErr then src.Left() < old(src.Left()) else e == src.end && src.data == []
    {
      ghost var was, rest := Bytes(), src.data;
      m, e := src.Read(data, len, data.Length - HEADER_LEN);
      assert data[..HEADER_LEN] == was[..HEADER_LEN];
      assert data[..len + m] == was + rest[..m];
      len := len + m;
      Assoc(was, rest[..m], src.data);
      assert rest[..m] + rest[m..] == rest;
    }

    /** Completes the header; on success the buffer has been replaced by one of the record's size. */
    method FillHeader(src: Source) returns (outcome: Outcome, n: nat)
      requires Valid() && len < HEADER_LEN
      modifies this, data, src
      ensures Valid() && (data == old(data) || fresh(data))
      ensures Bytes() + src.data == old(Bytes()) + old(src.data) && |src.data| + n == |old(src.data)|
      ensures invalid <==> outcome == Invalid
      ensures outcome == FullyReceived ==> len == HEADER_LEN && src.Left() <= old(src.Left())
      // `io.ErrUnexpectedEOF` from the reader itself counts as an ordinary end here.
      ensures outcome == More ==> len < HEADER_LEN && (src.end == Eof || src.end == UnexpectedEof) && src.data == []
      ensures outcome.Failed? ==> len < HEADER_LEN && outcome.err == src.end != Eof && src.data == []
    {
      var e;
      n, e := ReadHeader(src);
      if e != NoErr {
        return if e == Eof || e == UnexpectedEof then More else Failed(e), n;
      }
      assert data[..] == data[..HEADER_LEN];
      if !ValidHeader(data[..]) {
        invalid := true;
        return Invalid, n;
      }
      Grow();
      return FullyReceived, n;
    }

    method ReadHeader(src: Source) returns (n: nat, e: Err)
      requires len < HEADER_LEN == data.Length
      modifies this`len, data, src
      ensures len == old(len) + n <= HEADER_LEN && |src.data| + n == |old(src.data)|
      ensures Bytes() + src.data == old(Bytes()) + old(src.data)
      ensures src.Left() <= old(src.Left()) && e == FullErr(n, HEADER_LEN - old(len), src.end)
      ensures len < HEADER_LEN ==> src.data == []
    {
      ghost var was, rest := Bytes(), src.data;
      n, e := src.ReadFull(data, len, HEADER_LEN);
      assert data[..len] == was && data[..len + n] == data[..len] + data[len..len + n];
      Assoc(was, rest[..n], src.data);
      assert rest[..n] + rest[n..] == rest;
      len := len + n;
    }

    /** Makes room for the record, and for one more header behind it. */
    method Grow()
      requires len == HEADER_LEN == data.Length && ValidHeader(data[..])
      modifies this`data
      ensures fresh(data) && data.Length == 2 * HEADER_LEN + PayloadLen(old(data[..]))
      ensures data[..HEADER_LEN] == old(data[..])
    {
      hide ValidHeader, PayloadLen;
      var buf := new byte[2 * HEADER_LEN + PayloadLen(data[..])];
      forall i | 0 <= i < HEADER_LEN {
        buf[i] := data[i];
      }
      assert buf[..HEADER_LEN] == data[..];
      data := buf;
    }
  }

  /** Moves the tail `buf[at..len]` up by one header and copies the header at the front into the gap.  Both
      copies may overlap: every byte is read before any is written. */
  method OpenGap(buf: array<byte>, len: nat, at: nat)
    requires HEADER_LEN <= at <= len == buf.Length - HEADER_LEN
    modifies buf
    ensures buf[..at] == old(buf[..at])
    ensures buf[at..at + HEADER_LEN] == old(buf[..HEADER_LEN])
    ensures buf[at + HEADER_LEN..] == old(buf[at..len])
  {
    forall i | at <= i < len {
      buf[i + HEADER_LEN] := buf[i];
    }
    assert buf[at + HEADER_LEN..] == old(buf[at..len]) && buf[..at] == old(buf[..at]);
    forall i | 0 <= i < HEADER_LEN {
      buf[at + i] := buf[i];
    }
    assert buf[at + HEADER_LEN..] == old(buf[at..len]) && buf[..at] == old(buf[..at]);
  }

  /** Splits the record in `buf[..len]` in place; the buffer has to be exactly one header longer. */
  method SplitInPlace(buf: array<byte>, len: nat, head: nat)
    requires HEADER_LEN < HEADER_LEN + head < len == buf.Length - HEADER_LEN
    requires ValidHeader(buf[..HEADER_LEN]) && len == HEADER_LEN + PayloadLen(buf[..HEADER_LEN])
    modifies buf
    ensures buf[..] == SplitContent(old(buf[..HEADER_LEN]), old(buf[HEADER_LEN..len]), head)
  {
    hide WithPayloadLen, ValidHeader, PayloadLen, SplitContent;
    var at := HEADER_LEN + head;
    ghost var b0, h: Header := buf[..], buf[..HEADER_LEN];
    ghost var content := b0[HEADER_LEN..len];
    HeaderRange(h);
    Splitting(h, content, head);
    RelabelFront(buf, head);
    ghost var b1 := buf[..];
    OpenGap(buf, len, at);
    ghost var b2 := buf[..];
    WithPayloadLenTwice(h, head, len - at);
    Relabel(buf, at, len - at);
    SplitLayout(b0, b1, b2, buf[..], at, len, WithPayloadLen(h, head), WithPayloadLen(h, len - at));
  }

  lemma {:induction false} SplitLayout(b0: seq<byte>, b1: seq<byte>, b2: seq<byte>, b3: seq<byte>,
                                       at: nat, len: nat, first: Header, second: Header)
    requires HEADER_LEN < at < len && |b0| == |b1| == |b2| == |b3| == len + HEADER_LEN
    requires b1[..HEADER_LEN] == first && b1[HEADER_LEN..] == b0[HEADER_LEN..]
    requires b2[..at] == b1[..at] && b2[at + HEADER_LEN..] == b1[at..len]
    requires b3[..at] == b2[..at] && b3[at..at + HEADER_LEN] == second && b3[at + HEADER_LEN..] == b2[at + HEADER_LEN..]
    ensures var content, head := b0[HEADER_LEN..len], at - HEADER_LEN;
            b3 == first + content[..head] + second + content[head..]
  {
    var n := HEADER_LEN;
    var content := b0[n..len];
    assert b1[at..len] == b1[n..][at - n..len - n] == content[at - n..];
    assert b1[..at] == b1[..n] + b1[n..][..at - n] && b1[n..][..at - n] == content[..at - n];
    assert b3 == b3[..at] + b3[at..at + n] + b3[at + n..];
  }

  lemma {:induction false} Splitting(h: Header, content: seq<byte>, head: nat)
    requires |content| == PayloadLen(h) < 0x1_0000 && 0 < head < |content|
    ensures SplitContent(h, content, head) ==
            WithPayloadLen(h, head) + content[..head] + WithPayloadLen(h, |content| - head) + content[head..]
  {
  }

  method RelabelFront(buf: array<byte>, n: nat)
    requires HEADER_LEN <= buf.Length && 1 <= n <= MAX_PAYLOAD_LEN
    modifies buf
    ensures buf[..HEADER_LEN] == WithPayloadLen(old(buf[..HEADER_LEN]), n)
    ensures buf[HEADER_LEN..] == old(buf[HEADER_LEN..])
  {
    hide WithPayloadLen;
    assert buf[..HEADER_LEN] == buf[0..0 + HEADER_LEN];
    Relabel(buf, 0, n);
    assert buf[..HEADER_LEN] == buf[0..0 + HEADER_LEN];
  }

  lemma {:induction false} HeaderRange(h: Header)
    requires ValidHeader(h)
    ensures 1 <= PayloadLen(h) <= MAX_PAYLOAD_LEN
  {
  }

  method Relabel(buf: array<byte>, at: nat, n: nat)
    requires at + HEADER_LEN <= buf.Length && 1 <= n <= MAX_PAYLOAD_LEN
    modifies buf
    ensures buf[..at] == old(buf[..at]) && buf[at + HEADER_LEN..] == old(buf[at + HEADER_LEN..])
    ensures buf[at..at + HEADER_LEN] == WithPayloadLen(old(buf[at..at + HEADER_LEN]), n)
  {
    hide WithPayloadLen;
    var _ := SetPayloadLen(buf, at, n);
  }

  class HelloWriter {
    const base: Sink
    const frag: seq<byte> -> int
    var done: bool
    /** Collects the first record; null once that is over. */
    var helloBuf: HelloBuffer?
    /** The bytes `record[off..end]` still to be flushed; null if there are none. */
    var record: array?<byte>
    var off: nat
    var end: nat
    /** Every byte reported to the caller as consumed. */
    ghost var consumed: seq<byte>

    ghost function Repr(): (s: set<object>)
      reads this, helloBuf
    {
      if helloBuf == null then {this, base} else
      var buffer: HelloBuffer := helloBuf;
      {this, base, buffer, buffer.data}
    }

    ghost function Unflushed(): (s: seq<byte>)
      requires record != null ==> off <= end <= record.Length
      reads this, record
    {
      if record == null then [] else record[off..end]
    }

    /** What the base has, what waits to be flushed and what is still being collected are, together, the
        image of everything consumed. */
    ghost predicate Valid()
      reads this, base, helloBuf, if helloBuf == null then {} else {helloBuf.data}, record
    {
      && (record != null ==> !done && helloBuf == null && off <= end <= record.Length)
      && (helloBuf != null <==> !done && record == null)
      && (helloBuf != null ==>
            && helloBuf.Valid() && !helloBuf.invalid
            && Held(consumed) && helloBuf.Bytes() == consumed && base.received == [])
      && (helloBuf == null ==>
            && !Held(consumed) && base.received + Unflushed() == BufferedImage(frag, consumed))
    }

    constructor (base: Sink, frag: seq<byte> -> int)
      requires base.received == []
      ensures Valid() && consumed == [] && this.base == base && this.frag == frag && fresh(Repr() - {base})
    {
      this.base, this.frag := base, frag;
      helloBuf := new HelloBuffer();
      done, record, off, end, consumed := false, null, 0, 0, [];
    }

    /** Hands the collected bytes over for flushing, as they are. */
    method CopyHelloBufToRecord()
      requires helloBuf != null && helloBuf.Valid()
      modifies this`record, this`off, this`end, this`helloBuf
      ensures record == old(helloBuf.data) && helloBuf == null && off <= end <= record.Length
      ensures Unflushed() == old(helloBuf.Bytes())
    {
      record, off, end := helloBuf.data, 0, helloBuf.len;
      helloBuf := null;
    }

    /** Hands the collected record over for flushing, split where `frag` says. */
    method SplitHelloBufToRecord()
      requires helloBuf != null && helloBuf.Valid() && !helloBuf.invalid
      requires HEADER_LEN <= helloBuf.len == helloBuf.data.Length - HEADER_LEN
      modifies this`record, this`off, this`end, this`helloBuf, helloBuf.data
      ensures record == old(helloBuf.data) && helloBuf == null && off <= end <= record.Length
      ensures Unflushed() == BufferedImage(frag, old(helloBuf.Bytes()))
    {
      var data, len := helloBuf.data, helloBuf.len;
      var head := frag(data[HEADER_LEN..len]);
      RecordImage(data[..HEADER_LEN], data[HEADER_LEN..len], data[..len]);
      if head <= 0 || head >= len - HEADER_LEN {
        CopyHelloBufToRecord();
        return;
      }
      hide BufferedImage, SplitContent;
      SplitInPlace(data, len, head);
      record, off, end := data, 0, len + HEADER_LEN;
      helloBuf := null;
      assert record[0..end] == record[..];
    }

    lemma {:induction false} RecordImage(h: Header, content: seq<byte>, s: seq<byte>)
      requires ValidHeader(h) && |content| == PayloadLen(h) && s == h + content
      ensures !Held(s) && BufferedImage(frag, s) == SplitContent(h, content, frag(content))
      ensures !(0 < frag(content) < |content|) ==> BufferedImage(frag, s) == s
    {
      assert s[..HEADER_LEN] == h && s[HEADER_LEN..HEADER_LEN + |content|] == content;
      assert s[HEADER_LEN + |content|..] == [];
    }

    /** One write of everything unflushed. */
    method FlushRecord() returns (err: Err)
      requires Valid() && record != null
      modifies this`record, this`off, this`done, base
      ensures Valid() && helloBuf == null
      ensures err == NoErr ==> done
      ensures old(base.script) == [] ==> base.script == [] && err == NoErr
      ensures base.faults == old(base.faults) + (if err == NoErr then 0 else 1) && (err == NoErr || err == base.fault)
      ensures |base.calls| <= |old(base.calls)| + 1
    {
      hide BufferedImage, Held;
      ghost var was, rest := base.received, record[off..end];
      var n := 0;
      err := NoErr;
      if off < end {
        n, err := base.Write(record[off..end]);
      }
      off := off + n;
      assert Unflushed() == rest[n..];
      Sent(was, rest, n);
      if off == end {
        record, done := null, true;
      }
    }

    static lemma {:induction false} Sent(was: seq<byte>, rest: seq<byte>, n: nat)
      requires n <= |rest|
      ensures was + rest[..n] + rest[n..] == was + rest
    {
      assert rest == rest[..n] + rest[n..];
    }

    /** `io.Writer`.  The count covers what has been taken into the buffer, so a caller may retry the rest
        after any failure. */
    method Write(p: seq<byte>) returns (n: nat, err: Err)
      requires Valid()
      modifies Repr()
      ensures Valid() && fresh(Repr() - old(Repr())) && n <= |p| && consumed == old(consumed) + p[..n]
      ensures (n < |p| ==> err != NoErr) && (err == NoErr ==> record == null)
      ensures old(base.script) == [] ==> base.script == [] && n == |p| && err == NoErr && record == null
      ensures base.faults == old(base.faults) + (if err == NoErr then 0 else 1) && (err == NoErr || err == base.fault)
      ensures |base.calls| <= |old(base.calls)| + 2
    {
      hide BufferedImage;
      n := 0;
      assert old(consumed) + p[..0] == old(consumed);
      if !done {
        if record == null {
          var held;
          var src := new Source(p, [], Eof);
          n, held := Collect(src);
          if held {
            return n, NoErr;
          }
        }
        err := FlushRecord();
        if err != NoErr {
          return;
        }
      }
      err := NoErr;
      if n < |p| {
        var m;
        m, err := PassOn(p[n..]);
        TakeMore(old(consumed), p, n, m);
        n := n + m;
      }
    }

    /** Adds to the collected record; sets up the flush when it is complete or no record after all. */
    method Collect(src: Source) returns (n: nat, held: bool)
      requires Valid() && helloBuf != null && src.end == Eof
      modifies this, helloBuf, helloBuf.data, src
      ensures Valid() && fresh(Repr() - old(Repr()))
      ensures n <= |old(src.data)| && src.data == old(src.data)[n..] && consumed == old(consumed) + old(src.data)[..n]
      ensures if held then src.data == [] && record == null && helloBuf != null else record != null
    {
      hide BufferedImage, Held;
      var outcome;
      ghost var p := src.data;
      n, outcome := helloBuf.ReadFrom(src);
      ghost var c := helloBuf.Bytes();
      CutAt(consumed, p, c, src.data, n);
      consumed := consumed + p[..n];
      held := outcome == More;
      if outcome == FullyReceived {
        SplitHelloBufToRecord();
      } else if !held {
        InvalidImage(c);
        CopyHelloBufToRecord();
      }
      assert base.received == [] && [] + Unflushed() == Unflushed();
    }

    /** `io.ReaderFrom` over an accepting base that reads `size` bytes at a time: takes the whole source, and the
        base has the image of everything consumed, or nothing while the record is still incomplete. */
    method ReadFrom(src: Source, size: nat) returns (n: nat, err: Err)
      requires Valid() && src.end == Eof && size > 0 && base.script == []
      modifies Repr(), src
      ensures Valid() && fresh(Repr() - old(Repr())) && base.script == [] && record == null && src.data == []
      ensures consumed == old(consumed) + old(src.data) && n == |old(src.data)| && err == NoErr
      ensures base.received == BufferedImage(frag, consumed)
    {
      hide BufferedImage;
      n := 0;
      ghost var data := src.data;
      assert old(consumed) + data[..0] == old(consumed);
      if !done {
        if record == null {
          var held;
          n, held := Collect(src);
          if held {
            NothingSent();
            return n, NoErr;
          }
        }
        err := FlushRecord();
      }
      var m := CopyRest(src, size);
      TakeMore(old(consumed), data, n, m);
      n, err := n + m, NoErr;
      NothingSent();
    }

    lemma {:induction false} NothingSent()
      requires Valid() && record == null
      ensures base.received == BufferedImage(frag, consumed)
    {
      assert base.received + [] == base.received;
    }

    /** The base's own `ReadFrom`, behind the first record. */
    method CopyRest(src: Source, size: nat) returns (m: nat)
      requires Valid() && done && src.end == Eof && size > 0 && base.script == []
      modifies this`consumed, base, src
      ensures Valid() && done && base.script == [] && src.data == []
      ensures m == |old(src.data)| && consumed == old(consumed) + old(src.data)[..m]
    {
      hide BufferedImage, Held, Valid;
      m := 0;
      var err := NoErr;
      ghost var data := src.data;
      assert old(consumed) + data[..0] == old(consumed);
      while err == NoErr
        invariant Valid() && done && base.script == [] && m <= |data| && src.data == data[m..]
        invariant consumed == old(consumed) + data[..m]
        invariant err == NoErr || src.data == []
        decreases if err == NoErr then src.Left() + 1 else 0
      {
        var out;
        out, err := src.Next(size);
        var n, _ := PassOn(out);
        TakeMore(old(consumed), data, m, n);
        m := m + n;
      }
    }

    lemma {:induction false} CutAt(was: seq<byte>, p: seq<byte>, now: seq<byte>, rest: seq<byte>, n: nat)
      requires was + p == now + rest && |rest| + n == |p|
      ensures now == was + p[..n] && rest == p[n..]
    {
      assert (was + p)[..|was| + n] == was + p[..n];
      assert (now + rest)[..|now|] == now;
    }

    lemma {:induction false} InvalidImage(s: seq<byte>)
      requires |s| == HEADER_LEN && !ValidHeader(s)
      ensures BufferedImage(frag, s) == s
    {
      assert s[..HEADER_LEN] == s;
    }

    /** Everything behind the first record goes straight to the base. */
    method PassOn(p: seq<byte>) returns (m: nat, err: Err)
      requires Valid() && done
      modifies this`consumed, base
      ensures Valid() && done && m <= |p| && consumed == old(consumed) + p[..m]
      ensures m < |p| ==> err != NoErr
      ensures old(base.script) == [] ==> base.script == [] && m == |p| && err == NoErr
      ensures base.faults == old(base.faults) + (if err == NoErr then 0 else 1) && (err == NoErr || err == base.fault)
      ensures |base.calls| == |old(base.calls)| + 1
    {
      hide BufferedImage, Held;
      ghost var was := base.received;
      m, err := base.Write(p);
      BufferedExtends(frag, consumed, p[..m]);
      consumed := consumed + p[..m];
      assert was + [] == was && base.received + [] == base.received;
    }
  }

  /** A caller that retries from what was not taken, over a base that may fail at any moment: nothing is
      lost or sent twice, whatever number of attempts it makes. */
  method SendWithRetries(w: HelloWriter, p: seq<byte>, attempts: nat) returns (rest: seq<byte>)
    requires w.Valid()
    modifies w.Repr()
    ensures w.Valid() && w.consumed + rest == old(w.consumed) + p
    ensures old(w.base.script) == [] && attempts > 0 ==> rest == []
  {
    hide HelloWriter.Valid;
    rest := p;
    for i := 0 to attempts
      invariant w.Valid() && fresh(w.Repr() - old(w.Repr())) && w.consumed + rest == old(w.consumed) + p
      invariant old(w.base.script) == [] ==> w.base.script == [] && (i > 0 ==> rest == [])
    {
      var n, _ := w.Write(rest);
      Assoc(w.consumed[..|w.consumed| - n], rest[..n], rest[n..]);
      assert rest[..n] + rest[n..] == rest;
      rest := rest[n..];
    }
  }

  /** One call over an accepting base: a `Write`, or a `ReadFrom` of a source that ends with `io.EOF`, in pieces of
      `size` bytes at most. */
  datatype Call = Bytes(p: seq<byte>) | Pull(data: seq<byte>, script: seq<Move>, size: nat)
  {
    function Input(): (s: seq<byte>) {
      if Bytes? then p else data
    }

    predicate Ok() {
      Pull? ==> size > 0
    }
  }

  function Inputs(calls: seq<Call>): (s: seq<byte>) {
    if calls == [] then [] else Inputs(calls[..|calls| - 1]) + calls[|calls| - 1].Input()
  }

  method Perform(w: HelloWriter, call: Call)
    requires w.Valid() && w.base.script == [] && w.record == null && call.Ok()
    modifies w.Repr()
    ensures w.Valid() && w.base.script == [] && w.record == null && fresh(w.Repr() - old(w.Repr()))
    ensures w.consumed == old(w.consumed) + call.Input()
  {
    hide HelloWriter.Valid;
    match call {
      case Bytes(p) =>
        var n, _ := w.Write(p);
        assert p[..n] == p;
      case Pull(data, script, size) =>
        var src := new Source(data, script, Eof);
        var _, _ := w.ReadFrom(src, size);
    }
  }

  /** Any list of calls over an accepting base, which then has the image of the input. */
  method Run(base: Sink, frag: seq<byte> -> int, calls: seq<Call>) returns (w: HelloWriter)
    requires base.received == [] && base.script == [] && forall i :: 0 <= i < |calls| ==> calls[i].Ok()
    modifies base
    ensures w.base == base && w.Valid() && w.consumed == Inputs(calls)
    ensures base.received == BufferedImage(frag, Inputs(calls))
  {
    w := new HelloWriter(base, frag);
    hide HelloWriter.Valid, BufferedImage;
    for i := 0 to |calls|
      invariant w.Valid() && w.base == base && w.frag == frag && base.script == [] && w.record == null
      invariant fresh(w.Repr() - {base}) && w.consumed == Inputs(calls[..i])
    {
      assert calls[..i + 1][..i] == calls[..i];
      Perform(w, calls[i]);
    }
    assert calls[..|calls|] == calls;
    SentSoFar(w);
  }

  /** The same in bytes.  A stream that does not start like a handshake record passes as it is, from its fifth byte
      on; otherwise nothing passes until the record is complete, and then it passes, split where `frag` says,
      with all that follows it. */
  method RunInBytes(base: Sink, frag: seq<byte> -> int, calls: seq<Call>) returns (w: HelloWriter)
    requires base.received == [] && base.script == [] && forall i :: 0 <= i < |calls| ==> calls[i].Ok()
    modifies base
    ensures var s := Inputs(calls);
            if |s| < 5 then base.received == [] else
            var len := 256 * s[3] as int + s[4] as int;
            if s[0] != 22 || s[1] != 3 || s[2] < 1 || s[2] > 4 || len == 0 || len > 16384 then base.received == s
            else if |s| < 5 + len then base.received == []
            else var content := s[5..5 + len];
                 var a := frag(content);
                 base.received ==
                 if a <= 0 || a >= len then s
                 else [22, 3, s[2], a / 256, a % 256] + content[..a]
                      + [22, 3, s[2], (len - a) / 256, (len - a) % 256] + content[a..] + s[5 + len..]
  {
    hide BufferedImage, Inputs, Held, HelloWriter.Valid;
    w := Run(base, frag, calls);
    var s := Inputs(calls);
    HeldImage(frag, s);
    if |s| >= 5 {
      BufferedBytes(frag, s);
    }
  }

  lemma {:induction false} HeldImage(frag: seq<byte> -> int, s: seq<byte>)
    ensures Held(s) ==> BufferedImage(frag, s) == []
    ensures |s| < 5 ==> Held(s)
  {
  }

  lemma {:induction false} SentSoFar(w: HelloWriter)
    requires w.Valid() && w.record == null
    ensures w.base.received == BufferedImage(w.frag, w.consumed)
  {
    assert w.base.received + [] == w.base.received;
  }

  /** With a split point that depends on the length only, the two fragmenters agree: whatever the base has
      done, this one has sent a prefix of the other's output on the same input, and all of it exactly when
      nothing is held back or waiting. */
  lemma {:induction false} BehindStreaming(w: HelloWriter, frag: nat -> int)
    requires w.Valid() && w.frag == ((content: seq<byte>) => frag(|content|))
    ensures w.base.received <= Image(frag, w.consumed)
    ensures w.base.received == Image(frag, w.consumed) <==>
            w.Unflushed() == [] && (|w.consumed| < HEADER_LEN || !Held(w.consumed))
  {
    BufferedBehindStreaming(frag, w.consumed);
    assert w.base.received + [] == w.base.received;
  }
}
