/** The decrypting reader: chunks are read into a pooled buffer, messages in place and handed out piecemeal. */
module ShadowsocksReader {
  import opened Io
  import opened ShadowsocksWire
  import opened SlicePool
  import ShadowsocksWriter

  class ChunkReader {
    const key: Key
    const src: Source
    const counter: array<byte>
    const sizeBuf: array<byte>
    const payload: LazySlice
    var ready: bool
    /** The salt the AEAD was derived from, once `ready`. */
    var salt: seq<byte>
    /** How many messages have been opened, or have failed to open. */
    ghost var messages: nat

    ghost predicate Valid()
      reads this, counter, payload, payload.pool
    {
      && payload.Valid() && payload.pool.len == PAYLOAD_SIZE_MASK + MAX_TAG_SIZE
      && counter != sizeBuf && counter !in payload.Buffers() && sizeBuf !in payload.Buffers()
      && counter.Length == NONCE_SIZE && sizeBuf.Length == 2 + key.overhead
      && counter[..] == Nonce(messages)
      && (!ready ==> messages == 0)
    }

    /** The stream is at a frame boundary: no failed message has thrown the counter out of step. */
    ghost predicate InStep()
      reads this
    {
      messages % 2 == 0
    }

    /** What is still to come, according to the reference decoder. */
    ghost function Rest(): (d: Decoded)
      reads this, src
    {
      if ready then DecodeFrames(key, salt, messages / 2, src.data, src.end) else DecodeStream(key, src.data, src.end)
    }

    ghost function Repr(): (s: set<object>)
      reads this, payload, payload.pool
    {
      {this, src, counter, sizeBuf, payload, payload.pool} + payload.Buffers()
    }

    constructor (key: Key, src: Source, pool: Pool)
      requires pool.Valid() && pool.len == PAYLOAD_SIZE_MASK + MAX_TAG_SIZE
      ensures Valid() && InStep() && !ready && fresh(Repr() - {src, pool} - pool.free) && payload.slice == null
      ensures this.key == key && this.src == src && payload.pool == pool
      ensures Rest() == DecodeStream(key, src.data, src.end)
    {
      this.key, this.src := key, src;
      counter := new byte[NONCE_SIZE](_ => 0);
      sizeBuf := new byte[2 + key.overhead];
      payload := new LazySlice(pool);
      ready, salt, messages := false, [], 0;
      new;
      LittleEndianZero(NONCE_SIZE);
      assert counter[..] == Nonce(0);
    }

    /** Reads the salt, once. */
    method Init() returns (err: Err)
      requires Valid()
      modifies this`ready, this`salt, src
      ensures Valid() && messages == old(messages)
      ensures if err == NoErr then ready && Rest() == old(Rest())
              else !old(ready) && !ready && src.data == [] && old(Rest()) == Decoded([], err)
      ensures old(ready) ==> err == NoErr && src.data == old(src.data)
      ensures src.end != ShortBuffer ==> err != ShortBuffer
      ensures |src.data| <= |old(src.data)|
    {
      if ready {
        return NoErr;
      }
      hide DecodeFrames, DecodeStream, LittleEndian, Nonce;
      StreamUnfolds();
      var buf := new byte[key.saltSize];
      var n;
      n, err := src.ReadFull(buf, 0, key.saltSize);
      if err == NoErr {
        assert buf[..] == buf[0..0 + n];
        salt, ready := buf[..], true;
      }
    }

    lemma {:induction false} StreamUnfolds()
      ensures var data, n := src.data, key.saltSize;
              DecodeStream(key, data, src.end) ==
              if |data| < n then Decoded([], FullErr(|data|, n, src.end))
              else DecodeFrames(key, data[..n], 0, data[n..], src.end)
    {
    }

    /** Reads one sealed message into `buf[..n]` and opens it in place. */
    method ReadMessage(buf: array<byte>, n: nat) returns (err: Err)
      requires buf != counter && key.overhead <= n <= buf.Length && ready && counter[..] == Nonce(messages)
      modifies this`messages, src, counter, buf
      ensures counter[..] == Nonce(messages)
      ensures var data := old(src.data);
              if |data| < n then messages == old(messages) && src.data == [] && err == FullErr(|data|, n, src.end)
              else messages == old(messages) + 1 && src.data == data[n..]
                   && match Opened(key, salt, old(messages), data[..n])
                      case None => err == BadTag
                      case Some(plain) => err == NoErr && buf[..n - key.overhead] == plain
      // Nothing that does not open is handed out.
      ensures var data := old(src.data);
              |data| >= n ==>
                var r := key.open(salt, Nonce(old(messages)), data[..n]);
                if Refuses(r, n - key.overhead) then err == BadTag
                else err == NoErr && buf[..n - key.overhead] == r.value
    {
      hide LittleEndian;
      var m;
      m, err := src.ReadFull(buf, 0, n);
      assert counter[..] == old(counter[..]);
      if err != NoErr {
        return;
      }
      var plain := key.open(salt, counter[..], buf[..n]);
      assert buf[..n] == old(src.data)[..n];
      ShadowsocksWriter.Increment(counter);
      IncrementedLittleEndian(messages, NONCE_SIZE);
      messages := messages + 1;
      if plain == None || |plain.value| + key.overhead != n {
        return BadTag;
      }
      forall i | 0 <= i < n - key.overhead {
        buf[i] := plain.value[i];
      }
      assert buf[..n - key.overhead] == plain.value && counter[..] == Nonce(messages);
    }

    /** Gives the previous chunk's buffer back. */
    method Recycle()
      requires Valid()
      modifies payload, payload.pool
      ensures Valid() && payload.slice == null && Repr() == old(Repr())
    {
      hide Nonce;
      payload.Release();
    }

    /** The first half of a chunk: its sealed size. */
    method ReadSize() returns (size: nat, err: Err)
      requires Valid() && ready
      modifies this`messages, src, counter, sizeBuf
      ensures Valid() && size <= PAYLOAD_SIZE_MASK
      ensures var data, n := old(src.data), 2 + key.overhead;
              if |data| < n then messages == old(messages) && src.data == [] && err == FullErr(|data|, n, src.end)
              else messages == old(messages) + 1 && src.data == data[n..]
                   && match Opened(key, salt, old(messages), data[..n])
                      case None => err == BadTag
                      case Some(header) => err == NoErr && size + key.overhead == SizeWithTag(key, header)
    {
      hide Opened, Nonce;
      size := 0;
      err := ReadMessage(sizeBuf, 2 + key.overhead);
      if err == NoErr {
        size := FromBigEndian16(sizeBuf[..2]) % (PAYLOAD_SIZE_MASK + 1);
      }
    }

    /** The second half: its sealed payload, opened in a pooled buffer. */
    method ReadPayload(size: nat) returns (err: Err)
      requires Valid() && ready && payload.slice == null
      modifies Repr()
      ensures Valid() && fresh(Repr() - old(Repr())) && ready && salt == old(salt)
      ensures err == NoErr ==> payload.slice != null && size <= payload.slice.Length
      ensures var data, m := old(src.data), size + key.overhead;
              if PAYLOAD_SIZE_MASK + MAX_TAG_SIZE < m
              then messages == old(messages) && src.data == data && err == ShortBuffer
              else if |data| < m
              then messages == old(messages) && src.data == []
                   && err == if src.end == Eof then UnexpectedEof else src.end
              else messages == old(messages) + 1 && src.data == data[m..]
                   && match Opened(key, salt, old(messages), data[..m])
                      case None => err == BadTag
                      case Some(plain) => err == NoErr && payload.slice != null && payload.slice[..size] == plain
    {
      hide Opened, Nonce;
      var m := size + key.overhead;
      payload.Acquire();
      if payload.slice.Length < m {
        return ShortBuffer;
      }
      err := ReadMessage(payload.slice, m);
      if err != NoErr {
        if err == Eof {
          err := UnexpectedEof;
        }
        payload.Release();
      }
    }

    /** Reads and opens the next chunk; it is left in `payload.slice[..size]`. */
    method ReadChunk() returns (size: nat, err: Err)
      requires Valid()
      modifies Repr()
      ensures Valid() && fresh(Repr() - old(Repr()))
      ensures err == NoErr ==> payload.slice != null && size <= payload.slice.Length && |src.data| < |old(src.data)|
      ensures old(InStep()) ==>
                if err == NoErr
                then InStep() && old(Rest()) == Decoded([payload.slice[..size]] + Rest().chunks, Rest().err)
                else old(Rest()) == Decoded([], err)
      // A second call after any end of data reports the source's own end, torn frame or not.
      ensures old(ready) && old(src.data) == [] ==> err == src.end
      ensures err != NoErr && err != BadTag && err != ShortBuffer ==> src.data == []
      // For every cipher whose tag fits the pool's buffers the short-buffer branch is dead, in step or not.
      ensures key.overhead <= 16 && src.end != ShortBuffer ==> err != ShortBuffer
    {
      hide DecodeFrames, DecodeStream, Valid;
      size := 0;
      err := Init();
      if err == NoErr {
        size, err := ReadFrameInto();
      }
    }

    /** One frame: its size, then its payload, in a buffer acquired anew. */
    method ReadFrameInto() returns (size: nat, err: Err)
      requires Valid() && ready
      modifies Repr()
      ensures Valid() && ready && salt == old(salt) && fresh(Repr() - old(Repr()))
      ensures err == NoErr ==> payload.slice != null && size <= payload.slice.Length && |src.data| < |old(src.data)|
      ensures old(InStep()) ==>
                if err == NoErr
                then InStep() && old(Rest()) == Decoded([payload.slice[..size]] + Rest().chunks, Rest().err)
                else old(Rest()) == Decoded([], err)
      ensures old(src.data) == [] ==> err == src.end
      ensures err != NoErr && err != BadTag && err != ShortBuffer ==> src.data == []
      ensures key.overhead <= 16 && src.end != ShortBuffer ==> err != ShortBuffer
    {
      hide DecodeFrames, DecodeStream, Opened, Nonce, Valid, SizeWithTag;
      ReadFrameUnfolds(messages / 2, src.data);
      Recycle();
      size, err := ReadSize();
      if err == NoErr {
        err := ReadPayload(size);
      }
    }

    lemma {:induction false} ReadFrameUnfolds(k: nat, data: seq<byte>)
      ensures match ReadFrame(key, salt, k, data, src.end)
              case Stop(err) => DecodeFrames(key, salt, k, data, src.end) == Decoded([], err)
              case Chunk(payload, rest) =>
                var d := DecodeFrames(key, salt, k + 1, rest, src.end);
                DecodeFrames(key, salt, k, data, src.end) == Decoded([payload] + d.chunks, d.err)
    {
    }
  }

  /** A peer has sealed a chunk of no bytes, and it is next. */
  predicate NextIsEmpty(leftover: seq<byte>, chunks: seq<seq<byte>>) {
    leftover == [] && chunks != [] && chunks[0] == []
  }

  /** Hands a chunk out in pieces of any size. */
  class Reader {
    const cr: ChunkReader
    /** The buffer the unread part `[lo..hi]` of the last chunk lives in; null when nothing is left. */
    var leftover: array?<byte>
    var lo: nat
    var hi: nat

    /** A leftover lives in the buffer that is acquired right now, never in one given back to the pool. */
    ghost predicate Valid()
      reads this, cr, cr.counter, cr.payload, cr.payload.pool
    {
      && cr.Valid()
      && (leftover != null ==> leftover == cr.payload.slice && lo <= hi <= leftover.Length)
    }

    ghost function Leftover(): (s: seq<byte>)
      requires Valid()
      reads this, cr, cr.counter, cr.payload, cr.payload.pool, leftover
    {
      if leftover == null then [] else leftover[lo..hi]
    }

    /** Every plaintext byte that is still to be delivered. */
    ghost function Stream(): (s: seq<byte>)
      requires Valid()
      reads this, cr, cr.counter, cr.payload, cr.payload.pool, leftover, cr.src
    {
      Leftover() + Flatten(cr.Rest().chunks)
    }

    constructor (key: Key, src: Source, pool: Pool)
      requires pool.Valid() && pool.len == PAYLOAD_SIZE_MASK + MAX_TAG_SIZE
      ensures Valid() && cr.InStep() && fresh(cr.Repr() - {src, pool} - pool.free)
      ensures cr.src == src && cr.payload.pool == pool
      ensures Stream() == Flatten(DecodeStream(key, src.data, src.end).chunks) && Leftover() == []
      ensures cr.Rest() == DecodeStream(key, src.data, src.end)
    {
      cr := new ChunkReader(key, src, pool);
      leftover, lo, hi := null, 0, 0;
    }

    /** Makes sure something is left to read, unless the stream ends here.  A peer that seals an empty chunk
        gets the one exception: the call succeeds with nothing left. */
    method EnsureLeftover() returns (err: Err)
      requires Valid()
      modifies this, cr.Repr()
      ensures Valid() && fresh(cr.Repr() - old(cr.Repr()))
      ensures old(Leftover()) != [] ==> err == NoErr && unchanged(this) && cr.src.data == old(cr.src.data)
      ensures err == NoErr && old(Leftover()) == [] ==> |cr.src.data| < |old(cr.src.data)|
      ensures err != NoErr ==> leftover == null
      ensures old(cr.InStep()) ==>
                if err == NoErr
                then && cr.InStep() && Stream() == old(Stream()) && cr.Rest().err == old(cr.Rest().err)
                     && (Leftover() == [] <==> NextIsEmpty(old(Leftover()), old(cr.Rest().chunks)))
                else old(Stream()) == [] && old(cr.Rest()) == Decoded([], err)
    {
      hide DecodeFrames, DecodeStream, LittleEndian, Nonce, ChunkReader.Valid;
      if leftover != null && lo < hi {
        assert leftover[lo..hi][0] == leftover[lo];
        return NoErr;
      }
      leftover := null;
      ghost var rest := cr.Rest();
      var size;
      size, err := cr.ReadChunk();
      if err == NoErr {
        leftover, lo, hi := cr.payload.slice, 0, size;
      }
    }

    /** Drops the first `n` bytes of the leftover. */
    method Take(n: nat) returns (out: seq<byte>)
      requires Valid() && n <= |Leftover()|
      modifies this`lo
      ensures Valid() && out == old(Leftover())[..n] && old(Stream()) == out + Stream()
      ensures Leftover() == old(Leftover())[n..]
    {
      hide DecodeFrames, DecodeStream, LittleEndian, Nonce, Flatten, ChunkReader.Valid;
      if leftover == null {
        return [];
      }
      out := leftover[lo..lo + n];
      lo := lo + n;
      assert old(Leftover()) == out + Leftover();
      Assoc(out, Leftover(), Flatten(cr.Rest().chunks));
    }

    method Read(cap: nat) returns (out: seq<byte>, err: Err)
      requires Valid()
      modifies this, cr.Repr()
      ensures Valid() && fresh(cr.Repr() - old(cr.Repr())) && |out| <= cap
      ensures err != NoErr ==> out == [] && leftover == null
      ensures old(cr.InStep()) ==>
                if err == NoErr
                then && cr.InStep() && old(Stream()) == out + Stream() && cr.Rest().err == old(cr.Rest().err)
                     && (out == [] <==> cap == 0 || NextIsEmpty(old(Leftover()), old(cr.Rest().chunks)))
                else old(Stream()) == [] && old(cr.Rest()) == Decoded([], err)
    {
      hide DecodeFrames, DecodeStream, LittleEndian, Nonce, Flatten, ChunkReader.Valid;
      out := [];
      err := EnsureLeftover();
      if err == NoErr {
        out := Take(if leftover == null then 0 else Min(cap, hi - lo));
      }
    }

    /** One `Write` of the leftover to `w`; what `w` did not take stays. */
    method Deliver(w: Sink) returns (n: nat, err: Err, ghost taken: seq<byte>)
      requires Valid()
      modifies this`lo, w
      ensures Valid() && old(Stream()) == taken + Stream() && |taken| == n
      ensures w.received == old(w.received) + taken
      ensures w.faults == old(w.faults) + (if err == NoErr then 0 else 1)
      ensures if err == NoErr then Leftover() == [] else err == w.fault
    {
      hide DecodeFrames, DecodeStream, LittleEndian, Nonce, Flatten, ChunkReader.Valid, Stream;
      var p := if leftover == null then [] else leftover[lo..hi];
      n, err := w.Write(p);
      taken := Take(n);
    }

    /** `io.WriterTo`: delivers everything, or stops at the first failure of `w`, keeping what `w` left. */
    method WriteTo(w: Sink) returns (written: nat, err: Err, ghost delivered: seq<byte>, ghost stopped: bool)
      requires Valid()
      modifies this, cr.Repr(), w
      ensures Valid() && fresh(cr.Repr() - old(cr.Repr()))
      ensures w.received == old(w.received) + delivered && |delivered| == written
      ensures w.faults == old(w.faults) + (if stopped then 1 else 0) && (stopped ==> err == w.fault)
      ensures old(cr.InStep()) && stopped ==>
                cr.InStep() && old(Stream()) == delivered + Stream() && cr.Rest().err == old(cr.Rest().err)
      ensures old(cr.InStep()) && !stopped ==>
                old(Stream()) == delivered && err == if old(cr.Rest().err) == Eof then NoErr else old(cr.Rest().err)
    {
      hide Valid, Stream, Leftover, ChunkReader.Valid, ChunkReader.Rest, ChunkReader.InStep;
      written, delivered, stopped := 0, [], false;
      while true
        invariant Valid() && fresh(cr.Repr() - old(cr.Repr()))
        invariant !stopped && w.faults == old(w.faults)
        invariant w.received == old(w.received) + delivered && |delivered| == written
        invariant old(cr.InStep()) ==>
                    && cr.InStep() && old(Stream()) == delivered + Stream()
                    && cr.Rest().err == old(cr.Rest().err)
        decreases |cr.src.data|, |Leftover()|
      {
        var n, ended;
        ghost var taken;
        n, err, ended, taken := Forward(w);
        if ended {
          if err == Eof {
            err := NoErr;
          }
          return;
        }
        Assoc(delivered, taken, Stream());
        Assoc(old(w.received), delivered, taken);
        written, delivered, stopped := written + n, delivered + taken, err != NoErr;
        if err != NoErr {
          return;
        }
      }
    }

    /** One round of `WriteTo`, unless the stream has ended. */
    method Forward(w: Sink) returns (n: nat, err: Err, ended: bool, ghost taken: seq<byte>)
      requires Valid()
      modifies this, cr.Repr(), w
      ensures Valid() && fresh(cr.Repr() - old(cr.Repr()))
      ensures w.received == old(w.received) + taken && |taken| == n
      ensures ended ==> err != NoErr && n == 0 && w.faults == old(w.faults)
      ensures !ended ==> w.faults == old(w.faults) + (if err == NoErr then 0 else 1) && (err == NoErr || err == w.fault)
      ensures !ended && err == NoErr ==>
                |cr.src.data| < |old(cr.src.data)|
                || (cr.src.data == old(cr.src.data) && |Leftover()| < |old(Leftover())|)
      ensures old(cr.InStep()) ==>
                if ended then old(Stream()) == [] && err == old(cr.Rest().err)
                else cr.InStep() && old(Stream()) == taken + Stream() && cr.Rest().err == old(cr.Rest().err)
    {
      hide Valid, Stream, Leftover, ChunkReader.Valid, ChunkReader.Rest, ChunkReader.InStep;
      n, taken := 0, [];
      err := EnsureLeftover();
      ended := err != NoErr;
      if !ended {
        n, err, taken := Deliver(w);
      }
    }
  }

  // ---------------------------------------------------------------- an empty chunk

  /** What a peer sends that seals a chunk of no bytes. */
  function EmptyChunkWire(key: Key, salt: seq<byte>): (s: seq<byte>) {
    salt + (key.seal(salt, Nonce(0), [0, 0]) + key.seal(salt, Nonce(1), []))
  }

  lemma {:induction false} EmptyChunkDecodes(key: Key, salt: seq<byte>)
    requires Lawful(key) && |salt| == key.saltSize && key.overhead <= 16
    ensures DecodeStream(key, EmptyChunkWire(key, salt), Eof) == Decoded([[]], Eof)
  {
    hide LittleEndian;
    var header, payload := key.seal(salt, Nonce(0), [0, 0]), key.seal(salt, Nonce(1), []);
    var data := header + payload;
    DecodeAfterSalt(key, salt, data, Eof);
    assert data[..2 + key.overhead] == header && data[2 + key.overhead..] == payload;
    assert payload[..key.overhead] == payload && payload[key.overhead..] == [];
    assert ReadFrame(key, salt, 0, data, Eof) == Chunk([], []);
    assert ReadFrame(key, salt, 1, [], Eof) == Stop(Eof);
  }

  /** A reader with room for five bytes that is given an empty chunk: it returns no byte and no error. */
  method EmptyChunkRead(key: Key, salt: seq<byte>) returns (out: seq<byte>, err: Err)
    requires Lawful(key) && |salt| == key.saltSize && key.overhead <= 16
    ensures out == [] && err == NoErr
  {
    EmptyChunkDecodes(key, salt);
    hide DecodeFrames, DecodeStream, EmptyChunkWire, LittleEndian, Flatten;
    hide Reader.Valid, Reader.Stream, Reader.Leftover, ChunkReader.Rest, ChunkReader.Repr;
    var pool := new Pool(PAYLOAD_SIZE_MASK + MAX_TAG_SIZE);
    var src := new Source(EmptyChunkWire(key, salt), [], Eof);
    var r := new Reader(key, src, pool);
    out, err := r.Read(5);
  }

  // ---------------------------------------------------------------- whole runs

  /** One call on a reader: a `Read` into `cap` bytes, or a `WriteTo` some writer. */
  datatype Call = ReadUpTo(cap: nat) | CopyTo(script: seq<Move>, fault: EndErr)

  method Perform(r: Reader, call: Call) returns (out: seq<byte>, err: Err)
    requires r.Valid() && r.cr.InStep()
    modifies r, r.cr.Repr()
    ensures r.Valid() && fresh(r.cr.Repr() - old(r.cr.Repr()))
    ensures if err == NoErr
            then r.cr.InStep() && old(r.Stream()) == out + r.Stream() && r.cr.Rest().err == old(r.cr.Rest().err)
            else old(r.Stream()) == out && err == old(r.cr.Rest().err)
  {
    hide Reader.Valid, Reader.Stream, Reader.Leftover, ChunkReader.Valid, DecodeFrames, DecodeStream;
    match call
    case ReadUpTo(cap) =>
      out, err := r.Read(cap);
    case CopyTo(script, fault) =>
      var w := new Sink(script, fault);
      var n;
      ghost var delivered, stopped;
      n, err, delivered, stopped := r.WriteTo(w);
      out := w.received;
      // `WriteTo` reports the clean end as success and a failing `w` as an error: tell them apart.
      err := if w.faults > 0 then NoErr else if err == NoErr then Eof else err;
  }

  /** Any mix of calls, up to the first that reports the end of the stream as `err`: what is delivered and
      what is still to come is the stream, and at the end everything has been delivered. */
  method Drain(r: Reader, calls: seq<Call>) returns (got: seq<byte>, err: Err)
    requires r.Valid() && r.cr.InStep()
    modifies r, r.cr.Repr()
    ensures r.Valid() && fresh(r.cr.Repr() - old(r.cr.Repr()))
    ensures err == NoErr ==> r.cr.InStep() && old(r.Stream()) == got + r.Stream()
    ensures err != NoErr ==> old(r.Stream()) == got && err == old(r.cr.Rest().err)
  {
    hide Reader.Valid, Reader.Stream, Reader.Leftover, ChunkReader.Valid, ChunkReader.Rest;
    got, err := [], NoErr;
    for i := 0 to |calls|
      invariant r.Valid() && r.cr.InStep() && fresh(r.cr.Repr() - old(r.cr.Repr()))
      invariant err == NoErr && old(r.Stream()) == got + r.Stream() && r.cr.Rest().err == old(r.cr.Rest().err)
    {
      var out;
      out, err := Perform(r, calls[i]);
      Assoc(got, out, r.Stream());
      got := got + out;
      if err != NoErr {
        return;
      }
    }
  }

  /** End to end, for every run of a writer within one counter period, every cut of what it sent, every
      fragmentation of the reads, and every mix of calls on the reader: what is delivered is a prefix of
      the chunks wholly before the cut, and when the end is reported it is all of them, with the end
      reported as clean exactly on a boundary. */
  method ReadBackCut(w: ShadowsocksWriter.Writer, cut: nat, script: seq<Move>, end: EndErr, calls: seq<Call>)
    returns (got: seq<byte>, err: Err)
    requires w.Inv() && w.sink.faults == 0 && w.key.overhead <= 16
    requires 0 < |w.sent| <= FRAME_PERIOD && cut <= |w.sink.received|
    ensures var d := CutResult(w.key, w.salt, w.sent, cut, end);
            if err == NoErr then got <= Flatten(d.chunks) else got == Flatten(d.chunks) && err == d.err
  {
    hide Reader.Valid, Reader.Leftover, ChunkReader.Valid, DecodeFrames, DecodeStream, Wire, CutResult;
    DecodeCutWire(w.key, w.salt, w.sent, cut, end);
    var pool := new Pool(PAYLOAD_SIZE_MASK + MAX_TAG_SIZE);
    var src := new Source(w.sink.received[..cut], script, end);
    var r := new Reader(w.key, src, pool);
    got, err := Drain(r, calls);
  }

  /** The same for a stream in which, behind any number of good frames, a message does not open, whatever comes
      after it: every chunk in front of it is delivered, nothing else is, and the end is reported as a bad tag. */
  method ReadBackForged(key: Key, salt: seq<byte>, chunks: seq<seq<byte>>, len: nat, data: seq<byte>,
                        wire: seq<byte>, script: seq<Move>, end: EndErr, calls: seq<Call>)
    returns (got: seq<byte>, err: Err)
    requires Lawful(key) && |salt| == key.saltSize && key.overhead <= 16 && ChunksOk(chunks)
    requires Forged(key, salt, |chunks|, len, data) && wire == salt + (Bodies(key, salt, 0, chunks) + data)
    ensures if err == NoErr then got <= Flatten(chunks) else got == Flatten(chunks) && err == BadTag
  {
    DecodeForged(key, salt, 0, chunks, len, data, end);
    DecodeAfterSalt(key, salt, Bodies(key, salt, 0, chunks) + data, end);
    hide Reader.Valid, Reader.Leftover, ChunkReader.Valid, DecodeFrames, DecodeStream, Bodies, Forged, Lawful;
    var pool := new Pool(PAYLOAD_SIZE_MASK + MAX_TAG_SIZE);
    var src := new Source(wire, script, end);
    var r := new Reader(key, src, pool);
    got, err := Drain(r, calls);
  }
}
