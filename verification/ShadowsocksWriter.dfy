/** The encrypting writer: one buffer that is filled, sealed in place and flushed, by one owning thread
    and a timer thread that may call `Flush` at any moment. */
module ShadowsocksWriter {
  import opened Io
  import opened ShadowsocksWire

  /** Adds one to a little-endian number in place. */
  method Increment(b: array<byte>)
    modifies b
    ensures b[..] == Incremented(old(b[..]))
  {
    var i := 0;
    while i < b.Length
      invariant i <= b.Length
      invariant forall j :: 0 <= j < i ==> old(b[j]) == 255 && b[j] == 0
      invariant forall j :: i <= j < b.Length ==> b[j] == old(b[j])
    {
      b[i] := (b[i] as int + 1) % 256;
      if b[i] != 0 {
        break;
      }
      i := i + 1;
    }
    CarriedTo(old(b[..]), b[..], i);
  }

  method IsZero(b: array<byte>) returns (r: bool)
    ensures r <==> AllZero(b[..])
  {
    for i := 0 to b.Length
      invariant forall j :: 0 <= j < i ==> b[j] == 0
    {
      if b[i] != 0 {
        assert b[..][i] != 0;
        return false;
      }
    }
    return true;
  }

  /** What a writer knows of its base: what the base will do, how often it has failed, how many bytes of sealed
      frames it has not taken, and how many frames it was given. */
  datatype Books = Books(script: seq<Move>, faults: nat, lost: nat, frames: nat)

  function Later(script: seq<Move>, k: nat): (r: seq<Move>) {
    if k < |script| then script[k..] else []
  }

  /** The next write will fail without taking a byte. */
  predicate NextIsLost(script: seq<Move>) {
    script != [] && script[0] == Move(0, true)
  }

  /** The next write will fail if it brings `size` bytes. */
  predicate FailsOn(script: seq<Move>, size: nat) {
    script != [] && (script[0].stop || script[0].size < size)
  }

  /** One write per frame; nothing lost is ever made up for; nothing is lost without a failure. */
  predicate Follows(was: Books, now: Books) {
    && was.frames <= now.frames && was.lost <= now.lost && was.faults <= now.faults
    && now.script == Later(was.script, now.frames - was.frames)
    && now.faults - was.faults <= now.frames - was.frames && now.faults - was.faults <= |was.script|
    && (now.faults == was.faults ==> now.lost == was.lost)
    && (now.frames > was.frames && NextIsLost(was.script) ==> now.faults > was.faults && now.lost > was.lost)
  }

  lemma {:induction false} FollowsTrans(a: Books, b: Books, c: Books)
    requires Follows(a, b) && Follows(b, c)
    ensures Follows(a, c)
  {
  }

  /** What the timer did during a shared read. */
  datatype Beside = Nothing | Flushed(failed: bool)

  /** The timer fires at one of the first `n` moments. */
  function FiresBefore(timer: nat -> bool, n: nat): (r: bool) {
    n > 0 && (FiresBefore(timer, n - 1) || timer(n - 1))
  }

  lemma {:induction false} FiresNow(timer: nat -> bool, n: nat)
    ensures FiresBefore(timer, n + 1) <==> FiresBefore(timer, n) || timer(n)
    ensures !FiresBefore(timer, 0)
  {
  }

  lemma {:induction false} NeverFires(timer: nat -> bool, n: nat)
    requires forall i :: !timer(i)
    ensures !FiresBefore(timer, n)
  {
    if n > 0 {
      NeverFires(timer, n - 1);
    }
  }

  /** How long frame `k` is with a payload of `len` bytes. */
  function FrameSize(key: Key, salt: seq<byte>, k: nat, len: nat): (n: nat) {
    (if SaltDue(k) then |salt| else 0) + 2 + key.overhead + len + key.overhead
  }

  lemma {:induction false} FrameLength(key: Key, salt: seq<byte>, k: nat, chunk: seq<byte>)
    requires Lawful(key) && ChunkOk(chunk)
    ensures |Frame(key, salt, k, chunk)| == FrameSize(key, salt, k, |chunk|) > 0
  {
    hide SaltDue;
  }

  /** Each write was one frame, of which the base took all or a beginning. */
  ghost predicate Framed(key: Key, salt: seq<byte>, calls: seq<seq<byte>>, sent: seq<seq<byte>>)
    requires Lawful(key) && ChunksOk(sent)
  {
    && |calls| == |sent|
    && (sent != [] ==>
          var n := |sent| - 1;
          Framed(key, salt, calls[..n], sent[..n]) && calls[n] <= Frame(key, salt, n, sent[n]))
  }

  lemma {:induction false} FramedSnoc(key: Key, salt: seq<byte>, calls: seq<seq<byte>>, sent: seq<seq<byte>>,
                                      taken: seq<byte>, chunk: seq<byte>)
    requires Lawful(key) && ChunksOk(sent) && ChunkOk(chunk)
    ensures ChunksOk(sent + [chunk])
    ensures Framed(key, salt, calls, sent) && taken <= Frame(key, salt, |sent|, chunk) ==>
              Framed(key, salt, calls + [taken], sent + [chunk])
  {
    hide Frame;
    assert (calls + [taken])[..|calls|] == calls && (sent + [chunk])[..|sent|] == sent;
  }

  /** `n` bytes of a source have become plaintext of the writer. */
  predicate Moved(plain: seq<byte>, data: seq<byte>, plain': seq<byte>, data': seq<byte>, n: nat) {
    n <= |data| && data' == data[n..] && plain' == plain + data[..n]
  }

  lemma {:induction false} MovedData(plain: seq<byte>, data: seq<byte>, plain': seq<byte>, data': seq<byte>, n: nat)
    requires Moved(plain, data, plain', data', n)
    ensures n <= |data| && data' == data[n..]
  {
  }

  lemma {:induction false} MovedNothing(plain: seq<byte>, data: seq<byte>)
    ensures Moved(plain, data, plain, data, 0)
  {
  }

  lemma {:induction false} MovedOn(p0: seq<byte>, d0: seq<byte>, p1: seq<byte>, d1: seq<byte>,
                                   p2: seq<byte>, d2: seq<byte>, m: nat, n: nat)
    requires Moved(p0, d0, p1, d1, m) && Moved(p1, d1, p2, d2, n)
    ensures Moved(p0, d0, p2, d2, m + n)
  {
    TakeMore(p0, d0, m, n);
    DropMore(d0, m, n);
  }

  /** No bytes make no frame. */
  function Kept(x: seq<byte>): (r: seq<seq<byte>>) {
    if x == [] then [] else [x]
  }

  /** What a reader hands out, read after read, to a buffer of 16383 bytes. */
  function Pieces(script: seq<Move>, data: seq<byte>): (r: seq<seq<byte>>)
    decreases |script| + |data|
  {
    var n := NextSize(script, 0x3FFF, |data|);
    Kept(data[..n]) + if EndSeen(script, n, |data|) then [] else Pieces(Tail(script), data[n..])
  }

  lemma {:induction false} PiecesUnfold(script: seq<Move>, data: seq<byte>)
    ensures var n := NextSize(script, 0x3FFF, |data|);
            Pieces(script, data) ==
            Kept(data[..n]) + if EndSeen(script, n, |data|) then [] else Pieces(Tail(script), data[n..])
  {
  }

  /** What the shared read makes of the plaintext held back and that read. */
  function FirstPieces(unsent: seq<byte>, read: seq<byte>, flushed: bool): (r: seq<seq<byte>>) {
    if flushed then [unsent] + Kept(read) else Kept(unsent + read)
  }

  lemma {:induction false} SealedFirst(was: seq<seq<byte>>, unsent: seq<byte>, read: seq<byte>, flushed: bool,
                                       mid: seq<seq<byte>>, last: seq<byte>)
    requires mid == if flushed then was + [unsent] else was
    requires last == (if flushed then [] else unsent) + read
    ensures mid + Kept(last) == was + FirstPieces(unsent, read, flushed)
  {
    assert flushed ==> last == read;
  }

  /** Every piece is full, but for the last. */
  predicate AllFull(pieces: seq<seq<byte>>) {
    forall i :: 0 <= i < |pieces| - 1 ==> |pieces[i]| == 0x3FFF
  }

  lemma {:induction false} AllFullBehind(sent: seq<seq<byte>>, pieces: seq<seq<byte>>)
    requires AllFull(pieces)
    ensures var s := sent + pieces; forall i :: |sent| <= i < |s| - 1 ==> |s[i]| == 0x3FFF
  {
    var s := sent + pieces;
    forall i | |sent| <= i < |s| - 1
      ensures |s[i]| == 0x3FFF
    {
      assert s[i] == pieces[i - |sent|];
    }
  }

  lemma {:induction false} PiecesFull(p: seq<byte>)
    ensures AllFull(Pieces([], p)) && (p == [] ==> Pieces([], p) == [])
    decreases |p|
  {
    if p != [] {
      var n := NextSize([], 0x3FFF, |p|);
      PiecesFull(p[n..]);
      PiecesUnfold([], p);
    }
  }

  lemma {:induction false} FirstPiecesFull(unsent: seq<byte>, p: seq<byte>)
    requires |unsent| <= 0x3FFF
    ensures var n := NextSize([], 0x3FFF - |unsent|, |p|);
            AllFull(FirstPieces(unsent, p[..n], false) + Pieces([], p[n..]))
  {
    var n := NextSize([], 0x3FFF - |unsent|, |p|);
    PiecesFull(p[n..]);
  }

  class Writer {
    const key: Key
    const salt: seq<byte>
    const sink: Sink
    /** Salt, sealed length, sealed payload; allocated here up front, filled in by `Init`. */
    const buf: array<byte>
    const counter: array<byte>
    var ready: bool
    var needFlush: bool
    var pending: nat
    /** The chunks sealed so far. */
    ghost var sent: seq<seq<byte>>
    /** How many bytes of their frames the base has not taken. */
    ghost var lost: nat

    /** Where the payload goes in `buf`. */
    function PayloadStart(): (n: nat) {
      |salt| + 2 + key.overhead
    }

    ghost predicate Inv()
      reads this, sink, buf, counter
    {
      && Lawful(key) && |salt| == key.saltSize && buf != counter
      && buf.Length == PayloadStart() + PAYLOAD_SIZE_MASK + key.overhead
      && counter.Length == NONCE_SIZE
      && ChunksOk(sent)
      && pending <= PAYLOAD_SIZE_MASK
      && counter[..] == Nonce(2 * |sent|)
      && (ready ==> buf[..|salt|] == salt)
      && (!ready ==> sent == [] && pending == 0 && !needFlush)
      && (sink.faults == 0 ==> sink.received == Wire(key, salt, sent))
      && |sink.received| + lost == |Wire(key, salt, sent)|
      && Framed(key, salt, sink.calls, sent)
    }

    ghost function Accounts(): (b: Books)
      reads this, sink
    {
      Books(sink.script, sink.faults, lost, |sent|)
    }

    /** Between calls plaintext is only ever held back for a flush that is allowed to happen. */
    ghost predicate Valid()
      reads this, sink, buf, counter
    {
      Inv() && (!needFlush ==> pending == 0)
    }

    /** Whether a flush, now, will fail. */
    ghost predicate FlushFails()
      reads this, sink
    {
      pending > 0 && FailsOn(sink.script, FrameSize(key, salt, |sent|, pending))
    }

    /** How often the timer will fail beside a transfer of `avail` bytes from a reader with this script: it flushes
        what is pending if it fires while the bytes of the first read land. */
    ghost function TimerFaults(timer: nat -> bool, moves: seq<Move>, avail: nat): (n: nat)
      reads this, sink
      ensures n <= 1
    {
      var room := if pending < PAYLOAD_SIZE_MASK then PAYLOAD_SIZE_MASK - pending else 0;
      var landing := NextSize(moves, room, avail);
      if needFlush && FiresBefore(timer, landing + 1) && FlushFails() then 1 else 0
    }

    /** The frames a transfer will make if no flush of its own fails. */
    ghost function Frames(timer: nat -> bool, moves: seq<Move>, data: seq<byte>): (r: seq<seq<byte>>)
      requires Inv()
      reads this, sink, buf, counter
    {
      if !needFlush then Pieces(moves, data) else
      var n := NextSize(moves, 0x3FFF - pending, |data|);
      FirstPieces(Unsent(), data[..n], pending > 0 && FiresBefore(timer, n + 1))
      + if EndSeen(moves, n, |data|) then [] else Pieces(Tail(moves), data[n..])
    }

    ghost function Unsent(): (s: seq<byte>)
      requires Inv()
      reads this, sink, buf, counter
    {
      buf[PayloadStart()..PayloadStart() + pending]
    }

    /** Every plaintext byte accepted so far, in order. */
    ghost function Plain(): (s: seq<byte>)
      requires Inv()
      reads this, sink, buf, counter
    {
      Flatten(sent) + Unsent()
    }

    constructor (sink: Sink, key: Key, salt: seq<byte>)
      requires Lawful(key) && |salt| == key.saltSize && sink.received == [] && sink.faults == 0 && sink.calls == []
      ensures Valid() && fresh(buf) && fresh(counter) && Plain() == [] && sent == [] && lost == 0
      ensures pending == 0 && !needFlush
      ensures this.sink == sink && this.key == key && this.salt == salt
    {
      this.sink, this.key, this.salt := sink, key, salt;
      buf := new byte[|salt| + 2 + key.overhead + PAYLOAD_SIZE_MASK + key.overhead];
      counter := new byte[NONCE_SIZE](_ => 0);
      ready, needFlush, pending, sent, lost := false, false, 0, [], 0;
      new;
      LittleEndianZero(NONCE_SIZE);
      assert counter[..] == Nonce(0);
    }

    method Init()
      requires Valid()
      modifies this, buf
      ensures Valid() && ready && needFlush == old(needFlush)
      ensures Plain() == old(Plain()) && Accounts() == old(Accounts())
      ensures sent == old(sent) && pending == old(pending) && FlushFails() == old(FlushFails())
      ensures Unsent() == old(Unsent())
    {
      if !ready {
        forall i | 0 <= i < |salt| {
          buf[i] := salt[i];
        }
        ready := true;
        assert Unsent() == [] && old(Unsent()) == [];
      }
    }

    /** Seals `buf[start..start + len]` in place; the tag overwrites the `overhead` bytes after it. */
    method EncryptBlock(start: nat, len: nat, ghost k: nat) returns (n: nat)
      requires Lawful(key) && buf != counter && start + len + key.overhead <= buf.Length
      requires counter[..] == Nonce(k)
      modifies buf, counter
      ensures n == len + key.overhead
      ensures buf[start..start + n] == key.seal(salt, Nonce(k), old(buf[start..start + len]))
      ensures forall i :: 0 <= i < start || start + n <= i < buf.Length ==> buf[i] == old(buf[i])
      ensures counter[..] == Nonce(k + 1)
    {
      var out := key.seal(salt, counter[..], buf[start..start + len]);
      n := |out|;
      forall i | 0 <= i < n {
        buf[start + i] := out[i];
      }
      assert buf[start..start + n] == out && counter[..] == old(counter[..]);
      Increment(counter);
      IncrementedLittleEndian(k, NONCE_SIZE);
    }

    /** Copies as much of `plaintext` behind the pending bytes as fits.  `plaintext` may be a snapshot of
        `buf` itself: the copy is safe for overlapping ranges. */
    method Enqueue(plaintext: seq<byte>) returns (n: nat)
      requires Inv() && ready
      modifies this`pending, buf
      ensures Inv() && ready
      ensures n <= |plaintext| && pending == old(pending) + n
      ensures n < |plaintext| ==> pending == PAYLOAD_SIZE_MASK
      ensures Plain() == old(Plain()) + plaintext[..n]
      ensures Unsent() == old(Unsent()) + plaintext[..n] && sent == old(sent)
    {
      hide Wire, Flatten, LittleEndian, Lawful, ChunksOk;
      n := Min(PAYLOAD_SIZE_MASK - pending, |plaintext|);
      CopyIn(PayloadStart(), PayloadStart() + pending, plaintext[..n]);
      pending := pending + n;
      assert Unsent() == old(Unsent()) + plaintext[..n];
      Assoc(Flatten(sent), old(Unsent()), plaintext[..n]);
    }

    /** Copies `data` behind what `buf[lo..at]` holds already. */
    method CopyIn(ghost lo: nat, at: nat, data: seq<byte>)
      requires |salt| <= lo <= at && at + |data| <= buf.Length
      modifies buf
      ensures buf[lo..at + |data|] == old(buf[lo..at]) + data
      ensures buf[..|salt|] == old(buf[..|salt|])
    {
      forall i | 0 <= i < |data| {
        buf[at + i] := data[i];
      }
      assert buf[at..at + |data|] == data && buf[lo..at] == old(buf[lo..at]);
      assert buf[lo..at + |data|] == buf[lo..at] + buf[at..at + |data|];
    }

    /** The seal-in-place step of `FlushPending`: nothing behind the payload's tag is touched. */
    method SealPending() returns (frame: seq<byte>)
      requires Inv() && ready && 0 < pending
      modifies buf, counter
      ensures buf[..|salt|] == salt
      ensures forall i :: PayloadStart() + pending + key.overhead <= i < buf.Length ==> buf[i] == old(buf[i])
      ensures counter[..] == Nonce(2 * |sent| + 2)
      ensures frame == Frame(key, salt, |sent|, old(Unsent()))
    {
      hide *;
      ghost var at := PayloadStart();
      ghost var chunk, header, payload := PendingFrame();
      var first := IsZero(counter);
      var end := SealBlocks(chunk, header, payload);
      FrameLayout(at, end, first, header, payload, Frame(key, salt, |sent|, chunk));
      frame := if first then buf[..end] else buf[|salt|..end];
    }

    /** Both blocks of the frame, the sealed length and the sealed payload. */
    method SealBlocks(ghost chunk: seq<byte>, ghost header: seq<byte>, ghost payload: seq<byte>) returns (end: nat)
      requires Inv() && ready && Lawful(key) && buf != counter && pending < 0x1_0000
      requires PayloadStart() + pending + key.overhead <= buf.Length
      requires chunk == buf[PayloadStart()..PayloadStart() + pending]
      requires header == key.seal(salt, Nonce(2 * |sent|), BigEndian16(pending))
      requires payload == key.seal(salt, Nonce(2 * |sent| + 1), chunk)
      modifies buf, counter
      ensures end == PayloadStart() + pending + key.overhead
      ensures buf[..|salt|] == salt && buf[|salt|..PayloadStart()] == header && buf[PayloadStart()..end] == payload
      ensures forall i :: end <= i < buf.Length ==> buf[i] == old(buf[i])
      ensures counter[..] == Nonce(2 * |sent| + 2)
    {
      hide *;
      SealSize();
      end := SealPayload();
    }

    lemma {:induction false} PendingFrame() returns (chunk: seq<byte>, header: seq<byte>, payload: seq<byte>)
      requires Inv() && ready && 0 < pending
      ensures Lawful(key) && buf != counter && pending < 0x1_0000
      ensures |salt| <= PayloadStart() && PayloadStart() + pending + key.overhead <= buf.Length
      ensures chunk == Unsent() == buf[PayloadStart()..PayloadStart() + pending] && ChunkOk(chunk)
      ensures header == key.seal(salt, Nonce(2 * |sent|), BigEndian16(pending))
      ensures payload == key.seal(salt, Nonce(2 * |sent| + 1), chunk)
      ensures Frame(key, salt, |sent|, chunk) == (if AllZero(counter[..]) then salt else []) + (header + payload)
    {
      hide Wire, Flatten, LittleEndian, ChunksOk;
      chunk := Unsent();
      header := key.seal(salt, Nonce(2 * |sent|), BigEndian16(pending));
      payload := key.seal(salt, Nonce(2 * |sent| + 1), chunk);
    }

    /** Puts the sealed length of the pending payload in front of it. */
    method SealSize()
      requires Inv() && ready
      modifies buf, counter
      ensures buf[..|salt|] == salt
      ensures buf[|salt|..PayloadStart()] == key.seal(salt, Nonce(2 * |sent|), BigEndian16(pending))
      ensures forall i :: PayloadStart() <= i < buf.Length ==> buf[i] == old(buf[i])
      ensures buf[PayloadStart()..PayloadStart() + pending] == old(buf[PayloadStart()..PayloadStart() + pending])
      ensures counter[..] == Nonce(2 * |sent| + 1)
    {
      hide LittleEndian, Wire, Lawful, ChunksOk, Flatten;
      buf[|salt|], buf[|salt| + 1] := pending / 256, pending % 256;
      assert buf[|salt|..|salt| + 2] == BigEndian16(pending) && counter[..] == old(counter[..]);
      assert buf[..|salt|] == salt;
      var _ := EncryptBlock(|salt|, 2, 2 * |sent|);
      assert buf[..|salt|] == salt;
    }

    method SealPayload() returns (end: nat)
      requires Lawful(key) && buf != counter && counter[..] == Nonce(2 * |sent| + 1)
      requires PayloadStart() + pending + key.overhead <= buf.Length
      modifies buf, counter
      ensures end == PayloadStart() + pending + key.overhead
      ensures buf[..|salt|] == old(buf[..|salt|])
      ensures buf[|salt|..PayloadStart()] == old(buf[|salt|..PayloadStart()])
      ensures buf[PayloadStart()..end] ==
              key.seal(salt, Nonce(2 * |sent| + 1), old(buf[PayloadStart()..PayloadStart() + pending]))
      ensures forall i :: end <= i < buf.Length ==> buf[i] == old(buf[i])
      ensures counter[..] == Nonce(2 * |sent| + 2)
    {
      hide LittleEndian, Nonce;
      var n := EncryptBlock(PayloadStart(), pending, 2 * |sent| + 1);
      end := PayloadStart() + n;
    }

    lemma {:induction false} FrameLayout(at: nat, end: nat, first: bool, header: seq<byte>, payload: seq<byte>,
                                         frame: seq<byte>)
      requires |salt| <= at <= end <= buf.Length
      requires buf[..|salt|] == salt && buf[|salt|..at] == header && buf[at..end] == payload
      requires frame == (if first then salt else []) + (header + payload)
      ensures frame == if first then buf[..end] else buf[|salt|..end]
    {
      assert buf[|salt|..end] == buf[|salt|..at] + buf[at..end];
      assert buf[..end] == buf[..|salt|] + buf[|salt|..end];
    }

    /** Seals everything pending and writes it out.  Whatever the base does, the plaintext leaves `pending`; a
        failure of the base is reported. */
    method FlushPending() returns (err: Err)
      requires Inv() && ready
      modifies this`pending, this`sent, this`lost, sink, buf, counter
      ensures Inv() && ready && pending == 0 && Plain() == old(Plain())
      ensures sent == if old(pending) == 0 then old(sent) else old(sent) + [old(Unsent())]
      ensures sent == old(sent) + Kept(old(Unsent()))
      ensures forall i :: PayloadStart() + old(pending) + key.overhead <= i < buf.Length ==> buf[i] == old(buf[i])
      ensures err == NoErr || err == sink.fault
      ensures err != NoErr <==> old(FlushFails())
      ensures sink.faults == old(sink.faults) + if err == NoErr then 0 else 1
      ensures Follows(old(Accounts()), Accounts())
    {
      hide Wire, Flatten, LittleEndian, Frame, Follows, Framed, FrameSize, FailsOn, SaltDue;
      SameBooks(Accounts());
      if pending == 0 {
        return NoErr;
      }
      ghost var chunk, before, books := Unsent(), sent, Accounts();
      FrameLength(key, salt, |before|, chunk);
      var frame := SealPending();
      var n;
      n, err := sink.Write(frame);
      pending := 0;
      sent, lost := sent + [chunk], lost + |frame| - n;
      WireSnoc(key, salt, before, chunk);
      FramedSnoc(key, salt, old(sink.calls), before, frame[..n], chunk);
      OneFrame(books, Accounts(), |frame|, n, err);
      FlattenSnoc(before, chunk);
    }

    /** The timer's entry point: does nothing at all unless a flush is currently allowed. */
    method Flush() returns (err: Err)
      requires Inv()
      modifies this`pending, this`sent, this`lost, sink, buf, counter
      ensures Inv() && Plain() == old(Plain())
      ensures if needFlush then pending == 0
              else err == NoErr && unchanged(this) && unchanged(sink) && unchanged(buf) && unchanged(counter)
      ensures needFlush ==> sent == if old(pending) == 0 then old(sent) else old(sent) + [old(Unsent())]
      ensures forall i :: PayloadStart() + old(pending) + key.overhead <= i < buf.Length ==> buf[i] == old(buf[i])
      ensures pending == 0 || pending == old(pending)
      ensures err == NoErr || err == sink.fault
      ensures err != NoErr <==> needFlush && old(FlushFails())
      ensures sink.faults == old(sink.faults) + if err == NoErr then 0 else 1
      ensures Follows(old(Accounts()), Accounts())
    {
      if !needFlush {
        return NoErr;
      }
      hide Follows, Framed, FlushFails;
      err := FlushPending();
    }

    method AllowFlush()
      requires Inv() && ready
      modifies this`needFlush
      ensures Inv() && Plain() == old(Plain()) && needFlush
    {
      hide Wire, Flatten, LittleEndian, Lawful, ChunksOk;
      needFlush := true;
    }

    /** Queues `p` behind what is pending, flushing only when the buffer is full. */
    method LazyWrite(p: seq<byte>) returns (queued: nat, err: Err)
      requires Valid()
      modifies this, sink, buf, counter
      ensures Inv() && ready && queued <= |p|
      ensures Plain() == old(Plain()) + p[..queued]
      ensures sink.faults == old(sink.faults) + if err == NoErr then 0 else 1
      ensures err == NoErr ==> needFlush && queued == |p|
      ensures err != NoErr ==> err == sink.fault && needFlush == old(needFlush) && pending == 0
      ensures Follows(old(Accounts()), Accounts())
      ensures old(pending) + |p| <= PAYLOAD_SIZE_MASK ==>
                err == NoErr && pending == old(pending) + |p| && sent == old(sent)
      // Only full chunks are sealed, and the bytes behind them are held back.
      ensures old(sent) <= sent && forall i :: |old(sent)| <= i < |sent| ==> |sent[i]| == 0x3FFF
      ensures err == NoErr && sent != old(sent) ==> pending > 0
    {
      hide Inv, Plain, Unsent, Follows, Lawful, ChunksOk, Flatten;
      Init();
      SameBooks(Accounts());
      queued := 0;
      ghost var start := Accounts();
      while true
        invariant Inv() && ready && needFlush == old(needFlush)
        invariant queued <= |p| && Plain() == old(Plain()) + p[..queued]
        invariant Follows(start, Accounts()) && sink.faults == old(sink.faults)
        invariant old(pending) + |p| <= PAYLOAD_SIZE_MASK ==>
                    queued == 0 && pending == old(pending) && sent == old(sent)
        invariant old(sent) <= sent && forall i :: |old(sent)| <= i < |sent| ==> |sent[i]| == 0x3FFF
        invariant sent != old(sent) ==> queued < |p|
        decreases |p| - queued, pending
      {
        var n := Enqueue(p[queued..]);
        TakeMore(old(Plain()), p, queued, n);
        queued := queued + n;
        if queued == |p| {
          AllowFlush();
          return queued, NoErr;
        }
        ghost var before := Accounts();
        UnsentLength();
        err := FlushPending();
        FollowsTrans(start, before, Accounts());
        if err != NoErr {
          return;
        }
      }
    }

    /** Stores what a read delivers, byte by byte, behind the part of `buf` that a flush may seal.  Before
        each byte, and after the last, the timer may fire; its caller alone learns of a failure. */
    method Land(incoming: array<byte>, n: nat, timer: nat -> bool) returns (lo: nat, beside: Beside)
      requires Inv() && ready && needFlush
      requires incoming != buf && incoming != counter
      requires n <= incoming.Length && PayloadStart() + pending + key.overhead + n <= buf.Length
      modifies this`pending, this`sent, this`lost, sink, buf, counter
      ensures Inv() && ready && Plain() == old(Plain())
      ensures lo == PayloadStart() + old(pending) + key.overhead
      ensures buf[lo..lo + n] == incoming[..n]
      ensures pending == 0 || pending == old(pending)
      ensures Landed(old(Accounts()), Accounts(), beside)
      ensures beside == if old(pending) == 0 || !FiresBefore(timer, n + 1) then Nothing else Flushed(old(FlushFails()))
      ensures sent == if beside == Nothing then old(sent) else old(sent) + [old(Unsent())]
      ensures Unsent() == if beside == Nothing then old(Unsent()) else []
    {
      hide *;
      lo := PayloadStart() + pending + key.overhead;
      beside := Nothing;
      LandedNothing(Accounts());
      FiresNow(timer, 0);
      for i := 0 to n
        invariant Inv() && Plain() == old(Plain())
        invariant forall j :: lo <= j < lo + i ==> buf[j] == incoming[j - lo]
        invariant pending == if beside == Nothing then old(pending) else 0
        invariant Landed(old(Accounts()), Accounts(), beside)
        invariant if old(pending) == 0 || !FiresBefore(timer, i)
                  then beside == Nothing && FlushFails() == old(FlushFails())
                  else beside == Flushed(old(FlushFails()))
        invariant sent == if beside == Nothing then old(sent) else old(sent) + [old(Unsent())]
        invariant Unsent() == if beside == Nothing then old(Unsent()) else []
      {
        FiresNow(timer, i);
        if timer(i) {
          beside := TimerFires(lo, beside, old(Accounts()));
        }
        StoreByte(lo + i, incoming[i]);
      }
      FiresNow(timer, n);
      if timer(n) {
        beside := TimerFires(lo, beside, old(Accounts()));
      }
      forall j | 0 <= j < n
        ensures buf[lo..lo + n][j] == incoming[..n][j]
      {
        assert buf[lo + j] == incoming[lo + j - lo];
      }
    }

    /** The timer flushes at most once during a shared read, for then nothing is pending any more. */
    static predicate Landed(was: Books, now: Books, beside: Beside) {
      && Follows(was, now)
      && now.frames == was.frames + (if beside == Nothing then 0 else 1)
      && now.faults == was.faults + (if beside == Flushed(true) then 1 else 0)
    }

    static lemma {:induction false} LandedNothing(b: Books)
      ensures Landed(b, b, Nothing)
    {
    }

    method TimerFires(ghost lo: nat, beside: Beside, ghost start: Books) returns (after: Beside)
      requires Inv() && ready && needFlush && PayloadStart() + pending + key.overhead <= lo <= buf.Length
      requires beside != Nothing ==> pending == 0
      modifies this`pending, this`sent, this`lost, sink, buf, counter
      ensures Inv() && Plain() == old(Plain()) && pending == 0
      ensures forall j :: lo <= j < buf.Length ==> buf[j] == old(buf[j])
      ensures old(Landed(start, Accounts(), beside)) ==> Landed(start, Accounts(), after)
      ensures after == if old(pending) == 0 then beside else Flushed(old(FlushFails()))
      ensures old(pending) == 0 ==> FlushFails() == old(FlushFails())
      ensures sent == (if old(pending) == 0 then old(sent) else old(sent) + [old(Unsent())]) && Unsent() == []
      ensures old(pending) == 0 ==> old(Unsent()) == []
    {
      hide Wire, Flatten, LittleEndian, Lawful, ChunksOk, Later, NextIsLost, Framed, FrameSize, FailsOn;
      after := beside;
      ghost var before := Accounts();
      var flushes := pending > 0;
      var err := Flush();
      if Landed(start, before, beside) {
        FollowsTrans(start, before, Accounts());
      }
      if flushes {
        after := Flushed(err != NoErr);
      }
    }

    method StoreByte(at: nat, b: byte)
      requires Inv() && ready && PayloadStart() + pending <= at < buf.Length
      modifies buf
      ensures Inv() && Plain() == old(Plain()) && FlushFails() == old(FlushFails())
      ensures Unsent() == old(Unsent())
      ensures buf[at] == b && forall j :: 0 <= j < at ==> buf[j] == old(buf[j])
    {
      hide Wire, Flatten, LittleEndian, Lawful, ChunksOk;
      buf[at] := b;
      assert Unsent() == old(Unsent());
      assert buf[..|salt|] == old(buf[..|salt|]) && counter[..] == old(counter[..]);
    }

    /** The read itself, of as much as fits behind the part of `buf` that a flush may seal. */
    method Receive(src: Source) returns (incoming: array<byte>, n: nat, err: Err)
      requires Inv()
      modifies src
      ensures fresh(incoming) && n <= incoming.Length
      ensures PayloadStart() + pending + key.overhead + n <= buf.Length
      ensures n <= |old(src.data)| && src.data == old(src.data)[n..] && incoming[..n] == old(src.data)[..n]
      ensures n == NextSize(old(src.script), PAYLOAD_SIZE_MASK - pending, |old(src.data)|)
      ensures err == NoErr || (err == src.end && src.data == [])
      ensures src.script == Tail(old(src.script)) && (err != NoErr <==> EndSeen(old(src.script), n, |old(src.data)|))
    {
      hide Wire, Flatten, LittleEndian, Lawful, ChunksOk;
      incoming := new byte[buf.Length - (PayloadStart() + pending + key.overhead)];
      n, err := src.Read(incoming, 0, incoming.Length);
      assert incoming[..n] == incoming[0..0 + n];
    }

    /** The one read that shares `buf` with the timer. */
    method SharedRead(src: Source, timer: nat -> bool) returns (n: nat, err: Err, ghost ownFailed: bool)
      requires Valid() && ready && needFlush
      modifies this, sink, buf, counter, src
      ensures Valid() && ready && !needFlush && pending == 0
      ensures Moved(old(Plain()), old(src.data), Plain(), src.data, n)
      ensures if ownFailed then err == sink.fault else err == NoErr || (err == src.end && src.data == [])
      ensures sink.faults ==
              old(sink.faults + TimerFaults(timer, src.script, |src.data|)) + if ownFailed then 1 else 0
      ensures Follows(old(Accounts()), Accounts())
      ensures n == NextSize(old(src.script), 0x3FFF - old(pending), |old(src.data)|)
      ensures src.script == Tail(old(src.script))
      ensures !ownFailed ==> (err != NoErr <==> EndSeen(old(src.script), n, |old(src.data)|))
      ensures sent == old(sent) + FirstPieces(old(Unsent()), old(src.data)[..n],
                                              old(pending) > 0 && FiresBefore(timer, n + 1))
    {
      hide Inv, Plain, Unsent, Follows, Landed, Lawful, ChunksOk, Flatten, NextIsLost, Framed, FailsOn, FrameSize;
      hide FiresBefore, NextSize, EndSeen, Tail;
      ghost var start := Accounts();
      PendingBounded();
      var incoming;
      incoming, n, err := Receive(src);
      var lo, beside := Land(incoming, n, timer);
      ghost var mid := sent;
      EnqueueLanded(lo, n);
      SealedFirst(old(sent), old(Unsent()), old(src.data)[..n], beside != Nothing, mid, Unsent());
      ghost var before := Accounts();
      var flushErr := FlushPending();
      LandedThen(start, before, Accounts(), beside);
      ownFailed := flushErr != NoErr;
      if flushErr != NoErr {
        err := flushErr;
      }
      DisallowFlush();
    }

    lemma {:induction false} UnsentLength()
      requires Inv()
      ensures |Unsent()| == pending
    {
    }

    lemma {:induction false} PendingBounded()
      requires Inv()
      ensures pending <= PAYLOAD_SIZE_MASK
    {
    }

    static lemma {:induction false} LandedThen(was: Books, mid: Books, now: Books, beside: Beside)
      requires Landed(was, mid, beside) && Follows(mid, now)
      ensures Follows(was, now) && mid.faults == was.faults + (if beside == Flushed(true) then 1 else 0)
    {
      FollowsTrans(was, mid, now);
    }

    /** Everything that has landed fits behind what is pending, whether or not the timer has flushed. */
    method EnqueueLanded(lo: nat, n: nat)
      requires Inv() && ready && lo + n <= buf.Length && PayloadStart() + pending + key.overhead <= lo
      modifies this`pending, buf
      ensures Inv() && ready && Accounts() == old(Accounts())
      ensures Plain() == old(Plain()) + old(buf[lo..lo + n])
      ensures Unsent() == old(Unsent()) + old(buf[lo..lo + n]) && sent == old(sent)
    {
      hide Wire, Flatten, LittleEndian, Lawful, ChunksOk;
      var landed := buf[lo..lo + n];
      var m := Enqueue(landed);
      assert landed[..m] == landed;
    }

    method DisallowFlush()
      requires Inv() && ready && pending == 0
      modifies this`needFlush
      ensures Valid() && !needFlush && Plain() == old(Plain())
    {
      hide Wire, Flatten, LittleEndian, Lawful, ChunksOk;
      needFlush := false;
    }

    /** Reads straight into the payload part of `buf`. */
    method Fill(src: Source) returns (err: Err)
      requires Valid() && ready && !needFlush
      modifies this`pending, buf, src
      ensures Inv() && pending <= |old(src.data)| && src.data == old(src.data)[pending..]
      ensures Plain() == old(Plain()) + old(src.data)[..pending]
      ensures if err == NoErr then src.Left() < old(src.Left()) else err == src.end && src.data == []
      ensures pending == NextSize(old(src.script), 0x3FFF, |old(src.data)|) && src.script == Tail(old(src.script))
      ensures err != NoErr <==> EndSeen(old(src.script), pending, |old(src.data)|)
      ensures Unsent() == old(src.data)[..pending]
    {
      hide Wire, Flatten, LittleEndian, Lawful, ChunksOk;
      pending, err := src.Read(buf, PayloadStart(), PayloadStart() + PAYLOAD_SIZE_MASK);
      assert Unsent() == old(src.data)[..pending] && old(Unsent()) == [];
      assert buf[..|salt|] == old(buf[..|salt|]) && counter[..] == old(counter[..]);
    }

    /** One round of the main transfer loop; a timer that fires here finds flushing disallowed. */
    method Pump(src: Source, fires: bool) returns (n: nat, err: Err, ghost ownFailed: bool)
      requires Valid() && ready && !needFlush
      modifies this`pending, this`sent, this`lost, sink, buf, counter, src
      ensures Valid() && pending == 0
      ensures Moved(old(Plain()), old(src.data), Plain(), src.data, n)
      ensures if ownFailed then err == sink.fault
              else if err == NoErr then src.Left() < old(src.Left()) else err == src.end && src.data == []
      ensures sink.faults == old(sink.faults) + if ownFailed then 1 else 0
      ensures Follows(old(Accounts()), Accounts())
      ensures n == NextSize(old(src.script), 0x3FFF, |old(src.data)|) && src.script == Tail(old(src.script))
      ensures !ownFailed ==> (err != NoErr <==> EndSeen(old(src.script), n, |old(src.data)|))
      ensures sent == old(sent) + Kept(old(src.data)[..n])
    {
      hide Inv, Plain, Follows, FlushFails, NextSize, EndSeen, Tail;
      err := Fill(src);
      n := pending;
      if fires {
        var _ := Flush();
      }
      var flushErr := FlushPending();
      ownFailed := flushErr != NoErr;
      if flushErr != NoErr {
        err := flushErr;
      }
    }

    /** `io.ReaderFrom`: seals and sends everything `src` yields, while the timer fires as it likes.  A failure
        of the base in a flush of its own ends the transfer and is reported like an end of `src`, so that
        `io.EOF` reads as success; a failure in the timer's flush is not reported at all. */
    method ReadFrom(src: Source, timer: nat -> bool) returns (written: nat, err: Err)
      requires Valid()
      modifies this, sink, buf, counter, src
      ensures Valid() && ready && !needFlush && pending == 0
      ensures written <= |old(src.data)| && src.data == old(src.data)[written..]
      ensures Plain() == old(Plain()) + old(src.data)[..written]
      ensures var own := sink.faults - old(sink.faults) - old(TimerFaults(timer, src.script, |src.data|));
              var end := if own == 1 then sink.fault else src.end;
              0 <= own <= 1 && (own == 0 ==> src.data == []) && err == if end == Eof then NoErr else end
      ensures Follows(old(Accounts()), Accounts())
      ensures old(sent) <= sent <= old(sent) + old(Frames(timer, src.script, src.data))
      ensures sink.faults == old(sink.faults + TimerFaults(timer, src.script, |src.data|)) ==>
                sent == old(sent) + old(Frames(timer, src.script, src.data))
    {
      hide Inv, Plain, Unsent, Follows, NextIsLost, TimerFaults;
      ghost var ownFailed;
      written, err, ownFailed := MoveAll(src, timer);
      if err == Eof {
        err := NoErr;
      }
    }

    /** `ReadFrom`, with the end of `src` still reported as it is. */
    method MoveAll(src: Source, timer: nat -> bool) returns (written: nat, err: Err, ghost ownFailed: bool)
      requires Valid()
      modifies this, sink, buf, counter, src
      ensures Valid() && ready && !needFlush && pending == 0
      ensures Moved(old(Plain()), old(src.data), Plain(), src.data, written)
      ensures if ownFailed then err == sink.fault else err == src.end && src.data == []
      ensures sink.faults ==
              old(sink.faults + TimerFaults(timer, src.script, |src.data|)) + if ownFailed then 1 else 0
      ensures Follows(old(Accounts()), Accounts())
      ensures old(sent) <= sent <= old(sent) + old(Frames(timer, src.script, src.data))
      ensures !ownFailed ==> sent == old(sent) + old(Frames(timer, src.script, src.data))
    {
      hide Inv, Plain, Unsent, Accounts, Follows, Moved, NextIsLost, Lawful, TimerFaults, Kept, Pieces, FirstPieces;
      hide EndSeen, NextSize, Tail, FiresBefore;
      ghost var start, plain, data, was := Accounts(), Plain(), src.data, sent;
      ghost var frames := Frames(timer, src.script, src.data);
      written, err, ownFailed := FirstRead(src, timer);
      MovedData(plain, data, Plain(), src.data, written);
      ghost var first := if old(needFlush) then FirstPieces(old(Unsent()), data[..written],
                                                old(pending) > 0 && FiresBefore(timer, written + 1)) else [];
      assert was + first == sent;
      if err == NoErr {
        ghost var books, plain', data' := Accounts(), Plain(), src.data;
        ghost var next := Pieces(src.script, src.data);
        Assoc(was, first, next);
        assert frames == first + next by {
          assert !old(needFlush) ==> data[written..] == data && [] + next == next;
        }
        var n;
        n, err, ownFailed := Transfer(src, timer);
        FollowsTrans(start, books, Accounts());
        MovedOn(plain, data, plain', data', Plain(), src.data, written, n);
        written := written + n;
      } else {
        FirstOnly(was, first, frames);
      }
    }

    static lemma {:induction false} FirstOnly(was: seq<seq<byte>>, first: seq<seq<byte>>, frames: seq<seq<byte>>)
      requires first <= frames
      ensures was + first <= was + frames
    {
      assert frames == first + frames[|first|..];
    }

    /** The start of `ReadFrom`, with the shared read if there is to be one. */
    method FirstRead(src: Source, timer: nat -> bool) returns (n: nat, err: Err, ghost ownFailed: bool)
      requires Valid()
      modifies this, sink, buf, counter, src
      ensures Valid() && ready && !needFlush && pending == 0
      ensures Moved(old(Plain()), old(src.data), Plain(), src.data, n)
      ensures if ownFailed then err == sink.fault else err == NoErr || (err == src.end && src.data == [])
      ensures sink.faults ==
              old(sink.faults + TimerFaults(timer, src.script, |src.data|)) + if ownFailed then 1 else 0
      ensures Follows(old(Accounts()), Accounts())
      ensures if !old(needFlush)
              then n == 0 && err == NoErr && !ownFailed && sent == old(sent) && src.script == old(src.script)
              else && n == NextSize(old(src.script), 0x3FFF - old(pending), |old(src.data)|)
                   && src.script == Tail(old(src.script))
                   && (!ownFailed ==> (err != NoErr <==> EndSeen(old(src.script), n, |old(src.data)|)))
                   && sent == old(sent) + FirstPieces(old(Unsent()), old(src.data)[..n],
                                                      old(pending) > 0 && FiresBefore(timer, n + 1))
    {
      hide Inv, Plain, Unsent, Follows, Moved, Lawful, ChunksOk, Flatten, NextIsLost, FiresBefore, FlushFails, NextSize;
      Init();
      MovedNothing(Plain(), src.data);
      if needFlush {
        n, err, ownFailed := SharedRead(src, timer);
      } else {
        n, err, ownFailed := 0, NoErr, false;
        SameBooks(Accounts());
      }
    }

    /** The main transfer loop. */
    method Transfer(src: Source, timer: nat -> bool) returns (written: nat, err: Err, ghost ownFailed: bool)
      requires Valid() && ready && !needFlush
      modifies this`pending, this`sent, this`lost, sink, buf, counter, src
      ensures Valid() && pending == 0
      ensures Moved(old(Plain()), old(src.data), Plain(), src.data, written)
      ensures if ownFailed then err == sink.fault else err == src.end && src.data == []
      ensures sink.faults == old(sink.faults) + if ownFailed then 1 else 0
      ensures Follows(old(Accounts()), Accounts())
      ensures old(sent) <= sent <= old(sent) + old(Pieces(src.script, src.data))
      ensures !ownFailed ==> sent == old(sent) + old(Pieces(src.script, src.data))
    {
      hide Inv, Plain, Unsent, Follows, Moved, Lawful, ChunksOk, Flatten, Pieces, NextSize, EndSeen, Tail, Kept;
      ghost var start, todo := Accounts(), Pieces(src.script, src.data);
      SameBooks(start);
      written, err, ownFailed := 0, NoErr, false;
      var step: nat := |salt|;
      MovedNothing(Plain(), src.data);
      while err == NoErr
        invariant Valid() && pending == 0
        invariant Moved(old(Plain()), old(src.data), Plain(), src.data, written)
        invariant if ownFailed then err == sink.fault else err == NoErr || (err == src.end && src.data == [])
        invariant sink.faults == old(sink.faults) + if ownFailed then 1 else 0
        invariant Follows(start, Accounts())
        invariant old(sent) <= sent && old(sent) + old(Pieces(src.script, src.data)) == sent + todo
        invariant err == NoErr ==> todo == Pieces(src.script, src.data)
        invariant err != NoErr && !ownFailed ==> todo == []
        decreases if err == NoErr then src.Left() + 1 else 0
      {
        ghost var books, plain, data := Accounts(), Plain(), src.data;
        PiecesUnfold(src.script, src.data);
        ghost var m, chunks := NextSize(src.script, 0x3FFF, |src.data|), sent;
        ghost var next := if EndSeen(src.script, m, |src.data|) then [] else Pieces(Tail(src.script), src.data[m..]);
        var n;
        n, err, ownFailed := Pump(src, timer(step));
        FollowsTrans(start, books, Accounts());
        MovedOn(old(Plain()), old(src.data), plain, data, Plain(), src.data, written, n);
        MovedData(plain, data, Plain(), src.data, n);
        Assoc(chunks, Kept(data[..n]), next);
        todo := next;
        written, step := written + n, step + 1;
      }
    }

    static lemma {:induction false} OneFrame(was: Books, now: Books, size: nat, n: nat, err: Err)
      requires 0 < size && n <= size && Played(was.script, size, n, err, now.script)
      requires now.frames == was.frames + 1 && now.lost == was.lost + size - n
      requires now.faults == was.faults + if err == NoErr then 0 else 1
      ensures Follows(was, now) && (err != NoErr <==> FailsOn(was.script, size))
    {
    }

    static lemma {:induction false} SameBooks(b: Books)
      ensures Follows(b, b)
    {
    }

    lemma {:induction false} FramesFull(timer: nat -> bool, p: seq<byte>)
      requires Inv() && (pending == 0 || forall i :: !timer(i))
      ensures AllFull(Frames(timer, [], p))
    {
      hide Wire, Flatten, LittleEndian, Lawful, ChunksOk, Framed, AllFull, Pieces;
      if needFlush {
        var n := NextSize([], 0x3FFF - pending, |p|);
        if pending > 0 {
          NeverFires(timer, n + 1);
        }
        FirstPiecesFull(Unsent(), p);
        if p == [] {
          PiecesFull(p[n..]);
        }
      } else {
        PiecesFull(p);
      }
    }

    /** `io.Writer`, by way of `ReadFrom`.  Without a failing flush of its own it takes all of `p`.  A failure of the
        base is kept from the caller exactly when it is `io.EOF` under a flush of this call, or when the only
        flush to fail is the timer's, which is known beforehand. */
    method Write(p: seq<byte>, timer: nat -> bool) returns (n: nat, err: Err)
      requires Valid()
      modifies this, sink, buf, counter
      ensures Valid() && ready && !needFlush && pending == 0 && n <= |p|
      ensures Plain() == old(Plain()) + p[..n]
      ensures var timers := old(TimerFaults(timer, [], |p|));
              var own := sink.faults - old(sink.faults) - timers;
              && 0 <= own <= 1
              && (if own == 1 then err == (if sink.fault == Eof then NoErr else sink.fault)
                  else err == NoErr && n == |p|)
              && (err == NoErr && sink.faults > old(sink.faults) <==>
                  (own == 1 && sink.fault == Eof) || (own == 0 && timers == 1))
      ensures Follows(old(Accounts()), Accounts())
      ensures old(sent) <= sent
      // Unless the timer cuts in or the base fails, every chunk is full but for the last.
      ensures sink.faults == old(sink.faults + TimerFaults(timer, [], |p|))
              && (old(pending) == 0 || forall i :: !timer(i)) ==>
                forall i :: |old(sent)| <= i < |sent| - 1 ==> |sent[i]| == 0x3FFF
    {
      hide Follows, Inv, Plain, TimerFaults;
      ghost var idle := pending == 0 || forall i :: !timer(i);
      if idle {
        FramesFull(timer, p);
      }
      hide Frames, AllFull;
      ghost var frames := Frames(timer, [], p);
      var wrapper := new Source(p, [], Eof);
      n, err := ReadFrom(wrapper, timer);
      if idle && sent == old(sent) + frames {
        AllFullBehind(old(sent), frames);
      }
    }
  }

  // ---------------------------------------------------------------- frames in bytes

  /** A first `Write` of 1 to 16383 bytes: one write to the base, with the salt, the length sealed under twelve zero
      bytes, and the payload sealed under a one and eleven zero bytes. */
  method WriteInBytes(key: Key, salt: seq<byte>, p: seq<byte>, timer: nat -> bool) returns (w: Writer)
    requires Lawful(key) && |salt| == key.saltSize && 1 <= |p| <= 16383
    ensures w.Inv() && w.sent == [p] && w.pending == 0 && |w.sink.calls| == 1
    ensures w.sink.received ==
            salt + (key.seal(salt, [0, 0, 0, 0, 0, 0, 0, 0, 0, 0, 0, 0], [|p| / 256, |p| % 256])
                    + key.seal(salt, [1, 0, 0, 0, 0, 0, 0, 0, 0, 0, 0, 0], p))
  {
    hide Writer.Inv, Writer.Plain, Lawful, Wire, LittleEndian;
    var sink := new Sink([], Eof);
    w := new Writer(sink, key, salt);
    var n, _ := w.Write(p, timer);
    assert p[..n] == p && [] + p == p;
    OneChunk(w, p);
    FirstNonces();
    WireOfOne(key, salt, p);
    OnTheWire(w);
  }

  /** A delayed header and a first `Write` that fit a chunk together leave in one frame if the timer is idle. */
  method LazyThenWrite(key: Key, salt: seq<byte>, h: seq<byte>, p: seq<byte>) returns (w: Writer)
    requires Lawful(key) && |salt| == key.saltSize && 1 <= |h| + |p| <= 16383
    ensures w.Inv() && w.sent == [h + p] && w.pending == 0 && |w.sink.calls| == 1
  {
    hide Writer.Inv, Writer.Plain, Lawful, Wire, LittleEndian;
    var sink := new Sink([], Eof);
    w := new Writer(sink, key, salt);
    var n, _ := w.LazyWrite(h);
    assert h[..n] == h && [] + h == h;
    var m, _ := w.Write(p, _ => false);
    assert p[..m] == p;
    OneChunk(w, h + p);
    OnTheWire(w);
  }

  lemma {:induction false} OneChunk(w: Writer, p: seq<byte>)
    requires w.Inv() && w.pending == 0 && w.Plain() == p && 1 <= |p| <= 16383
    requires forall i :: 0 <= i < |w.sent| - 1 ==> |w.sent[i]| == 16383
    ensures w.sent == [p]
  {
    NothingPending(w);
    LongFlatten(w.sent);
    if |w.sent| == 1 {
      assert w.sent == [w.sent[0]] && w.sent[1..] == [] && w.sent[0] + [] == w.sent[0];
    }
  }

  lemma {:induction false} LongFlatten(s: seq<seq<byte>>)
    requires ChunksOk(s)
    ensures |s| > 1 && |s[0]| == 16383 ==> |Flatten(s)| > 16383
  {
    if |s| > 1 {
      assert s[1] == s[1..][0];
    }
  }

  lemma {:induction false} FirstNonces()
    ensures Nonce(0) == [0, 0, 0, 0, 0, 0, 0, 0, 0, 0, 0, 0]
    ensures Nonce(1) == [1, 0, 0, 0, 0, 0, 0, 0, 0, 0, 0, 0]
  {
    LittleEndianZero(12);
    LittleEndianZero(11);
  }

  lemma {:induction false} WireOfOne(key: Key, salt: seq<byte>, p: seq<byte>)
    requires Lawful(key) && ChunkOk(p)
    ensures Wire(key, salt, [p]) ==
            salt + (key.seal(salt, Nonce(0), [|p| / 256, |p| % 256]) + key.seal(salt, Nonce(1), p))
  {
    hide LittleEndian, Nonce;
    SaltDueFirst(0);
    assert [p][..0] == [] && Wire(key, salt, []) == [];
  }

  // ---------------------------------------------------------------- failures that are not reported

  /** A base that takes nothing and fails with `io.EOF`: the byte is lost, and `Write` reports that it was written. */
  method EofReadsAsSuccess(key: Key, salt: seq<byte>) returns (w: Writer, n: nat, err: Err)
    requires Lawful(key) && |salt| == key.saltSize
    ensures w.Inv() && Flatten(w.sent) == [7] && n == 1 && err == NoErr
    ensures w.sink.fault == Eof && w.sink.faults > 0 && |w.sink.received| < |Wire(key, salt, w.sent)|
  {
    hide Lawful, LittleEndian, Wire;
    var sink := new Sink([Move(0, true)], Eof);
    w := new Writer(sink, key, salt);
    n, err := w.Write([7], _ => false);
    NothingPending(w);
    assert w.sent != [];
    NotEmpty(w.sent);
    assert [7][..n] == [7];
  }

  /** A base that fails once, with an ordinary error, while the timer flushes a delayed header beside a read: the
      header is lost, and `Write` reports success. */
  method TimerFailureUnseen(key: Key, salt: seq<byte>) returns (w: Writer, n: nat, err: Err)
    requires Lawful(key) && |salt| == key.saltSize
    ensures w.Inv() && Flatten(w.sent) == [1, 2] && n == 1 && err == NoErr
    ensures w.sink.fault == Fault && w.sink.faults > 0 && |w.sink.received| < |Wire(key, salt, w.sent)|
  {
    hide Lawful, LittleEndian, Nonce, Wire, ChunksOk, AllZero, Framed, Writer.TimerFaults, Writer.FlushFails;
    hide Writer.Frames, Pieces, Kept, FirstPieces, Writer.Inv, Writer.Plain, Writer.Unsent, Flatten;
    var sink := new Sink([Move(0, true)], Fault);
    w := new Writer(sink, key, salt);
    n, err := w.LazyWrite([1]);
    assert [1][..n] == [1];
    OneMove(w);
    n, err := w.Write([2], i => i == 0);
    assert [2][..n] == [2] && [] + [1] + [2] == [1, 2];
    NothingPending(w);
    Lost(w);
  }

  lemma {:induction false} Lost(w: Writer)
    requires w.Inv()
    ensures |w.sink.received| + w.lost == |Wire(w.key, w.salt, w.sent)|
  {
  }

  lemma {:induction false} OneMove(w: Writer)
    requires w.needFlush && w.pending == 1 && w.sink.script == [Move(0, true)]
    ensures w.TimerFaults(i => i == 0, [], 1) == 1
  {
    assert FiresBefore(i => i == 0, 1);
  }

  lemma {:induction false} NothingPending(w: Writer)
    requires w.Inv() && w.pending == 0
    ensures w.Plain() == Flatten(w.sent)
  {
    assert Flatten(w.sent) + [] == Flatten(w.sent);
  }

  lemma {:induction false} NotEmpty(chunks: seq<seq<byte>>)
    requires ChunksOk(chunks) && chunks != []
    ensures Flatten(chunks) != []
  {
    assert Flatten(chunks)[0] == chunks[0][0];
  }

  // ---------------------------------------------------------------- whole runs

  /** One call on a writer, with the input it brings. */
  datatype Op =
    | Lazy(p: seq<byte>)
    | Timer
    | Put(p: seq<byte>)
    | Transfer(data: seq<byte>, script: seq<Move>, end: EndErr)
  {
    function Input(): (s: seq<byte>) {
      match this
      case Lazy(p) => p
      case Timer => []
      case Put(p) => p
      case Transfer(data, _, _) => data
    }
  }

  function Inputs(ops: seq<Op>): (s: seq<byte>) {
    if ops == [] then [] else Inputs(ops[..|ops| - 1]) + ops[|ops| - 1].Input()
  }

  /** One call over an accepting base, with any timer. */
  method Perform(w: Writer, op: Op, timer: nat -> bool)
    requires w.Valid() && w.sink.script == [] && w.sink.faults == 0
    modifies w, w.sink, w.buf, w.counter
    ensures w.Valid() && w.sink.script == [] && w.sink.faults == 0
    ensures w.Plain() == old(w.Plain()) + op.Input()
    ensures !op.Lazy? ==> w.pending == 0
  {
    hide Writer.Inv, Writer.Plain;
    match op {
      case Lazy(p) =>
        var n, _ := w.LazyWrite(p);
        assert p[..n] == p;
      case Timer =>
        var _ := w.Flush();
        assert w.Plain() == old(w.Plain()) + [];
      case Put(p) =>
        var n, _ := w.Write(p, timer);
        assert p[..n] == p;
      case Transfer(data, script, end) =>
        var src := new Source(data, script, end);
        var n, _ := w.ReadFrom(src, timer);
        assert data[..n] == data;
    }
  }

  /** Any sequence of calls over an accepting base, with any timer: the wire is the encoding of the chunks
      sealed so far, one write a frame; those chunks and what is pending are the input; and the counter has
      taken two steps a chunk. */
  method Run(w: Writer, ops: seq<Op>, timers: nat -> (nat -> bool))
    requires w.Valid() && w.sink.script == [] && w.sink.faults == 0 && w.Plain() == []
    modifies w, w.sink, w.buf, w.counter
    ensures w.Valid() && w.Plain() == Inputs(ops)
    ensures w.sink.received == Wire(w.key, w.salt, w.sent) && |w.sink.calls| == |w.sent|
    ensures w.counter[..] == Nonce(2 * |w.sent|)
    ensures ops != [] && !ops[|ops| - 1].Lazy? ==> Flatten(w.sent) == Inputs(ops)
  {
    hide Wire, Flatten, LittleEndian, Lawful, ChunksOk, Nonce, Writer.Inv, Writer.Plain;
    for i := 0 to |ops|
      invariant w.Valid() && w.sink.script == [] && w.sink.faults == 0
      invariant w.Plain() == Inputs(ops[..i])
      invariant 0 < i && !ops[i - 1].Lazy? ==> w.pending == 0
    {
      assert ops[..i + 1][..i] == ops[..i];
      Perform(w, ops[i], timers(i));
    }
    assert ops[..|ops|] == ops;
    OnTheWire(w);
  }

  lemma {:induction false} OnTheWire(w: Writer)
    requires w.Inv() && w.sink.faults == 0
    ensures w.sink.received == Wire(w.key, w.salt, w.sent) && |w.sink.calls| == |w.sent|
    ensures w.counter[..] == Nonce(2 * |w.sent|)
    ensures w.pending == 0 ==> w.Plain() == Flatten(w.sent)
  {
    assert Flatten(w.sent) + [] == Flatten(w.sent);
  }

  /** A fresh reader of everything a writer sent within one counter period recovers exactly the plaintext
      that is no longer pending. */
  lemma {:induction false} RoundTrip(w: Writer, end: EndErr)
    requires w.Inv() && w.sink.faults == 0 && w.key.overhead <= 16
    requires 0 < |w.sent| <= FRAME_PERIOD
    ensures var d := DecodeStream(w.key, w.sink.received, end);
            d.err == end && Flatten(d.chunks) + w.Unsent() == w.Plain()
  {
    DecodeWholeWire(w.key, w.salt, w.sent, end);
  }
}
