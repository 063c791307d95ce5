/** The Shadowsocks AEAD stream format: nonces, frames, and a reference decoder. */
module ShadowsocksWire {
  import opened Io

  /** Largest payload of one chunk. */
  const PAYLOAD_SIZE_MASK: nat := 0x3FFF

  /** Largest tag the shared read buffers leave room for. */
  const MAX_TAG_SIZE: nat := 16

  const NONCE_SIZE: nat := 12

  /** An encryption key: a salt derives the AEAD instance that seals and opens messages under a nonce. */
  datatype Key = Key(
    saltSize: nat,
    overhead: nat,
    seal: (seq<byte>, seq<byte>, seq<byte>) -> seq<byte>,
    open: (seq<byte>, seq<byte>, seq<byte>) -> Option<seq<byte>>)

  /** `open` inverts `seal`, which adds a tag of fixed size. */
  ghost predicate Lawful(key: Key) {
    forall salt, nonce, plain ::
      |key.seal(salt, nonce, plain)| == |plain| + key.overhead
      && key.open(salt, nonce, key.seal(salt, nonce, plain)) == Some(plain)
  }

  // ---------------------------------------------------------------- nonces

  function Pow256(n: nat): (p: nat)
    ensures p > 0
  {
    if n == 0 then 1 else 256 * Pow256(n - 1)
  }

  /** The low `n` little-endian digits of `k`. */
  function LittleEndian(k: nat, n: nat): (s: seq<byte>)
    ensures |s| == n
  {
    if n == 0 then [] else [k % 256] + LittleEndian(k / 256, n - 1)
  }

  /** One carry-propagating increment of a little-endian number, wrapping on overflow. */
  function Incremented(s: seq<byte>): (r: seq<byte>)
    ensures |r| == |s|
  {
    if s == [] then [] else
    if s[0] == 255 then [0] + Incremented(s[1..]) else [s[0] + 1] + s[1..]
  }

  lemma {:induction false} IncrementedLittleEndian(k: nat, n: nat)
    ensures Incremented(LittleEndian(k, n)) == LittleEndian(k + 1, n)
  {
    if n > 0 {
      var s := LittleEndian(k, n);
      assert s[1..] == LittleEndian(k / 256, n - 1);
      if k % 256 == 255 {
        IncrementedLittleEndian(k / 256, n - 1);
        assert (k + 1) / 256 == k / 256 + 1 && (k + 1) % 256 == 0;
      } else {
        assert (k + 1) / 256 == k / 256 && (k + 1) % 256 == k % 256 + 1;
      }
    }
  }

  lemma {:induction false} MulBounds(m: nat, d: int)
    ensures d > 0 ==> m * d >= m
    ensures d < 0 ==> m * d + m <= 0
  {
    if d > 0 {
      assert m * d == m + m * (d - 1);
    } else if d < 0 {
      assert m * d == 0 - m * (-d - 1) - m;
      assert m * (-d - 1) >= 0;
    }
  }

  /** What a carry loop leaves behind: zeros up to `i`, one more at `i`, the rest as it was. */
  lemma {:induction false} CarriedTo(was: seq<byte>, now: seq<byte>, i: nat)
    requires |now| == |was| && i <= |was|
    requires forall j :: 0 <= j < i ==> was[j] == 255 && now[j] == 0
    requires i < |was| ==> was[i] != 255 && now[i] == was[i] + 1
    requires forall j :: i < j < |was| ==> now[j] == was[j]
    ensures now == Incremented(was)
  {
    if i > 0 {
      CarriedTo(was[1..], now[1..], i - 1);
      assert now == [now[0]] + now[1..];
    } else if was != [] {
      assert now == [now[0]] + was[1..];
    }
  }

  lemma {:induction false} DivModUnique(k: nat, m: nat, q: nat, r: nat)
    requires r < m && k == m * q + r
    ensures k / m == q && k % m == r
  {
    var d := k / m - q;
    assert m * d == r - k % m by {
      assert m * (k / m) + k % m == k;
      assert m * d == m * (k / m) - m * q;
    }
    MulBounds(m, d);
  }

  lemma {:induction false} ModSplit(k: nat, m: nat)
    requires m > 0
    ensures k % (256 * m) == k % 256 + 256 * (k / 256 % m)
  {
    var h := k / 256;
    assert h == m * (h / m) + h % m;
    assert 256 * h == (256 * m) * (h / m) + 256 * (h % m);
    DivModUnique(k, 256 * m, h / m, k % 256 + 256 * (h % m));
  }

  /** Two counters show the same bytes exactly when they agree modulo 256^n. */
  lemma {:induction false} LittleEndianInjective(j: nat, k: nat, n: nat)
    ensures LittleEndian(j, n) == LittleEndian(k, n) <==> j % Pow256(n) == k % Pow256(n)
  {
    if n > 0 {
      LittleEndianInjective(j / 256, k / 256, n - 1);
      ModSplit(j, Pow256(n - 1));
      ModSplit(k, Pow256(n - 1));
      assert LittleEndian(j, n)[1..] == LittleEndian(j / 256, n - 1);
      assert LittleEndian(k, n)[1..] == LittleEndian(k / 256, n - 1);
    }
  }

  /** Digit `i` of `k`, the lowest one first. */
  lemma {:induction false} LittleEndianAt(k: nat, n: nat, i: nat)
    requires i < n
    ensures LittleEndian(k, n)[i] == k / Pow256(i) % 256
  {
    if i > 0 {
      LittleEndianAt(k / 256, n - 1, i - 1);
      DivDiv(k, Pow256(i - 1));
    }
  }

  lemma {:induction false} DivDiv(k: nat, m: nat)
    requires m > 0
    ensures k / 256 / m == k / (256 * m)
  {
    var h := k / 256;
    assert h == m * (h / m) + h % m;
    assert 256 * h == (256 * m) * (h / m) + 256 * (h % m);
    DivModUnique(k, 256 * m, h / m, k % 256 + 256 * (h % m));
  }

  function Nonce(k: nat): (s: seq<byte>)
    ensures |s| == NONCE_SIZE
  {
    LittleEndian(k, NONCE_SIZE)
  }

  predicate AllZero(s: seq<byte>) {
    forall i :: 0 <= i < |s| ==> s[i] == 0
  }

  lemma {:induction false} LittleEndianZero(n: nat)
    ensures AllZero(LittleEndian(0, n))
  {
    if n > 0 {
      LittleEndianZero(n - 1);
    }
  }

  /** Number of frames after which the 96-bit counter, which takes two steps a frame, is zero again. */
  const FRAME_PERIOD: nat := 0x8000_0000_0000_0000_0000_0000

  lemma {:induction false} NoncePeriod()
    ensures Pow256(NONCE_SIZE) == 2 * FRAME_PERIOD
  {
    assert Pow256(3) == 256 * Pow256(2) && Pow256(2) == 256 * Pow256(1);
    assert Pow256(6) == 256 * (256 * (256 * Pow256(3)));
    assert Pow256(9) == 256 * (256 * (256 * Pow256(6)));
    assert Pow256(12) == 256 * (256 * (256 * Pow256(9)));
  }

  /** The writer prepends the salt exactly when its counter is zero. */
  predicate SaltDue(k: nat) {
    AllZero(Nonce(2 * k))
  }

  lemma {:induction false} SaltDueIff(k: nat)
    ensures SaltDue(k) <==> k % FRAME_PERIOD == 0
  {
    hide LittleEndian;
    NoncePeriod();
    LittleEndianZero(NONCE_SIZE);
    LittleEndianInjective(2 * k, 0, NONCE_SIZE);
    assert SaltDue(k) <==> Nonce(2 * k) == Nonce(0);
    DoubleMod(k, FRAME_PERIOD);
  }

  lemma {:induction false} DoubleMod(k: nat, m: nat)
    requires m > 0
    ensures 2 * k % (2 * m) == 2 * (k % m)
  {
    DivModUnique(2 * k, 2 * m, k / m, 2 * (k % m));
  }

  /** Within the first period only frame 0 carries the salt; frame 2^95 is the next one that does. */
  lemma {:induction false} SaltDueFirst(k: nat)
    ensures k < FRAME_PERIOD ==> (SaltDue(k) <==> k == 0)
    ensures k == FRAME_PERIOD ==> SaltDue(k)
  {
    SaltDueIff(k);
    if k < FRAME_PERIOD {
      DivModUnique(k, FRAME_PERIOD, 0, k);
    } else if k == FRAME_PERIOD {
      DivModUnique(k, FRAME_PERIOD, 1, 0);
    }
  }

  /** No nonce is used twice within one counter period. */
  lemma {:induction false} NoncesDistinct(i: nat, j: nat)
    requires i < j < 2 * FRAME_PERIOD
    ensures Nonce(i) != Nonce(j)
  {
    hide LittleEndian;
    NoncePeriod();
    LittleEndianInjective(i, j, NONCE_SIZE);
    DivModUnique(i, 2 * FRAME_PERIOD, 0, i);
    DivModUnique(j, 2 * FRAME_PERIOD, 0, j);
  }

  /** The bound is sharp: the frame after the last one of a period repeats the first frame's nonces. */
  lemma {:induction false} NoncesRepeat(i: nat)
    ensures Nonce(i + 2 * FRAME_PERIOD) == Nonce(i)
  {
    var m := 2 * FRAME_PERIOD;
    NoncePeriod();
    LittleEndianInjective(i, i + m, NONCE_SIZE);
    DivModUnique(i + m, m, i / m + 1, i % m);
  }

  // ---------------------------------------------------------------- frames

  predicate ChunkOk(chunk: seq<byte>) {
    1 <= |chunk| <= PAYLOAD_SIZE_MASK
  }

  predicate ChunksOk(chunks: seq<seq<byte>>) {
    forall i :: 0 <= i < |chunks| ==> ChunkOk(chunks[i])
  }

  /** Frame `k`: the sealed length under nonce 2k, then the sealed payload under nonce 2k+1. */
  ghost function Body(key: Key, salt: seq<byte>, k: nat, chunk: seq<byte>): (s: seq<byte>)
    requires Lawful(key) && ChunkOk(chunk)
    ensures |s| == 2 + key.overhead + |chunk| + key.overhead
  {
    key.seal(salt, Nonce(2 * k), BigEndian16(|chunk|)) + key.seal(salt, Nonce(2 * k + 1), chunk)
  }

  ghost function Frame(key: Key, salt: seq<byte>, k: nat, chunk: seq<byte>): (s: seq<byte>)
    requires Lawful(key) && ChunkOk(chunk)
  {
    (if SaltDue(k) then salt else []) + Body(key, salt, k, chunk)
  }

  /** Everything the writer puts on the wire for `chunks`. */
  ghost function Wire(key: Key, salt: seq<byte>, chunks: seq<seq<byte>>): (s: seq<byte>)
    requires Lawful(key) && ChunksOk(chunks)
  {
    if chunks == [] then [] else
    Wire(key, salt, chunks[..|chunks| - 1]) + Frame(key, salt, |chunks| - 1, chunks[|chunks| - 1])
  }

  lemma {:induction false} WireSnoc(key: Key, salt: seq<byte>, chunks: seq<seq<byte>>, c: seq<byte>)
    requires Lawful(key) && ChunksOk(chunks) && ChunkOk(c)
    ensures Wire(key, salt, chunks + [c]) == Wire(key, salt, chunks) + Frame(key, salt, |chunks|, c)
  {
    assert (chunks + [c])[..|chunks|] == chunks;
  }

  /** Frames `k`, `k+1`, ... without any salt. */
  ghost function Bodies(key: Key, salt: seq<byte>, k: nat, chunks: seq<seq<byte>>): (s: seq<byte>)
    requires Lawful(key) && ChunksOk(chunks)
    decreases chunks
  {
    if chunks == [] then [] else
    Body(key, salt, k, chunks[0]) + Bodies(key, salt, k + 1, chunks[1..])
  }

  lemma {:induction false} BodiesSnoc(key: Key, salt: seq<byte>, k: nat, chunks: seq<seq<byte>>, c: seq<byte>)
    requires Lawful(key) && ChunksOk(chunks) && ChunkOk(c)
    ensures Bodies(key, salt, k, chunks + [c]) == Bodies(key, salt, k, chunks) + Body(key, salt, k + |chunks|, c)
    decreases chunks
  {
    hide Body, Lawful;
    if chunks == [] {
      assert ([] + [c])[1..] == [];
    } else {
      assert (chunks + [c])[1..] == chunks[1..] + [c];
      BodiesSnoc(key, salt, k + 1, chunks[1..], c);
      Assoc(Body(key, salt, k, chunks[0]), Bodies(key, salt, k + 1, chunks[1..]), Body(key, salt, k + |chunks|, c));
    }
  }

  /** Within one counter period the wire is empty, or the salt once and then the frames. */
  lemma {:induction false} WireSaltOnce(key: Key, salt: seq<byte>, chunks: seq<seq<byte>>)
    requires Lawful(key) && ChunksOk(chunks) && |chunks| <= FRAME_PERIOD
    ensures Wire(key, salt, chunks) == if chunks == [] then [] else salt + Bodies(key, salt, 0, chunks)
  {
    if chunks != [] {
      var front, c := chunks[..|chunks| - 1], chunks[|chunks| - 1];
      assert chunks == front + [c];
      WireSaltOnce(key, salt, front);
      SaltDueFirst(|front|);
      WireSaltStep(key, salt, front, c);
    }
  }

  lemma {:induction false} WireSaltStep(key: Key, salt: seq<byte>, front: seq<seq<byte>>, c: seq<byte>)
    requires Lawful(key) && ChunksOk(front) && ChunkOk(c)
    requires SaltDue(|front|) <==> |front| == 0
    requires Wire(key, salt, front) == if front == [] then [] else salt + Bodies(key, salt, 0, front)
    ensures Wire(key, salt, front + [c]) == salt + Bodies(key, salt, 0, front + [c])
  {
    WireSnoc(key, salt, front, c);
    BodiesSnoc(key, salt, 0, front, c);
    SaltFirst(salt, Bodies(key, salt, 0, front), Body(key, salt, |front|, c));
  }

  lemma {:induction false} SaltFirst(salt: seq<byte>, bodies: seq<byte>, body: seq<byte>)
    ensures salt + bodies + ([] + body) == salt + (bodies + body)
    ensures bodies == [] ==> [] + (salt + body) == salt + (bodies + body)
  {
  }

  lemma {:induction false} BodyRepeats(key: Key, salt: seq<byte>, chunk: seq<byte>)
    requires Lawful(key) && ChunkOk(chunk)
    ensures Body(key, salt, FRAME_PERIOD, chunk) == Body(key, salt, 0, chunk)
  {
    hide LittleEndian;
    NoncesRepeat(0);
    NoncesRepeat(1);
  }

  /** Past the period the salt shows up again, in front of frame 2^95, under a nonce already used. */
  lemma {:induction false} WireSaltTwice(key: Key, salt: seq<byte>, chunks: seq<seq<byte>>)
    requires Lawful(key) && ChunksOk(chunks) && |chunks| == FRAME_PERIOD + 1
    ensures Wire(key, salt, chunks) ==
            salt + Bodies(key, salt, 0, chunks[..FRAME_PERIOD]) + salt
            + Body(key, salt, 0, chunks[FRAME_PERIOD])
  {
    var n := FRAME_PERIOD;
    hide Wire, Bodies, Body, SaltDue;
    assert chunks == chunks[..n] + [chunks[n]];
    WireSnoc(key, salt, chunks[..n], chunks[n]);
    WireSaltOnce(key, salt, chunks[..n]);
    SaltDueFirst(n);
    BodyRepeats(key, salt, chunks[n]);
  }

  // ---------------------------------------------------------------- decoding

  datatype Step = Chunk(payload: seq<byte>, rest: seq<byte>) | Stop(err: Err)

  datatype Decoded = Decoded(chunks: seq<seq<byte>>, err: Err)

  /** AEAD opening of message `k`; the plaintext is shorter than the sealed message by the overhead. */
  function Opened(key: Key, salt: seq<byte>, k: nat, sealed: seq<byte>): (r: Option<seq<byte>>)
    ensures r.Some? ==> |r.value| + key.overhead == |sealed|
  {
    var r := key.open(salt, Nonce(k), sealed);
    if r.Some? && |r.value| + key.overhead != |sealed| then None else r
  }

  /** The chunk size a sealed header announces, with its tag: the top two bits are ignored. */
  function SizeWithTag(key: Key, header: seq<byte>): (n: nat)
    requires |header| == 2
    ensures key.overhead <= n <= PAYLOAD_SIZE_MASK + key.overhead
  {
    FromBigEndian16(header) % (PAYLOAD_SIZE_MASK + 1) + key.overhead
  }

  /** One frame read off `data`, the stream after the salt, by a reader whose source ends with `end`. */
  function ReadFrame(key: Key, salt: seq<byte>, k: nat, data: seq<byte>, end: EndErr): (s: Step)
    ensures s.Chunk? ==> |s.rest| < |data|
    ensures s.Stop? ==> s.err != NoErr
  {
    var n := 2 + key.overhead;
    if |data| < n then Stop(FullErr(|data|, n, end)) else
    match Opened(key, salt, 2 * k, data[..n])
    case None => Stop(BadTag)
    case Some(header) =>
      var m := SizeWithTag(key, header);
      if PAYLOAD_SIZE_MASK + MAX_TAG_SIZE < m then Stop(ShortBuffer) else
      var rest := data[n..];
      if |rest| < m then Stop(if end == Eof then UnexpectedEof else end) else
      match Opened(key, salt, 2 * k + 1, rest[..m])
      case None => Stop(BadTag)
      case Some(payload) => Chunk(payload, rest[m..])
  }

  function DecodeFrames(key: Key, salt: seq<byte>, k: nat, data: seq<byte>, end: EndErr): (d: Decoded)
    ensures d.err != NoErr
    decreases |data|
  {
    match ReadFrame(key, salt, k, data, end)
    case Stop(err) => Decoded([], err)
    case Chunk(payload, rest) =>
      var d := DecodeFrames(key, salt, k + 1, rest, end);
      Decoded([payload] + d.chunks, d.err)
  }

  /** All the chunks of a stream that starts with its salt, and how it ends. */
  function DecodeStream(key: Key, data: seq<byte>, end: EndErr): (d: Decoded)
    ensures d.err != NoErr
  {
    if |data| < key.saltSize then Decoded([], FullErr(|data|, key.saltSize, end))
    else DecodeFrames(key, data[..key.saltSize], 0, data[key.saltSize..], end)
  }

  // ---------------------------------------------------------------- round trip

  /** How many frames, from frame `k` on, lie wholly before `cut`. */
  ghost function Whole(key: Key, chunks: seq<seq<byte>>, cut: nat): (w: nat)
    requires ChunksOk(chunks)
    ensures w <= |chunks|
  {
    if chunks == [] || cut < 2 + key.overhead + |chunks[0]| + key.overhead then 0
    else 1 + Whole(key, chunks[1..], cut - (2 + key.overhead + |chunks[0]| + key.overhead))
  }

  /** `Whole` is the number its name says: frame `w` is the first that does not end by `cut`. */
  lemma {:induction false} WholeMeaning(key: Key, salt: seq<byte>, k: nat, chunks: seq<seq<byte>>, cut: nat)
    requires Lawful(key) && ChunksOk(chunks)
    ensures var w := Whole(key, chunks, cut);
            && |Bodies(key, salt, k, chunks[..w])| <= cut
            && (w < |chunks| ==> cut < |Bodies(key, salt, k, chunks[..w + 1])|)
    decreases chunks
  {
    var w := Whole(key, chunks, cut);
    if w > 0 {
      var size := |Body(key, salt, k, chunks[0])|;
      WholeMeaning(key, salt, k + 1, chunks[1..], cut - size);
      assert chunks[..w][1..] == chunks[1..][..w - 1];
      if w < |chunks| {
        assert chunks[..w + 1][1..] == chunks[1..][..w];
      }
    } else if chunks != [] {
      assert chunks[..1][1..] == [];
    }
  }

  /** What a clean or torn ending is reported as. */
  function CutErr(onBoundary: bool, end: EndErr): (e: Err)
    ensures end == Eof ==> e == if onBoundary then Eof else UnexpectedEof
    ensures end != Eof ==> e == end
  {
    if end == Eof && !onBoundary then UnexpectedEof else end
  }

  /** A frame of any peer: the low 14 bits of the two opened bytes are the size of the payload. */
  lemma {:induction false} ReadParts(key: Key, salt: seq<byte>, k: nat, header: seq<byte>, payload: seq<byte>,
                                     a: byte, b: byte, plain: seq<byte>, rest: seq<byte>, end: EndErr)
    requires key.overhead <= 16 && |header| == 2 + key.overhead
    requires |plain| == (256 * a as int + b as int) % 16384 && |payload| == |plain| + key.overhead
    requires key.open(salt, Nonce(2 * k), header) == Some([a, b])
    requires key.open(salt, Nonce(2 * k + 1), payload) == Some(plain)
    ensures ReadFrame(key, salt, k, header + (payload + rest), end) == Chunk(plain, rest)
  {
    hide LittleEndian;
    var data, n, m := header + (payload + rest), 2 + key.overhead, |payload|;
    assert data[..n] == header && data[n..] == payload + rest;
    assert data[n..][..m] == payload && data[n..][m..] == rest;
  }

  /** A sealed message that does not open, or not to `len` bytes. */
  predicate Refuses(r: Option<seq<byte>>, len: nat) {
    r == None || |r.value| != len
  }

  /** What comes next is not a frame of somebody who has the key: its size does not open, or its size is that of
      `len` bytes, sealed as it should be, and the payload does not open. */
  ghost predicate Forged(key: Key, salt: seq<byte>, k: nat, len: nat, data: seq<byte>) {
    var n := 2 + key.overhead;
    |data| >= n
    && (Refuses(key.open(salt, Nonce(2 * k), data[..n]), 2)
        || (len < 16384 && |data| >= n + len + key.overhead
            && data[..n] == key.seal(salt, Nonce(2 * k), [len / 256, len % 256])
            && Refuses(key.open(salt, Nonce(2 * k + 1), data[n..n + len + key.overhead]), len)))
  }

  lemma {:induction false} ReadForged(key: Key, salt: seq<byte>, k: nat, len: nat, data: seq<byte>, end: EndErr)
    requires Lawful(key) && key.overhead <= 16 && Forged(key, salt, k, len, data)
    ensures ReadFrame(key, salt, k, data, end) == Stop(BadTag)
  {
    hide LittleEndian;
    var n := 2 + key.overhead;
    if !Refuses(key.open(salt, Nonce(2 * k), data[..n]), 2) {
      var m := len + key.overhead;
      assert key.open(salt, Nonce(2 * k), data[..n]) == Some([len / 256, len % 256]);
      assert data[n..][..m] == data[n..n + m];
    }
  }

  lemma {:induction false} DecodeForged(
    key: Key, salt: seq<byte>, k: nat, chunks: seq<seq<byte>>, len: nat, data: seq<byte>, end: EndErr)
    requires Lawful(key) && ChunksOk(chunks) && key.overhead <= 16
    requires Forged(key, salt, k + |chunks|, len, data)
    ensures DecodeFrames(key, salt, k, Bodies(key, salt, k, chunks) + data, end) == Decoded(chunks, BadTag)
    decreases chunks
  {
    hide Forged, Body, Bodies, Lawful, DecodeFrames;
    BodiesUnfold(key, salt, k, chunks);
    if chunks == [] {
      ForgedAtOnce(key, salt, k, len, data, end);
      assert [] + data == data;
    } else {
      var body, rest := Body(key, salt, k, chunks[0]), Bodies(key, salt, k + 1, chunks[1..]);
      Assoc(body, rest, data);
      DecodeCons(key, salt, k, chunks[0], rest + data, end);
      DecodeForged(key, salt, k + 1, chunks[1..], len, data, end);
      assert [chunks[0]] + chunks[1..] == chunks;
    }
  }

  lemma {:induction false} BodiesUnfold(key: Key, salt: seq<byte>, k: nat, chunks: seq<seq<byte>>)
    requires Lawful(key) && ChunksOk(chunks)
    ensures Bodies(key, salt, k, chunks) ==
            if chunks == [] then [] else Body(key, salt, k, chunks[0]) + Bodies(key, salt, k + 1, chunks[1..])
  {
  }

  lemma {:induction false} ForgedAtOnce(key: Key, salt: seq<byte>, k: nat, len: nat, data: seq<byte>, end: EndErr)
    requires Lawful(key) && key.overhead <= 16 && Forged(key, salt, k, len, data)
    ensures DecodeFrames(key, salt, k, data, end) == Decoded([], BadTag)
  {
    ReadForged(key, salt, k, len, data, end);
  }

  lemma {:induction false} ReadBody(key: Key, salt: seq<byte>, k: nat, chunk: seq<byte>, rest: seq<byte>, end: EndErr)
    requires Lawful(key) && ChunkOk(chunk) && key.overhead <= MAX_TAG_SIZE
    ensures ReadFrame(key, salt, k, Body(key, salt, k, chunk) + rest, end) == Chunk(chunk, rest)
  {
    hide LittleEndian, Nonce, ReadFrame;
    var header := key.seal(salt, Nonce(2 * k), BigEndian16(|chunk|));
    var payload := key.seal(salt, Nonce(2 * k + 1), chunk);
    var v := |chunk|;
    ReadParts(key, salt, k, header, payload, v / 256, v % 256, chunk, rest, end);
    Assoc(header, payload, rest);
  }

  lemma {:induction false} ReadTornBody(key: Key, salt: seq<byte>, k: nat, chunk: seq<byte>, cut: nat, end: EndErr)
    requires Lawful(key) && ChunkOk(chunk) && key.overhead <= MAX_TAG_SIZE
    requires cut < |Body(key, salt, k, chunk)|
    ensures ReadFrame(key, salt, k, Body(key, salt, k, chunk)[..cut], end) == Stop(CutErr(cut == 0, end))
  {
    hide LittleEndian;
    var header := key.seal(salt, Nonce(2 * k), BigEndian16(|chunk|));
    var n := 2 + key.overhead;
    if n <= cut {
      assert Body(key, salt, k, chunk)[..cut][..n] == header;
      assert FromBigEndian16(BigEndian16(|chunk|)) == |chunk|;
    }
  }

  lemma {:induction false} DecodeCons(key: Key, salt: seq<byte>, k: nat, chunk: seq<byte>, rest: seq<byte>, end: EndErr)
    requires Lawful(key) && ChunkOk(chunk) && key.overhead <= MAX_TAG_SIZE
    ensures var d := DecodeFrames(key, salt, k + 1, rest, end);
            DecodeFrames(key, salt, k, Body(key, salt, k, chunk) + rest, end) == Decoded([chunk] + d.chunks, d.err)
  {
    ReadBody(key, salt, k, chunk, rest, end);
  }

  lemma {:induction false} DecodeTorn(key: Key, salt: seq<byte>, k: nat, chunk: seq<byte>, cut: nat, end: EndErr)
    requires Lawful(key) && ChunkOk(chunk) && key.overhead <= MAX_TAG_SIZE
    requires cut < |Body(key, salt, k, chunk)|
    ensures DecodeFrames(key, salt, k, Body(key, salt, k, chunk)[..cut], end) == Decoded([], CutErr(cut == 0, end))
  {
    ReadTornBody(key, salt, k, chunk, cut, end);
  }

  lemma {:induction false} DecodeNothing(key: Key, salt: seq<byte>, k: nat, cut: nat, end: EndErr)
    requires Lawful(key) && cut <= |Bodies(key, salt, k, [])|
    ensures DecodeFrames(key, salt, k, Bodies(key, salt, k, [])[..cut], end) ==
            FramesResult(key, salt, k, [], cut, end)
  {
  }

  lemma {:induction false} BodiesCut(key: Key, salt: seq<byte>, k: nat, chunks: seq<seq<byte>>, cut: nat)
    requires Lawful(key) && ChunksOk(chunks) && chunks != [] && cut <= |Bodies(key, salt, k, chunks)|
    ensures var body := Body(key, salt, k, chunks[0]);
            Bodies(key, salt, k, chunks)[..cut] ==
            if cut < |body| then body[..cut] else body + Bodies(key, salt, k + 1, chunks[1..])[..cut - |body|]
    ensures cut <= |Body(key, salt, k, chunks[0])| + |Bodies(key, salt, k + 1, chunks[1..])|
  {
  }

  /** What a reader makes of the first `cut` bytes of the frames of `chunks`. */
  ghost function FramesResult(
    key: Key, salt: seq<byte>, k: nat, chunks: seq<seq<byte>>, cut: nat, end: EndErr): (d: Decoded)
    requires Lawful(key) && ChunksOk(chunks)
  {
    var w := Whole(key, chunks, cut);
    Decoded(chunks[..w], CutErr(cut == |Bodies(key, salt, k, chunks[..w])|, end))
  }

  lemma {:induction false} FramesResultCons(
    key: Key, salt: seq<byte>, k: nat, chunks: seq<seq<byte>>, cut: nat, end: EndErr)
    requires Lawful(key) && ChunksOk(chunks) && chunks != []
    ensures var size := |Body(key, salt, k, chunks[0])|;
            FramesResult(key, salt, k, chunks, cut, end) ==
            if cut < size then Decoded([], CutErr(cut == 0, end)) else
            var d := FramesResult(key, salt, k + 1, chunks[1..], cut - size, end);
            Decoded([chunks[0]] + d.chunks, d.err)
  {
    var w := Whole(key, chunks, cut);
    if w > 0 {
      assert chunks[..w] == [chunks[0]] + chunks[1..][..w - 1];
      assert chunks[..w][1..] == chunks[1..][..w - 1];
    }
  }

  lemma {:induction false} DecodeCutFrames(
    key: Key, salt: seq<byte>, k: nat, chunks: seq<seq<byte>>, cut: nat, end: EndErr)
    requires Lawful(key) && ChunksOk(chunks) && key.overhead <= MAX_TAG_SIZE
    requires cut <= |Bodies(key, salt, k, chunks)|
    ensures DecodeFrames(key, salt, k, Bodies(key, salt, k, chunks)[..cut], end) ==
            FramesResult(key, salt, k, chunks, cut, end)
    decreases chunks
  {
    hide DecodeFrames, FramesResult, Bodies, Body, Lawful;
    if chunks == [] {
      DecodeNothing(key, salt, k, cut, end);
    } else {
      var body := Body(key, salt, k, chunks[0]);
      BodiesCut(key, salt, k, chunks, cut);
      FramesResultCons(key, salt, k, chunks, cut, end);
      if cut < |body| {
        DecodeTorn(key, salt, k, chunks[0], cut, end);
      } else {
        DecodeCons(key, salt, k, chunks[0], Bodies(key, salt, k + 1, chunks[1..])[..cut - |body|], end);
        DecodeCutFrames(key, salt, k + 1, chunks[1..], cut - |body|, end);
      }
    }
  }

  /** What a reader makes of the first `cut` bytes of a writer's wire: exactly the chunks wholly before
      the cut, and a clean end exactly at 0, right after the salt, or at the end of a frame. */
  ghost function CutResult(key: Key, salt: seq<byte>, chunks: seq<seq<byte>>, cut: nat, end: EndErr): (d: Decoded)
    requires Lawful(key) && ChunksOk(chunks)
  {
    if cut < |salt| then Decoded([], CutErr(cut == 0, end))
    else FramesResult(key, salt, 0, chunks, cut - |salt|, end)
  }

  lemma {:induction false} DecodeAfterSalt(key: Key, salt: seq<byte>, data: seq<byte>, end: EndErr)
    requires |salt| == key.saltSize
    ensures DecodeStream(key, salt + data, end) == DecodeFrames(key, salt, 0, data, end)
  {
    assert (salt + data)[..|salt|] == salt && (salt + data)[|salt|..] == data;
  }

  lemma {:induction false} DecodeCutStream(key: Key, salt: seq<byte>, chunks: seq<seq<byte>>, cut: nat, end: EndErr)
    requires Lawful(key) && ChunksOk(chunks) && key.overhead <= MAX_TAG_SIZE && |salt| == key.saltSize
    requires cut <= |salt| + |Bodies(key, salt, 0, chunks)|
    ensures DecodeStream(key, (salt + Bodies(key, salt, 0, chunks))[..cut], end) ==
            CutResult(key, salt, chunks, cut, end)
  {
    hide DecodeFrames, FramesResult, Bodies, Lawful;
    var bodies := Bodies(key, salt, 0, chunks);
    if |salt| <= cut {
      assert (salt + bodies)[..cut] == salt + bodies[..cut - |salt|];
      DecodeAfterSalt(key, salt, bodies[..cut - |salt|], end);
      DecodeCutFrames(key, salt, 0, chunks, cut - |salt|, end);
    }
  }

  /** The wire of every run shorter than a counter period, cut at any byte, decodes to `CutResult`. */
  lemma {:induction false} DecodeCutWire(key: Key, salt: seq<byte>, chunks: seq<seq<byte>>, cut: nat, end: EndErr)
    requires Lawful(key) && ChunksOk(chunks) && key.overhead <= MAX_TAG_SIZE && |salt| == key.saltSize
    requires 0 < |chunks| <= FRAME_PERIOD
    ensures cut <= |Wire(key, salt, chunks)| ==>
              DecodeStream(key, Wire(key, salt, chunks)[..cut], end) == CutResult(key, salt, chunks, cut, end)
  {
    WireSaltOnce(key, salt, chunks);
    if cut <= |Wire(key, salt, chunks)| {
      DecodeCutStream(key, salt, chunks, cut, end);
    }
  }

  lemma {:induction false} WholeOfAll(key: Key, salt: seq<byte>, k: nat, chunks: seq<seq<byte>>)
    requires Lawful(key) && ChunksOk(chunks)
    ensures Whole(key, chunks, |Bodies(key, salt, k, chunks)|) == |chunks|
    decreases chunks
  {
    if chunks != [] {
      WholeOfAll(key, salt, k + 1, chunks[1..]);
    }
  }

  lemma {:induction false} DecodeStreamAll(key: Key, salt: seq<byte>, chunks: seq<seq<byte>>, end: EndErr)
    requires Lawful(key) && ChunksOk(chunks) && key.overhead <= MAX_TAG_SIZE && |salt| == key.saltSize
    ensures DecodeStream(key, salt + Bodies(key, salt, 0, chunks), end) == Decoded(chunks, end)
  {
    var stream := salt + Bodies(key, salt, 0, chunks);
    assert stream[..|stream|] == stream && chunks[..|chunks|] == chunks;
    DecodeCutStream(key, salt, chunks, |stream|, end);
    WholeOfAll(key, salt, 0, chunks);
  }

  /** The full round trip: everything written comes back, then the end of the source. */
  lemma {:induction false} DecodeWholeWire(key: Key, salt: seq<byte>, chunks: seq<seq<byte>>, end: EndErr)
    requires Lawful(key) && ChunksOk(chunks) && key.overhead <= MAX_TAG_SIZE && |salt| == key.saltSize
    requires 0 < |chunks| <= FRAME_PERIOD
    ensures DecodeStream(key, Wire(key, salt, chunks), end) == Decoded(chunks, end)
  {
    WireSaltOnce(key, salt, chunks);
    DecodeStreamAll(key, salt, chunks, end);
  }
}
