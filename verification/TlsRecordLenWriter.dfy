/** The streaming fragmenter: splits the first record by its length alone, without buffering it, on a
    `Write` path and on a `ReadFrom` path. */
module TlsRecordLenWriter {
  import opened Io
  import opened TlsRecord

  /** Most bytes that go out together with the second header. */
  const MTU: nat := 16384

  /** At most `limit` bytes of `p1` and then `p2`, in one write. */
  method WriteBothN(dst: Sink, p1: seq<byte>, p2: seq<byte>, limit: nat) returns (n1: nat, n2: nat, err: Err)
    modifies dst
    ensures n1 <= |p1| && n2 <= |p2| && n1 + n2 <= limit && (n2 > 0 ==> n1 == |p1|)
    ensures dst.received == old(dst.received) + p1[..n1] + p2[..n2]
    ensures err == NoErr ==> n1 + n2 == Min(limit, |p1| + |p2|)
    ensures old(dst.script) == [] ==> dst.script == [] && err == NoErr
    ensures |p1| > 0 ==> Played(old(dst.script), Min(limit, |p1| + |p2|), n1 + n2, err, dst.script)
    ensures dst.faults == old(dst.faults) + (if err == NoErr then 0 else 1) && (err == NoErr || err == dst.fault)
    // One call, for a second one would be a second packet.
    ensures dst.calls == old(dst.calls) + if |p1| < limit && p1 + p2 == [] then [] else [p1[..n1] + p2[..n2]]
  {
    hide Played;
    var n;
    if limit <= |p1| {
      n, err := dst.Write(p1[..limit]);
      assert p1[..limit][..n] == p1[..n] == p1[..n] + p2[..0];
      return n, 0, err;
    }
    var q := if |p1| + |p2| > limit then p2[..limit - |p1|] else p2;
    if p1 + q == [] {
      assert |p1 + q| == 0 && p1 + p2 == [];
      return 0, 0, NoErr;
    }
    n, err := dst.Write(p1 + q);
    if n <= |p1| {
      n1, n2 := n, 0;
      assert (p1 + q)[..n] == p1[..n] == p1[..n] + p2[..0];
    } else {
      n1, n2 := |p1|, n - |p1|;
      assert (p1 + q)[..n] == p1 + q[..n2] && q[..n2] == p2[..n2];
    }
    assert (p1 + q)[..n] == p1[..n1] + p2[..n2];
  }

  /** At most `limit` bytes of `p`. */
  method WriteN(dst: Sink, p: seq<byte>, limit: nat) returns (n: nat, err: Err)
    modifies dst
    ensures n <= |p| && n <= limit && dst.received == old(dst.received) + p[..n]
    ensures err == NoErr ==> n == Min(limit, |p|)
    ensures old(dst.script) == [] ==> dst.script == [] && err == NoErr
    ensures dst.faults == old(dst.faults) + (if err == NoErr then 0 else 1) && (err == NoErr || err == dst.fault)
    ensures dst.calls == old(dst.calls) + (if limit == 0 then [] else [p[..n]])
  {
    if limit == 0 {
      return 0, NoErr;
    }
    var q := if |p| > limit then p[..limit] else p;
    n, err := dst.Write(q);
    assert q[..n] == p[..n];
  }

  /** The caller's function that says where to split a record of a given length; it keeps count of its calls. */
  class SplitFunc {
    const f: nat -> int
    var calls: nat

    constructor (f: nat -> int)
      ensures this.f == f && calls == 0
    {
      this.f, calls := f, 0;
    }

    method Call(n: nat) returns (r: int)
      modifies this
      ensures r == f(n) && calls == old(calls) + 1
    {
      r, calls := f(n), calls + 1;
    }
  }

  class RecordLenWriter {
    const base: Sink
    const splitter: SplitFunc
    /** What `splitter` answers. */
    const frag: nat -> int
    /** The five header bytes that `hdr` and `tlsHdr` share: `hdr` is `raw[lo..hi]`. */
    const raw: array<byte>
    var lo: nat
    var hi: nat
    var done: bool
    var parsed: bool
    var r1Size: nat
    var r1Written: nat
    var r2Size: nat
    /** Every byte reported to the caller as consumed. */
    ghost var consumed: seq<byte>
    /** How many bytes of the second record went out ahead of its header. */
    ghost var over: nat

    /** Header bytes that are due on the wire, but have not been written. */
    ghost function Unsent(): (s: seq<byte>)
      requires raw.Length == HEADER_LEN && lo <= hi <= HEADER_LEN
      reads this, raw
    {
      if done then raw[lo..hi] else if parsed && r1Written < HEADER_LEN then raw[r1Written..] else []
    }

    ghost predicate FirstRecordOpen()
      requires |consumed| >= HEADER_LEN && raw.Length == HEADER_LEN
      reads this, raw
    {
      var h := consumed[..HEADER_LEN];
      && Splits(frag, h)
      && r1Size == frag(PayloadLen(h)) + HEADER_LEN
      && r2Size == PayloadLen(h) - frag(PayloadLen(h)) + HEADER_LEN
      && raw[..] == WithPayloadLen(h, frag(PayloadLen(h)))
      && r1Written < r1Size && HEADER_LEN < r1Size
      && |consumed| == (if r1Written < HEADER_LEN then HEADER_LEN else r1Written)
    }

    ghost predicate Shape()
      reads this, raw, splitter
    {
      && raw.Length == HEADER_LEN && lo <= hi <= HEADER_LEN && over < HEADER_LEN
      && splitter.f == frag && splitter.calls <= 1
      && (!parsed ==> !done && lo == 0 && hi < HEADER_LEN && consumed == raw[..hi]
                      && r1Written == 0 && over == 0 && splitter.calls == 0)
      && (parsed ==> hi == HEADER_LEN && |consumed| >= HEADER_LEN)
      && (parsed && !done ==> lo == 0 && over == 0 && FirstRecordOpen())
      && (done ==> Complete(frag, consumed, over) && (over > 0 ==> Splits(frag, consumed[..HEADER_LEN])))
    }

    /** `inFlight` has been handed to the base but not recorded there yet. */
    ghost predicate Flows(inFlight: seq<byte>)
      requires Shape()
      reads this, raw, base, splitter
    {
      base.received + inFlight + Unsent() == ImageOver(frag, consumed, over)
    }

    /** At all times: what the base has, and the header bytes still due, are the image of what was consumed. */
    ghost predicate Valid()
      reads this, raw, base, splitter
    {
      Shape() && Flows([])
    }

    /** A short write has ended strictly inside the first header. */
    ghost predicate TornHeader()
      reads this
    {
      parsed && !done && 0 < r1Written < HEADER_LEN
    }

    constructor (base: Sink, splitter: SplitFunc)
      requires base.received == [] && splitter.calls == 0
      ensures Valid() && !TornHeader() && consumed == [] && over == 0 && this.base == base && this.splitter == splitter
      ensures frag == splitter.f
      ensures fresh(raw)
    {
      this.base, this.splitter, frag := base, splitter, splitter.f;
      raw := new byte[HEADER_LEN];
      lo, hi, done, parsed := 0, 0, false, false;
      r1Size, r1Written, r2Size := 0, 0, 0;
      consumed, over := [], 0;
    }

    /** Sets the sizes of the two records, unless the split point is out of range. */
    method UpdateSplitRecordLens() returns (ok: bool)
      requires raw.Length == HEADER_LEN && splitter.f == frag
      modifies this`r1Size, this`r2Size, splitter
      ensures splitter.calls == old(splitter.calls) + 1
      ensures var n := PayloadLen(raw[..]);
              && ok == (0 < frag(n) < n)
              && (ok ==> r1Size == frag(n) + HEADER_LEN && r2Size == n - frag(n) + HEADER_LEN)
    {
      var total := PayloadLen(raw[..]);
      var split := splitter.Call(total);
      if split <= 0 || split >= total {
        return false;
      }
      r1Size, r2Size := split + HEADER_LEN, total - split + HEADER_LEN;
      return true;
    }

    /** Decides, once the header is complete, whether to split, and turns it into the first record's. */
    method Parse()
      requires raw.Length == HEADER_LEN && lo == 0 && hi == HEADER_LEN && !parsed && !done
      requires consumed == raw[..] && r1Written == 0 && over == 0
      requires splitter.calls == 0 && splitter.f == frag
      modifies this, raw, splitter
      ensures Shape() && parsed && consumed == old(consumed) && over == 0 && !TornHeader()
      ensures Unsent() == ImageOver(frag, consumed, over) && (!done ==> r1Written == 0)
    {
      hide ImageOver;
      ghost var h: Header := raw[..];
      assert h[..HEADER_LEN] == h;
      parsed := true;
      var ok := false;
      if ValidHeader(raw[..]) {
        ok := UpdateSplitRecordLens();
      }
      if !ok {
        done := true;
        ImageOfHeader(h);
      } else {
        SplitSizes(h);
        Relabel(r1Size - HEADER_LEN);
        assert raw[0..] == raw[..];
        ImageOfHeader(h);
      }
    }

    lemma {:induction false} ImageOfHeader(h: Header)
      ensures Image(frag, h) == if Splits(frag, h) then WithPayloadLen(h, frag(PayloadLen(h))) else h
    {
      assert h[..HEADER_LEN] == h && h[HEADER_LEN..] == [];
    }

    /** Collects header bytes from `p`; parses the header when that completes it. */
    method TakeHeader(p: seq<byte>) returns (n: nat)
      requires Valid() && !parsed
      modifies this, splitter, raw
      ensures Valid() && n <= |p| && consumed == old(consumed) + p[..n] && over == 0 && !TornHeader()
      ensures !parsed ==> n == |p| && Unsent() == []
      ensures n == Min(HEADER_LEN - |old(consumed)|, |p|) && (parsed <==> |consumed| == HEADER_LEN)
      ensures parsed && !done ==> r1Written == 0
    {
      hide ImageOver;
      n := Min(HEADER_LEN - hi, |p|);
      ghost var was := raw[..hi];
      ShortImage();
      forall i | 0 <= i < n {
        raw[hi + i] := p[i];
      }
      consumed := consumed + p[..n];
      assert raw[..hi + n] == was + p[..n];
      hi := hi + n;
      if hi < HEADER_LEN {
        ShortImage();
        return;
      }
      assert raw[..hi] == raw[..];
      Parse();
      assert base.received == [] && [] + [] + Unsent() == Unsent();
    }

    lemma {:induction false} ShortImage()
      requires |consumed| < HEADER_LEN
      ensures ImageOver(frag, consumed, over) == []
    {
    }

    /** Bookkeeping of both paths, after `sent` header bytes and then `x` went out inside the first record.
        `before` is everything the base has been handed so far. */
    method Advance(sent: nat, x: seq<byte>, ghost before: seq<byte>)
      requires Shape() && parsed && !done
      requires sent <= |Unsent()| && (|x| > 0 ==> sent == |Unsent()|)
      requires r1Written + sent + |x| < r1Size + HEADER_LEN
      requires before + Unsent() == ImageOver(frag, consumed, over)
      modifies this, raw
      ensures Shape() && parsed && consumed == old(consumed) + x
      ensures before + old(Unsent())[..sent] + x + Unsent() == ImageOver(frag, consumed, over)
      ensures r1Size == old(r1Size) && r1Written == old(r1Written) + sent + |x|
      ensures if r1Written < r1Size then !done && over == 0
              else done && over == r1Written - r1Size && Unsent() != []
    {
      hide ImageOver, Complete, WithPayloadLen, PayloadLen, Splits;
      ghost var was, h, pending := consumed, consumed[..HEADER_LEN], Unsent();
      ghost var late := r1Written + sent + |x| - r1Size;
      ImageFirst(frag, consumed, if late > 0 then late else 0, x);
      r1Written := r1Written + sent + |x|;
      consumed := consumed + x;
      Grown(before, pending, sent, x);
      assert x == [] ==> was + x == was;
      if r1Written >= r1Size {
        over := late;
        StartSecond(h);
      }
    }

    static lemma {:induction false} Grown(before: seq<byte>, pending: seq<byte>, sent: nat, x: seq<byte>)
      requires sent <= |pending| && (|x| > 0 ==> sent == |pending|)
      ensures before + pending[..sent] + x + pending[sent..] == before + pending + x
      ensures sent == |pending| ==> before + pending[..sent] + x == before + pending + x
    {
      assert sent == |pending| ==> pending[..sent] == pending;
      assert pending == pending[..sent] + pending[sent..];
    }

    /** Turns the header into the second record's and leaves the splitting state. */
    method StartSecond(ghost h: Header)
      requires raw.Length == HEADER_LEN && lo == 0 && hi == HEADER_LEN && Splits(frag, h)
      requires r2Size == PayloadLen(h) - frag(PayloadLen(h)) + HEADER_LEN
      requires raw[..] == WithPayloadLen(h, frag(PayloadLen(h)))
      modifies this`done, raw
      ensures done && Unsent() == raw[..] == WithPayloadLen(h, PayloadLen(h) - frag(PayloadLen(h)))
    {
      SplitSizes(h);
      hide WithPayloadLen, Splits, ValidHeader, PayloadLen;
      WithPayloadLenTwice(h, frag(PayloadLen(h)), PayloadLen(h) - frag(PayloadLen(h)));
      Relabel(r2Size - HEADER_LEN);
      done := true;
      assert raw[lo..hi] == raw[..];
    }

    lemma {:induction false} SplitSizes(h: Header)
      requires Splits(frag, h)
      ensures 1 <= frag(PayloadLen(h)) < PayloadLen(h) <= MAX_PAYLOAD_LEN
    {
    }

    /** Rewrites the length in the header. */
    method Relabel(n: nat)
      requires raw.Length == HEADER_LEN && 1 <= n <= MAX_PAYLOAD_LEN
      modifies raw
      ensures raw[..] == WithPayloadLen(old(raw[..]), n)
    {
      hide WithPayloadLen;
      assert raw[0..0 + HEADER_LEN] == raw[..];
      var _ := SetPayloadLen(raw, 0, n);
      assert raw[..] == raw[0..0 + HEADER_LEN];
    }

    /** The next write to the base will not get as far as a whole header. */
    static predicate NextTears(script: seq<Move>) {
      script != [] && script[0].size < HEADER_LEN
    }

    /** Writes inside the first record: what is left of its header, and payload up to its end. */
    method WriteFirst(p: seq<byte>) returns (m: nat, err: Err)
      requires Valid() && parsed && !done
      modifies this, base, raw
      ensures Valid() && parsed && m <= |p| && consumed == old(consumed) + p[..m]
      ensures !done && err == NoErr ==> m == |p| && Unsent() == []
      ensures old(r1Written) == 0 && NextTears(old(base.script)) ==>
                && err != NoErr && !done && m == 0 && r1Size == old(r1Size)
                && r1Written == old(base.script)[0].size && base.script == old(base.script)[1..]
      ensures over > 0 ==> old(TornHeader()) && |p| > old(r1Size) - HEADER_LEN && done
      ensures old(base.script) == [] ==> base.script == [] && err == NoErr && !TornHeader() && (done || Unsent() == [])
      ensures old(base.script) == [] && old(TornHeader()) && |p| > old(r1Size) - HEADER_LEN ==>
                over == Min(|p| - (old(r1Size) - HEADER_LEN), old(r1Written)) && over > 0
      ensures base.faults == old(base.faults) + (if err == NoErr then 0 else 1) && (err == NoErr || err == base.fault)
      ensures |base.calls| <= |old(base.calls)| + 1
    {
      hide ImageOver, FirstRecordOpen, NextTears, Complete, Splits, Flows;
      FirstFacts();
      if r1Written < HEADER_LEN {
        m, err := WriteFirstHeader(p);
      } else {
        m, err := WriteFirstPayload(p);
      }
    }

    method WriteFirstPayload(p: seq<byte>) returns (m: nat, err: Err)
      requires Valid() && parsed && !done && HEADER_LEN <= r1Written
      modifies this, base, raw
      ensures Valid() && parsed && m <= |p| && consumed == old(consumed) + p[..m] && over == 0
      ensures !done && err == NoErr ==> m == |p| && Unsent() == []
      ensures !TornHeader()
      ensures old(base.script) == [] ==> base.script == [] && err == NoErr && (done || Unsent() == [])
      ensures base.faults == old(base.faults) + (if err == NoErr then 0 else 1) && (err == NoErr || err == base.fault)
      ensures |base.calls| <= |old(base.calls)| + 1
    {
      hide ImageOver, FirstRecordOpen, Played, Complete, Splits, Flows;
      ghost var before, pending := base.received, Unsent();
      FirstFacts();
      m, err := WriteN(base, p, r1Size - r1Written);
      assert pending[..0] == [] && before + [] == before;
      Advance(0, p[..m], before);
      NowFlows();
    }

    lemma {:induction false} NowFlows()
      requires Shape() && base.received + Unsent() == ImageOver(frag, consumed, over)
      ensures Valid()
    {
      assert base.received + [] == base.received;
    }

    /** Bounded by the whole record, although `r1Written` bytes of it are out already. */
    method WriteFirstHeader(p: seq<byte>) returns (m: nat, err: Err)
      requires Valid() && parsed && !done && r1Written < HEADER_LEN
      modifies this, base, raw
      ensures Valid() && parsed && m <= |p| && consumed == old(consumed) + p[..m]
      ensures !done && err == NoErr ==> m == |p| && Unsent() == []
      ensures old(r1Written) == 0 && NextTears(old(base.script)) ==>
                && err != NoErr && !done && m == 0 && r1Size == old(r1Size)
                && r1Written == old(base.script)[0].size && base.script == old(base.script)[1..]
      ensures over > 0 ==> old(TornHeader()) && |p| > old(r1Size) - HEADER_LEN && done
      ensures old(base.script) == [] ==> base.script == [] && err == NoErr && !TornHeader() && (done || Unsent() == [])
      ensures old(base.script) == [] && old(TornHeader()) && |p| > old(r1Size) - HEADER_LEN ==>
                over == Min(|p| - (old(r1Size) - HEADER_LEN), old(r1Written)) && over > 0
      ensures base.faults == old(base.faults) + (if err == NoErr then 0 else 1) && (err == NoErr || err == base.fault)
      ensures |base.calls| <= |old(base.calls)| + 1
    {
      hide ImageOver, FirstRecordOpen, Played, NextTears, Complete, Splits, Flows;
      ghost var before, pending, moves := base.received, Unsent(), base.script;
      FirstFacts();
      var sent;
      sent, m, err := WriteBothN(base, raw[r1Written..HEADER_LEN], p, r1Size);
      assert raw[r1Written..HEADER_LEN] == pending;
      TornBy(moves, Min(r1Size, |pending| + |p|), sent + m, err, base.script);
      Advance(sent, p[..m], before);
      NowFlows();
    }

    static lemma {:induction false} TornBy(was: seq<Move>, size: nat, n: nat, err: Err, now: seq<Move>)
      requires Played(was, size, n, err, now)
      ensures size >= HEADER_LEN && NextTears(was) ==> err != NoErr && n == was[0].size < HEADER_LEN && now == was[1..]
    {
    }

    lemma {:induction false} FirstFacts()
      requires Valid() && parsed && !done
      ensures base.received + Unsent() == ImageOver(frag, consumed, over)
      ensures HEADER_LEN < r1Size && r1Written < r1Size && over == 0
    {
      hide ImageOver;
      assert base.received + [] == base.received;
    }

    /** One write of what is left of the pending header, followed by up to `MTU` bytes with it. */
    method FlushHeader(p: seq<byte>) returns (n: nat, err: Err)
      requires Valid() && done && lo < hi
      modifies this`lo, this`consumed, base
      ensures Valid() && n <= |p| && consumed == old(consumed) + p[..n]
      ensures err == NoErr ==> Unsent() == []
      ensures old(base.script) == [] ==> base.script == [] && err == NoErr
      ensures base.faults == old(base.faults) + (if err == NoErr then 0 else 1) && (err == NoErr || err == base.fault)
      ensures |base.calls| <= |old(base.calls)| + 1
    {
      hide ImageOver, Complete;
      ghost var before, pending := base.received, Unsent();
      assert before + [] == before;
      var sent;
      sent, n, err := WriteBothN(base, raw[lo..hi], p, MTU);
      ImageExtends(frag, consumed, over, p[..n]);
      lo, consumed := lo + sent, consumed + p[..n];
      assert Unsent() == pending[sent..] && pending == pending[..sent] + pending[sent..];
      Assoc(before, pending[..sent], pending[sent..]);
      assert n > 0 ==> pending[..sent] == pending;
      assert base.received + [] == base.received;
      assert n == 0 ==> p[..n] == [] && base.received == before + pending[..sent];
    }

    /** Writes behind the first record: what is left of the pending header first, then the payload. */
    method WriteRest(p: seq<byte>) returns (n: nat, err: Err)
      requires Valid() && done
      modifies this, base
      ensures Valid() && done && n <= |p| && consumed == old(consumed) + p[..n] && over == old(over)
      ensures err == NoErr ==> n == |p| && Unsent() == []
      ensures !TornHeader()
      ensures old(base.script) == [] ==> base.script == [] && err == NoErr
      ensures base.faults == old(base.faults) + (if err == NoErr then 0 else 1) && (err == NoErr || err == base.fault)
      ensures |base.calls| <= |old(base.calls)| + 2
    {
      hide ImageOver, Complete;
      n := 0;
      assert old(consumed) + p[..0] == old(consumed);
      if lo < hi {
        n, err := FlushHeader(p);
        if err != NoErr || n == |p| {
          return;
        }
      }
      assert Unsent() == [];
      ghost var mid := base.received;
      var m;
      m, err := base.Write(p[n..]);
      ImageExtends(frag, consumed, over, p[n..][..m]);
      consumed := consumed + p[n..][..m];
      TakeMore(old(consumed), p, n, m);
      n := n + m;
      assert base.received + [] + [] == base.received && mid + [] + [] == mid;
    }

    lemma {:induction false} WriteFacts()
      requires Valid()
      ensures !parsed || !done ==> over == 0
      ensures !parsed || done ==> !TornHeader()
      ensures parsed ==> |consumed| >= HEADER_LEN > 0
      ensures TornHeader() ==> parsed
      ensures done ==> parsed
    {
    }

    /** A header that has just been completed is split exactly when it is to be. */
    lemma {:induction false} FreshHeader()
      requires Valid() && parsed && over == 0
      ensures |consumed| == HEADER_LEN ==> (done <==> !Splits(frag, consumed))
      ensures |consumed| == HEADER_LEN && !done ==> r1Size == frag(PayloadLen(consumed)) + HEADER_LEN
    {
      hide ImageOver, PayloadLen, WithPayloadLen, ValidHeader;
      if |consumed| == HEADER_LEN {
        assert consumed[..HEADER_LEN] == consumed;
      }
    }

    /** `io.Writer`.  Over an accepting base every call takes all of `p`.  After a short write that tore the
        first header, a call that brings more than the rest of the first record pushes the second header
        back by `over` bytes; nothing else ever does. */
    method Write(p: seq<byte>) returns (n: nat, err: Err)
      requires Valid()
      modifies this, splitter, base, raw
      ensures Valid() && n <= |p| && consumed == old(consumed) + p[..n]
      ensures n < |p| ==> err != NoErr
      ensures err == NoErr ==> Unsent() == []
      // Short of a whole header, the first write to the base tears it.
      ensures old(consumed) == [] && |p| >= HEADER_LEN && Splits(frag, p[..HEADER_LEN])
              && NextTears(old(base.script)) ==>
                && err != NoErr && n == HEADER_LEN && base.script == old(base.script)[1..]
                && parsed && !done && r1Written == old(base.script)[0].size
                && r1Size == frag(PayloadLen(p[..HEADER_LEN])) + HEADER_LEN
      ensures over != old(over) ==> old(TornHeader()) && |p| > old(r1Size) - HEADER_LEN
      ensures old(base.script) == [] ==>
                && base.script == [] && n == |p| && err == NoErr && !TornHeader()
                && base.received == ImageOver(frag, consumed, over)
      ensures old(base.script) == [] && old(TornHeader()) && |p| > old(r1Size) - HEADER_LEN ==>
                over == Min(|p| - (old(r1Size) - HEADER_LEN), old(r1Written)) && over > 0
      ensures base.faults == old(base.faults) + (if err == NoErr then 0 else 1) && (err == NoErr || err == base.fault)
      ensures |base.calls| <= |old(base.calls)| + 3
    {
      hide *;
      WriteFacts();
      n, err := 0, NoErr;
      assert old(consumed) + p[..0] == old(consumed);
      if !done {
        n, err := WriteHead(p);
        WriteFacts();
        if !done || err != NoErr {
          AllSent();
          return;
        }
      }
      var m;
      m, err := WriteRest(p[n..]);
      TakeMore(old(consumed), p, n, m);
      n := n + m;
      AllSent();
    }

    /** The part of `Write` up to the end of the first record. */
    method WriteHead(p: seq<byte>) returns (n: nat, err: Err)
      requires Valid() && !done
      modifies this, splitter, base, raw
      ensures Valid() && n <= |p| && consumed == old(consumed) + p[..n]
      ensures !done && err == NoErr ==> n == |p| && Unsent() == []
      ensures old(consumed) == [] && |p| >= HEADER_LEN && Splits(frag, p[..HEADER_LEN])
              && NextTears(old(base.script)) ==>
                && err != NoErr && n == HEADER_LEN && base.script == old(base.script)[1..]
                && parsed && !done && r1Written == old(base.script)[0].size
                && r1Size == frag(PayloadLen(p[..HEADER_LEN])) + HEADER_LEN
      ensures over > 0 ==> old(TornHeader()) && |p| > old(r1Size) - HEADER_LEN && done
      ensures old(base.script) == [] ==> base.script == [] && err == NoErr && !TornHeader() && (done || Unsent() == [])
      ensures old(base.script) == [] && old(TornHeader()) && |p| > old(r1Size) - HEADER_LEN ==>
                over == Min(|p| - (old(r1Size) - HEADER_LEN), old(r1Written)) && over > 0
      ensures base.faults == old(base.faults) + (if err == NoErr then 0 else 1) && (err == NoErr || err == base.fault)
      ensures |base.calls| <= |old(base.calls)| + 1
    {
      hide *;
      WriteFacts();
      n, err := 0, NoErr;
      assert old(consumed) + p[..0] == old(consumed) && p[0..] == p;
      if !parsed {
        n := TakeHeader(p);
        WriteFacts();
        if !parsed {
          return;
        }
        assert old(consumed) == [] ==> consumed == p[..n];
        FreshHeader();
      }
      if !done {
        var m;
        m, err := WriteFirst(p[n..]);
        TakeMore(old(consumed), p, n, m);
        n := n + m;
      }
    }

    // -------------------------------------------------------------- the ReadFrom path

    /** Reads the rest of the header from `src` and parses it. */
    method FillHeader(src: Source) returns (got: nat)
      requires Valid() && !parsed
      modifies this, splitter, raw, src
      ensures Valid() && over == 0 && !TornHeader()
      ensures old(consumed) + old(src.data) == consumed + src.data
      ensures if parsed then src.Left() < old(src.Left()) && (!done ==> r1Written == 0) else src.data == []
      ensures src.Left() <= old(src.Left()) && got + |src.data| == |old(src.data)|
    {
      hide ImageOver, Complete, FirstRecordOpen, Splits;
      ShortImage();
      assert base.received == [];
      got := ReadHeader(src);
      if hi < HEADER_LEN {
        ShortImage();
        return;
      }
      assert raw[..hi] == raw[..];
      Parse();
      assert [] + [] + Unsent() == Unsent();
    }

    method ReadHeader(src: Source) returns (got: nat)
      requires Shape() && !parsed
      modifies this`hi, this`consumed, raw, src
      ensures lo <= hi <= HEADER_LEN && consumed == raw[..hi] && hi == old(hi) + got
      ensures got + |src.data| == |old(src.data)| && old(consumed) + old(src.data) == consumed + src.data
      ensures if hi == HEADER_LEN then src.Left() < old(src.Left()) else src.data == [] && src.Left() <= old(src.Left())
    {
      hide Complete, FirstRecordOpen, Splits;
      ghost var was, data := raw[..hi], src.data;
      var err;
      got, err := src.ReadFull(raw, hi, HEADER_LEN);
      assert raw[..hi + got] == raw[..hi] + raw[hi..hi + got] && raw[..hi] == was;
      hi, consumed := hi + got, consumed + data[..got];
      Assoc(was, data[..got], src.data);
    }

    /** Payload of the first record, straight from `src`, after the header has been copied to `out`. */
    method FirstPayload(src: Source, cap: nat, ghost sent: seq<byte>) returns (m: seq<byte>, err: Err)
      requires Shape() && parsed && !done && Unsent() == [] && Flows(sent) && src.end == Eof && 0 < cap
      modifies this, raw, src
      ensures Shape() && Flows(sent + m) && over == 0 && |m| <= cap && |m| + |src.data| == |old(src.data)|
      ensures old(consumed) + old(src.data) == consumed + src.data
      ensures err == NoErr || (err == Eof && src.data == [])
      ensures err == Eof && !done ==> Unsent() == []
      ensures if err == NoErr then src.Left() < old(src.Left()) else src.Left() <= old(src.Left())
    {
      hide ImageOver, Complete, Splits;
      m, err := src.Next(Min(cap, r1Size - r1Written));
      assert base.received + sent + [] == base.received + sent;
      Advance(0, m, base.received + sent);
      Assoc(old(consumed), m, src.data);
      Assoc(base.received, sent, m);
      assert base.received + sent + [] + m == base.received + (sent + m);
    }

    /** `fixedLenFirstRecordReader.Read`: the first record, its header rewritten.  `got` is what the call adds to
        `rReadLen`: the bytes that came from `src`, not those of the header that goes out again. */
    method FirstRead(src: Source, cap: nat) returns (out: seq<byte>, err: Err, got: nat)
      requires Valid() && src.end == Eof && 0 < cap
      modifies this, splitter, raw, src
      ensures Shape() && Flows(out) && over == old(over)
      ensures old(consumed) + old(src.data) == consumed + src.data
      ensures (err == NoErr || err == Eof) && got + |src.data| == |old(src.data)|
      ensures err == Eof && !done ==> src.data == [] && Unsent() == []
      ensures src.Left() <= old(src.Left())
      ensures err == NoErr && src.Left() == old(src.Left()) ==> |Unsent()| < |old(Unsent())|
    {
      hide ImageOver, Complete, FirstRecordOpen, Splits;
      got := 0;
      if done {
        return [], Eof, got;
      }
      if !parsed {
        var m := FillHeader(src);
        got := got + m;
        if !parsed || done {
          return [], Eof, got;
        }
      }
      out := CopyHeader(cap);
      if |out| == cap {
        return out, NoErr, got;
      }
      var m;
      m, err := FirstPayload(src, cap - |out|, out);
      out, got := out + m, got + |m|;
    }

    /** Copies what is left of the first header. */
    method CopyHeader(cap: nat) returns (out: seq<byte>)
      requires Valid() && parsed && !done && 0 < cap
      modifies this, raw
      ensures Shape() && parsed && !done && Flows(out) && over == 0 && consumed == old(consumed)
      ensures |out| <= cap && |Unsent()| == |old(Unsent())| - |out|
      ensures |out| < cap ==> Unsent() == []
    {
      hide ImageOver, Complete, Splits;
      FirstFacts();
      out := [];
      if r1Written < HEADER_LEN {
        var pending := raw[r1Written..];
        var n := Min(cap, |pending|);
        out := pending[..n];
        ghost var was := base.received;
        Advance(n, [], was);
        assert was + out + [] + Unsent() == was + out + Unsent();
      }
    }

    /** `fixedLenRemainingRecordReader.Read`: the pending header, then whatever is left of `src`. */
    method RestRead(src: Source, cap: nat) returns (out: seq<byte>, err: Err, got: nat)
      requires Valid() && src.end == Eof && 0 < cap
      modifies this`lo, this`consumed, src
      ensures Shape() && Flows(out) && over == old(over)
      ensures old(consumed) + old(src.data) == consumed + src.data
      ensures (err == NoErr || err == Eof) && got + |src.data| == |old(src.data)|
      ensures err == Eof && done ==> src.data == [] && Unsent() == []
      ensures !done ==> err == Eof && out == [] && unchanged(this) && unchanged(src)
      ensures src.Left() <= old(src.Left())
      ensures err == NoErr && src.Left() == old(src.Left()) ==> |Unsent()| < |old(Unsent())|
    {
      hide ImageOver, Complete, Splits, FirstRecordOpen, Flows;
      if !done {
        return [], Eof, 0;
      }
      out := CopyPending(cap);
      if lo < hi {
        return out, NoErr, 0;
      }
      var m;
      m, err := RestPayload(src, cap - |out|, out);
      out, got := out + m, |m|;
    }

    /** Copies what is left of the pending header. */
    method CopyPending(cap: nat) returns (out: seq<byte>)
      requires Valid() && done
      modifies this`lo
      ensures Shape() && Flows(out) && |out| == Min(cap, |old(Unsent())|)
      ensures |Unsent()| == |old(Unsent())| - |out| && (lo == hi ==> Unsent() == [])
    {
      hide ImageOver, Complete, Splits, FirstRecordOpen;
      ghost var was, pending := base.received, Unsent();
      assert was + [] == was;
      var n := Min(cap, hi - lo);
      out := raw[lo..lo + n];
      lo := lo + n;
      assert pending == out + Unsent();
      Assoc(was, out, Unsent());
    }

    /** Payload behind the first record, straight from `src`, after the pending header has been copied to `sent`. */
    method RestPayload(src: Source, cap: nat, ghost sent: seq<byte>) returns (m: seq<byte>, err: Err)
      requires Shape() && done && Unsent() == [] && Flows(sent) && src.end == Eof
      modifies this`consumed, src
      ensures Shape() && Flows(sent + m) && |m| + |src.data| == |old(src.data)|
      ensures old(consumed) + old(src.data) == consumed + src.data
      ensures err == NoErr || (err == Eof && src.data == [])
      ensures if 0 < cap && err == NoErr then src.Left() < old(src.Left()) else src.Left() <= old(src.Left())
    {
      hide ImageOver, Complete, Splits, FirstRecordOpen;
      ghost var before, was := consumed, base.received;
      m, err := src.Next(cap);
      ImageExtends(frag, consumed, over, m);
      consumed := consumed + m;
      Assoc(before, m, src.data);
      Assoc(was, sent, m);
      assert was + sent + [] == was + sent && was + (sent + m) + [] == was + (sent + m);
    }

    /** `io.MultiReader` over the two readers; `stage` counts the readers that have ended, `got1` and `got2` what
        the call adds to their counters. */
    method MultiRead(src: Source, cap: nat, stage: nat)
      returns (out: seq<byte>, err: Err, stage': nat, got1: nat, got2: nat)
      requires Valid() && src.end == Eof && 0 < cap && stage <= 2
      requires stage == 1 && !done ==> src.data == [] && Unsent() == []
      requires stage == 2 ==> src.data == [] && Unsent() == []
      modifies this, splitter, raw, src
      ensures Shape() && Flows(out) && over == old(over) && stage <= stage' <= 2
      ensures old(consumed) + old(src.data) == consumed + src.data
      ensures got1 + got2 + |src.data| == |old(src.data)|
      ensures stage' == 1 && !done ==> src.data == [] && Unsent() == []
      ensures stage' == 2 ==> src.data == [] && Unsent() == []
      ensures if err == NoErr
              then stage' > stage || src.Left() < old(src.Left())
                   || (src.Left() == old(src.Left()) && |Unsent()| < |old(Unsent())|)
              else err == Eof && stage' == 2 && out == []
    {
      hide ImageOver, Complete, Splits, FirstRecordOpen;
      stage', got1, got2 := stage, 0, 0;
      if stage' == 0 {
        out, err, got1 := FirstRead(src, cap);
        if err != Eof {
          return;
        }
        stage' := 1;
        if out != [] {
          err := NoErr;
          return;
        }
      }
      if stage' == 1 {
        out, err, got2 := RestRead(src, cap);
        if err != Eof {
          return;
        }
        stage' := 2;
        if out != [] {
          err := NoErr;
          return;
        }
      }
      out, err := [], Eof;
    }

    /** `io.ReaderFrom` over an accepting base that reads with buffers of any positive sizes.  Whatever was
        written before, also half a header, the base ends up with the image of everything consumed, and the
        result, the sum of the two readers' counters, is the number of bytes taken from `src`. */
    method ReadFrom(src: Source, caps: nat -> nat) returns (n: nat, err: Err)
      requires Valid() && src.end == Eof && base.script == []
      requires forall i :: caps(i) > 0
      modifies this, splitter, raw, base, src
      ensures Valid() && over == old(over) && base.script == [] && !TornHeader()
      ensures consumed == old(consumed) + old(src.data) && src.data == [] && n == |old(src.data)| && err == NoErr
      ensures base.received == ImageOver(frag, consumed, over)
    {
      hide ImageOver, Complete, Splits, FirstRecordOpen, Flows;
      // With nothing due the base reads `src` itself, which is what the second reader then does.
      var stage, i := if done && lo == hi then 1 else 0, 0;
      var readLen1, readLen2 := 0, 0;
      ghost var input := old(consumed) + src.data;
      err := NoErr;
      while err == NoErr
        invariant Valid() && over == old(over) && base.script == [] && stage <= 2
        invariant consumed + src.data == input && readLen1 + readLen2 + |src.data| == |old(src.data)|
        invariant stage == 1 && !done ==> src.data == [] && Unsent() == []
        invariant stage == 2 ==> src.data == [] && Unsent() == []
        invariant err == NoErr || (err == Eof && stage == 2)
        decreases err == NoErr, 2 - stage, src.Left(), |Unsent()|
      {
        var out, got1, got2;
        out, err, stage, got1, got2 := MultiRead(src, caps(i), stage);
        Delivered(out);
        readLen1, readLen2, i := readLen1 + got1, readLen2 + got2, i + 1;
      }
      AllSent();
      n, err := readLen1 + readLen2, NoErr;
    }

    /** The base takes what it has read. */
    method Delivered(out: seq<byte>)
      requires Shape() && Flows(out) && base.script == []
      modifies base
      ensures Valid() && base.script == []
    {
      hide ImageOver, Complete, Splits, FirstRecordOpen;
      ghost var was := base.received;
      var n, _ := base.Write(out);
      assert out[..n] == out && base.received + [] == was + out;
    }

    lemma {:induction false} AllSent()
      requires Valid()
      ensures Unsent() == [] ==> base.received == ImageOver(frag, consumed, over)
    {
      hide ImageOver, Complete, Splits, FirstRecordOpen;
      assert base.received + [] + [] == base.received;
    }
  }

  // ---------------------------------------------------------------- whole runs

  /** A call resumed over a base that now accepts everything leaves the stream right if and only if it was
      not resumed inside the first header with more than the rest of the first record in hand. */
  method ResumedWriteRight(w: RecordLenWriter, p: seq<byte>) returns (right: bool)
    requires w.Valid() && w.base.script == [] && w.over == 0
    modifies w, w.base, w.raw, w.splitter
    ensures w.Valid() && w.consumed == old(w.consumed) + p
    ensures right <==> w.base.received == Image(w.frag, w.consumed)
    ensures right <==> !(old(w.TornHeader()) && |p| > old(w.r1Size) - HEADER_LEN)
  {
    hide ImageOver;
    right := !(w.parsed && !w.done && 0 < w.r1Written < HEADER_LEN && |p| > w.r1Size - HEADER_LEN);
    var n, err := w.Write(p);
    assert p[..n] == p;
    if w.done {
      LateHeaderIsWrong(w.frag, w.consumed, w.over);
    }
  }

  /** A record of four payload bytes. */
  function TornInput(): (s: seq<byte>)
    ensures |s| == HEADER_LEN + 4
  {
    [22, 3, 1, 0, 4, 1, 2, 3, 4]
  }

  /** Its image, split in the middle, and what becomes of it if the second header is two bytes late. */
  lemma {:induction false} TornImages(frag: nat -> int)
    requires frag(4) == 2
    ensures Splits(frag, TornInput()[..HEADER_LEN]) && PayloadLen(TornInput()[..HEADER_LEN]) == 4
    ensures Image(frag, TornInput()) == [22, 3, 1, 0, 2, 1, 2, 22, 3, 1, 0, 2, 3, 4]
    ensures ImageOver(frag, TornInput(), 2) == [22, 3, 1, 0, 2, 1, 2, 3, 4, 22, 3, 1, 0, 2]
  {
    var s := TornInput();
    assert s[..5] == [22, 3, 1, 0, 4] && s[5..] == [1, 2, 3, 4];
    assert PayloadLen([22, 3, 1, 0, 4]) == 4;
    assert [1, 2, 3, 4][..2] == [1, 2] && [1, 2, 3, 4][2..] == [3, 4];
    assert [1, 2, 3, 4][..4] == [1, 2, 3, 4] && [1, 2, 3, 4][4..] == [];
  }

  /** A writer that goes wrong: the base takes two bytes and fails, the caller retries with what was not taken,
      and two bytes of the second record go out ahead of its header. */
  method TornHeaderExample() returns (w: RecordLenWriter)
    ensures w.Valid() && w.consumed == TornInput() && w.frag(4) == 2
    ensures w.base.received == [22, 3, 1, 0, 2, 1, 2, 3, 4, 22, 3, 1, 0, 2]
    ensures Image(w.frag, w.consumed) == [22, 3, 1, 0, 2, 1, 2, 22, 3, 1, 0, 2, 3, 4]
  {
    hide ImageOver, Image, Splits, PayloadLen, TornInput, RecordLenWriter.Valid;
    var base := new Sink([Move(2, true)], Fault);
    var splitter := new SplitFunc(_ => 2);
    w := new RecordLenWriter(base, splitter);
    TornImages(w.frag);
    var p := TornInput();
    var n, _ := w.Write(p);
    assert [] + p[..n] == p[..n];
    var _, _ := w.Write(p[n..]);
    assert p[n..][..4] == p[n..] && p[..n] + p[n..] == p;
  }

  /** One call on the writer over an accepting base. */
  datatype Call = Bytes(p: seq<byte>) | Pull(data: seq<byte>, script: seq<Move>, caps: nat -> nat)
  {
    function Input(): (s: seq<byte>) {
      if Bytes? then p else data
    }

    ghost predicate Ok() {
      Pull? ==> forall k :: caps(k) > 0
    }
  }

  function Inputs(calls: seq<Call>): (s: seq<byte>) {
    if calls == [] then [] else Inputs(calls[..|calls| - 1]) + calls[|calls| - 1].Input()
  }

  ghost predicate CallsOk(calls: seq<Call>) {
    forall i :: 0 <= i < |calls| ==> calls[i].Ok()
  }

  method Perform(w: RecordLenWriter, call: Call)
    requires w.Valid() && !w.TornHeader() && w.over == 0 && w.base.script == [] && call.Ok()
    modifies w, w.base, w.raw, w.splitter
    ensures w.Valid() && !w.TornHeader() && w.over == 0 && w.base.script == []
    ensures w.consumed == old(w.consumed) + call.Input()
    ensures w.base.received == Image(w.frag, w.consumed)
  {
    hide ImageOver, RecordLenWriter.Valid;
    match call {
      case Bytes(p) =>
        var n, _ := w.Write(p);
        assert p[..n] == p;
      case Pull(data, script, caps) =>
        var src := new Source(data, script, Eof);
        var _, _ := w.ReadFrom(src, caps);
    }
  }

  /** However the input is cut into calls, and whichever path each piece takes, an accepting base has
      received exactly the image of the input, and the split function has run at most once. */
  method Run(base: Sink, frag: nat -> int, calls: seq<Call>) returns (w: RecordLenWriter)
    requires base.received == [] && base.script == [] && CallsOk(calls)
    modifies base
    ensures w.base == base && base.received == Image(frag, Inputs(calls))
    ensures w.splitter.f == frag && w.splitter.calls <= 1
  {
    var splitter := new SplitFunc(frag);
    w := new RecordLenWriter(base, splitter);
    NothingYet(w);
    hide Image, ImageOver, RecordLenWriter.Valid;
    for i := 0 to |calls|
      invariant w.Valid() && !w.TornHeader() && w.over == 0 && base.script == []
      invariant w.base == base && w.frag == frag && fresh(w) && fresh(w.raw) && w.splitter == splitter
      invariant w.consumed == Inputs(calls[..i]) && base.received == Image(frag, w.consumed)
    {
      assert calls[..i + 1][..i] == calls[..i];
      Perform(w, calls[i]);
    }
    assert calls[..|calls|] == calls;
    CalledOnce(w);
  }

  /** The same in bytes: whatever does not start like a handshake record, or is not to be split, passes as it is. */
  method RunInBytes(base: Sink, frag: nat -> int, calls: seq<Call>) returns (w: RecordLenWriter)
    requires base.received == [] && base.script == [] && CallsOk(calls)
    modifies base
    ensures var s := Inputs(calls);
            |s| >= 5 ==>
              var len := 256 * s[3] as int + s[4] as int;
              if s[0] != 22 || s[1] != 3 || s[2] < 1 || s[2] > 4 || len == 0 || len > 16384
                 || frag(len) <= 0 || frag(len) >= len
              then base.received == s
              else var a := frag(len);
                   |s| >= 5 + a ==>
                     base.received == [22, 3, s[2], a / 256, a % 256] + s[5..5 + a]
                                      + [22, 3, s[2], (len - a) / 256, (len - a) % 256] + s[5 + a..]
  {
    hide Image, ImageOver, Inputs;
    w := Run(base, frag, calls);
    if |Inputs(calls)| >= 5 {
      ImageBytes(frag, Inputs(calls));
    }
  }

  lemma {:induction false} NothingYet(w: RecordLenWriter)
    requires w.base.received == [] && w.consumed == []
    ensures w.base.received == Image(w.frag, w.consumed)
  {
  }

  lemma {:induction false} CalledOnce(w: RecordLenWriter)
    requires w.Valid()
    ensures w.splitter.calls <= 1 && w.splitter.f == w.frag
  {
  }

  /** A stream handed on in `Write` calls of any sizes. */
  function Chopped(s: seq<byte>, sizes: nat -> nat, k: nat): (calls: seq<Call>)
    decreases |s|
  {
    if s == [] then [] else
    var rest := |s| - Min(1 + sizes(k), |s|);
    Chopped(s[..rest], sizes, k + 1) + [Bytes(s[rest..])]
  }

  lemma {:induction false} ChoppedInputs(s: seq<byte>, sizes: nat -> nat, k: nat)
    ensures Inputs(Chopped(s, sizes, k)) == s && CallsOk(Chopped(s, sizes, k))
    decreases |s|
  {
    if s != [] {
      var rest := |s| - Min(1 + sizes(k), |s|);
      var front, last := Chopped(s[..rest], sizes, k + 1), Bytes(s[rest..]);
      ChoppedInputs(s[..rest], sizes, k + 1);
      assert Chopped(s, sizes, k) == front + [last] && (front + [last])[..|front|] == front;
      assert s[..rest] + s[rest..] == s;
    }
  }

  /** A stack of writers, each the base of the one before, whatever calls the bytes arrive in at every level: the
      last base receives the image of the image of the input. */
  method RunNested(frags: seq<nat -> int>, calls: seq<Call>, sizes: seq<nat -> nat>) returns (out: seq<byte>)
    requires CallsOk(calls) && |sizes| == |frags|
    ensures out == Nested(frags, Inputs(calls))
    decreases |frags|
  {
    hide Image, Inputs, CallsOk, Chopped;
    if frags == [] {
      return Inputs(calls);
    }
    var base := new Sink([], Eof);
    var _ := Run(base, frags[0], calls);
    ChoppedInputs(base.received, sizes[0], 0);
    out := RunNested(frags[1..], Chopped(base.received, sizes[0], 0), sizes[1..]);
  }

  /** So a stack of writers turns a handshake record into records of the same type and version, none of them
      empty or too long, whose payloads join to the original one; what follows the record is untouched. */
  method RunNestedRecord(frags: seq<nat -> int>, prefix: seq<byte>, payload: seq<byte>, rest: seq<byte>,
                         calls: seq<Call>, sizes: seq<nat -> nat>)
    returns (out: seq<byte>, parts: seq<seq<byte>>)
    requires HandshakePrefix(prefix) && 1 <= |payload| <= MAX_PAYLOAD_LEN && |sizes| == |frags|
    requires CallsOk(calls) && Inputs(calls) == Record(prefix, payload) + rest
    ensures PartsOk(parts) && out == Records(prefix, parts) + rest && Flatten(parts) == payload
  {
    hide Inputs, CallsOk, Nested, NestedParts, Record;
    out := RunNested(frags, calls, sizes);
    assert [payload][1..] == [] && Record(prefix, payload) + [] == Record(prefix, payload) && payload + [] == payload;
    NestedSplit(frags, prefix, [payload], rest);
    parts := NestedParts(frags, [payload]);
  }
}
