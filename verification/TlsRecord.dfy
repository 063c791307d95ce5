/** TLS record headers (section 5.1 of RFC 8446) and the two ways the package fragments the first record. */
module TlsRecord {
  import opened Io

  const HEADER_LEN: nat := 5
  const MAX_PAYLOAD_LEN: nat := 16384
  const HANDSHAKE: byte := 22

  /** Type, version and length of a record. */
  type Header = h: seq<byte> | |h| == HEADER_LEN witness [0, 0, 0, 0, 0]

  function PayloadLen(h: Header): (n: nat)
    ensures n < 0x1_0000
  {
    h[3] as int * 256 + h[4] as int
  }

  function WithPayloadLen(h: Header, n: nat): (r: Header)
    requires n < 0x1_0000
    ensures PayloadLen(r) == n && r[..3] == h[..3]
  {
    h[..3] + [n / 256, n % 256]
  }

  lemma {:induction false} WithPayloadLenTwice(h: Header, m: nat, n: nat)
    requires m < 0x1_0000 && n < 0x1_0000
    ensures WithPayloadLen(WithPayloadLen(h, m), n) == WithPayloadLen(h, n)
  {
  }

  /** What `Validate` accepts: a non-empty handshake record of TLS 1.0 to 1.3. */
  predicate ValidHeader(h: Header) {
    h[0] == HANDSHAKE && h[1] == 3 && 1 <= h[2] <= 4 && 1 <= PayloadLen(h) <= MAX_PAYLOAD_LEN
  }

  /** `SetPayloadLen` on the header held in `b`. */
  method SetPayloadLen(b: array<byte>, at: nat, n: nat) returns (ok: bool)
    requires at + HEADER_LEN <= b.Length && n < 0x1_0000
    modifies b
    ensures ok == (1 <= n <= MAX_PAYLOAD_LEN)
    ensures b[at..at + HEADER_LEN] ==
            if ok then WithPayloadLen(old(b[at..at + HEADER_LEN]), n) else old(b[at..at + HEADER_LEN])
    ensures forall i :: 0 <= i < b.Length && !(at + 3 <= i < at + HEADER_LEN) ==> b[i] == old(b[i])
  {
    ghost var h := b[at..at + HEADER_LEN];
    ok := 1 <= n <= MAX_PAYLOAD_LEN;
    if ok {
      b[at + 3], b[at + 4] := n / 256, n % 256;
      assert b[at..at + HEADER_LEN][..3] == h[..3];
      assert b[at..at + HEADER_LEN] == b[at..at + HEADER_LEN][..3] + [n / 256, n % 256];
    }
  }

  /** Where the writer is to split a record with this header, if it is to split it at all. */
  predicate Splits(frag: nat -> int, h: Header) {
    ValidHeader(h) && 0 < frag(PayloadLen(h)) < PayloadLen(h)
  }

  /** Both pieces' headers are valid, and keep type and version. */
  lemma {:induction false} PiecesValid(frag: nat -> int, h: Header)
    requires Splits(frag, h)
    ensures var first := WithPayloadLen(h, frag(PayloadLen(h)));
            var second := WithPayloadLen(h, PayloadLen(h) - frag(PayloadLen(h)));
            && ValidHeader(first) && ValidHeader(second) && first[..3] == second[..3] == h[..3]
            && PayloadLen(first) + PayloadLen(second) == PayloadLen(h)
  {
    var r := WithPayloadLen(h, frag(PayloadLen(h)));
    assert r[0] == r[..3][0] && r[1] == r[..3][1] && r[2] == r[..3][2];
    var t := WithPayloadLen(h, PayloadLen(h) - frag(PayloadLen(h)));
    assert t[0] == t[..3][0] && t[1] == t[..3][1] && t[2] == t[..3][2];
  }

  // ---------------------------------------------------------------- the streaming image

  /** What the base has to see once the caller has handed over `s`.  `over` is how far behind its place the
      second header ends up; 0 is right. */
  function ImageOver(frag: nat -> int, s: seq<byte>, over: nat): (r: seq<byte>)
  {
    if |s| < HEADER_LEN then [] else
    var h, body := s[..HEADER_LEN], s[HEADER_LEN..];
    if !Splits(frag, h) then s else
    var a := frag(PayloadLen(h));
    var first := WithPayloadLen(h, a);
    if |body| < a + over then first + body
    else first + body[..a + over] + WithPayloadLen(h, PayloadLen(h) - a) + body[a + over..]
  }

  function Image(frag: nat -> int, s: seq<byte>): (r: seq<byte>) {
    ImageOver(frag, s, 0)
  }

  /** The second header has its place in the image. */
  predicate Complete(frag: nat -> int, s: seq<byte>, over: nat) {
    && |s| >= HEADER_LEN
    && (Splits(frag, s[..HEADER_LEN]) ==> |s| - HEADER_LEN >= frag(PayloadLen(s[..HEADER_LEN])) + over)
  }

  lemma {:induction false} ImageExtends(frag: nat -> int, s: seq<byte>, over: nat, x: seq<byte>)
    requires Complete(frag, s, over)
    ensures Complete(frag, s + x, over) && ImageOver(frag, s + x, over) == ImageOver(frag, s, over) + x
    ensures (s + x)[..HEADER_LEN] == s[..HEADER_LEN]
  {
    var h, body := s[..HEADER_LEN], s[HEADER_LEN..];
    assert (s + x)[..HEADER_LEN] == h && (s + x)[HEADER_LEN..] == body + x;
    if Splits(frag, h) {
      var n := frag(PayloadLen(h)) + over;
      assert (body + x)[..n] == body[..n] && (body + x)[n..] == body[n..] + x;
    }
  }

  /** Inside the first record the image grows by what comes in, until the record is full. */
  lemma {:induction false} ImageFirst(frag: nat -> int, s: seq<byte>, over: nat, x: seq<byte>)
    requires |s| >= HEADER_LEN && Splits(frag, s[..HEADER_LEN])
    requires |s| - HEADER_LEN < frag(PayloadLen(s[..HEADER_LEN]))
    ensures var h, a, size := s[..HEADER_LEN], frag(PayloadLen(s[..HEADER_LEN])), |s + x| - HEADER_LEN;
            && (s + x)[..HEADER_LEN] == h
            && ImageOver(frag, s, 0) == WithPayloadLen(h, a) + s[HEADER_LEN..]
            && (size < a + over ==> ImageOver(frag, s + x, over) == ImageOver(frag, s, 0) + x)
            && (size == a + over ==>
                  Complete(frag, s + x, over)
                  && ImageOver(frag, s + x, over) ==
                     ImageOver(frag, s, 0) + x + WithPayloadLen(h, PayloadLen(h) - a))
  {
    var h, body := s[..HEADER_LEN], s[HEADER_LEN..];
    assert (s + x)[..HEADER_LEN] == h && (s + x)[HEADER_LEN..] == body + x;
    var a := frag(PayloadLen(h));
    if |body + x| == a + over {
      assert (body + x)[..a + over] == body + x && (body + x)[a + over..] == [];
      assert WithPayloadLen(h, a) + (body + x) == WithPayloadLen(h, a) + body + x;
    }
  }

  /** A header that is `over` bytes late is never right: no payload bytes can make up for it. */
  lemma {:induction false} LateHeaderIsWrong(frag: nat -> int, s: seq<byte>, over: nat)
    requires Complete(frag, s, over) && over < HEADER_LEN
    ensures ImageOver(frag, s, over) == Image(frag, s) <==> over == 0 || !Splits(frag, s[..HEADER_LEN])
  {
    var h, body := s[..HEADER_LEN], s[HEADER_LEN..];
    if over > 0 && Splits(frag, h) {
      var a := frag(PayloadLen(h));
      var first, second := WithPayloadLen(h, a), WithPayloadLen(h, PayloadLen(h) - a);
      PiecesValid(frag, h);
      CommutingHeader(second, body[a..a + over]);
      Rearranged(first, body, second, a, over);
      MiddleDiffers(first + body[..a], body[a..a + over] + second, second + body[a..a + over], body[a + over..]);
    }
  }

  lemma {:induction false} Rearranged(first: seq<byte>, body: seq<byte>, second: seq<byte>, a: nat, over: nat)
    requires a + over <= |body|
    ensures first + body[..a + over] + second + body[a + over..] ==
            first + body[..a] + (body[a..a + over] + second) + body[a + over..]
    ensures first + body[..a] + second + body[a..] ==
            first + body[..a] + (second + body[a..a + over]) + body[a + over..]
  {
    var x, after := body[a..a + over], body[a + over..];
    assert body[..a + over] == body[..a] + x && body[a..] == x + after;
  }

  lemma {:induction false} MiddleDiffers(before: seq<byte>, u: seq<byte>, v: seq<byte>, after: seq<byte>)
    requires |u| == |v| && u != v
    ensures before + u + after != before + v + after
  {
    assert (before + u + after)[|before|..|before| + |u|] == u;
    assert (before + v + after)[|before|..|before| + |u|] == v;
  }

  lemma {:induction false} CommutingHeader(h: Header, x: seq<byte>)
    requires ValidHeader(h) && 0 < |x| < HEADER_LEN
    ensures x + h != h + x
  {
    var l, r := x + h, h + x;
    assert l[0] == x[0] && r[0] == h[0];
    if |x| == 1 {
      assert l[1] == h[0] && r[1] == h[1];
    } else if |x| == 2 {
      assert l[2] == h[0] && r[2] == h[2];
    } else {
      assert l[5] == h[5 - |x|] && r[5] == x[0];
    }
  }

  // ---------------------------------------------------------------- the buffering image

  /** Nothing is sent while a valid header's record is incomplete. */
  predicate Held(s: seq<byte>) {
    |s| < HEADER_LEN || (ValidHeader(s[..HEADER_LEN]) && |s| < HEADER_LEN + PayloadLen(s[..HEADER_LEN]))
  }

  /** What the buffering writer has sent, or is about to flush, for `s`; its split point may depend on the
      record's content. */
  function BufferedImage(frag: seq<byte> -> int, s: seq<byte>): (r: seq<byte>) {
    if Held(s) then [] else
    var h := s[..HEADER_LEN];
    if !ValidHeader(h) then s else
    var content, rest := s[HEADER_LEN..HEADER_LEN + PayloadLen(h)], s[HEADER_LEN + PayloadLen(h)..];
    SplitContent(h, content, frag(content)) + rest
  }

  function SplitContent(h: Header, content: seq<byte>, a: int): (r: seq<byte>)
    requires |content| == PayloadLen(h)
  {
    if 0 < a < |content|
    then WithPayloadLen(h, a) + content[..a] + WithPayloadLen(h, |content| - a) + content[a..]
    else h + content
  }

  lemma {:induction false} BufferedExtends(frag: seq<byte> -> int, s: seq<byte>, x: seq<byte>)
    requires !Held(s)
    ensures !Held(s + x) && BufferedImage(frag, s + x) == BufferedImage(frag, s) + x
  {
    hide SplitContent, PayloadLen, ValidHeader;
    var h := s[..HEADER_LEN];
    assert (s + x)[..HEADER_LEN] == h;
    if ValidHeader(h) {
      var n := HEADER_LEN + PayloadLen(h);
      assert (s + x)[HEADER_LEN..n] == s[HEADER_LEN..n] && (s + x)[n..] == s[n..] + x;
      var content := s[HEADER_LEN..n];
      Assoc(SplitContent(h, content, frag(content)), s[n..], x);
    }
  }

  /** With a split point that depends on the length only, the buffering writer is never ahead of the
      streaming one, and level with it exactly when it is not holding a record back. */
  lemma {:induction false} BufferedBehindStreaming(frag: nat -> int, s: seq<byte>)
    ensures var buffered := BufferedImage((content: seq<byte>) => frag(|content|), s);
            && buffered <= Image(frag, s)
            && (buffered == Image(frag, s) <==> |s| < HEADER_LEN || !Held(s))
  {
    if |s| >= HEADER_LEN && !Held(s) && ValidHeader(s[..HEADER_LEN]) {
      var h, size := s[..HEADER_LEN], PayloadLen(s[..HEADER_LEN]);
      var content, rest := s[HEADER_LEN..HEADER_LEN + size], s[HEADER_LEN + size..];
      assert s == h + (content + rest);
      ImageOfComplete(frag, h, content, rest);
    }
  }

  lemma {:induction false} ImageOfComplete(frag: nat -> int, h: Header, content: seq<byte>, rest: seq<byte>)
    requires ValidHeader(h) && |content| == PayloadLen(h)
    ensures Image(frag, h + (content + rest)) == SplitContent(h, content, frag(|content|)) + rest
  {
    var s, a := h + (content + rest), frag(|content|);
    assert s[..HEADER_LEN] == h && s[HEADER_LEN..] == content + rest;
    if 0 < a < |content| {
      assert (content + rest)[..a] == content[..a] && (content + rest)[a..] == content[a..] + rest;
    } else {
      Assoc(h, content, rest);
    }
  }

  // ---------------------------------------------------------------- in bytes

  /** What `Validate` refuses, byte by byte: any type but 22, any version but 3.1 to 3.4, and a length of 0 or
      above 16384. */
  lemma {:induction false} RefusedBytes(h: Header)
    ensures !ValidHeader(h) <==>
            h[0] != 22 || h[1] != 3 || h[2] < 1 || h[2] > 4 || 256 * h[3] as int + h[4] as int == 0
            || 256 * h[3] as int + h[4] as int > 16384
  {
  }

  /** The streaming image, byte by byte. */
  lemma {:induction false} ImageBytes(frag: nat -> int, s: seq<byte>)
    requires |s| >= 5
    ensures var len := 256 * s[3] as int + s[4] as int;
            if s[0] != 22 || s[1] != 3 || s[2] < 1 || s[2] > 4 || len == 0 || len > 16384
               || frag(len) <= 0 || frag(len) >= len
            then Image(frag, s) == s
            else var a := frag(len);
                 if |s| < 5 + a then Image(frag, s) == [22, 3, s[2], a / 256, a % 256] + s[5..]
                 else Image(frag, s) == [22, 3, s[2], a / 256, a % 256] + s[5..5 + a]
                                        + [22, 3, s[2], (len - a) / 256, (len - a) % 256] + s[5 + a..]
  {
    var h, body := s[..5], s[5..];
    RefusedBytes(h);
    assert PayloadLen(h) == 256 * s[3] as int + s[4] as int;
    if Splits(frag, h) {
      var a := frag(PayloadLen(h));
      assert h[..3] == [22, 3, s[2]];
      assert WithPayloadLen(h, a) == [22, 3, s[2], a / 256, a % 256];
      if |s| >= 5 + a {
        assert body[..a] == s[5..5 + a] && body[a..] == s[5 + a..];
      }
    }
  }

  /** The buffering image, byte by byte. */
  lemma {:induction false} BufferedBytes(frag: seq<byte> -> int, s: seq<byte>)
    requires |s| >= 5
    ensures var len := 256 * s[3] as int + s[4] as int;
            if s[0] != 22 || s[1] != 3 || s[2] < 1 || s[2] > 4 || len == 0 || len > 16384
            then !Held(s) && BufferedImage(frag, s) == s
            else if |s| < 5 + len then Held(s)
            else var content := s[5..5 + len];
                 var a := frag(content);
                 && !Held(s)
                 && BufferedImage(frag, s) ==
                    if a <= 0 || a >= len then s
                    else [22, 3, s[2], a / 256, a % 256] + content[..a]
                         + [22, 3, s[2], (len - a) / 256, (len - a) % 256] + content[a..] + s[5 + len..]
  {
    var h := s[..5];
    RefusedBytes(h);
    assert PayloadLen(h) == 256 * s[3] as int + s[4] as int;
    if !Held(s) && ValidHeader(h) {
      var content := s[5..5 + PayloadLen(h)];
      assert h[..3] == [22, 3, s[2]] && h + content + s[5 + PayloadLen(h)..] == s;
    }
  }

  // ---------------------------------------------------------------- nesting

  /** A record with the type and version of `prefix`. */
  function Record(prefix: seq<byte>, payload: seq<byte>): (r: seq<byte>)
    requires |payload| <= MAX_PAYLOAD_LEN
  {
    prefix + [|payload| / 256, |payload| % 256] + payload
  }

  predicate PartsOk(parts: seq<seq<byte>>) {
    forall i :: 0 <= i < |parts| ==> 1 <= |parts[i]| <= MAX_PAYLOAD_LEN
  }

  function Records(prefix: seq<byte>, parts: seq<seq<byte>>): (r: seq<byte>)
    requires PartsOk(parts)
  {
    if parts == [] then [] else Record(prefix, parts[0]) + Records(prefix, parts[1..])
  }

  predicate HandshakePrefix(prefix: seq<byte>) {
    |prefix| == 3 && prefix[0] == HANDSHAKE && prefix[1] == 3 && 1 <= prefix[2] <= 4
  }

  /** What one more splitter does to a list of records: it splits the first. */
  function SplitFirst(frag: nat -> int, parts: seq<seq<byte>>): (r: seq<seq<byte>>)
    requires parts != [] && PartsOk(parts)
    ensures r != [] && PartsOk(r)
  {
    var a := frag(|parts[0]|);
    if 0 < a < |parts[0]| then [parts[0][..a], parts[0][a..]] + parts[1..] else parts
  }

  lemma {:induction false} SplitFirstFlattens(frag: nat -> int, parts: seq<seq<byte>>)
    requires parts != [] && PartsOk(parts)
    ensures Flatten(SplitFirst(frag, parts)) == Flatten(parts)
  {
    var a := frag(|parts[0]|);
    if 0 < a < |parts[0]| {
      var r := SplitFirst(frag, parts);
      assert r[1..][1..] == parts[1..] && r[1..][0] == parts[0][a..];
      assert parts[0] == parts[0][..a] + parts[0][a..];
      Assoc(parts[0][..a], parts[0][a..], Flatten(parts[1..]));
    }
  }

  lemma {:induction false} ImageOfRecord(frag: nat -> int, prefix: seq<byte>, p: seq<byte>, rest: seq<byte>)
    requires HandshakePrefix(prefix) && 1 <= |p| <= MAX_PAYLOAD_LEN
    ensures var a := frag(|p|);
            Image(frag, Record(prefix, p) + rest) ==
            if 0 < a < |p| then Record(prefix, p[..a]) + (Record(prefix, p[a..]) + rest) else Record(prefix, p) + rest
  {
    var s, h, a := Record(prefix, p) + rest, prefix + [|p| / 256, |p| % 256], frag(|p|);
    assert s[..HEADER_LEN] == h && s[HEADER_LEN..] == p + rest;
    assert PayloadLen(h) == |p| && h[..3] == prefix && ValidHeader(h);
    if 0 < a < |p| {
      assert (p + rest)[..a] == p[..a] && (p + rest)[a..] == p[a..] + rest;
      var second := prefix + [(|p| - a) / 256, (|p| - a) % 256];
      assert Record(prefix, p[..a]) == WithPayloadLen(h, a) + p[..a];
      assert Record(prefix, p[a..]) == second + p[a..] && second == WithPayloadLen(h, |p| - a);
      Assoc(second, p[a..], rest);
      Assoc(Record(prefix, p[..a]), second, p[a..] + rest);
    }
  }

  lemma {:induction false} ImageOfRecords(frag: nat -> int, prefix: seq<byte>, parts: seq<seq<byte>>, rest: seq<byte>)
    requires HandshakePrefix(prefix) && parts != [] && PartsOk(parts)
    ensures Image(frag, Records(prefix, parts) + rest) == Records(prefix, SplitFirst(frag, parts)) + rest
  {
    hide ImageOver, Image, Record;
    var tail, a, p := Records(prefix, parts[1..]), frag(|parts[0]|), parts[0];
    ImageOfRecord(frag, prefix, p, tail + rest);
    Assoc(Record(prefix, p), tail, rest);
    if 0 < a < |p| {
      var r, first, second := SplitFirst(frag, parts), Record(prefix, p[..a]), Record(prefix, p[a..]);
      assert r[1..][1..] == parts[1..] && r[1..][0] == p[a..];
      Assoc(second, tail, rest);
      Assoc(first, second + tail, rest);
    }
  }

  /** Writers stacked on one another: the output of each is the input of the next. */
  function Nested(frags: seq<nat -> int>, s: seq<byte>): (r: seq<byte>) {
    if frags == [] then s else Nested(frags[1..], Image(frags[0], s))
  }

  function NestedParts(frags: seq<nat -> int>, parts: seq<seq<byte>>): (r: seq<seq<byte>>)
    requires parts != [] && PartsOk(parts)
    ensures r != [] && PartsOk(r)
    decreases frags
  {
    if frags == [] then parts else NestedParts(frags[1..], SplitFirst(frags[0], parts))
  }

  /** Any stack of splitters turns a handshake record into records of the same type and version, none of
      them empty or too long, whose payloads join to the original payload; what follows is untouched. */
  lemma {:induction false} NestedSplit(
    frags: seq<nat -> int>, prefix: seq<byte>, parts: seq<seq<byte>>, rest: seq<byte>)
    requires HandshakePrefix(prefix) && parts != [] && PartsOk(parts)
    ensures var r := NestedParts(frags, parts);
            && Nested(frags, Records(prefix, parts) + rest) == Records(prefix, r) + rest
            && Flatten(r) == Flatten(parts)
    decreases frags
  {
    if frags != [] {
      ImageOfRecords(frags[0], prefix, parts, rest);
      SplitFirstFlattens(frags[0], parts);
      NestedSplit(frags[1..], prefix, SplitFirst(frags[0], parts), rest);
    }
  }

  /** The split function of a fixed-length splitter: leading bytes if positive, trailing bytes if negative. */
  function FixedLen(splitLen: int): (frag: nat -> int) {
    if splitLen > 0 then (_: nat) => splitLen else (n: nat) => n + splitLen
  }

  lemma {:induction false} FixedLenPieces(splitLen: int, payload: seq<byte>)
    requires 1 <= |payload| <= MAX_PAYLOAD_LEN
    ensures var r := SplitFirst(FixedLen(splitLen), [payload]);
            if 0 < splitLen < |payload| then |r| == 2 && |r[0]| == splitLen
            else if -|payload| < splitLen < 0 then |r| == 2 && |r[1]| == -splitLen
            else r == [payload]
  {
  }
}
