/** SOCKS5 UDP encapsulation (section 7 of RFC 1928). */
module Socks5Udp {
  import opened Io
  import opened Socks5Address

  /** The largest datagram that is looked at; a longer one is cut by the read. */
  const BUFFER_SIZE := 16 * 1024

  /** How unwrapping ends. */
  datatype Unwrapped =
    | Payload(address: Address, payload: seq<byte>)
    | TooShort
    | BadReserved(r0: byte, r1: byte)
    | Fragment(frag: byte)
    | BadAddress
    | NoRoom

  /** The datagram for a payload, unless the name is too long. */
  function Wrap(payload: seq<byte>, a: Address): (d: Option<seq<byte>>)
    requires AddressOk(a)
  {
    match Wire(a) case None => None case Some(w) => Some([0, 0, 0] + (w + payload))
  }

  /** Reference reading of a datagram that was not cut. */
  function Unwrap(d: seq<byte>, cap: nat): (r: Unwrapped) {
    if |d| < 10 then TooShort
    else if d[0] != 0 || d[1] != 0 then BadReserved(d[0], d[1])
    else if d[2] != 0 then Fragment(d[2])
    else
      match ParseAddr(d[3..])
      case None => BadAddress
      case Some(p) => if |p.rest| > cap then NoRoom else Payload(p.value, p.rest)
  }

  /** What is read of a datagram. */
  function Cut(d: seq<byte>): (r: seq<byte>) {
    d[..Min(|d|, BUFFER_SIZE)]
  }

  /** What is refused, in bytes: fewer than 10 of them, reserved bytes that are not zero, any fragment, what holds
      no address, and more payload than there is room for.  Only the first 16384 bytes are looked at. */
  lemma {:induction false} RefusedBytes(d: seq<byte>, cap: nat)
    ensures Cut(d) == if |d| <= 16384 then d else d[..16384]
    ensures |d| < 10 ==> Unwrap(d, cap) == TooShort
    ensures |d| >= 10 && (d[0] != 0 || d[1] != 0) ==> Unwrap(d, cap) == BadReserved(d[0], d[1])
    ensures |d| >= 10 && d[0] == 0 && d[1] == 0 && d[2] != 0 ==> Unwrap(d, cap) == Fragment(d[2])
    ensures |d| >= 10 && d[0] == 0 && d[1] == 0 && d[2] == 0 ==>
              match ParseAddr(d[3..])
              case None => Unwrap(d, cap) == BadAddress
              case Some(p) => Unwrap(d, cap) == if |p.rest| > cap then NoRoom else Payload(p.value, p.rest)
  {
    hide ParseAddr;
    assert |d| <= 16384 ==> d[..|d|] == d;
  }

  /** `packetConn.WriteTo`. */
  method WriteTo(payload: seq<byte>, a: Address) returns (d: Option<seq<byte>>)
    requires AddressOk(a)
    ensures d == Wrap(payload, a)
  {
    var buffer := [0, 0, 0];
    var header := AppendAddress(buffer, a);
    if header == None {
      return None;
    }
    d := Some(header.value + payload);
    assert header.value + payload == [0, 0, 0] + (Wire(a).value + payload);
  }

  /** `packetConn.ReadFrom` of a datagram `d` into the caller's slice. */
  method ReadFrom(d: seq<byte>, b: array<byte>) returns (r: Unwrapped)
    modifies b
    ensures r == Unwrap(Cut(d), b.Length)
    ensures b[..] == if r.Payload? then r.payload + old(b[..])[|r.payload|..] else old(b[..])
  {
    hide ParseAddr, SeenAddr;
    var n := Min(|d|, BUFFER_SIZE);
    if n < 10 {
      return TooShort;
    }
    var buf := new Source(d[..n], [], Eof);
    ghost var data := buf.data;
    var rsv, err := buf.Next(2);
    assert rsv == data[..2] && buf.data == data[2..];
    if rsv[0] != 0 || rsv[1] != 0 {
      return BadReserved(rsv[0], rsv[1]);
    }
    var frag;
    frag, err := buf.Next(1);
    assert frag == [data[2]] && buf.data == data[3..];
    if frag[0] != 0 {
      return Fragment(frag[0]);
    }
    var a;
    ghost var stalls;
    a, stalls := ReadAddr(buf);
    SeenUnstalled(data[3..]);
    if a == None {
      return BadAddress;
    }
    var payload := buf.data;
    if |payload| > b.Length {
      return NoRoom;
    }
    forall i | 0 <= i < |payload| {
      b[i] := payload[i];
    }
    r := Payload(a.value, payload);
  }

  /** Unwrapping undoes wrapping exactly when the datagram reaches the 10-byte floor (only a name shorter than
      three bytes with next to no payload does not), fits the 16 KiB buffer, and its payload fits the caller's slice. */
  lemma {:induction false} UnwrapUndoesWrap(payload: seq<byte>, a: Address, cap: nat)
    requires AddressOk(a) && Wrap(payload, a).Some?
    ensures var d := Wrap(payload, a).value;
            && (Unwrap(Cut(d), cap) == Payload(Normal(a), payload)
                <==> 10 <= |d| <= BUFFER_SIZE && |payload| <= cap)
            && (|d| < 10 <==> a.host.Name? && |a.host.name| + |payload| < 3)
  {
    var d, w := Wrap(payload, a).value, Wire(a).value;
    var kept := Cut(d);
    var k := |kept| - 3 - |w|;
    assert 0 <= k <= |payload|;
    assert |d| <= BUFFER_SIZE <==> k == |payload|;
    assert kept[3..] == w + payload[..k];
    AddrRoundTrip(a, payload[..k]);
    assert kept[..3] == [0, 0, 0];
    assert k == |payload| ==> payload[..k] == payload;
  }
}
