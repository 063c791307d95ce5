/** SOCKS5 addresses: the printer and the parser (sections 4 and 5 of RFC 1928). */
module Socks5Address {
  import opened Io

  /** A name is never the text of an IP address. */
  datatype Host = Name(name: seq<byte>) | Ip4(ip4: seq<byte>) | Ip6(ip6: seq<byte>)

  datatype Address = Address(host: Host, port: nat)

  predicate AddressOk(a: Address) {
    && a.port < 0x1_0000
    && (a.host.Ip4? ==> |a.host.ip4| == 4)
    && (a.host.Ip6? ==> |a.host.ip6| == 16)
  }

  const TYPE_IPV4: byte := 1
  const TYPE_NAME: byte := 3
  const TYPE_IPV6: byte := 4

  /** An IPv6 address that stands for an IPv4 one. */
  predicate Mapped(ip6: seq<byte>) {
    |ip6| == 16 && (forall i :: 0 <= i < 10 ==> ip6[i] == 0) && ip6[10] == 255 && ip6[11] == 255
  }

  /** The address that a reader will see for `a`. */
  function Normal(a: Address): (r: Address) {
    if a.host.Ip6? && Mapped(a.host.ip6) then a.(host := Ip4(a.host.ip6[12..])) else a
  }

  /** ATYP, DST.ADDR and DST.PORT, unless the name is too long. */
  function Wire(a: Address): (w: Option<seq<byte>>)
    requires AddressOk(a)
    ensures w.Some? ==> 4 <= |w.value| <= 259
  {
    match Normal(a).host
    case Ip4(ip) => Some([TYPE_IPV4] + ip + BigEndian16(a.port))
    case Ip6(ip) => Some([TYPE_IPV6] + ip + BigEndian16(a.port))
    case Name(name) => if |name| > 255 then None else Some([TYPE_NAME, |name|] + name + BigEndian16(a.port))
  }

  /** `appendSOCKS5Address`. */
  method AppendAddress(b: seq<byte>, a: Address) returns (r: Option<seq<byte>>)
    requires AddressOk(a)
    ensures match Wire(a) case None => r == None case Some(w) => r == Some(b + w)
  {
    var out := b;
    match a.host {
      case Ip4(ip) =>
        out := out + [TYPE_IPV4];
        out := out + ip;
      case Ip6(ip) =>
        if Mapped(ip) {
          out := out + [TYPE_IPV4];
          out := out + ip[12..];
        } else {
          out := out + [TYPE_IPV6];
          out := out + ip;
        }
      case Name(name) =>
        if |name| > 255 {
          return None;
        }
        out := out + [TYPE_NAME];
        out := out + [|name|];
        out := out + name;
    }
    out := out + BigEndian16(a.port);
    assert Wire(a).Some? && out == b + Wire(a).value;
    r := Some(out);
  }

  datatype Parsed<T> = Parsed(value: T, rest: seq<byte>)

  /** Reference parser: an address and the bytes behind it. */
  function ParseAddr(data: seq<byte>): (r: Option<Parsed<Address>>)
    ensures r.Some? ==> |r.value.rest| < |data|
  {
    if |data| < 2 then None
    else if data[0] == TYPE_IPV4 then
      if |data| < 7 then None
      else Some(Parsed(Address(Ip4(data[1..5]), FromBigEndian16(data[5..7])), data[7..]))
    else if data[0] == TYPE_IPV6 then
      if |data| < 19 then None
      else Some(Parsed(Address(Ip6(data[1..17]), FromBigEndian16(data[17..19])), data[19..]))
    else if data[0] == TYPE_NAME then
      var n := data[1] as int;
      if |data| < n + 4 then None
      else Some(Parsed(Address(Name(data[2..n + 2]), FromBigEndian16(data[n + 2..n + 4])), data[n + 4..]))
    else None
  }

  /** What is printed is parsed, and not one byte more; only the mapped form is not preserved. */
  lemma {:induction false} AddrRoundTrip(a: Address, rest: seq<byte>)
    requires AddressOk(a) && Wire(a).Some?
    ensures ParseAddr(Wire(a).value + rest) == Some(Parsed(Normal(a), rest))
    ensures Normal(a) == a <==> !(a.host.Ip6? && Mapped(a.host.ip6))
  {
    var w := Wire(a).value;
    var data, port := w + rest, BigEndian16(a.port);
    match Normal(a).host {
      case Ip4(ip) =>
        assert data[1..5] == ip && data[5..7] == port && data[7..] == rest;
      case Ip6(ip) =>
        assert data[1..17] == ip && data[17..19] == port && data[19..] == rest;
      case Name(name) =>
        assert data[0] == TYPE_NAME && data[1] == |name|;
        assert data[2..|name| + 2] == name && data[|name| + 2..|name| + 4] == port && data[|name| + 4..] == rest;
    }
  }

  /** The wire form in bytes. */
  lemma {:induction false} AddrBytes(a: Address)
    requires AddressOk(a)
    ensures var port := [a.port / 256, a.port % 256];
            match a.host
            case Ip4(ip) => Wire(a) == Some([1] + ip + port)
            case Name(name) => Wire(a) == if |name| > 255 then None else Some([3, |name|] + name + port)
            case Ip6(ip) =>
              if (forall i :: 0 <= i < 10 ==> ip[i] == 0) && ip[10] == 255 && ip[11] == 255
              then Wire(a) == Some([1] + ip[12..] + port)
              else Wire(a) == Some([4] + ip + port)
  {
  }

  /** Nothing but these forms is taken for an address. */
  lemma {:induction false} ParsedBytes(data: seq<byte>)
    requires ParseAddr(data).Some?
    ensures var a, rest := ParseAddr(data).value.value, ParseAddr(data).value.rest;
            && a.port < 0x1_0000
            && var port := [a.port / 256, a.port % 256];
               match a.host
               case Ip4(ip) => |ip| == 4 && data == [1] + ip + port + rest
               case Name(name) => |name| <= 255 && data == [3, |name|] + name + port + rest
               case Ip6(ip) => |ip| == 16 && data == [4] + ip + port + rest
  {
    var a := ParseAddr(data).value.value;
    match a.host {
      case Ip4(ip) =>
        PortBytes(data[5..7]);
        assert data == data[..1] + data[1..5] + data[5..7] + data[7..];
      case Name(name) =>
        var n := |name| + 2;
        PortBytes(data[n..n + 2]);
        assert data == data[..2] + data[2..n] + data[n..n + 2] + data[n + 2..];
      case Ip6(ip) =>
        PortBytes(data[17..19]);
        assert data == data[..1] + data[1..17] + data[17..19] + data[19..];
    }
  }

  lemma {:induction false} PortBytes(s: seq<byte>)
    requires |s| == 2
    ensures var p := FromBigEndian16(s); s == [p / 256, p % 256]
  {
  }

  /** `io.ReadFull` of `n` bytes, as a value, from a reader that stands at byte `at` of `data`. */
  method ReadN(r: Source, n: nat, ghost data: seq<byte>, ghost at: nat) returns (out: seq<byte>, ok: bool)
    requires at <= |data| && r.data == data[at..]
    modifies r
    ensures ok <==> at + n <= |data|
    ensures ok ==> out == data[at..at + n] && r.data == data[at + n..]
    ensures old(Prompt(r.script)) ==> Prompt(r.script)
  {
    hide Prompt;
    var buf := new byte[n];
    var m, err := r.ReadFull(buf, 0, n);
    out, ok := buf[..], err == NoErr;
    if ok {
      assert buf[..] == buf[0..0 + m] == data[at..][..n] == data[at..at + n];
      DropMore(data, at, n);
    }
  }

  /** Which of the two single-byte reads of an address came back with nothing and no error. */
  datatype Stalls = Stalls(kind: bool, length: bool)

  const NO_STALLS := Stalls(false, false)

  /** What a reader will do to an address: the second read is that of a name's length. */
  function StallsOf(script: seq<Move>, data: seq<byte>): (s: Stalls) {
    Stalls(Idle(script, data), data != [] && data[0] == TYPE_NAME && Idle(Tail(script), data[1..]))
  }

  lemma {:induction false} PromptStalls(script: seq<Move>, data: seq<byte>)
    ensures Prompt(script) ==> StallsOf(script, data) == NO_STALLS
  {
  }

  /** What is read of an address: a stalled read leaves the byte it should have replaced, which for the type is
      zero, and for the length is the type. */
  function SeenAddr(data: seq<byte>, stalls: Stalls): (r: Option<Parsed<Address>>) {
    if stalls.kind then None
    else if stalls.length && data != [] && data[0] == TYPE_NAME then
      if |data| < 6 then None
      else Some(Parsed(Address(Name(data[1..4]), FromBigEndian16(data[4..6])), data[6..]))
    else ParseAddr(data)
  }

  /** An address that is there is read right exactly if its type is not stalled over, nor the length of a name. */
  lemma {:induction false} StalledAddr(data: seq<byte>, stalls: Stalls)
    requires ParseAddr(data).Some?
    ensures SeenAddr(data, stalls) == ParseAddr(data) <==> !stalls.kind && !(stalls.length && data[0] == TYPE_NAME)
  {
    if !stalls.kind && stalls.length && data[0] == TYPE_NAME && |data| >= 6 {
      var seen, p := SeenAddr(data, stalls).value, ParseAddr(data).value;
      assert |seen.value.host.name| == 3 && |seen.rest| == |data| - 6;
      assert |p.rest| == |data| - |p.value.host.name| - 4;
    }
  }

  lemma {:induction false} KindOf(data: seq<byte>)
    ensures ParseAddr(data).Some? ==> (ParseAddr(data).value.value.host.Name? <==> data[0] == TYPE_NAME)
  {
  }

  lemma {:induction false} SeenUnstalled(data: seq<byte>)
    ensures SeenAddr(data, NO_STALLS) == ParseAddr(data)
  {
  }

  /** A single `Read` into a one-byte buffer, which keeps its old content if nothing is read. */
  method ReadByte(r: Source, was: byte) returns (b: byte, ok: bool, ghost stalled: bool)
    modifies r
    ensures ok && !stalled ==> old(r.data) != [] && b == old(r.data)[0] && r.data == old(r.data)[1..]
    ensures stalled ==> ok && b == was && r.data == old(r.data)
    ensures !ok ==> r.data == [] && |old(r.data)| <= 1
    ensures stalled == Idle(old(r.script), old(r.data)) && r.script == Tail(old(r.script))
    ensures old(Prompt(r.script)) ==> Prompt(r.script)
  {
    hide Prompt, Idle, Tail;
    var out, err := r.Next(1);
    b := if out == [] then was else out[0];
    ok := err == NoErr;
    stalled := ok && out == [];
  }

  /** The bytes of the host are `len` bytes from `at` on. */
  predicate HostAt(data: seq<byte>, stalls: Stalls, at: nat, len: nat) {
    && data != [] && !stalls.kind
    && if data[0] == TYPE_IPV4 then at == 1 && len == 4
       else if data[0] == TYPE_IPV6 then at == 1 && len == 16
       else data[0] == TYPE_NAME && if stalls.length then at == 1 && len == 3
                                    else at == 2 <= |data| && len == data[1] as int
  }

  lemma {:induction false} SeenAt(data: seq<byte>, stalls: Stalls, at: nat, len: nat)
    requires HostAt(data, stalls, at, len)
    ensures |data| < at + len + 2 ==> SeenAddr(data, stalls) == None
    ensures |data| >= at + len + 2 ==>
              var end := at + len;
              var bytes := data[at..end];
              var host := if data[0] == TYPE_IPV4 then Ip4(bytes) else if data[0] == TYPE_IPV6 then Ip6(bytes)
                          else Name(bytes);
              var port := FromBigEndian16(data[end..end + 2]);
              SeenAddr(data, stalls) == Some(Parsed(Address(host, port), data[end + 2..]))
  {
  }

  lemma {:induction false} SeenNothing(data: seq<byte>, stalls: Stalls)
    requires |data| < 2 || stalls.kind || data[0] !in {TYPE_IPV4, TYPE_IPV6, TYPE_NAME}
             || (data[0] == TYPE_NAME && !stalls.length && |data| < 4)
    ensures SeenAddr(data, stalls) == None
  {
  }

  /** `readAddr`.  On any reader it succeeds exactly when there is an address to see, and then consumes exactly
      that; a prompt reader never stalls. */
  method ReadAddr(r: Source) returns (a: Option<Address>, ghost stalls: Stalls)
    modifies r
    ensures stalls == StallsOf(old(r.script), old(r.data))
    ensures match SeenAddr(old(r.data), stalls)
            case None => a == None
            case Some(p) => a == Some(p.value) && r.data == p.rest
    ensures old(Prompt(r.script)) ==> Prompt(r.script) && stalls == NO_STALLS
  {
    PromptStalls(r.script, r.data);
    hide Prompt, SeenAddr, ParseAddr, Idle, Tail;
    ghost var data := r.data;
    stalls := StallsOf(r.script, data);
    var addrType, ok;
    ghost var stalled;
    addrType, ok, stalled := ReadByte(r, 0);
    if !ok {
      SeenNothing(data, stalls);
      return None, stalls;
    }
    var host: Host;
    var bytes: seq<byte>;
    ghost var at, len := 1, 4;
    if addrType == TYPE_IPV4 {
      bytes, ok := ReadN(r, 4, data, 1);
      host := Ip4(bytes);
    } else if addrType == TYPE_IPV6 {
      len := 16;
      bytes, ok := ReadN(r, 16, data, 1);
      host := Ip6(bytes);
    } else if addrType == TYPE_NAME {
      addrType, ok, stalled := ReadByte(r, addrType);
      if !ok {
        SeenNothing(data, stalls);
        return None, stalls;
      }
      at, len := if stalled then 1 else 2, addrType as nat;
      assert r.data == data[at..];
      bytes, ok := ReadN(r, addrType as nat, data, at);
      host := Name(bytes);
    } else {
      SeenNothing(data, stalls);
      return None, stalls;
    }
    SeenAt(data, stalls, at, len);
    if !ok {
      return None, stalls;
    }
    bytes, ok := ReadN(r, 2, data, at + len);
    if !ok {
      return None, stalls;
    }
    a := Some(Address(host, FromBigEndian16(bytes)));
  }

  /** A reader that starts by returning nothing: an address that is there is not read. */
  method StalledType() returns (a: Option<Address>)
    ensures a == None && ParseAddr([1, 10, 0, 0, 7, 0, 80]) == Some(Parsed(Address(Ip4([10, 0, 0, 7]), 80), []))
  {
    var data: seq<byte> := [1, 10, 0, 0, 7, 0, 80];
    assert data[1..5] == [10, 0, 0, 7] && data[5..7] == [0, 80] && data[7..] == [];
    var r := new Source(data, [Move(0, false)], Eof);
    ghost var stalls;
    a, stalls := ReadAddr(r);
  }

  /** One that returns nothing in place of a name's length: the name is read wrong, and without an error. */
  method StalledLength() returns (a: Option<Address>)
    ensures a == Some(Address(Name([2, 97, 98]), 80))
    ensures ParseAddr([3, 2, 97, 98, 0, 80]) == Some(Parsed(Address(Name([97, 98]), 80), []))
  {
    var data: seq<byte> := [3, 2, 97, 98, 0, 80];
    assert data[2..4] == [97, 98] && data[4..6] == [0, 80] && data[6..] == [] && data[1..4] == [2, 97, 98];
    var r := new Source(data, [Move(1, false), Move(0, false)], Eof);
    ghost var stalls;
    a, stalls := ReadAddr(r);
  }

  /** The parser looks at nothing behind what it consumes. */
  lemma {:induction false} ParseAddrPrefix(data: seq<byte>, tail: seq<byte>)
    requires ParseAddr(data).Some?
    ensures var rest := ParseAddr(data).value.rest;
            && |rest| < |data|
            && var used := data[..|data| - |rest|];
            && data == used + rest
            && ParseAddr(used + tail) == Some(Parsed(ParseAddr(data).value.value, tail))
  {
    var p := ParseAddr(data).value;
    var n := |data| - |p.rest|;
    var used := data[..n];
    var again := used + tail;
    assert p.rest == data[n..];
    assert again[n..] == tail;
    assert forall i :: 0 <= i < n ==> again[i] == data[i];
    match p.value.host {
      case Ip4(ip) =>
        assert again[1..5] == ip && again[5..7] == data[5..7];
      case Ip6(ip) =>
        assert again[1..17] == ip && again[17..19] == data[17..19];
      case Name(name) =>
        assert again[2..n - 2] == name && again[n - 2..n] == data[n - 2..n];
    }
  }
}
