/** The SOCKS5 client's merged handshake (sections 3, 4 and 6 of RFC 1928, section 2 of RFC 1929). */
module Socks5Handshake {
  import opened Io
  import opened Socks5Address

  const VERSION: byte := 5
  const AUTH_VERSION: byte := 1
  const METHOD_NONE: byte := 0
  const METHOD_USER_PASS: byte := 2

  datatype Credentials = Credentials(username: seq<byte>, password: seq<byte>)

  /** Section 2 of RFC 1929: 1 to 255 bytes each. */
  predicate CredentialsOk(c: Credentials) {
    1 <= |c.username| <= 255 && 1 <= |c.password| <= 255
  }

  /** What a server is asked for. */
  datatype Ask = Ask(cred: Option<Credentials>, cmd: byte, dst: Address)

  predicate AskOk(q: Ask) {
    AddressOk(q.dst) && (q.cred.Some? ==> CredentialsOk(q.cred.value))
  }

  /** Method selection, followed at once by the credentials. */
  function Greeting(cred: Option<Credentials>): (g: seq<byte>)
    requires cred.Some? ==> CredentialsOk(cred.value)
  {
    match cred
    case None => [VERSION, 1, METHOD_NONE]
    case Some(c) =>
      [VERSION, 1, METHOD_USER_PASS] + ([AUTH_VERSION, |c.username|] + c.username + ([|c.password|] + c.password))
  }

  /** Everything the client says, in its one write. */
  function Asking(q: Ask): (m: Option<seq<byte>>)
    requires AskOk(q)
  {
    match Wire(q.dst)
    case None => None
    case Some(w) => Some(Greeting(q.cred) + ([VERSION, q.cmd, 0] + w))
  }

  /** The request in bytes. */
  lemma {:induction false} AskingBytes(q: Ask)
    requires AskOk(q)
    ensures Asking(q) == None <==> Wire(q.dst) == None
    ensures Wire(q.dst).Some? ==>
              Asking(q) == Some((match q.cred
                                 case None => [5, 1, 0]
                                 case Some(c) => [5, 1, 2] + ([1, |c.username|] + c.username
                                                              + ([|c.password|] + c.password)))
                                + ([5, q.cmd, 0] + Wire(q.dst).value))
  {
    hide Wire;
  }

  /** A server's view of the greeting: it reads the method list, then, if user/password is offered, the credentials. */
  function HearGreeting(data: seq<byte>): (r: Option<Parsed<Option<Credentials>>>) {
    if |data| < 3 || data[0] != VERSION || data[1] != 1 then None
    else if data[2] == METHOD_NONE then Some(Parsed(Option.None, data[3..]))
    else if data[2] != METHOD_USER_PASS || |data| < 5 || data[3] != AUTH_VERSION then None
    else
      var u := 5 + data[4] as int;
      if |data| <= u then None
      else
        var p := u + 1 + data[u] as int;
        if |data| < p then None
        else Some(Parsed(Some(Credentials(data[5..u], data[u + 1..p])), data[p..]))
  }

  /** A server's view of the whole request. */
  function Hear(data: seq<byte>): (r: Option<Parsed<Ask>>) {
    match HearGreeting(data)
    case None => None
    case Some(g) =>
      if |g.rest| < 3 || g.rest[0] != VERSION || g.rest[2] != 0 then None
      else
        match ParseAddr(g.rest[3..])
        case None => None
        case Some(a) => Some(Parsed(Ask(g.value, g.rest[1], a.value), a.rest))
  }

  lemma {:induction false} GreetingHeard(cred: Option<Credentials>, rest: seq<byte>)
    requires cred.Some? ==> CredentialsOk(cred.value)
    ensures HearGreeting(Greeting(cred) + rest) == Some(Parsed(cred, rest))
  {
    var data := Greeting(cred) + rest;
    match cred {
      case None =>
        assert data[3..] == rest;
      case Some(c) =>
        var u := 5 + |c.username|;
        var p := u + 1 + |c.password|;
        assert data[..5] == [VERSION, 1, METHOD_USER_PASS, AUTH_VERSION, |c.username|];
        assert data[4] == |c.username|;
        assert data[5..u] == c.username;
        assert data[u] == |c.password|;
        assert data[u + 1..p] == c.password && data[p..] == rest;
    }
  }

  /** A server hears exactly what was asked, credentials included, and what follows the request is left for the
      stream behind it. */
  lemma {:induction false} AskingHeard(q: Ask, rest: seq<byte>)
    requires AskOk(q) && Asking(q).Some?
    ensures Hear(Asking(q).value + rest) == Some(Parsed(q.(dst := Normal(q.dst)), rest))
  {
    var w := Wire(q.dst).value;
    var tail := [VERSION, q.cmd, 0] + w + rest;
    assert Asking(q).value + rest == Greeting(q.cred) + tail;
    GreetingHeard(q.cred, tail);
    assert tail[3..] == w + rest;
    AddrRoundTrip(q.dst, rest);
  }

  /** How a request ends. */
  datatype Outcome =
    | Bound(address: Address)
    | Refused(code: byte)
    | NameTooLong
    | WriteFailed
    | ReadFailed
    | BadVersion(version: byte)
    | BadAuthVersion(version: byte)
    | AuthFailed(status: byte)
    | UnsupportedMethod(way: byte)

  /** The two ways to agree on a method. */
  function Agreeing(askAuth: bool): (m: seq<byte>) {
    if askAuth then [VERSION, METHOD_USER_PASS, AUTH_VERSION, 0] else [VERSION, METHOD_NONE]
  }

  /** What a server says to grant a request. */
  function Granting(askAuth: bool, reserved: byte, bound: seq<byte>): (m: seq<byte>) {
    Agreeing(askAuth) + ([VERSION, 0, reserved] + bound)
  }

  /** Reference reading of the final reply, from VER on. */
  function ReplyVerdict(data: seq<byte>, stalls: Stalls): (r: Parsed<Outcome>) {
    if |data| < 3 then Parsed(ReadFailed, [])
    else if data[0] != VERSION then Parsed(BadVersion(data[0]), data[3..])
    else if data[1] != 0 then Parsed(Refused(data[1]), data[3..])
    else
      match SeenAddr(data[3..], stalls)
      case None => Parsed(ReadFailed, [])
      case Some(a) => Parsed(Bound(a.value), a.rest)
  }

  /** Reference reading of everything a server may say. */
  function Verdict(data: seq<byte>, stalls: Stalls): (r: Parsed<Outcome>) {
    if |data| < 2 then Parsed(ReadFailed, [])
    else if data[0] != VERSION then Parsed(BadVersion(data[0]), data[2..])
    else if data[1] == METHOD_NONE then ReplyVerdict(data[2..], stalls)
    else if data[1] != METHOD_USER_PASS then Parsed(UnsupportedMethod(data[1]), data[2..])
    else if |data| < 4 then Parsed(ReadFailed, [])
    else if data[2] != AUTH_VERSION then Parsed(BadAuthVersion(data[2]), data[4..])
    else if data[3] != 0 then Parsed(AuthFailed(data[3]), data[4..])
    else ReplyVerdict(data[4..], stalls)
  }

  /** How every reply that grants nothing is taken, in bytes.  The final reply begins at byte 2, or behind the
      answer to the credentials at byte 4. */
  lemma {:induction false} VerdictBytes(data: seq<byte>, stalls: Stalls)
    ensures var v := Verdict(data, stalls).value;
            && (|data| < 2 ==> v == ReadFailed)
            && (|data| >= 2 && data[0] != 5 ==> v == BadVersion(data[0]))
            && (|data| >= 2 && data[0] == 5 && data[1] != 0 && data[1] != 2 ==> v == UnsupportedMethod(data[1]))
            && (2 <= |data| < 4 && data[0] == 5 && data[1] == 2 ==> v == ReadFailed)
            && (|data| >= 4 && data[0] == 5 && data[1] == 2 && data[2] != 1 ==> v == BadAuthVersion(data[2]))
            && (|data| >= 4 && data[0] == 5 && data[1] == 2 && data[2] == 1 && data[3] != 0 ==>
                  v == AuthFailed(data[3]))
    ensures |data| >= 2 && data[0] == 5
            && (data[1] == 0 || (|data| >= 4 && data[1] == 2 && data[2] == 1 && data[3] == 0)) ==>
              var v, n := Verdict(data, stalls).value, if data[1] == 0 then 2 else 4;
              && (|data| < n + 3 ==> v == ReadFailed)
              && (|data| >= n + 3 && data[n] != 5 ==> v == BadVersion(data[n]))
              && (|data| >= n + 3 && data[n] == 5 && data[n + 1] != 0 ==> v == Refused(data[n + 1]))
              && (|data| >= n + 3 && data[n] == 5 && data[n + 1] == 0 ==>
                    if stalls == NO_STALLS && ParseAddr(data[n + 3..]).Some?
                    then v == Bound(ParseAddr(data[n + 3..]).value.value)
                    else stalls == NO_STALLS ==> v == ReadFailed)
  {
    hide ParseAddr;
    if |data| >= 2 {
      var n := if data[1] == 0 then 2 else 4;
      if |data| >= n + 3 {
        assert data[n..][3..] == data[n + 3..];
      }
    }
  }

  lemma {:induction false} GrantingThen(askAuth: bool, reserved: byte, bound: seq<byte>, rest: seq<byte>)
    ensures Granting(askAuth, reserved, bound) + rest == Agreeing(askAuth) + ([VERSION, 0, reserved] + (bound + rest))
  {
    hide Agreeing;
    Assoc(Agreeing(askAuth), [VERSION, 0, reserved] + bound, rest);
    Assoc([VERSION, 0, reserved], bound, rest);
  }

  lemma {:induction false} ReplyVerdictBehindHeader(reserved: byte, s: seq<byte>)
    requires ParseAddr(s).Some?
    ensures ReplyVerdict([VERSION, 0, reserved] + s, NO_STALLS) ==
            Parsed(Bound(ParseAddr(s).value.value), ParseAddr(s).value.rest)
  {
    hide ParseAddr;
    assert ([VERSION, 0, reserved] + s)[3..] == s;
  }

  /** `OnlyGrants` for the final reply. */
  lemma {:induction false} OnlyGrantReplies(data: seq<byte>, tail: seq<byte>)
    returns (reserved: byte, bound: seq<byte>)
    requires ReplyVerdict(data, NO_STALLS).value.Bound?
    ensures data == [VERSION, 0, reserved] + (bound + ReplyVerdict(data, NO_STALLS).rest)
    ensures ParseAddr(bound) == Some(Parsed(ReplyVerdict(data, NO_STALLS).value.address, []))
    ensures ReplyVerdict([VERSION, 0, reserved] + (bound + tail), NO_STALLS) ==
            Parsed(ReplyVerdict(data, NO_STALLS).value, tail)
  {
    hide ParseAddr;
    reserved := data[2];
    var s := data[3..];
    assert data == [VERSION, 0, reserved] + s;
    var a := ParseAddr(s).value;
    assert ReplyVerdict(data, NO_STALLS) == Parsed(Bound(a.value), a.rest);
    hide ReplyVerdict;
    bound := s[..|s| - |a.rest|];
    ParseAddrPrefix(s, tail);
    ParseAddrPrefix(s, []);
    assert bound + [] == bound;
    ReplyVerdictBehindHeader(reserved, bound + tail);
  }

  lemma {:induction false} VerdictBehindAgreement(askAuth: bool, reply: seq<byte>)
    ensures Verdict(Agreeing(askAuth) + reply, NO_STALLS) == ReplyVerdict(reply, NO_STALLS)
  {
    hide ReplyVerdict;
    var data := Agreeing(askAuth) + reply;
    assert data[|Agreeing(askAuth)|..] == reply;
  }

  /** A granting reply is understood, and consumed to its last byte and no further. */
  lemma {:induction false} GrantUnderstood(askAuth: bool, reserved: byte, bound: Address, rest: seq<byte>)
    requires AddressOk(bound) && Wire(bound).Some?
    ensures Verdict(Granting(askAuth, reserved, Wire(bound).value) + rest, NO_STALLS) ==
            Parsed(Bound(Normal(bound)), rest)
  {
    var w := Wire(bound).value;
    AddrRoundTrip(bound, rest);
    hide Wire, Normal, ParseAddr;
    ReplyVerdictBehindHeader(reserved, w + rest);
    VerdictBehindAgreement(askAuth, [VERSION, 0, reserved] + (w + rest));
    GrantingThen(askAuth, reserved, w, rest);
    hide *;
  }

  /** Nothing but a granting reply is taken for one, and what it means does not depend on what follows. */
  lemma {:induction false} OnlyGrants(data: seq<byte>, tail: seq<byte>)
    returns (askAuth: bool, reserved: byte, bound: seq<byte>)
    requires Verdict(data, NO_STALLS).value.Bound?
    ensures data == Granting(askAuth, reserved, bound) + Verdict(data, NO_STALLS).rest
    ensures ParseAddr(bound) == Some(Parsed(Verdict(data, NO_STALLS).value.address, []))
    ensures Verdict(Granting(askAuth, reserved, bound) + tail, NO_STALLS) ==
            Parsed(Verdict(data, NO_STALLS).value, tail)
  {
    hide ReplyVerdict, ParseAddr;
    askAuth := data[1] == METHOD_USER_PASS;
    var agreed := Agreeing(askAuth);
    var reply := data[|agreed|..];
    assert data == agreed + reply;
    assert Verdict(data, NO_STALLS) == ReplyVerdict(reply, NO_STALLS);
    reserved, bound := OnlyGrantReplies(reply, tail);
    VerdictBehindAgreement(askAuth, [VERSION, 0, reserved] + (bound + tail));
    GrantingThen(askAuth, reserved, bound, tail);
    GrantingThen(askAuth, reserved, bound, Verdict(data, NO_STALLS).rest);
    hide Verdict, Granting;
  }

  /** A grant is taken for what it is exactly if the read of the address type does not stall, nor, for a name,
      the read of its length. */
  lemma {:induction false} StalledVerdict(data: seq<byte>, stalls: Stalls)
    requires Verdict(data, NO_STALLS).value.Bound?
    ensures Verdict(data, stalls) == Verdict(data, NO_STALLS) <==>
            !stalls.kind && !(stalls.length && Verdict(data, NO_STALLS).value.address.host.Name?)
  {
    var n := if data[1] == METHOD_USER_PASS then 4 else 2;
    StalledAddr(data[n..][3..], stalls);
    KindOf(data[n..][3..]);
    hide ParseAddr, SeenAddr;
    SeenUnstalled(data[n..][3..]);
  }

  /** Which reads of the address in a final reply stall, of a reader that stands at VER. */
  function GrantStalls(script: seq<Move>, data: seq<byte>): (s: Stalls) {
    if |data| < 3 then NO_STALLS else StallsOf(AfterFull(script, |data|, 3), data[3..])
  }

  /** The same of a reader that stands in front of everything a server says. */
  function ReplyStalls(script: seq<Move>, data: seq<byte>): (s: Stalls) {
    if |data| < 2 then NO_STALLS else
    var agreed := AfterFull(script, |data|, 2);
    if data[1] != METHOD_USER_PASS then GrantStalls(agreed, data[2..])
    else if |data| < 4 then NO_STALLS
    else GrantStalls(AfterFull(agreed, |data| - 2, 2), data[4..])
  }

  lemma {:induction false} PromptAfter(script: seq<Move>, avail: nat, want: nat)
    requires Prompt(script)
    ensures Prompt(AfterFull(script, avail, want))
    decreases |script|
  {
    if want > 0 && script != [] {
      var n := NextSize(script, want, avail);
      if !EndSeen(script, n, avail) {
        PromptAfter(script[1..], avail - n, want - n);
      }
    }
  }

  lemma {:induction false} PromptGrant(script: seq<Move>, data: seq<byte>)
    requires Prompt(script)
    ensures GrantStalls(script, data) == NO_STALLS
  {
    hide AfterFull, Prompt, StallsOf;
    if |data| >= 3 {
      PromptAfter(script, |data|, 3);
      PromptStalls(AfterFull(script, |data|, 3), data[3..]);
    }
  }

  /** A prompt reader does not stall over any reply. */
  lemma {:induction false} PromptReply(script: seq<Move>, data: seq<byte>)
    requires Prompt(script)
    ensures ReplyStalls(script, data) == NO_STALLS
  {
    hide AfterFull, Prompt, StallsOf;
    if |data| >= 2 {
      var agreed := AfterFull(script, |data|, 2);
      PromptAfter(script, |data|, 2);
      PromptGrant(agreed, data[2..]);
      if |data| >= 4 {
        PromptAfter(agreed, |data| - 2, 2);
        PromptGrant(AfterFull(agreed, |data| - 2, 2), data[4..]);
      }
    }
  }

  class Client {
    var cred: Option<Credentials>

    constructor ()
      ensures cred == None
    {
      cred := None;
    }

    predicate Valid()
      reads this
    {
      cred.Some? ==> CredentialsOk(cred.value)
    }

    method SetCredentials(username: seq<byte>, password: seq<byte>) returns (ok: bool)
      modifies this
      ensures ok <==> 1 <= |username| <= 255 && 1 <= |password| <= 255
      ensures cred == if ok then Some(Credentials(username, password)) else old(cred)
      ensures old(Valid()) ==> Valid()
    {
      if |username| > 255 {
        return false;
      }
      if |username| == 0 {
        return false;
      }
      if |password| > 255 {
        return false;
      }
      if |password| == 0 {
        return false;
      }
      cred := Some(Credentials(username, password));
      ok := true;
    }

    /** `request`: one write, then the reply in stages.  Nothing is written for a name that is too long, and
        nothing is read if the write fails. */
    method Request(to: Sink, from: Source, cmd: byte, dst: Address) returns (r: Outcome)
      requires Valid() && AddressOk(dst)
      modifies to, from
      ensures var m := Asking(Ask(cred, cmd, dst));
              && (m == None <==> r == NameTooLong)
              && (r == NameTooLong ==>
                    to.calls == old(to.calls) && to.received == old(to.received) && from.data == old(from.data))
              && (m != None ==> to.received <= old(to.received) + m.value)
              && (m != None && r != WriteFailed ==> to.received == old(to.received) + m.value)
              && to.faults == old(to.faults) + (if r == WriteFailed then 1 else 0)
              && (r == WriteFailed ==> from.data == old(from.data))
              && (m != None ==> |to.calls| == |old(to.calls)| + 1 && to.calls[|old(to.calls)|] <= m.value)
              && (r != NameTooLong && r != WriteFailed ==> to.calls == old(to.calls) + [m.value])
              && (old(to.script) == [] ==> r != WriteFailed)
      ensures r != NameTooLong && r != WriteFailed ==>
                var v := Verdict(old(from.data), old(ReplyStalls(from.script, from.data)));
                r == v.value && (r != ReadFailed ==> from.data == v.rest)
    {
      hide Asking, Verdict, ReplyStalls;
      var b := Compose(cmd, dst);
      if b == None {
        return NameTooLong;
      }
      var n, err := to.Write(b.value);
      if err != NoErr {
        return WriteFailed;
      }
      assert b.value[..n] == b.value;
      r := ReadReply(from);
    }

    /** The one buffer with everything there is to say. */
    method Compose(cmd: byte, dst: Address) returns (m: Option<seq<byte>>)
      requires Valid() && AddressOk(dst)
      ensures m == Asking(Ask(cred, cmd, dst))
    {
      hide Wire;
      var b := [];
      match cred {
        case None =>
          b := [VERSION, 1, METHOD_NONE];
        case Some(c) =>
          b := [VERSION, 1, METHOD_USER_PASS];
          b := b + [AUTH_VERSION];
          b := b + [|c.username|];
          b := b + c.username;
          b := b + [|c.password|];
          b := b + c.password;
      }
      ghost var greeting := b;
      assert greeting == Greeting(cred);
      b := b + [VERSION, cmd, 0];
      m := AppendAddress(b, dst);
      if m != None {
        Assoc(greeting, [VERSION, cmd, 0], Wire(dst).value);
      }
    }
  }

  /** `io.ReadFull` into part of a small buffer, byte by byte. */
  method ReadInto(from: Source, buffer: array<byte>, lo: nat, hi: nat) returns (ok: bool)
    requires lo <= hi <= buffer.Length
    modifies from, buffer
    ensures ok <==> hi - lo <= |old(from.data)|
    ensures ok ==> from.data == old(from.data)[hi - lo..]
    ensures ok ==> forall i :: lo <= i < hi ==> buffer[i] == old(from.data)[i - lo]
    ensures forall i :: 0 <= i < lo ==> buffer[i] == old(buffer[i])
    ensures from.script == AfterFull(old(from.script), |old(from.data)|, hi - lo)
  {
    hide Prompt, AfterFull;
    var n, err := from.ReadFull(buffer, lo, hi);
    ok := err == NoErr;
    if ok {
      forall i | lo <= i < hi
        ensures buffer[i] == old(from.data)[i - lo]
      {
        assert buffer[lo..lo + n][i - lo] == old(from.data)[..n][i - lo];
      }
    }
  }

  /** The reading half of `request`. */
  method ReadReply(from: Source) returns (r: Outcome)
    modifies from
    ensures r != NameTooLong && r != WriteFailed
    ensures var v := Verdict(old(from.data), old(ReplyStalls(from.script, from.data)));
            r == v.value && (r != ReadFailed ==> from.data == v.rest)
  {
    hide Prompt, ReplyVerdict, AfterFull, GrantStalls;
    ghost var stalls := ReplyStalls(from.script, from.data);
    var buffer := new byte[4];
    ghost var data := from.data;
    var ok := ReadInto(from, buffer, 0, 2);
    if !ok {
      return ReadFailed;
    }
    assert buffer[0] == data[0] && buffer[1] == data[1];
    if buffer[0] != VERSION {
      return BadVersion(buffer[0]);
    }
    if buffer[1] == METHOD_NONE {
      // No authentication required.
    } else if buffer[1] == METHOD_USER_PASS {
      ok := ReadInto(from, buffer, 2, 4);
      if !ok {
        return ReadFailed;
      }
      assert buffer[2] == data[2..][0] == data[2];
      assert buffer[3] == data[2..][1] == data[3];
      DropMore(data, 2, 2);
      if buffer[2] != AUTH_VERSION {
        return BadAuthVersion(buffer[2]);
      }
      if buffer[3] != 0 {
        return AuthFailed(buffer[3]);
      }
    } else {
      return UnsupportedMethod(buffer[1]);
    }
    ghost var reply := from.data;
    assert stalls == GrantStalls(from.script, reply);
    r := ReadGrant(from, buffer);
    assert Verdict(data, stalls) == ReplyVerdict(reply, stalls);
  }

  /** The last stage: VER, REP, RSV and the bound address. */
  method ReadGrant(from: Source, buffer: array<byte>) returns (r: Outcome)
    requires buffer.Length >= 3
    modifies from, buffer
    ensures r != NameTooLong && r != WriteFailed
    ensures var v := ReplyVerdict(old(from.data), old(GrantStalls(from.script, from.data)));
            r == v.value && (r != ReadFailed ==> from.data == v.rest)
  {
    hide Prompt, SeenAddr, AfterFull;
    ghost var data := from.data;
    var ok := ReadInto(from, buffer, 0, 3);
    if !ok {
      return ReadFailed;
    }
    assert buffer[0] == data[0] && buffer[1] == data[1];
    if buffer[0] != VERSION {
      return BadVersion(buffer[0]);
    }
    if buffer[1] != 0 {
      return Refused(buffer[1]);
    }
    var a;
    ghost var stalls;
    a, stalls := ReadAddr(from);
    r := match a case None => ReadFailed case Some(addr) => Bound(addr);
  }

  /** A whole conversation: the server hears what was asked, and if it grants it, however its reply is cut up and
      whatever the relayed connection says right behind it, the client learns the bound address and hands on
      exactly those later bytes. */
  method Converse(client: Client, cmd: byte, dst: Address, askAuth: bool, reserved: byte, bound: Address,
                  later: seq<byte>, script: seq<Move>, end: EndErr)
    returns (heard: seq<byte>, r: Outcome, left: seq<byte>)
    requires client.Valid() && AddressOk(dst) && Wire(dst).Some? && AddressOk(bound) && Wire(bound).Some?
    requires Prompt(script)
    ensures Hear(heard) == Some(Parsed(Ask(client.cred, cmd, Normal(dst)), []))
    ensures r == Bound(Normal(bound)) && left == later
  {
    var to := new Sink([], Eof);
    var q := Ask(client.cred, cmd, dst);
    var reply := Granting(askAuth, reserved, Wire(bound).value) + later;
    var from := new Source(reply, script, end);
    GrantUnderstood(askAuth, reserved, bound, later);
    AskingHeard(q, []);
    assert Asking(q).Some? && AskOk(q);
    hide *;
    PromptReply(script, reply);
    r := client.Request(to, from, cmd, dst);
    heard, left := to.received, from.data;
    assert heard == Asking(q).value && heard + [] == heard;
  }

  /** The 772 bytes reserved for a request do not always hold it: exactly when user name, password and address
      need more than 763, `append` moves it to a larger buffer. */
  lemma {:induction false} RequestSize(q: Ask)
    requires AskOk(q) && Asking(q).Some?
    ensures var n := |Asking(q).value|;
            && n <= 778
            && (n > 772 <==> q.cred.Some?
                             && |q.cred.value.username| + |q.cred.value.password| + |Wire(q.dst).value| > 763)
  {
  }
}
