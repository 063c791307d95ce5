/** The Happy Eyeballs dialer (RFC 8305): an event loop over lookup results, two address queues, a gate that
    spaces the attempts, and dial goroutines that race for one hand-over.

    A run is a schedule of events.  An event that is not possible where it stands is skipped, so the
    schedules cover every interleaving of the loop, the goroutines, the timers and a cancelling caller. */
module HappyEyeballs {
  import opened Counting
  import opened Io

  /** `netip.Addr`; `Unset` is its zero value, which is neither valid nor IPv6. */
  datatype Addr = Unset | V4(id: nat) | V6(id: nat)

  /** One message of the resolution channel. */
  datatype Resolution = Resolution(ips: seq<Addr>, failed: bool)

  /** A dial goroutine: dialing, holding its outcome until somebody listens, or over. */
  datatype Attempt = Dialing | Holding(ok: bool) | Received(ok: bool) | Abandoned(ok: bool)

  datatype Gate = NoGate | ResolutionDelay | AttemptDelay

  datatype Failure = DialFailed | LookupFailed | NoAddresses | Cancelled

  datatype Outcome = Running | Connected(attempt: nat) | Failed(why: Failure)

  datatype Event =
    | Lookup                       // the loop receives from the resolution channel
    | Dial                         // the loop finds the gate open
    | DialResult(i: nat)           // the loop receives goroutine i's outcome
    | SeeCancel                    // the loop sees the cancelled context
    | DialEnds(i: nat, ok: bool)   // goroutine i's dial call returns
    | Abandon(i: nat)              // goroutine i sees the cancelled context
    | ResolutionDelayFires
    | AttemptDelayFires
    | Cancel                       // the caller cancels

  /** What was known when an address was dialled. */
  datatype DialRecord = DialRecord(addr: Addr, last: Addr, had4: bool, had6: bool, mayGoFirst: bool)

  function Only6(s: seq<Addr>): (r: seq<Addr>)
    ensures forall a :: a in r ==> a.V6?
  {
    if s == [] then [] else Only6(s[..|s| - 1]) + if s[|s| - 1].V6? then [s[|s| - 1]] else []
  }

  function Only4(s: seq<Addr>): (r: seq<Addr>)
    ensures forall a :: a in r ==> !a.V6?
  {
    if s == [] then [] else Only4(s[..|s| - 1]) + if s[|s| - 1].V6? then [] else [s[|s| - 1]]
  }

  lemma {:induction false} Only6Append(s: seq<Addr>, t: seq<Addr>)
    ensures Only6(s + t) == Only6(s) + Only6(t)
  {
    if t == [] {
      assert s + t == s;
    } else {
      var n, x := |t| - 1, t[|t| - 1];
      assert (s + t)[..|s + t| - 1] == s + t[..n];
      Only6Append(s, t[..n]);
      Assoc(Only6(s), Only6(t[..n]), if x.V6? then [x] else []);
    }
  }

  lemma {:induction false} Only4Append(s: seq<Addr>, t: seq<Addr>)
    ensures Only4(s + t) == Only4(s) + Only4(t)
  {
    if t == [] {
      assert s + t == s;
    } else {
      var n, x := |t| - 1, t[|t| - 1];
      assert (s + t)[..|s + t| - 1] == s + t[..n];
      Only4Append(s, t[..n]);
      Assoc(Only4(s), Only4(t[..n]), if x.V6? then [] else [x]);
    }
  }

  /** Each family is exactly its own addresses. */
  lemma {:induction false} OnlyMeans(s: seq<Addr>)
    ensures forall a :: (a in Only6(s) <==> a in s && a.V6?) && (a in Only4(s) <==> a in s && !a.V6?)
    ensures |Only6(s)| + |Only4(s)| == |s|
  {
    if s != [] {
      OnlyMeans(s[..|s| - 1]);
    }
  }

  lemma {:induction false} OnlyNothing(s: seq<Addr>)
    ensures s == [] ==> Only6(s) == [] && Only4(s) == []
  {
  }

  lemma {:induction false} OnlyOne(s: seq<Addr>, i: nat)
    requires i < |s|
    ensures Only6(s[..i + 1]) == if s[i].V6? then Only6(s[..i]) + [s[i]] else Only6(s[..i])
    ensures Only4(s[..i + 1]) == if s[i].V6? then Only4(s[..i]) else Only4(s[..i]) + [s[i]]
  {
    assert s[..i + 1][..i] == s[..i];
  }

  /** The order in which queued addresses are dialled if nothing more arrives. */
  function Plan(ip6s: seq<Addr>, ip4s: seq<Addr>, last: Addr): (r: seq<Addr>)
    decreases |ip6s| + |ip4s|
  {
    if ip6s == [] && ip4s == [] then []
    else if ip6s == [] || (last.V6? && ip4s != []) then [ip4s[0]] + Plan(ip6s, ip4s[1..], ip4s[0])
    else [ip6s[0]] + Plan(ip6s[1..], ip4s, ip6s[0])
  }

  function Weight(a: Attempt): (n: nat) {
    match a case Dialing => 3 case Holding(_) => 2 case Abandoned(_) => 1 case Received(_) => 0
  }

  function InFlight(a: Attempt): (n: nat) {
    if a.Received? then 0 else 1
  }

  function ResultWeight(r: Resolution): (n: nat) {
    1 + 4 * |r.ips|
  }

  function Arrived(results: seq<Resolution>): (s: seq<Addr>) {
    if results == [] then [] else
    var last := results[|results| - 1];
    Arrived(results[..|results| - 1]) + if last.failed then [] else last.ips
  }

  /** What has arrived is what the results without an error bring; a failed one brings nothing. */
  lemma {:induction false} ArrivedMeans(results: seq<Resolution>)
    ensures forall a :: a in Arrived(results) <==>
                        exists i :: 0 <= i < |results| && !results[i].failed && a in results[i].ips
  {
    if results != [] {
      var n := |results| - 1;
      ArrivedMeans(results[..n]);
      forall a
        ensures a in Arrived(results) <==>
                exists i :: 0 <= i < |results| && !results[i].failed && a in results[i].ips
      {
        if a in Arrived(results[..n]) {
          var i :| 0 <= i < n && !results[..n][i].failed && a in results[..n][i].ips;
          assert !results[i].failed && a in results[i].ips;
        }
        if exists i :: 0 <= i < n && !results[i].failed && a in results[i].ips {
          var i :| 0 <= i < n && !results[i].failed && a in results[i].ips;
          assert !results[..n][i].failed && a in results[..n][i].ips;
        }
      }
    }
  }

  predicate AnyFailed(results: seq<Resolution>) {
    exists i :: 0 <= i < |results| && results[i].failed
  }

  function Addrs(log: seq<DialRecord>): (s: seq<Addr>) {
    seq(|log|, i requires 0 <= i < |log| => log[i].addr)
  }

  function LastAddr(log: seq<DialRecord>): (a: Addr) {
    if log == [] then Unset else log[|log| - 1].addr
  }

  /** The rules of sections 4 and 8 of RFC 8305 for one dial: with both families waiting it takes turns,
      IPv6 first; the very first dial goes to IPv4 only when there is no IPv6 address to dial and there is
      no reason to wait for one any longer. */
  predicate RecordOk(before: seq<DialRecord>, r: DialRecord) {
    && r.last == LastAddr(before)
    && (r.had4 && r.had6 ==> (r.addr.V6? <==> !r.last.V6?))
    && (if r.addr.V6? then r.had6 else r.had4)
    && (before == [] && !r.addr.V6? ==> !r.had6 && r.mayGoFirst)
  }

  ghost predicate LogOk(log: seq<DialRecord>) {
    forall i :: 0 <= i < |log| ==> RecordOk(log[..i], log[i])
  }

  lemma {:induction false} LogGrows(log: seq<DialRecord>, r: DialRecord)
    requires LogOk(log) && RecordOk(log, r)
    ensures LogOk(log + [r])
  {
    forall i | 0 <= i < |log + [r]|
      ensures RecordOk((log + [r])[..i], (log + [r])[i])
    {
      assert (log + [r])[..i] == log[..i] && log[..|log|] == log;
    }
  }

  /** The attempts in a given state. */
  function Where(attempts: seq<Attempt>, a: Attempt): (s: set<nat>) {
    set i: nat | 0 <= i < |attempts| && attempts[i] == a
  }

  lemma {:induction false} WhereSnoc(attempts: seq<Attempt>, a: Attempt)
    requires a != Dialing
    ensures Where(attempts + [Dialing], a) == Where(attempts, a)
  {
  }

  lemma {:induction false} WhereUpdate(attempts: seq<Attempt>, i: nat, x: Attempt, a: Attempt)
    requires i < |attempts|
    ensures Where(attempts[i := x], a) == Where(attempts, a) - {i} + (if x == a then {i} else {})
    ensures attempts[i] != a ==> i !in Where(attempts, a)
  {
  }

  /** The events that use up work: all but timers and cancellation. */
  predicate Productive(e: Event) {
    e.Lookup? || e.Dial? || e.DialResult? || e.DialEnds? || e.Abandon?
  }

  /** The goroutines after an event that is possible. */
  function NextAttempts(attempts: seq<Attempt>, e: Event): (r: seq<Attempt>) {
    match e
    case Dial => attempts + [Dialing]
    case DialEnds(i, ok) => if i < |attempts| then attempts[i := Holding(ok)] else attempts
    case DialResult(i) =>
      if i < |attempts| && attempts[i].Holding? then attempts[i := Received(attempts[i].ok)] else attempts
    case Abandon(i) =>
      if i < |attempts| && attempts[i].Holding? then attempts[i := Abandoned(attempts[i].ok)] else attempts
    case _ => attempts
  }

  class Dialer {
    var ip4s: seq<Addr>
    var ip6s: seq<Addr>
    var lastDialed: Addr
    var opsPending: int
    var resolutionOpen: bool
    var gate: Gate
    var lookupErr: bool
    var dialErr: bool
    var outcome: Outcome
    /** The dial goroutines, in the order they were started. */
    var attempts: seq<Attempt>
    /** The delay of the current gate has run out. */
    var resolutionDelayOver: bool
    var attemptDelayOver: bool
    /** The caller has cancelled. */
    var cancelled: bool
    /** What the resolver will ever send, and how much of it has been read. */
    const results: seq<Resolution>
    var read: nat
    /** Attempts whose connection has been closed. */
    var closed: set<nat>
    ghost var log: seq<DialRecord>
    /** How many productive events have happened. */
    ghost var steps: nat

    /** `attemptDelayCh` is readable: never dialled, delay over, or the last goroutine gone. */
    predicate AttemptGateOpen()
      reads this
    {
      attempts == [] || attemptDelayOver
      || attempts[|attempts| - 1].Received? || attempts[|attempts| - 1].Abandoned?
    }

    predicate GateOpen()
      reads this
    {
      match gate
      case NoGate => false
      case ResolutionDelay => resolutionDelayOver || cancelled
      case AttemptDelay => AttemptGateOpen()
    }

    predicate Enabled(e: Event)
      reads this
    {
      match e
      case Lookup => outcome.Running? && resolutionOpen
      case Dial => outcome.Running? && GateOpen()
      case DialResult(i) => outcome.Running? && i < |attempts| && attempts[i].Holding?
      case SeeCancel => outcome.Running? && cancelled
      case DialEnds(i, _) => i < |attempts| && attempts[i].Dialing?
      case Abandon(i) => i < |attempts| && attempts[i].Holding? && (cancelled || !outcome.Running?)
      case ResolutionDelayFires => gate.ResolutionDelay? && !resolutionDelayOver
      case AttemptDelayFires => attempts != [] && !attemptDelayOver
      case Cancel => !cancelled
    }

    /** A dial after the first waits until the last one is over or has had its time; only if that was an address
        that is no address may it wait for the resolution delay instead. */
    predicate Paced()
      reads `attempts, `attemptDelayOver, `lastDialed, `resolutionDelayOver, `cancelled
    {
      attempts != [] ==>
        || attemptDelayOver || attempts[|attempts| - 1].Received? || attempts[|attempts| - 1].Abandoned?
        || (lastDialed == Unset && (resolutionDelayOver || cancelled))
    }

    /** What the loop waits for after one more round, and whether the delay for it is over: nothing, if nothing is
        queued; the resolution delay, which is set once, if the first address is still to come and may be
        preceded by an IPv6 one; and otherwise the last attempt. */
    ghost predicate Regated(was: Gate, over: bool)
      reads `gate, `resolutionDelayOver, `ip4s, `ip6s, `lastDialed, `resolutionOpen
    {
      if ip4s == [] && ip6s == [] then gate == NoGate && resolutionDelayOver == over
      else if lastDialed == Unset && ip6s == [] && resolutionOpen
      then if was == NoGate then gate == ResolutionDelay && !resolutionDelayOver
           else gate == was && resolutionDelayOver == over
      else gate == AttemptDelay && resolutionDelayOver == over
    }

    /** Every pending operation is accounted for. */
    ghost predicate OpsInv()
      reads `opsPending, `resolutionOpen, `ip4s, `ip6s, `attempts
    {
      opsPending == (if resolutionOpen then 1 else 0) + |ip4s| + |ip6s| + Sum(InFlight, attempts)
    }

    /** Queues and dials together are what has arrived, family by family, in order. */
    ghost predicate OrderInv()
      reads `read, `resolutionOpen, `log, `attempts, `lastDialed, `ip4s, `ip6s
    {
      && read <= |results| && (!resolutionOpen ==> read == |results|)
      && |log| == |attempts|
      && lastDialed == LastAddr(log)
      && Only6(Addrs(log)) + ip6s == Only6(Arrived(results[..read]))
      && Only4(Addrs(log)) + ip4s == Only4(Arrived(results[..read]))
      && (forall a :: a in ip6s ==> a.V6?) && (forall a :: a in ip4s ==> !a.V6?)
    }

    ghost predicate LogInv()
      reads `log
    {
      LogOk(log)
    }

    ghost predicate GateInv()
      reads `gate, `ip4s, `ip6s, `lastDialed, `resolutionOpen, `log
    {
      && (gate.NoGate? <==> ip4s == [] && ip6s == [])
      && (gate.ResolutionDelay? ==> lastDialed == Unset && ip6s == [] && resolutionOpen)
      && (gate.AttemptDelay? ==> log != [] || ip6s != [] || !resolutionOpen)
    }

    /** Nobody but the caller keeps a connection that is not closed. */
    ghost predicate ConnInv()
      reads `closed, `attempts, `outcome, `cancelled
    {
      && closed == Where(attempts, Abandoned(true))
      && Where(attempts, Received(true)) == (if outcome.Connected? then {outcome.attempt} else {})
      && (Where(attempts, Abandoned(true)) + Where(attempts, Abandoned(false)) != {} ==> cancelled || !outcome.Running?)
    }

    ghost predicate ErrInv()
      reads `lookupErr, `dialErr, `read, `attempts
    {
      && read <= |results| && (lookupErr <==> AnyFailed(results[..read]))
      && (dialErr <==> Where(attempts, Received(false)) != {})
    }

    /** What holds throughout an iteration of the loop. */
    ghost predicate Inv()
      reads `opsPending, `resolutionOpen, `ip4s, `ip6s, `attempts, `read, `log, `lastDialed, `closed, `outcome,
            `cancelled, `lookupErr, `dialErr
    {
      OpsInv() && OrderInv() && LogInv() && ConnInv() && ErrInv()
    }

    /** What holds whenever the loop waits in its `select`, and after it has returned. */
    ghost predicate Valid()
      reads `opsPending, `resolutionOpen, `ip4s, `ip6s, `attempts, `read, `log, `lastDialed, `closed, `outcome,
            `cancelled, `lookupErr, `dialErr, `gate
    {
      && Inv()
      && (outcome.Running? ==> GateInv() && opsPending > 0)
      && (outcome.Failed? && outcome.why != Cancelled ==>
            opsPending == 0
            && outcome.why == if dialErr then DialFailed else if lookupErr then LookupFailed else NoAddresses)
      && (outcome == Failed(Cancelled) ==> cancelled)
    }

    /** Work left: unread results, queued addresses and unfinished goroutines. */
    ghost function Work(): (n: nat)
      requires read <= |results|
      reads `read, `resolutionOpen, `ip4s, `ip6s, `attempts
    {
      Sum(ResultWeight, results[read..]) + (if resolutionOpen then 1 else 0)
      + 4 * (|ip4s| + |ip6s|) + Sum(Weight, attempts)
    }

    constructor (results: seq<Resolution>)
      ensures Valid() && outcome == Running && this.results == results && read == 0 && resolutionOpen
      ensures attempts == [] && log == [] && ip4s == [] && ip6s == [] && !cancelled && steps == 0
    {
      this.results := results;
      ip4s, ip6s, lastDialed, opsPending := [], [], Unset, 1;
      resolutionOpen, gate, lookupErr, dialErr, outcome := true, NoGate, false, false, Running;
      attempts, resolutionDelayOver, attemptDelayOver, cancelled := [], false, false, false;
      read, closed, log, steps := 0, {}, [], 0;
    }

    /** The loop condition, the final error, and the choice of what to wait for before the next dial. */
    method LoopHead()
      requires Inv() && outcome.Running? && (gate.ResolutionDelay? ==> lastDialed == Unset || log != [])
      requires gate.AttemptDelay? ==> log != [] || ip6s != [] || !resolutionOpen
      modifies this`gate, this`outcome, this`resolutionDelayOver
      ensures Valid() && (resolutionOpen ==> outcome.Running?) && (resolutionDelayOver ==> old(resolutionDelayOver))
      ensures outcome.Running? ==> Regated(old(gate), old(resolutionDelayOver))
    {
      hide LogInv, ErrInv, Sum, Only6, Only4;
      if opsPending == 0 {
        outcome := Failed(if dialErr then DialFailed else if lookupErr then LookupFailed else NoAddresses);
        return;
      }
      if |ip6s| == 0 && |ip4s| == 0 {
        gate := NoGate;
      } else if lastDialed == Unset && |ip6s| == 0 && resolutionOpen {
        if gate == NoGate {
          gate, resolutionDelayOver := ResolutionDelay, false;
        }
      } else {
        gate := AttemptDelay;
      }
    }

    /** `case lookupRes, ok := <-resolutionCh`. */
    method ReceiveLookup()
      requires Valid() && Enabled(Lookup)
      modifies this`opsPending, this`resolutionOpen, this`read, this`lookupErr, this`ip4s, this`ip6s
      ensures Inv() && old(ip6s) <= ip6s && read >= old(read) && Work() < old(Work())
      ensures resolutionOpen == (old(read) != |results|)
      ensures read == if old(read) == |results| then old(read) else old(read) + 1
    {
      hide LogInv, ConnInv, GateInv, Sum, Only6, Only4, Arrived, AnyFailed;
      if read == |results| {
        // The channel is closed: the loop sees the zero value, without addresses and without an error.
        opsPending, resolutionOpen := opsPending - 1, false;
        return;
      }
      var res := results[read];
      ReadOne(results, read);
      Assoc(Only6(Addrs(log)), ip6s, Only6(res.ips));
      Assoc(Only4(Addrs(log)), ip4s, Only4(res.ips));
      read := read + 1;
      if res.failed {
        lookupErr := true;
        return;
      }
      opsPending := opsPending + |res.ips|;
      Enqueue(res.ips);
    }

    /** `case <-readyToDialCh`: picks the address, resets the delay and starts a goroutine. */
    method StartDial()
      requires Valid() && Enabled(Dial)
      modifies this`ip4s, this`ip6s, this`lastDialed, this`attempts, this`attemptDelayOver, this`log
      ensures Inv() && log != [] && Work() < old(Work())
      ensures Plan(old(ip6s), old(ip4s), old(lastDialed)) == [lastDialed] + Plan(ip6s, ip4s, lastDialed)
      ensures Addrs(log) == Addrs(old(log)) + [lastDialed]
      ensures old(Paced())
      ensures log == old(log) + [DialRecord(lastDialed, old(lastDialed), old(ip4s != []), old(ip6s != []),
                                            old(!resolutionOpen || resolutionDelayOver || cancelled))]
      ensures attempts == old(attempts) + [Dialing] && !attemptDelayOver
    {
      hide Sum, Arrived, AnyFailed, Only6, Only4, Where, LogInv, Plan, Addrs;
      Choose();
      NewAttempt();
      SumSnoc(InFlight, attempts, Dialing);
      SumSnoc(Weight, attempts, Dialing);
      attemptDelayOver, attempts := false, attempts + [Dialing];
    }

    method Choose()
      requires Valid() && Enabled(Dial)
      modifies this`ip4s, this`ip6s, this`lastDialed, this`log
      ensures LogInv() && |log| == |old(log)| + 1 && lastDialed == LastAddr(log)
      ensures |ip4s| + |ip6s| + 1 == |old(ip4s)| + |old(ip6s)|
      ensures (forall a :: a in ip6s ==> a.V6?) && (forall a :: a in ip4s ==> !a.V6?)
      ensures Only6(Addrs(log)) + ip6s == Only6(Addrs(old(log))) + old(ip6s)
      ensures Only4(Addrs(log)) + ip4s == Only4(Addrs(old(log))) + old(ip4s)
      ensures Plan(old(ip6s), old(ip4s), old(lastDialed)) == [lastDialed] + Plan(ip6s, ip4s, lastDialed)
      ensures Addrs(log) == Addrs(old(log)) + [lastDialed]
      ensures log == old(log) + [DialRecord(lastDialed, old(lastDialed), old(ip4s != []), old(ip6s != []),
                                          old(!resolutionOpen || resolutionDelayOver || cancelled))]
    {
      hide Sum, Arrived, AnyFailed, Only6, Only4, Where, LogOk, Plan, Addrs;
      ghost var mayGoFirst := !resolutionOpen || resolutionDelayOver || cancelled;
      ghost var had4, had6 := ip4s != [], ip6s != [];
      var toDial := PickNext();
      ghost var record := DialRecord(toDial, lastDialed, had4, had6, mayGoFirst);
      LogGrows(log, record);
      OnlySnoc(log, record, ip6s, ip4s);
      log, lastDialed := log + [record], toDial;
    }

    /** Takes turns between the families while both wait. */
    method PickNext() returns (toDial: Addr)
      requires ip4s != [] || ip6s != []
      requires (forall a :: a in ip6s ==> a.V6?) && (forall a :: a in ip4s ==> !a.V6?)
      modifies this`ip4s, this`ip6s
      ensures (forall a :: a in ip6s ==> a.V6?) && (forall a :: a in ip4s ==> !a.V6?)
      ensures if toDial.V6? then old(ip6s) == [toDial] + ip6s && ip4s == old(ip4s)
              else old(ip4s) == [toDial] + ip4s && ip6s == old(ip6s)
      ensures old(ip4s) != [] && old(ip6s) != [] ==> (toDial.V6? <==> !lastDialed.V6?)
      ensures Plan(old(ip6s), old(ip4s), lastDialed) == [toDial] + Plan(ip6s, ip4s, toDial)
    {
      if |ip6s| == 0 || (lastDialed.V6? && |ip4s| > 0) {
        assert ip4s[0] in ip4s;
        toDial, ip4s := ip4s[0], ip4s[1..];
      } else {
        assert ip6s[0] in ip6s;
        toDial, ip6s := ip6s[0], ip6s[1..];
      }
    }

    lemma {:induction false} NewAttempt()
      ensures forall a :: a != Dialing ==> Where(attempts + [Dialing], a) == Where(attempts, a)
    {
      forall a | a != Dialing
        ensures Where(attempts + [Dialing], a) == Where(attempts, a)
      {
        WhereSnoc(attempts, a);
      }
    }

    method Enqueue(ips: seq<Addr>)
      modifies this`ip4s, this`ip6s
      ensures ip6s == old(ip6s) + Only6(ips) && ip4s == old(ip4s) + Only4(ips)
      ensures |ip6s| + |ip4s| == |old(ip6s)| + |old(ip4s)| + |ips|
    {
      hide Only6, Only4;
      OnlyNothing(ips[..0]);
      for i := 0 to |ips|
        invariant ip6s == old(ip6s) + Only6(ips[..i]) && ip4s == old(ip4s) + Only4(ips[..i])
        invariant |ip6s| + |ip4s| == |old(ip6s)| + |old(ip4s)| + i
      {
        OnlyOne(ips, i);
        if ips[i].V6? {
          Assoc(old(ip6s), Only6(ips[..i]), [ips[i]]);
          ip6s := ip6s + [ips[i]];
        } else {
          Assoc(old(ip4s), Only4(ips[..i]), [ips[i]]);
          ip4s := ip4s + [ips[i]];
        }
      }
      assert ips[..|ips|] == ips;
    }

    /** `case dialRes := <-dialCh`: goroutine `i` hands over its outcome and is done. */
    method ReceiveDial(i: nat)
      requires Valid() && Enabled(DialResult(i))
      modifies this`opsPending, this`attempts, this`dialErr, this`outcome
      ensures Inv() && Work() < old(Work())
      ensures if old(attempts[i]) == Holding(true) then outcome == Connected(i) else outcome.Running?
      ensures attempts == old(attempts)[i := Received(old(attempts)[i].ok)]
    {
      hide Sum, LogInv, GateInv, Where, Only6, Only4, AnyFailed, Arrived, Addrs;
      var ok := attempts[i].ok;
      Moves(i, Received(ok));
      opsPending, attempts := opsPending - 1, attempts[i := Received(ok)];
      if ok {
        outcome := Connected(i);
      } else {
        dialErr := true;
      }
    }

    /** What a change of one attempt's state does to the sums and the sets. */
    lemma {:induction false} Moves(i: nat, x: Attempt)
      requires i < |attempts|
      ensures Sum(InFlight, attempts[i := x]) == Sum(InFlight, attempts) - InFlight(attempts[i]) + InFlight(x)
      ensures Sum(Weight, attempts[i := x]) == Sum(Weight, attempts) - Weight(attempts[i]) + Weight(x)
      ensures forall a :: Where(attempts[i := x], a) == Where(attempts, a) - {i} + (if x == a then {i} else {})
      ensures forall a :: attempts[i] != a ==> i !in Where(attempts, a)
    {
      SumUpdate(InFlight, attempts, i, x);
      SumUpdate(Weight, attempts, i, x);
      forall a
        ensures Where(attempts[i := x], a) == Where(attempts, a) - {i} + (if x == a then {i} else {})
        ensures attempts[i] != a ==> i !in Where(attempts, a)
      {
        WhereUpdate(attempts, i, x, a);
      }
    }

    /** Goroutine `i`'s dial call returns. */
    method EndDial(i: nat, ok: bool)
      requires Valid() && Enabled(DialEnds(i, ok))
      modifies this`attempts
      ensures Valid() && Work() < old(Work()) && attempts == old(attempts)[i := Holding(ok)]
    {
      hide Sum, LogInv, GateInv, Where, Only6, Only4;
      Moves(i, Holding(ok));
      attempts := attempts[i := Holding(ok)];
    }

    /** Goroutine `i` gives up: nobody will listen, so it closes a connection it has made. */
    method GiveUp(i: nat)
      requires Valid() && Enabled(Abandon(i))
      modifies this`attempts, this`closed
      ensures Valid() && Work() < old(Work())
      ensures closed == old(closed) + if old(attempts[i]).ok then {i} else {}
      ensures attempts == old(attempts)[i := Abandoned(old(attempts)[i].ok)]
    {
      hide Sum, LogInv, GateInv, Where, Only6, Only4;
      var ok := attempts[i].ok;
      Moves(i, Abandoned(ok));
      attempts := attempts[i := Abandoned(ok)];
      if ok {
        closed := closed + {i};
      }
    }

    /** The dials made, and those that will follow if nothing more arrives. */
    ghost function Planned(): (r: seq<Addr>)
      reads `log, `ip6s, `ip4s, `lastDialed
    {
      Addrs(log) + Plan(ip6s, ip4s, lastDialed)
    }

    /** One event of a schedule; one that is not possible here changes nothing. */
    method Step(e: Event)
      requires Valid()
      modifies this
      ensures Valid() && read >= old(read)
      ensures !old(Enabled(e)) ==> unchanged(this)
      ensures old(!outcome.Running?) ==> outcome == old(outcome)
      ensures old(Enabled(e)) && Productive(e) ==> Work() < old(Work())
      ensures steps == old(steps) + if old(Enabled(e)) && Productive(e) then 1 else 0
      ensures Work() <= old(Work())
      ensures e != Lookup ==> Planned() == old(Planned())
      ensures old(!resolutionOpen) ==> !resolutionOpen && Planned() == old(Planned())
      ensures e != Dial ==> log == old(log)
      ensures e == Lookup && old(outcome.Running? || !resolutionOpen) ==> outcome.Running? || !resolutionOpen
      ensures cancelled == (old(cancelled) || e.Cancel?) && old(closed) <= closed
      ensures old(Enabled(e)) && e.Dial? ==>
                old(Paced())
                && log == old(log) + [DialRecord(lastDialed, old(lastDialed), old(ip4s != []), old(ip6s != []),
                                                 old(!resolutionOpen || resolutionDelayOver || cancelled))]
      ensures old(Enabled(e)) ==> Changed(e, old(attempts), old(read), old(resolutionOpen), old(attemptDelayOver))
      ensures old(Enabled(e)) && e.SeeCancel? ==> outcome == Failed(Cancelled)
      ensures old(Enabled(e)) ==> RegatedBy(e, old(gate), old(resolutionDelayOver))
    {
      hide Valid, Work, Planned, Paced, Changed, RegatedBy, Productive;
      if !Enabled(e) {
        return;
      }
      Happen(e);
      if Productive(e) {
        steps := steps + 1;
      }
    }

    /** What an event that is possible does to the goroutines, the lookups and the delay between attempts. */
    ghost predicate Changed(e: Event, was: seq<Attempt>, wasRead: nat, wasOpen: bool, wasOver: bool)
      reads `attempts, `read, `resolutionOpen, `attemptDelayOver
    {
      && attempts == NextAttempts(was, e)
      && read == (if e.Lookup? && wasRead != |results| then wasRead + 1 else wasRead)
      && resolutionOpen == (wasOpen && !(e.Lookup? && wasRead == |results|))
      && attemptDelayOver == (!e.Dial? && (wasOver || e.AttemptDelayFires?))
    }

    /** After each round of the loop the gate is the one described; no other event moves it, and the resolution
        delay runs out by its own event. */
    ghost predicate RegatedBy(e: Event, was: Gate, over: bool)
      reads `gate, `resolutionDelayOver, `ip4s, `ip6s, `lastDialed, `resolutionOpen, `outcome
    {
      if e.Lookup? || e.Dial? || e.DialResult? then outcome.Running? ==> Regated(was, over)
      else gate == was && resolutionDelayOver == (over || e.ResolutionDelayFires?)
    }

    method Happen(e: Event)
      requires Valid() && Enabled(e)
      modifies this
      ensures Valid() && read >= old(read) && steps == old(steps)
      ensures old(!outcome.Running?) ==> outcome == old(outcome)
      ensures if Productive(e) then Work() < old(Work()) else Work() <= old(Work())
      ensures e != Lookup ==> Planned() == old(Planned())
      ensures old(!resolutionOpen) ==> !resolutionOpen && Planned() == old(Planned())
      ensures e != Dial ==> log == old(log)
      ensures e == Lookup && old(outcome.Running? || !resolutionOpen) ==> outcome.Running? || !resolutionOpen
      ensures cancelled == (old(cancelled) || e.Cancel?) && old(closed) <= closed
      ensures e.Dial? ==>
                old(Paced())
                && log == old(log) + [DialRecord(lastDialed, old(lastDialed), old(ip4s != []), old(ip6s != []),
                                                 old(!resolutionOpen || resolutionDelayOver || cancelled))]
      ensures Changed(e, old(attempts), old(read), old(resolutionOpen), old(attemptDelayOver))
      ensures e.SeeCancel? ==> outcome == Failed(Cancelled)
      ensures RegatedBy(e, old(gate), old(resolutionDelayOver))
    {
      hide Sum, Valid, Inv, OpsInv, OrderInv, LogInv, ConnInv, ErrInv, GateInv;
      hide Only6, Only4, Plan, Addrs, Planned, Work, Paced, GateOpen, AttemptGateOpen, Regated;
      match e {
        case Lookup =>
          LookupStep();
        case Dial =>
          DialStep();
        case DialResult(i) =>
          DialResultStep(i);
        case SeeCancel =>
          ReturnCancelled();
        case DialEnds(i, ok) =>
          EndDial(i, ok);
        case Abandon(i) =>
          GiveUp(i);
        case ResolutionDelayFires =>
          resolutionDelayOver := true;
        case AttemptDelayFires =>
          attemptDelayOver := true;
        case Cancel =>
          CallerCancels();
      }
    }

    /** `Step`, with the moment at which each event is possible said in terms of the state alone. */
    method StepInFields(e: Event)
      requires Valid()
      modifies this
      ensures Valid()
      ensures e.Lookup? ==>
                (read != old(read) || resolutionOpen != old(resolutionOpen) <==>
                 old(outcome.Running? && resolutionOpen))
      ensures e.Dial? ==>
                (|attempts| == |old(attempts)| + 1 <==>
                 old(outcome.Running?
                     && ((gate.AttemptDelay?
                          && (attempts == [] || attemptDelayOver || attempts[|attempts| - 1].Received?
                              || attempts[|attempts| - 1].Abandoned?))
                         || (gate.ResolutionDelay? && (resolutionDelayOver || cancelled)))))
      ensures e.DialResult? ==>
                (attempts != old(attempts) <==>
                 old(outcome.Running? && e.i < |attempts| && attempts[e.i].Holding?))
      ensures e.SeeCancel? ==> (outcome != old(outcome) <==> old(outcome.Running? && cancelled))
      ensures e.DialEnds? ==> (attempts != old(attempts) <==> old(e.i < |attempts| && attempts[e.i].Dialing?))
      ensures e.Abandon? ==>
                (attempts != old(attempts) <==>
                 old(e.i < |attempts| && attempts[e.i].Holding? && (cancelled || !outcome.Running?)))
      ensures e.ResolutionDelayFires? ==> resolutionDelayOver == old(resolutionDelayOver || gate.ResolutionDelay?)
      ensures e.AttemptDelayFires? ==> attemptDelayOver == old(attemptDelayOver || attempts != [])
      ensures e.Cancel? ==> cancelled
      ensures outcome.Running?
              && (read != old(read) || resolutionOpen != old(resolutionOpen)
                  || |attempts| != |old(attempts)| || (e.DialResult? && attempts != old(attempts))) ==>
                Regated(old(gate), old(resolutionDelayOver))
    {
      hide OpsInv, LogInv, ConnInv, ErrInv, GateInv, Only6, Only4, Plan, Addrs, Planned, Work, Paced, Sum, Regated;
      Step(e);
    }

    method LookupStep()
      requires Valid() && Enabled(Lookup)
      modifies this`opsPending, this`resolutionOpen, this`read, this`lookupErr, this`ip4s, this`ip6s
      modifies this`gate, this`outcome, this`resolutionDelayOver
      ensures Valid() && read >= old(read) && Work() < old(Work()) && (resolutionOpen ==> outcome.Running?)
      ensures (resolutionDelayOver ==> old(resolutionDelayOver)) && resolutionOpen == (old(read) != |results|)
      ensures outcome.Running? ==> Regated(old(gate), old(resolutionDelayOver))
      ensures read == if old(read) == |results| then old(read) else old(read) + 1
    {
      hide Sum, OrderInv, LogInv, ConnInv, ErrInv, Only6, Only4;
      ReceiveLookup();
      LoopHead();
    }

    method DialResultStep(i: nat)
      requires Valid() && Enabled(DialResult(i))
      modifies this`opsPending, this`attempts, this`dialErr, this`gate, this`outcome, this`resolutionDelayOver
      ensures Valid() && Work() < old(Work())
      ensures attempts == old(attempts)[i := Received(old(attempts)[i].ok)]
      ensures resolutionDelayOver ==> old(resolutionDelayOver)
      ensures outcome.Running? ==> Regated(old(gate), old(resolutionDelayOver))
    {
      hide Sum, OrderInv, LogInv, ConnInv, ErrInv, Only6, Only4;
      ReceiveDial(i);
      if outcome.Running? {
        LoopHead();
      }
    }

    method DialStep()
      requires Valid() && Enabled(Dial)
      modifies this`ip4s, this`ip6s, this`lastDialed, this`attempts, this`attemptDelayOver, this`log
      modifies this`gate, this`outcome, this`resolutionDelayOver
      ensures Valid() && Work() < old(Work()) && Planned() == old(Planned())
      ensures resolutionDelayOver ==> old(resolutionDelayOver)
      ensures outcome.Running? ==> Regated(old(gate), old(resolutionDelayOver))
      ensures old(Paced())
      ensures log == old(log) + [DialRecord(lastDialed, old(lastDialed), old(ip4s != []), old(ip6s != []),
                                            old(!resolutionOpen || resolutionDelayOver || cancelled))]
      ensures attempts == old(attempts) + [Dialing] && !attemptDelayOver
    {
      hide Sum, OrderInv, LogInv, ConnInv, ErrInv, Only6, Only4, Plan, Addrs;
      StartDial();
      Assoc(Addrs(old(log)), [lastDialed], Plan(ip6s, ip4s, lastDialed));
      LoopHead();
    }

    method ReturnCancelled()
      requires Valid() && Enabled(SeeCancel)
      modifies this`outcome
      ensures Valid() && outcome == Failed(Cancelled)
    {
      outcome := Failed(Cancelled);
    }

    method CallerCancels()
      requires Valid()
      modifies this`cancelled
      ensures Valid() && cancelled
    {
      cancelled := true;
    }

    /** While the loop is running something can always happen: it never waits for nothing. */
    method NeverStuck() returns (e: Event)
      requires Valid() && outcome.Running?
      ensures Enabled(e) && (Productive(e) || e.AttemptDelayFires? || e.SeeCancel?)
    {
      hide OrderInv, LogInv, ErrInv;
      if resolutionOpen {
        return Lookup;
      }
      if ip4s != [] || ip6s != [] {
        return if GateOpen() then Dial else AttemptDelayFires;
      }
      SumZero(InFlight, attempts);
      var i :| 0 <= i < |attempts| && InFlight(attempts[i]) != 0;
      match attempts[i] {
        case Dialing => e := DialEnds(i, false);
        case Holding(_) => e := DialResult(i);
        case Abandoned(ok) =>
          assert i in Where(attempts, Abandoned(ok));
          e := SeeCancel;
      }
    }

    /** An aggregate failure is the whole truth: every result had been read, every address of an error-free
        result had been dialled exactly once, and every dial had failed. */
    lemma {:induction false} FailureIsTotal()
      requires Valid() && outcome.Failed? && outcome.why != Cancelled
      ensures read == |results| && ip4s == [] && ip6s == []
      ensures Only6(Addrs(log)) == Only6(Arrived(results)) && Only4(Addrs(log)) == Only4(Arrived(results))
      ensures |attempts| == |log| && forall i :: 0 <= i < |attempts| ==> attempts[i] == Received(false)
      ensures outcome.why == if log != [] then DialFailed
                             else if AnyFailed(results) then LookupFailed else NoAddresses
    {
      hide LogInv, Only6, Only4, Arrived, AnyFailed;
      SumZero(InFlight, attempts);
      assert results[..read] == results;
      assert Only6(Addrs(log)) + [] == Only6(Addrs(log)) && Only4(Addrs(log)) + [] == Only4(Addrs(log));
      forall i | 0 <= i < |attempts|
        ensures attempts[i] == Received(false) && dialErr
      {
        assert InFlight(attempts[i]) == 0;
        assert attempts[i] == Received(true) ==> i in Where(attempts, Received(true));
        assert i in Where(attempts, Received(false));
      }
      if log == [] {
        assert Where(attempts, Received(false)) == {};
      } else {
        assert attempts[0] == Received(false);
      }
    }

    /** Once the loop has returned and the goroutines are over, every connection ever made is either the one
        returned or closed, never both. */
    lemma {:induction false} NoConnectionLeaks(i: nat)
      requires Valid() && i < |attempts|
      requires attempts[i].Received? || attempts[i].Abandoned?
      ensures attempts[i].ok ==> (outcome == Connected(i) <==> i !in closed)
      ensures !attempts[i].ok ==> outcome != Connected(i) && i !in closed
    {
      hide OrderInv, LogInv, ErrInv, OpsInv;
      var r, a := Where(attempts, Received(true)), Where(attempts, Abandoned(true));
      assert i in r <==> attempts[i] == Received(true);
      assert i in a <==> attempts[i] == Abandoned(true);
    }
  }

  /** IPv6 and IPv4 in turn, IPv6 first, then what is left of the longer list. */
  function Interleaved(ip6s: seq<Addr>, ip4s: seq<Addr>): (r: seq<Addr>) {
    if ip6s == [] then ip4s else if ip4s == [] then ip6s
    else [ip6s[0], ip4s[0]] + Interleaved(ip6s[1..], ip4s[1..])
  }

  lemma {:induction false} PlanOneFamily(s: seq<Addr>, last: Addr)
    ensures Plan(s, [], last) == s && Plan([], s, last) == s
    decreases s
  {
    if s != [] {
      PlanOneFamily(s[1..], s[0]);
      assert s == [s[0]] + s[1..];
    }
  }

  /** If all results arrive before the first dial, the dials are the interleaving of the two lists. */
  lemma {:induction false} PlanInterleaves(ip6s: seq<Addr>, ip4s: seq<Addr>, last: Addr)
    requires (forall a :: a in ip6s ==> a.V6?) && (forall a :: a in ip4s ==> !a.V6?) && !last.V6?
    ensures Plan(ip6s, ip4s, last) == Interleaved(ip6s, ip4s)
    decreases ip6s
  {
    if ip6s == [] {
      PlanOneFamily(ip4s, last);
    } else if ip4s == [] {
      PlanOneFamily(ip6s, last);
    } else {
      assert ip6s[0] in ip6s && ip4s[0] in ip4s;
      PlanInterleaves(ip6s[1..], ip4s[1..], ip4s[0]);
      var rest := Plan(ip6s[1..], ip4s[1..], ip4s[0]);
      assert [ip6s[0]] + ([ip4s[0]] + rest) == [ip6s[0], ip4s[0]] + rest;
    }
  }

  /** Any schedule, from any state: every productive event uses up work, once resolution has closed the
      dialling order is fixed, and once there is an outcome it stays. */
  method Continue(d: Dialer, schedule: seq<Event>)
    requires d.Valid()
    modifies d
    ensures d.Valid() && d.steps + d.Work() <= old(d.steps + d.Work())
    ensures old(!d.resolutionOpen) ==> !d.resolutionOpen && d.Planned() == old(d.Planned())
    ensures old(!d.outcome.Running?) ==> d.outcome == old(d.outcome)
  {
    hide Dialer.OpsInv, Dialer.LogInv, Dialer.ConnInv, Dialer.ErrInv, Dialer.GateInv, Only6, Only4;
    hide Dialer.Work, Dialer.Planned, Dialer.Enabled;
    for i := 0 to |schedule|
      invariant d.Valid() && d.steps + d.Work() <= old(d.steps + d.Work())
      invariant old(!d.resolutionOpen) ==> !d.resolutionOpen && d.Planned() == old(d.Planned())
      invariant old(!d.outcome.Running?) ==> d.outcome == old(d.outcome)
    {
      d.Step(schedule[i]);
    }
  }

  /** Any schedule, from the start: there are no more productive events than one for the closing channel, one for
      each result and four for each address. */
  method Run(results: seq<Resolution>, schedule: seq<Event>) returns (d: Dialer)
    ensures fresh(d) && d.Valid() && d.results == results
    ensures d.steps + d.Work() <= Sum(ResultWeight, results) + 1
  {
    hide Sum;
    d := new Dialer(results);
    AllWork(d);
    Continue(d, schedule);
  }

  /** From any state the loop comes to an end: as long as it runs an event can be found that uses up work, or that
      lets the one delay run out that holds it up. */
  method RunToEnd(d: Dialer)
    requires d.Valid()
    modifies d
    ensures d.Valid() && !d.outcome.Running?
  {
    hide Dialer.OpsInv, Dialer.LogInv, Dialer.ConnInv, Dialer.ErrInv, Dialer.GateInv, Only6, Only4;
    hide Dialer.Work, Dialer.Planned;
    while d.outcome.Running?
      invariant d.Valid()
      decreases d.Work(), !d.attemptDelayOver, d.outcome.Running?
    {
      var e := d.NeverStuck();
      d.Step(e);
    }
  }

  lemma {:induction false} AllWork(d: Dialer)
    requires d.Valid() && d.read == 0 && d.resolutionOpen && d.attempts == [] && d.ip4s == [] && d.ip6s == []
    ensures d.Work() == Sum(ResultWeight, d.results) + 1
  {
    assert d.results[0..] == d.results;
  }

  /** Every result is read before anything else happens, and then events come in any order at all: the
      dials made are always a beginning of the interleaving of the two lists of addresses. */
  method RunAfterResolution(results: seq<Resolution>, schedule: seq<Event>) returns (d: Dialer)
    ensures fresh(d) && d.Valid() && !d.resolutionOpen
    ensures Addrs(d.log) <= Interleaved(Only6(Arrived(results)), Only4(Arrived(results)))
  {
    hide Only6, Only4, Arrived, Plan, Sum, Dialer.LogInv, Dialer.ErrInv, Dialer.ConnInv, Interleaved;
    d := new Dialer(results);
    while d.resolutionOpen
      invariant d.Valid() && d.results == results && fresh(d) && d.log == []
      invariant d.outcome.Running? || !d.resolutionOpen
      decreases d.Work()
    {
      d.Step(Lookup);
    }
    FirstPlan(d);
    ghost var plan := Plan(d.ip6s, d.ip4s, Unset);
    Continue(d, schedule);
    assert d.Planned() == plan;
  }

  lemma {:induction false} FirstPlan(d: Dialer)
    requires d.Valid() && !d.resolutionOpen && d.log == []
    ensures d.Planned() == Plan(d.ip6s, d.ip4s, Unset)
            == Interleaved(Only6(Arrived(d.results)), Only4(Arrived(d.results)))
  {
    assert d.results[..d.read] == d.results;
    assert Only6(Addrs([])) == [] && Only4(Addrs([])) == [];
    assert [] + d.ip6s == d.ip6s && [] + d.ip4s == d.ip4s;
    PlanInterleaves(d.ip6s, d.ip4s, Unset);
    assert Addrs([]) + Plan(d.ip6s, d.ip4s, Unset) == Plan(d.ip6s, d.ip4s, Unset);
  }

  /** Dialling the head of its family's queue keeps dials and queue together as they were. */
  lemma {:induction false} OnlySnoc(log: seq<DialRecord>, x: DialRecord, ip6s: seq<Addr>, ip4s: seq<Addr>)
    ensures Addrs(log + [x]) == Addrs(log) + [x.addr]
    ensures if x.addr.V6?
            then Only6(Addrs(log + [x])) + ip6s == Only6(Addrs(log)) + ([x.addr] + ip6s)
                 && Only4(Addrs(log + [x])) == Only4(Addrs(log))
            else Only4(Addrs(log + [x])) + ip4s == Only4(Addrs(log)) + ([x.addr] + ip4s)
                 && Only6(Addrs(log + [x])) == Only6(Addrs(log))
  {
    var s := Addrs(log + [x]);
    assert s == Addrs(log) + [x.addr] && s[..|log|] == Addrs(log);
  }

  lemma {:induction false} SumDrop(f: Resolution -> nat, s: seq<Resolution>)
    requires s != []
    ensures Sum(f, s) == f(s[0]) + Sum(f, s[1..])
  {
    if |s| > 1 {
      var n := |s| - 1;
      SumDrop(f, s[..n]);
      assert s[..n][1..] == s[1..][..n - 1];
    }
  }

  lemma {:induction false} ReadOne(results: seq<Resolution>, read: nat)
    requires read < |results|
    ensures Sum(ResultWeight, results[read..]) == ResultWeight(results[read]) + Sum(ResultWeight, results[read + 1..])
    ensures AnyFailed(results[..read + 1]) <==> AnyFailed(results[..read]) || results[read].failed
    ensures var r, was, now := results[read], Arrived(results[..read]), Arrived(results[..read + 1]);
            if r.failed then now == was
            else Only6(now) == Only6(was) + Only6(r.ips) && Only4(now) == Only4(was) + Only4(r.ips)
  {
    SumDrop(ResultWeight, results[read..]);
    assert results[read..][1..] == results[read + 1..];
    var was, now := results[..read], results[..read + 1];
    assert now[..read] == was && now[read] == results[read];
    assert AnyFailed(was) ==> AnyFailed(now) by {
      if AnyFailed(was) {
        var i :| 0 <= i < |was| && was[i].failed;
        assert now[i].failed;
      }
    }
    assert AnyFailed(now) ==> AnyFailed(was) || results[read].failed by {
      if AnyFailed(now) {
        var i :| 0 <= i < |now| && now[i].failed;
        assert i < read ==> was[i].failed;
      }
    }
    Only6Append(Arrived(was), results[read].ips);
    Only4Append(Arrived(was), results[read].ips);
    assert Arrived(was) + [] == Arrived(was);
  }
}
