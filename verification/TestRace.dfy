/** `raceTests`: tests are started one after another, each when its predecessor is over or has had its time,
    and the first success to arrive wins.  A run is a schedule of events; impossible ones are skipped. */
module TestRace {
  import opened Counting

  /** A test goroutine: testing, with its result sent but its wait not yet cancelled, or over. */
  datatype Test = Testing | Reported(ok: bool) | Over(ok: bool)

  datatype Result = Result(index: nat, ok: bool)

  datatype Outcome = Running | Won(index: nat) | AllFailed | Cancelled

  /** What the next start waits for: nothing at first, then the wait of the last test started, then never. */
  datatype Gate = Open | Wait | Never

  datatype Event =
    | Start               // the loop finds the gate open
    | Receive             // the loop receives a result
    | SeeCancel           // the loop sees the cancelled context
    | Report(i: nat, ok: bool)
    | Finish(i: nat)      // goroutine i cancels its wait and is over
    | WaitExpires
    | Cancel

  function Ended(t: Test): (n: nat) { if t.Testing? then 0 else 1 }

  lemma {:induction false} SumLength(tests: seq<Test>)
    ensures Sum(Ended, tests) <= |tests|
    ensures Sum(Ended, tests) == |tests| ==> forall i :: 0 <= i < |tests| ==> !tests[i].Testing?
  {
    if tests != [] {
      SumLength(tests[..|tests| - 1]);
    }
  }

  /** The goroutines after an event that is possible. */
  function NextTests(tests: seq<Test>, e: Event): (r: seq<Test>) {
    match e
    case Start => tests + [Testing]
    case Report(i, ok) => if i < |tests| then tests[i := Reported(ok)] else tests
    case Finish(i) => if i < |tests| && tests[i].Reported? then tests[i := Over(tests[i].ok)] else tests
    case _ => tests
  }

  class Race {
    /** How many entries there are to test. */
    const entries: nat
    var next: nat
    var toTest: nat
    var gate: Gate
    var waitExpired: bool
    var cancelled: bool
    var outcome: Outcome
    var tests: seq<Test>
    /** The result channel, which has room for one result an entry. */
    var channel: seq<Result>
    ghost var received: seq<Result>

    predicate GateOpen()
      requires gate.Wait? ==> tests != []
      reads this
    {
      match gate
      case Open => true
      case Wait => waitExpired || cancelled || tests[|tests| - 1].Over?
      case Never => false
    }

    /** The results sent, in order, are those of the tests that have ended, one each. */
    ghost predicate ResultsInv()
      reads this
    {
      var sent := received + channel;
      && |sent| == Sum(Ended, tests)
      && (forall k :: 0 <= k < |sent| ==>
            sent[k].index < |tests| && !tests[sent[k].index].Testing? && tests[sent[k].index].ok == sent[k].ok)
      && (forall i :: 0 <= i < |tests| && !tests[i].Testing? ==> Result(i, tests[i].ok) in sent)
    }

    ghost predicate Valid()
      reads this
    {
      && |tests| == next <= entries
      && toTest + |received| == entries && ResultsInv()
      && (gate.Open? <==> next == 0) && (gate.Never? <==> next == entries && next > 0)
      && (outcome.Running? ==> toTest > 0 && forall k :: 0 <= k < |received| ==> !received[k].ok)
      && (outcome.AllFailed? ==> toTest == 0 && forall k :: 0 <= k < |received| ==> !received[k].ok)
      && (outcome.Won? ==>
            received != [] && received[|received| - 1] == Result(outcome.index, true)
            && forall k :: 0 <= k < |received| - 1 ==> !received[k].ok)
      && (outcome.Cancelled? ==> cancelled)
    }

    constructor (entries: nat)
      ensures Valid() && this.entries == entries && tests == [] && received == []
      ensures outcome == if entries == 0 then AllFailed else Running
    {
      this.entries, next, toTest := entries, 0, entries;
      gate, waitExpired, cancelled, tests, channel, received := Open, false, false, [], [], [];
      outcome := if entries == 0 then AllFailed else Running;
    }

    predicate Enabled(e: Event)
      requires gate.Wait? ==> tests != []
      reads this
    {
      match e
      case Start => outcome.Running? && GateOpen()
      case Receive => outcome.Running? && channel != []
      case SeeCancel => outcome.Running? && cancelled
      case Report(i, _) => i < |tests| && tests[i].Testing?
      case Finish(i) => i < |tests| && tests[i].Reported?
      case WaitExpires => gate.Wait? && !waitExpired
      case Cancel => !cancelled
    }

    /** One event.  Sending a result never blocks, and a start never runs past the entries. */
    method Step(e: Event)
      requires Valid()
      modifies this
      ensures Valid()
      ensures !old(Enabled(e)) ==> unchanged(this)
      ensures old(Enabled(e)) && e.Report? ==> |old(channel)| < entries
      ensures old(Enabled(e)) && e.Start? ==> old(next) < entries
      ensures old(!outcome.Running?) ==> outcome == old(outcome)
      ensures |tests| > |old(tests)| && old(tests) != [] ==> old(waitExpired || cancelled || tests[|tests| - 1].Over?)
      ensures old(Enabled(e)) ==> tests == NextTests(old(tests), e)
      // Results are received in the order in which they were sent, one for each test.
      ensures old(Enabled(e)) ==>
                && channel == (if e.Report? then old(channel) + [Result(e.i, e.ok)]
                               else if e.Receive? then old(channel)[1..] else old(channel))
                && received == (if e.Receive? then old(received) + [old(channel)[0]] else old(received))
      // A wait expires by its event alone, and is set anew with each start.
      ensures waitExpired ==> old(waitExpired) || e.WaitExpires?
      ensures old(Enabled(e)) && e.Start? ==> !waitExpired
      ensures cancelled == (old(cancelled) || e.Cancel?)
      ensures old(Enabled(e)) && e.SeeCancel? ==> outcome == Cancelled
      ensures old(Enabled(e)) && e.Receive? ==>
                outcome == (var result := old(channel)[0];
                            if result.ok then Won(result.index)
                            else if |received| == entries then AllFailed else Running)
      ensures old(Enabled(e)) && e.WaitExpires? ==> waitExpired
    {
      hide Sum;
      if !Enabled(e) {
        return;
      }
      match e {
        case Start =>
          StartNext();
        case Receive =>
          TakeResult();
        case SeeCancel =>
          outcome := Cancelled;
        case Report(i, ok) =>
          Send(i, ok);
        case Finish(i) =>
          End(i);
        case WaitExpires =>
          waitExpired := true;
        case Cancel =>
          cancelled := true;
      }
    }

    /** `Step`, with the moment at which each event is possible, and the result of the race, said in terms of the
        state alone. */
    method StepInFields(e: Event)
      requires Valid()
      modifies this
      ensures Valid()
      ensures e.Start? ==>
                (|tests| == |old(tests)| + 1 <==>
                 old(outcome.Running? && |tests| < entries
                     && (tests == [] || waitExpired || cancelled || tests[|tests| - 1].Over?)))
      ensures e.Receive? ==> (received != old(received) <==> old(outcome.Running? && channel != []))
      ensures e.Receive? && received != old(received) ==>
                outcome == (var result := old(channel)[0];
                            if result.ok then Won(result.index)
                            else if |received| == entries then AllFailed else Running)
      ensures e.SeeCancel? ==> (outcome != old(outcome) <==> old(outcome.Running? && cancelled))
      ensures e.SeeCancel? && outcome != old(outcome) ==> outcome == Cancelled
      ensures e.Report? ==> (tests != old(tests) <==> old(e.i < |tests| && tests[e.i].Testing?))
      ensures e.Finish? ==> (tests != old(tests) <==> old(e.i < |tests| && tests[e.i].Reported?))
      ensures e.WaitExpires? ==> waitExpired == old(waitExpired || 0 < |tests| < entries)
      ensures e.Cancel? ==> cancelled
    {
      hide ResultsInv, Sum;
      Step(e);
    }

    method StartNext()
      requires Valid() && Enabled(Start)
      modifies this`next, this`waitExpired, this`gate, this`tests
      ensures Valid() && old(next) < entries && tests == old(tests) + [Testing] && !waitExpired
      ensures old(tests) != [] ==> old(waitExpired || cancelled || tests[|tests| - 1].Over?)
    {
      hide Sum;
      next := next + 1;
      waitExpired, gate := false, if next == entries then Never else Wait;
      SumSnoc(Ended, tests, Testing);
      ghost var was := tests;
      tests := tests + [Testing];
      assert forall i :: 0 <= i < |was| ==> tests[i] == was[i];
    }

    method TakeResult()
      requires Valid() && Enabled(Receive)
      modifies this`toTest, this`channel, this`received, this`outcome
      ensures Valid() && received == old(received) + [old(channel)[0]] && channel == old(channel)[1..]
      ensures outcome == (var result := old(channel)[0];
                          if result.ok then Won(result.index)
                          else if |received| == entries then AllFailed else Running)
    {
      hide Sum;
      ghost var sent := received + channel;
      SumLength(tests);
      var result := channel[0];
      toTest, received, channel := toTest - 1, received + [result], channel[1..];
      assert received + channel == sent;
      if result.ok {
        outcome := Won(result.index);
      } else if toTest == 0 {
        outcome := AllFailed;
      }
    }

    method Send(i: nat, ok: bool)
      requires Valid() && Enabled(Report(i, ok))
      modifies this`tests, this`channel
      ensures Valid() && |old(channel)| < entries && tests == old(tests)[i := Reported(ok)]
      ensures channel == old(channel) + [Result(i, ok)]
    {
      hide Sum;
      SumLength(tests);
      SumUpdate(Ended, tests, i, Reported(ok));
      SumLength(tests[i := Reported(ok)]);
      ghost var sent := received + channel;
      tests := tests[i := Reported(ok)];
      channel := channel + [Result(i, ok)];
      assert received + channel == sent + [Result(i, ok)];
    }

    method End(i: nat)
      requires Valid() && Enabled(Finish(i))
      modifies this`tests
      ensures Valid() && tests == old(tests)[i := Over(old(tests)[i].ok)]
    {
      hide Sum;
      SumUpdate(Ended, tests, i, Over(tests[i].ok));
      tests := tests[i := Over(tests[i].ok)];
    }

    /** "All tests failed" means it: every entry was tested, every test has ended, and none succeeded. */
    lemma {:induction false} FailureIsTotal()
      requires Valid() && outcome.AllFailed?
      ensures |tests| == entries && forall i :: 0 <= i < |tests| ==> !tests[i].Testing? && !tests[i].ok
    {
      hide Sum;
      SumLength(tests);
      forall i | 0 <= i < |tests|
        ensures !tests[i].Testing? && !tests[i].ok
      {
        assert Result(i, tests[i].ok) in received + channel;
      }
    }

    /** While the race is on something can happen. */
    lemma {:induction false} NeverStuck() returns (e: Event)
      requires Valid() && outcome.Running?
      ensures Enabled(e)
    {
      hide Sum;
      if channel != [] {
        return Receive;
      }
      if !gate.Never? {
        return if GateOpen() then Start else WaitExpires;
      }
      SumLength(tests);
      SomeTesting();
      var i :| 0 <= i < |tests| && tests[i].Testing?;
      e := Report(i, false);
    }

    lemma {:induction false} SomeTesting()
      requires Valid() && outcome.Running? && channel == [] && gate.Never?
      ensures exists i :: 0 <= i < |tests| && tests[i].Testing?
    {
      if forall i :: 0 <= i < |tests| ==> !tests[i].Testing? {
        AllEnded(tests);
      }
    }
  }

  lemma {:induction false} AllEnded(tests: seq<Test>)
    requires forall i :: 0 <= i < |tests| ==> !tests[i].Testing?
    ensures Sum(Ended, tests) == |tests|
  {
    if tests != [] {
      AllEnded(tests[..|tests| - 1]);
    }
  }
}
