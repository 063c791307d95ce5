/** `NewParallelHappyEyeballsResolveFunc`: any number of lookup goroutines share one buffered channel, and
    the last one to finish closes it. */
module LookupFanOut {
  import opened Counting

  /** A lookup goroutine: resolving, about to count itself off, about to close the channel, or over. */
  datatype Worker = Resolving | Sent | Closing | Done

  datatype Event = Send(i: nat) | CountOff(i: nat) | Close(i: nat) | Receive

  function Unsent(w: Worker): (n: nat) { if w.Resolving? then 1 else 0 }

  function Uncounted(w: Worker): (n: nat) { if w.Resolving? || w.Sent? then 1 else 0 }

  function Closers(w: Worker): (n: nat) { if w.Closing? then 1 else 0 }

  function Unfinished(w: Worker): (n: nat) {
    match w case Resolving => 3 case Sent => 2 case Closing => 1 case Done => 0
  }

  /** The goroutines after an event that is possible: whoever takes the counter to zero closes the channel. */
  function NextWorkers(workers: seq<Worker>, e: Event, pending: nat): (r: seq<Worker>) {
    match e
    case Send(i) => if i < |workers| then workers[i := Sent] else workers
    case CountOff(i) => if i < |workers| then workers[i := if pending == 1 then Closing else Done] else workers
    case Close(i) => if i < |workers| then workers[i := Done] else workers
    case Receive => workers
  }

  class FanOut {
    var workers: seq<Worker>
    /** The atomic counter of goroutines that have not counted themselves off. */
    var pending: nat
    /** Messages in the channel, whose capacity is the number of lookups. */
    var buffered: nat
    var sends: nat
    var closes: nat

    ghost predicate Valid()
      reads this
    {
      && pending == Sum(Uncounted, workers)
      && sends == |workers| - Sum(Unsent, workers) && buffered <= sends
      && closes + Sum(Closers, workers) == (if pending == 0 then 1 else 0)
    }

    constructor (lookups: nat)
      ensures Valid() && |workers| == lookups && sends == 0 && buffered == 0
    {
      workers, pending, buffered, sends := seq(lookups, _ => Resolving), lookups, 0, 0;
      // With nothing to wait for the channel is closed at once.
      closes := if lookups == 0 then 1 else 0;
      new;
      AllResolving(lookups);
    }

    predicate Enabled(e: Event)
      reads this
    {
      match e
      case Send(i) => i < |workers| && workers[i].Resolving?
      case CountOff(i) => i < |workers| && workers[i].Sent?
      case Close(i) => i < |workers| && workers[i].Closing?
      case Receive => buffered > 0
    }

    /** One event of any interleaving.  Whenever a goroutine is ready to send there is room in the channel
        and it is open, and whenever one is ready to close, it is open and everything has been sent. */
    method Step(e: Event)
      requires Valid()
      modifies this
      ensures Valid() && |workers| == |old(workers)|
      ensures old(Enabled(e)) ==>
                && workers == NextWorkers(old(workers), e, old(pending))
                && sends == old(sends) + (if e.Send? then 1 else 0)
                && closes == old(closes) + (if e.Close? then 1 else 0)
                && buffered == old(buffered) + (if e.Send? then 1 else if e.Receive? then -1 else 0)
                && pending == old(pending) - (if e.CountOff? then 1 else 0)
      ensures !old(Enabled(e)) ==> unchanged(this)
      ensures old(Enabled(e)) && e.Send? ==> old(buffered < |workers| && closes == 0) && sends == old(sends) + 1
      ensures old(Enabled(e)) && e.Close? ==> old(closes) == 0 && closes == 1 && sends == |workers|
      ensures old(Enabled(e)) && !e.Receive? ==> Sum(Unfinished, workers) < old(Sum(Unfinished, workers))
    {
      hide Sum;
      if !Enabled(e) {
        return;
      }
      match e {
        case Send(i) =>
          Moves(i, Sent);
          workers := workers[i := Sent];
          buffered, sends := buffered + 1, sends + 1;
        case CountOff(i) =>
          Moves(i, Closing);
          Moves(i, Done);
          pending := pending - 1;
          var next := if pending == 0 then Closing else Done;
          workers := workers[i := next];
        case Close(i) =>
          Moves(i, Done);
          UnsentCounted();
          closes, workers := closes + 1, workers[i := Done];
        case Receive =>
          buffered := buffered - 1;
      }
    }

    /** `Step`, with the moment at which each event is possible said in terms of the state alone. */
    method StepInFields(e: Event)
      requires Valid()
      modifies this
      ensures Valid()
      ensures e.Send? ==> (sends == old(sends) + 1 <==> old(e.i < |workers| && workers[e.i].Resolving?))
      ensures e.CountOff? ==> (pending == old(pending) - 1 <==> old(e.i < |workers| && workers[e.i].Sent?))
      ensures e.Close? ==> (closes == old(closes) + 1 <==> old(e.i < |workers| && workers[e.i].Closing?))
      ensures e.Receive? ==> (buffered == old(buffered) - 1 <==> old(buffered > 0))
    {
      hide Sum;
      Step(e);
    }

    /** As long as a goroutine is not over, one of them can go on. */
    method NeverStuck() returns (e: Event)
      requires Valid() && exists i :: 0 <= i < |workers| && !workers[i].Done?
      ensures Enabled(e) && !e.Receive?
    {
      hide Sum;
      var i :| 0 <= i < |workers| && !workers[i].Done?;
      match workers[i] {
        case Resolving => e := Send(i);
        case Sent => e := CountOff(i);
        case Closing => e := Close(i);
      }
    }

    lemma {:induction false} Moves(i: nat, x: Worker)
      requires i < |workers|
      ensures Sum(Unsent, workers[i := x]) == Sum(Unsent, workers) - Unsent(workers[i]) + Unsent(x)
      ensures Sum(Uncounted, workers[i := x]) == Sum(Uncounted, workers) - Uncounted(workers[i]) + Uncounted(x)
      ensures Sum(Closers, workers[i := x]) == Sum(Closers, workers) - Closers(workers[i]) + Closers(x)
      ensures Sum(Unfinished, workers[i := x]) == Sum(Unfinished, workers) - Unfinished(workers[i]) + Unfinished(x)
      ensures Unsent(workers[i]) <= Sum(Unsent, workers)
      ensures Uncounted(workers[i]) <= Sum(Uncounted, workers)
      ensures Closers(workers[i]) <= Sum(Closers, workers)
    {
      SumUpdate(Unsent, workers, i, x);
      SumUpdate(Uncounted, workers, i, x);
      SumUpdate(Closers, workers, i, x);
      SumUpdate(Unfinished, workers, i, x);
      SumBounds(Unsent, workers, i);
      SumBounds(Uncounted, workers, i);
      SumBounds(Closers, workers, i);
    }

    /** Whoever has counted itself off has sent. */
    lemma {:induction false} UnsentCounted()
      ensures Sum(Uncounted, workers) == 0 ==> Sum(Unsent, workers) == 0
    {
      SumZero(Uncounted, workers);
      SumZero(Unsent, workers);
      if Sum(Uncounted, workers) == 0 {
        forall i | 0 <= i < |workers|
          ensures Unsent(workers[i]) == 0
        {
          assert Uncounted(workers[i]) == 0;
        }
      }
    }

    /** When all goroutines are over, each lookup has sent once and the channel has been closed once. */
    lemma {:induction false} ClosedOnce()
      requires Valid() && Sum(Unfinished, workers) == 0
      ensures sends == |workers| && closes == 1
    {
      SumZero(Unfinished, workers);
      SumZero(Uncounted, workers);
      SumZero(Unsent, workers);
      SumZero(Closers, workers);
      forall i | 0 <= i < |workers|
        ensures Uncounted(workers[i]) == 0 && Unsent(workers[i]) == 0 && Closers(workers[i]) == 0
      {
        assert Unfinished(workers[i]) == 0;
      }
    }
  }

  lemma {:induction false} AllResolving(n: nat)
    ensures var s := seq(n, _ => Resolving);
            Sum(Uncounted, s) == n && Sum(Unsent, s) == n && Sum(Closers, s) == 0
  {
    if n > 0 {
      AllResolving(n - 1);
      assert seq(n, _ => Resolving)[..n - 1] == seq(n - 1, _ => Resolving);
    }
  }
}
