/** The caching resolver: an LRU list kept in one array, shared by concurrent queries that lock it for one
    operation at a time. */
module DnsCache {
  import opened Io

  // ---------------------------------------------------------------- questions and keys

  datatype Question = Question(name: seq<byte>, qtype: nat, qclass: nat)

  /** How types and classes are printed. */
  datatype Printer = Printer(typeName: nat -> seq<byte>, className: nat -> seq<byte>)

  const BAR: byte := 124

  ghost predicate Faithful(p: Printer) {
    && (forall t :: BAR !in p.typeName(t)) && (forall c :: BAR !in p.className(c))
    && (forall t, u :: p.typeName(t) == p.typeName(u) ==> t == u)
    && (forall c, d :: p.className(c) == p.className(d) ==> c == d)
  }

  function LowerByte(b: byte): (r: byte) {
    if 65 <= b <= 90 then b + 32 else b
  }

  function FoldCase(b: byte): (r: byte) {
    if 97 <= b <= 122 then b - 97 + 65 else b
  }

  function CanonicalName(s: seq<byte>): (r: seq<byte>)
    ensures |r| == |s|
  {
    seq(|s|, i requires 0 <= i < |s| => LowerByte(s[i]))
  }

  function MakeCacheKey(p: Printer, q: Question): (k: seq<byte>) {
    CanonicalName(q.name) + [BAR] + p.typeName(q.qtype) + [BAR] + p.className(q.qclass)
  }

  /** Two bytes fold alike when they are the same, or the same letter in both cases. */
  lemma {:induction false} FoldCaseBytes(a: byte, b: byte)
    ensures FoldCase(a) == FoldCase(b) <==>
            a == b || (65 <= a <= 90 && b as int == a as int + 32) || (65 <= b <= 90 && a as int == b as int + 32)
  {
  }

  predicate Ascii(s: seq<byte>) {
    forall i :: 0 <= i < |s| ==> s[i] < 128
  }

  ghost predicate SameName(x: seq<byte>, y: seq<byte>) {
    |x| == |y| && forall i :: 0 <= i < |x| ==> FoldCase(x[i]) == FoldCase(y[i])
  }

  /** The comparison that response checking uses. */
  method EqualASCIIName(x: seq<byte>, y: seq<byte>) returns (equal: bool)
    ensures equal <==> SameName(x, y)
  {
    if |x| != |y| {
      return false;
    }
    for i := 0 to |x|
      invariant forall j :: 0 <= j < i ==> FoldCase(x[j]) == FoldCase(y[j])
    {
      if FoldCase(x[i]) != FoldCase(y[i]) {
        return false;
      }
    }
    return true;
  }

  lemma {:induction false} BarPlace(a: seq<byte>, t: seq<byte>)
    requires BAR !in t
    ensures var s := a + [BAR] + t;
            s[|a|] == BAR && (forall i :: |a| < i < |s| ==> s[i] != BAR) && s[..|a|] == a && s[|a| + 1..] == t
  {
    var s := a + [BAR] + t;
    assert forall i :: |a| < i < |s| ==> s[i] == t[i - |a| - 1];
  }

  /** The last bar of a string cuts it in one way only. */
  lemma {:induction false} LastBar(a: seq<byte>, t: seq<byte>, b: seq<byte>, u: seq<byte>)
    requires BAR !in t && BAR !in u && a + [BAR] + t == b + [BAR] + u
    ensures a == b && t == u
  {
    BarPlace(a, t);
    BarPlace(b, u);
  }

  lemma {:induction false} CanonicalIffSameName(x: seq<byte>, y: seq<byte>)
    ensures CanonicalName(x) == CanonicalName(y) <==> SameName(x, y)
  {
    if CanonicalName(x) == CanonicalName(y) {
      forall i | 0 <= i < |x|
        ensures FoldCase(x[i]) == FoldCase(y[i])
      {
        assert CanonicalName(x)[i] == CanonicalName(y)[i];
      }
    }
    if SameName(x, y) {
      forall i | 0 <= i < |x|
        ensures CanonicalName(x)[i] == CanonicalName(y)[i]
      {
      }
    }
  }

  /** Two questions share a cache key exactly when a response to one would be accepted for the other, even
      if their names contain the separator. */
  lemma {:induction false} SameKeyIff(p: Printer, q: Question, r: Question)
    requires Faithful(p) && Ascii(q.name) && Ascii(r.name)
    ensures MakeCacheKey(p, q) == MakeCacheKey(p, r) <==>
            SameName(q.name, r.name) && q.qtype == r.qtype && q.qclass == r.qclass
  {
    CanonicalIffSameName(q.name, r.name);
    if MakeCacheKey(p, q) == MakeCacheKey(p, r) {
      LastBar(CanonicalName(q.name) + [BAR] + p.typeName(q.qtype), p.className(q.qclass),
              CanonicalName(r.name) + [BAR] + p.typeName(r.qtype), p.className(r.qclass));
      LastBar(CanonicalName(q.name), p.typeName(q.qtype), CanonicalName(r.name), p.typeName(r.qtype));
    }
  }

  // ---------------------------------------------------------------- the list

  datatype Message = Message(rcode: nat, id: nat)

  const RCODE_SUCCESS: nat := 0
  const RCODE_NAME_ERROR: nat := 3

  /** Seconds an answer is kept. */
  const KEEP: int := 60

  /** The entry of an array slot never written: it has expired at any time. */
  const BLANK := Entry([], None, -1)

  datatype Entry = Entry(key: seq<byte>, msg: Option<Message>, expire: int)

  /** An entry with the two facts the array does not hold: when it was last used and when it was added. */
  datatype Slot = Slot(entry: Entry, used: nat, born: nat)

  function Fronted<T>(s: seq<T>, i: nat): (r: seq<T>)
    requires i < |s|
    ensures |r| == |s|
  {
    [s[i]] + s[..i] + s[i + 1..]
  }

  lemma {:induction false} FrontedAt<T>(s: seq<T>, i: nat, j: nat)
    requires i < |s| && j < |s|
    ensures Fronted(s, i)[j] == s[if j == 0 then i else if j <= i then j - 1 else j]
  {
  }

  /** `moveToFront`: rotates a prefix in place; an index out of range is ignored. */
  method MoveToFront<T>(a: array<T>, len: nat, idx: int)
    requires len <= a.Length
    modifies a
    ensures a[..len] == if 0 <= idx < len then Fronted(old(a[..len]), idx) else old(a[..len])
  {
    if idx > 0 && idx < len {
      var entry := a[idx];
      forall i | 0 <= i < idx {
        a[i + 1] := a[i];
      }
      a[0] := entry;
    }
  }

  function Purged(slots: seq<Slot>, now: int): (r: seq<Slot>)
    ensures forall x :: x in r ==> x in slots && x.entry.expire > now
  {
    if slots == [] then [] else
    var last := slots[|slots| - 1];
    Purged(slots[..|slots| - 1], now) + if last.entry.expire > now then [last] else []
  }

  function Entries(slots: seq<Slot>): (r: seq<Entry>)
    ensures |r| == |slots|
  {
    seq(|slots|, i requires 0 <= i < |slots| => slots[i].entry)
  }

  /** A purge drops exactly what has expired. */
  lemma {:induction false} PurgedExactly(slots: seq<Slot>, now: int)
    ensures forall x :: x in Purged(slots, now) <==> x in slots && x.entry.expire > now
  {
    if slots != [] {
      PurgedExactly(slots[..|slots| - 1], now);
    }
  }

  lemma {:induction false} EntriesSnoc(slots: seq<Slot>, x: Slot)
    ensures Entries(slots + [x]) == Entries(slots) + [x.entry]
  {
  }

  /** First index whose key is `key`, or the length. */
  function Find(slots: seq<Slot>, key: seq<byte>): (i: nat)
    ensures i <= |slots|
    ensures forall j :: 0 <= j < i ==> slots[j].entry.key != key
    ensures i < |slots| ==> slots[i].entry.key == key
  {
    if slots == [] || slots[0].entry.key == key then 0 else 1 + Find(slots[1..], key)
  }

  /** Most recently used first. */
  ghost predicate ByUse(slots: seq<Slot>) {
    forall i, j :: 0 <= i < j < |slots| ==> slots[i].used > slots[j].used
  }

  /** Among entries of one key the newest is in front. */
  ghost predicate NewestFirst(slots: seq<Slot>) {
    forall i, j :: 0 <= i < j < |slots| && slots[i].entry.key == slots[j].entry.key ==> slots[i].born > slots[j].born
  }

  ghost predicate Before(slots: seq<Slot>, tick: nat) {
    forall i :: 0 <= i < |slots| ==> slots[i].used < tick && slots[i].born < tick
  }

  /** Everything stored came from the inner resolver, for that key. */
  ghost predicate Backed(slots: seq<Slot>, answers: set<(seq<byte>, Message)>) {
    forall i :: 0 <= i < |slots| ==>
      if slots[i].entry.msg.Some? then (slots[i].entry.key, slots[i].entry.msg.value) in answers
      else slots[i].entry == BLANK
  }

  ghost predicate Good(slots: seq<Slot>, tick: nat, answers: set<(seq<byte>, Message)>) {
    ByUse(slots) && NewestFirst(slots) && Before(slots, tick) && Backed(slots, answers)
  }

  /** Nothing in the list has expired at `t`. */
  ghost predicate AllAfter(slots: seq<Slot>, t: int) {
    forall i :: 0 <= i < |slots| ==> slots[i].entry.expire > t
  }

  lemma {:induction false} PurgedAfter(slots: seq<Slot>, now: int)
    ensures AllAfter(Purged(slots, now), now)
    ensures forall t :: AllAfter(slots, t) ==> AllAfter(Purged(slots, now), t)
  {
    forall i | 0 <= i < |Purged(slots, now)|
      ensures Purged(slots, now)[i] in slots && Purged(slots, now)[i].entry.expire > now
    {
      assert Purged(slots, now)[i] in Purged(slots, now);
    }
  }

  lemma {:induction false} FrontedAfter(slots: seq<Slot>, i: nat, tick: nat)
    requires i < |slots|
    ensures forall t :: AllAfter(slots, t) ==> AllAfter(Fronted(slots[i := slots[i].(used := tick)], i), t)
  {
    var r := Fronted(slots[i := slots[i].(used := tick)], i);
    assert forall j :: 0 <= j < |r| ==> r[j].entry == slots[if j == 0 then i else if j <= i then j - 1 else j].entry;
  }

  lemma {:induction false} PurgedNothing(slots: seq<Slot>, now: int)
    ensures Purged(slots[..0], now) == []
  {
  }

  lemma {:induction false} PurgedSnoc(slots: seq<Slot>, i: nat, now: int)
    requires i < |slots|
    ensures Purged(slots[..i + 1], now) ==
            Purged(slots[..i], now) + if slots[i].entry.expire > now then [slots[i]] else []
  {
    assert slots[..i + 1][..i] == slots[..i];
  }

  lemma {:induction false} GoodSnoc(kept: seq<Slot>, last: Slot, tick: nat, answers: set<(seq<byte>, Message)>)
    requires Good(kept, tick, answers) && Good([last], tick, answers)
    requires forall x :: x in kept ==>
      x.used > last.used && (x.entry.key == last.entry.key ==> x.born > last.born)
    ensures Good(kept + [last], tick, answers)
  {
    assert forall i :: 0 <= i < |kept| ==> kept[i] in kept;
    assert [last][0] == last;
  }

  lemma {:induction false} GoodParts(slots: seq<Slot>, n: nat, tick: nat, answers: set<(seq<byte>, Message)>)
    requires Good(slots, tick, answers) && n < |slots|
    ensures Good(slots[..n], tick, answers) && Good([slots[n]], tick, answers)
    ensures forall x :: x in slots[..n] ==>
      x.used > slots[n].used && (x.entry.key == slots[n].entry.key ==> x.born > slots[n].born)
  {
  }

  lemma {:induction false} PurgedGood(slots: seq<Slot>, now: int, tick: nat, answers: set<(seq<byte>, Message)>)
    requires Good(slots, tick, answers)
    ensures Good(Purged(slots, now), tick, answers)
    decreases slots
  {
    if slots != [] {
      hide Good;
      var n := |slots| - 1;
      GoodParts(slots, n, tick, answers);
      PurgedGood(slots[..n], now, tick, answers);
      PurgedSnoc(slots, n, now);
      assert slots[..n + 1] == slots;
      if slots[n].entry.expire > now {
        GoodSnoc(Purged(slots[..n], now), slots[n], tick, answers);
      } else {
        assert Purged(slots[..n], now) + [] == Purged(slots[..n], now);
      }
    }
  }

  lemma {:induction false} FrontedGood(
    slots: seq<Slot>, key: seq<byte>, tick: nat, answers: set<(seq<byte>, Message)>)
    requires Good(slots, tick, answers) && Find(slots, key) < |slots|
    ensures var i := Find(slots, key); Good(Fronted(slots[i := slots[i].(used := tick)], i), tick + 1, answers)
  {
    var i := Find(slots, key);
    var r := Fronted(slots[i := slots[i].(used := tick)], i);
    FrontedSlots(slots, i, tick);
    FrontedNewest(slots, key, i, r);
    hide Fronted;
    assert ByUse(r) && Before(r, tick + 1);
    assert Backed(r, answers);
  }

  lemma {:induction false} FrontedSlots(slots: seq<Slot>, i: nat, tick: nat)
    requires i < |slots|
    ensures var r := Fronted(slots[i := slots[i].(used := tick)], i);
            && r[0] == slots[i].(used := tick)
            && forall j :: 1 <= j < |r| ==> r[j] == slots[if j <= i then j - 1 else j]
  {
  }

  lemma {:induction false} FrontedNewest(slots: seq<Slot>, key: seq<byte>, i: nat, r: seq<Slot>)
    requires NewestFirst(slots) && i == Find(slots, key) < |slots| == |r|
    requires r[0].entry == slots[i].entry && r[0].born == slots[i].born
    requires forall j :: 1 <= j < |r| ==> r[j] == slots[if j <= i then j - 1 else j]
    ensures NewestFirst(r)
  {
    hide Find;
    forall j, k | 0 <= j < k < |r| && r[j].entry.key == r[k].entry.key
      ensures r[j].born > r[k].born
    {
      if j == 0 {
        assert k > i;
      }
    }
  }

  function Pushed(slots: seq<Slot>, x: Slot, cap: nat): (r: seq<Slot>)
    requires 1 <= cap
  {
    [x] + if |slots| < cap then slots else slots[..cap - 1]
  }

  lemma {:induction false} PushedGood(
    slots: seq<Slot>, x: Slot, cap: nat, tick: nat, answers: set<(seq<byte>, Message)>)
    requires Good(slots, tick, answers) && 1 <= cap && |slots| <= cap
    requires x.used == tick && x.born == tick && x.entry.msg.Some?
    ensures Good(Pushed(slots, x, cap), tick + 1, answers + {(x.entry.key, x.entry.msg.value)})
  {
  }

  class Cache {
    const cache: array<Entry>
    var len: nat
    ghost var slots: seq<Slot>
    /** Counts uses and additions. */
    ghost var tick: nat
    /** Everything the inner resolver has answered, by key. */
    ghost var answers: set<(seq<byte>, Message)>

    ghost predicate Valid()
      reads this, cache
    {
      && len <= cache.Length && |slots| == len
      && (forall i :: 0 <= i < len ==> cache[i] == slots[i].entry)
      && Good(slots, tick, answers)
    }

    constructor (numEntries: nat)
      ensures Valid() && fresh(cache) && cache.Length == numEntries == len && answers == {}
      ensures forall i :: 0 <= i < len ==> slots[i].entry == BLANK
    {
      // A new cache is full of blank entries; the first purge drops them.
      cache := new Entry[numEntries](_ => BLANK);
      len, answers, tick := numEntries, {}, numEntries + 1;
      slots := seq(numEntries, i requires 0 <= i < numEntries => Slot(BLANK, numEntries - i, numEntries - i));
    }

    /** Keeps what expires after `now`, in order, compacting in place. */
    method RemoveExpired(now: int)
      requires Valid()
      modifies this`len, this`slots, cache
      ensures Valid() && slots == Purged(old(slots), now) && len <= old(len)
      ensures AllAfter(slots, now) && forall t :: AllAfter(old(slots), t) ==> AllAfter(slots, t)
      ensures forall x :: x in slots <==> x in old(slots) && x.entry.expire > now
    {
      hide Purged, Good, AllAfter;
      assert cache[..len] == Entries(slots);
      var last := Compact(now);
      assert forall j :: 0 <= j < last ==> cache[j] == cache[..last][j];
      PurgedAfter(slots, now);
      PurgedExactly(slots, now);
      PurgedGood(slots, now, tick, answers);
      len, slots := last, Purged(slots, now);
    }

    method Compact(now: int) returns (last: nat)
      requires len == |slots| <= cache.Length && cache[..len] == Entries(slots)
      modifies cache
      ensures last == |Purged(slots, now)| <= len && cache[..last] == Entries(Purged(slots, now))
    {
      hide Purged;
      last := 0;
      PurgedNothing(slots, now);
      for i := 0 to len
        invariant last == |Purged(slots[..i], now)| <= i
        invariant cache[..last] == Entries(Purged(slots[..i], now))
        invariant cache[i..len] == Entries(slots)[i..]
      {
        PurgedSnoc(slots, i, now);
        assert cache[i] == cache[i..len][0] == Entries(slots)[i..][0] == Entries(slots)[i];
        ghost var was := Purged(slots[..i], now);
        var entry := cache[i];
        if entry.expire > now {
          EntriesSnoc(was, slots[i]);
          Store(last, i, entry);
          last := last + 1;
        } else {
          assert was + [] == was;
        }
        assert cache[i + 1..len] == Entries(slots)[i..][1..];
      }
      assert slots[..len] == slots;
    }

    method Store(last: nat, i: nat, entry: Entry)
      requires last <= i < len <= cache.Length
      modifies cache
      ensures cache[..last + 1] == old(cache[..last]) + [entry]
      ensures cache[i + 1..len] == old(cache[i..len])[1..]
    {
      cache[last] := entry;
    }

    /** The message of the front-most entry of `key`, which moves to the front. */
    method SearchCache(key: seq<byte>) returns (msg: Option<Message>)
      requires Valid()
      modifies this`slots, this`tick, cache
      ensures Valid() && len == old(len)
      ensures var i := Find(old(slots), key);
              if i < |old(slots)|
              then msg == old(slots)[i].entry.msg
                   && slots == Fronted(old(slots)[i := old(slots)[i].(used := old(tick))], i) && tick == old(tick) + 1
              else msg == None && slots == old(slots) && tick == old(tick)
      ensures msg.Some? ==> (key, msg.value) in answers
      ensures forall t :: AllAfter(old(slots), t) ==> AllAfter(slots, t)
    {
      hide Good, Fronted, AllAfter;
      for ei := 0 to len
        invariant Valid() && slots == old(slots) && tick == old(tick)
        invariant forall j :: 0 <= j < ei ==> slots[j].entry.key != key
      {
        if cache[ei].key == key {
          msg := cache[ei].msg;
          Stored(ei);
          FrontedAfter(slots, ei, tick);
          Use(ei, key);
          return;
        }
      }
      return None;
    }

    lemma {:induction false} Stored(i: nat)
      requires Valid() && i < len
      ensures cache[i].msg.Some? ==> (cache[i].key, cache[i].msg.value) in answers
    {
    }

    method Use(ei: nat, ghost key: seq<byte>)
      requires Valid() && ei < len && ei == Find(slots, key)
      modifies this`slots, this`tick, cache
      ensures Valid() && tick == old(tick) + 1
      ensures slots == Fronted(old(slots)[ei := old(slots)[ei].(used := old(tick))], ei)
    {
      hide Good, Fronted;
      FrontedGood(slots, key, tick, answers);
      ghost var entries, next := cache[..len], slots[ei := slots[ei].(used := tick)];
      MoveToFront(cache, len, ei);
      forall j | 0 <= j < len
        ensures cache[j] == Fronted(next, ei)[j].entry
      {
        assert cache[j] == cache[..len][j];
        FrontedAt(entries, ei, j);
        FrontedAt(next, ei, j);
      }
      slots, tick := Fronted(next, ei), tick + 1;
    }

    /** Puts an answer in front; a full array loses its last entry, the least recently used one.  With no
        room at all `AddToCache` panics in Go. */
    method AddToCache(key: seq<byte>, msg: Message, now: int)
      requires Valid() && 1 <= cache.Length
      modifies this, cache
      ensures Valid() && len == Min(old(len) + 1, cache.Length)
      ensures slots == Pushed(old(slots), Slot(Entry(key, Some(msg), now + KEEP), old(tick), old(tick)), cache.Length)
      ensures answers == old(answers) + {(key, msg)} && tick == old(tick) + 1
      ensures forall t :: t < now + KEEP && AllAfter(old(slots), t) ==> AllAfter(slots, t)
    {
      hide Good;
      ghost var x := Slot(Entry(key, Some(msg), now + KEEP), tick, tick);
      ghost var was, next := slots, Pushed(slots, x, cache.Length);
      PushedGood(slots, x, cache.Length, tick, answers);
      var newSize := Min(len + 1, cache.Length);
      forall i | 0 <= i < newSize - 1 {
        cache[i + 1] := cache[i];
      }
      cache[0] := Entry(key, Some(msg), now + KEEP);
      assert |next| == newSize && next[0] == x;
      forall i | 1 <= i < newSize
        ensures cache[i] == next[i].entry && next[i] == was[i - 1]
      {
        assert cache[i] == old(cache[i - 1]);
      }
      len, slots, tick, answers := newSize, next, tick + 1, answers + {(key, msg)};
    }
  }

  // ---------------------------------------------------------------- concurrent queries

  /** Where one query stands.  Between its locked operations any other query may run. */
  datatype Query =
    | Purging(key: seq<byte>, now: int)
    | Searching(key: seq<byte>, purgedAt: int)
    | Asking(key: seq<byte>, purgedAt: int)
    | Adding(key: seq<byte>, purgedAt: int, msg: Message)
    | Answered(key: seq<byte>, purgedAt: int, msg: Message, hit: bool)
    | Refused(key: seq<byte>, purgedAt: int)

  datatype Event =
    | Begin(question: Question)
    | Advance(i: nat)                        // query i takes its next locked operation
    | Reply(i: nat, reply: Option<Message>)  // the inner resolver answers query i, or fails
    | Tick

  ghost predicate SameElsewhere<T(!new)>(a: seq<T>, b: seq<T>, i: nat) {
    |a| == |b| && forall j :: 0 <= j < |a| && j != i ==> a[j] == b[j]
  }

  /** Every answer in the list is a success or a name error. */
  ghost predicate Keepable(slots: seq<Slot>) {
    forall i :: 0 <= i < |slots| ==> slots[i].entry.msg.Some? ==> slots[i].entry.msg.value.rcode in {0, 3}
  }

  /** What becomes of a query that searches these slots. */
  function Searched(q: Query, slots: seq<Slot>): (r: Query)
    requires q.Searching?
    ensures r.key == q.key && (r.Answered? || r.Asking?) && r.purgedAt == q.purgedAt
  {
    var at := Find(slots, q.key);
    if at < |slots| && slots[at].entry.msg.Some? then Answered(q.key, q.purgedAt, slots[at].entry.msg.value, true)
    else Asking(q.key, q.purgedAt)
  }

  /** What becomes of a query that is answered: only successes and name errors are kept. */
  function Replied(q: Query, reply: Option<Message>): (r: Query)
    requires q.Asking?
    ensures !r.Purging? && r.key == q.key && r.purgedAt == q.purgedAt
  {
    match reply
    case None => Refused(q.key, q.purgedAt)
    case Some(m) =>
      if m.rcode == RCODE_SUCCESS || m.rcode == RCODE_NAME_ERROR then Adding(q.key, q.purgedAt, m)
      else Answered(q.key, q.purgedAt, m, false)
  }

  /** The queries after an event, from what was there before it. */
  function NextQueries(qs: seq<Query>, e: Event, printer: Printer, slots: seq<Slot>, clock: nat): (r: seq<Query>)
    ensures |r| >= |qs|
  {
    match e
    case Begin(question) => qs + [Purging(MakeCacheKey(printer, question), clock)]
    case Tick => qs
    case Reply(i, reply) => if i < |qs| && qs[i].Asking? then qs[i := Replied(qs[i], reply)] else qs
    case Advance(i) =>
      if i >= |qs| then qs else
      match qs[i]
      case Purging(key, now) => qs[i := Searching(key, now)]
      case Searching(_, _) => qs[i := Searched(qs[i], slots)]
      case Adding(key, at, msg) => qs[i := Answered(key, at, msg, false)]
      case _ => qs
  }

  /** What the inner resolver says in an event, and to which key. */
  function ReplyOf(e: Event, qs: seq<Query>): (r: set<(seq<byte>, Message)>) {
    if e.Reply? && e.reply.Some? && e.i < |qs| && qs[e.i].Asking? then {(qs[e.i].key, e.reply.value)} else {}
  }

  /** The entry an event puts in the cache. */
  function AddedBy(e: Event, qs: seq<Query>, clock: nat): (r: set<Entry>) {
    if e.Advance? && e.i < |qs| && qs[e.i].Adding? then {Entry(qs[e.i].key, Some(qs[e.i].msg), clock + KEEP)} else {}
  }

  /** The cache after an event: every operation on it is the one the query is up to. */
  function NextSlots(slots: seq<Slot>, tick: nat, cap: nat, e: Event, qs: seq<Query>, clock: nat): (r: seq<Slot>)
    requires 1 <= cap
  {
    if !e.Advance? || e.i >= |qs| then slots else
    match qs[e.i]
    case Purging(_, now) => Purged(slots, now)
    case Searching(key, _) =>
      var at := Find(slots, key);
      if at < |slots| then Fronted(slots[at := slots[at].(used := tick)], at) else slots
    case Adding(key, _, msg) => Pushed(slots, Slot(Entry(key, Some(msg), clock + KEEP), tick, tick), cap)
    case _ => slots
  }

  class Server {
    const printer: Printer
    const cache: Cache
    var clock: nat
    var queries: seq<Query>
    /** Everything the inner resolver has answered, by key. */
    ghost var replied: set<(seq<byte>, Message)>
    /** Every entry that was ever put in the cache. */
    ghost var added: set<Entry>
    /** For a query answered from the cache, the expiry of the entry it hit. */
    ghost var expires: seq<int>

    /** Past its purge a query finds nothing in the cache that had expired at that purge, whoever has
        touched the cache since; and the entry it has hit had not expired then. */
    ghost predicate QueryOk(q: Query, expire: int)
      reads this, cache
    {
      match q
      case Purging(_, now) => 0 <= now <= clock
      case Searching(_, at) => 0 <= at <= clock && AllAfter(cache.slots, at)
      case Asking(_, at) => 0 <= at <= clock
      case Adding(key, at, msg) => 0 <= at <= clock && (key, msg) in replied && msg.rcode in {0, 3}
      case Answered(key, at, msg, hit) =>
        && (key, msg) in replied
        && (hit ==> msg.rcode in {0, 3} && expire > at && Entry(key, Some(msg), expire) in added)
      case Refused(_, _) => true
    }

    ghost predicate Valid()
      reads this, cache, cache.cache
    {
      && cache.Valid() && 1 <= cache.cache.Length && cache.answers <= replied
      && |expires| == |queries|
      && (forall i :: 0 <= i < |queries| ==> QueryOk(queries[i], expires[i]))
      && AllAdded(cache.slots, added) && Keepable(cache.slots)
    }

    constructor (printer: Printer, numEntries: nat)
      requires 1 <= numEntries
      ensures Valid() && fresh(cache) && fresh(cache.cache) && queries == [] && replied == {} && added == {}
      ensures this.printer == printer && cache.cache.Length == numEntries && clock == 0
    {
      this.printer, clock, queries, replied, added, expires := printer, 0, [], {}, {}, [];
      cache := new Cache(numEntries);
    }

    /** One event of any interleaving of any number of queries; an impossible one changes nothing. */
    method Step(e: Event)
      requires Valid()
      modifies this, cache, cache.cache
      ensures Valid() && clock == old(clock) + if e.Tick? then 1 else 0
      ensures queries == NextQueries(old(queries), e, printer, old(cache.slots), old(clock))
      ensures replied == old(replied) + ReplyOf(e, old(queries))
      ensures added == old(added) + AddedBy(e, old(queries), old(clock))
      ensures cache.slots ==
              NextSlots(old(cache.slots), old(cache.tick), cache.cache.Length, e, old(queries), old(clock))
      // An answer that is a success or a name error is on its way into the cache, and any other is not.
      ensures e.Reply? && e.i < |old(queries)| && old(queries)[e.i].Asking? ==>
                var q := old(queries)[e.i];
                && cache.slots == old(cache.slots)
                && queries[e.i] ==
                   if e.reply == None then Refused(q.key, q.purgedAt)
                   else if e.reply.value.rcode == 0 || e.reply.value.rcode == 3
                        then Adding(q.key, q.purgedAt, e.reply.value)
                        else Answered(q.key, q.purgedAt, e.reply.value, false)
      // The next operation of such a query puts it in front, for sixty seconds.
      ensures e.Advance? && e.i < |old(queries)| && old(queries)[e.i].Adding? ==>
                var q := old(queries)[e.i];
                && queries[e.i] == Answered(q.key, q.purgedAt, q.msg, false)
                && |cache.slots| == Min(|old(cache.slots)| + 1, cache.cache.Length)
                && cache.slots[0].entry == Entry(q.key, Some(q.msg), old(clock) + 60)
                && forall j :: 1 <= j < |cache.slots| ==> cache.slots[j] == old(cache.slots)[j - 1]
      // A query that searches is answered from the first entry of its key, and asks if there is none.
      ensures e.Advance? && e.i < |old(queries)| && old(queries)[e.i].Searching? ==>
                SearchedRight(old(queries)[e.i], queries[e.i], old(cache.slots), cache.slots)
      // A query begins by dropping what has expired when it read the clock, and nothing else.
      ensures e.Advance? && e.i < |old(queries)| && old(queries)[e.i].Purging? ==>
                var q := old(queries)[e.i];
                && queries[e.i] == Searching(q.key, q.now)
                && forall x :: x in cache.slots <==> x in old(cache.slots) && x.entry.expire > q.now
      ensures forall i :: 0 <= i < |old(queries)| && (old(queries)[i].Answered? || old(queries)[i].Refused?) ==>
                queries[i] == old(queries)[i] && expires[i] == old(expires)[i]
    {
      hide Cache.Valid, Good, Purged, Fronted, Pushed, Find, AllAfter, AllAdded, Searched, Keepable, SearchedRight;
      match e {
        case Begin(question) =>
          queries := queries + [Purging(MakeCacheKey(printer, question), clock)];
          expires := expires + [0];
        case Advance(i) =>
          if i < |queries| {
            match queries[i] {
              case Purging(key, now) => Purge(i);
              case Searching(key, at) => Search(i);
              case Adding(key, at, msg) => Add(i);
              case _ =>
            }
          }
        case Reply(i, reply) =>
          if i < |queries| && queries[i].Asking? {
            ReceiveReply(i, reply);
          }
        case Tick =>
          clock := clock + 1;
      }
    }

    /** The purge uses the time that was read before the lock was taken. */
    method Purge(i: nat)
      requires Valid() && i < |queries| && queries[i].Purging?
      modifies this`queries, cache, cache.cache
      ensures Valid() && queries == old(queries)[i := Searching(old(queries)[i].key, old(queries)[i].now)]
      ensures cache.slots == Purged(old(cache.slots), old(queries)[i].now)
      ensures forall x :: x in cache.slots <==> x in old(cache.slots) && x.entry.expire > old(queries)[i].now
    {
      hide Cache.Valid, Good, Purged, AllAfter, AllAdded, Keepable;
      var q := queries[i];
      PurgedAdded(cache.slots, q.now, added);
      KeepablePurged(cache.slots, q.now);
      cache.RemoveExpired(q.now);
      queries := queries[i := Searching(q.key, q.now)];
    }

    method Search(i: nat)
      requires Valid() && i < |queries| && queries[i].Searching?
      modifies this`queries, this`expires, cache, cache.cache
      ensures Valid() && queries == old(queries)[i := Searched(old(queries)[i], old(cache.slots))]
      ensures cache.slots ==
              NextSlots(old(cache.slots), old(cache.tick), cache.cache.Length, Advance(i), old(queries), clock)
      ensures SameElsewhere(old(expires), expires, i)
      ensures queries[i].Answered? ==>
                var entry := old(cache.slots)[Find(old(cache.slots), old(queries)[i].key)].entry;
                entry.msg == Some(queries[i].msg) && entry.expire == expires[i]
      ensures SearchedRight(old(queries)[i], queries[i], old(cache.slots), cache.slots)
    {
      hide Cache.Valid, Good, Find, Fronted, AllAdded, Keepable, SearchedRight;
      var q := queries[i];
      ghost var slots, at, tick := cache.slots, Find(cache.slots, q.key), cache.tick;
      SearchIsRight(q, slots, tick);
      if at < |slots| {
        KeepableFronted(slots, at, tick);
        FrontedAdded(slots, at, tick, added);
        AddedSlot(slots, at, added);
      }
      var msg := cache.SearchCache(q.key);
      if msg == None {
        queries := queries[i := Asking(q.key, q.purgedAt)];
      } else {
        queries := queries[i := Answered(q.key, q.purgedAt, msg.value, true)];
        expires := expires[i := slots[at].entry.expire];
      }
    }

    method Add(i: nat)
      requires Valid() && i < |queries| && queries[i].Adding?
      modifies this`queries, this`added, cache, cache.cache
      ensures Valid()
      ensures var q := old(queries)[i];
              && queries == old(queries)[i := Answered(q.key, q.purgedAt, q.msg, false)]
              && added == old(added) + {Entry(q.key, Some(q.msg), clock + KEEP)}
              && cache.slots == Pushed(old(cache.slots), Slot(Entry(q.key, Some(q.msg), clock + KEEP),
                                       old(cache.tick), old(cache.tick)), cache.cache.Length)
      ensures Pushes(old(cache.slots), cache.slots, Entry(old(queries)[i].key, Some(old(queries)[i].msg), clock + 60),
                     cache.cache.Length)
    {
      hide Cache.Valid, Good, AllAfter, Pushed, AllAdded, Keepable, Pushes;
      var q := queries[i];
      ghost var x := Slot(Entry(q.key, Some(q.msg), clock + KEEP), cache.tick, cache.tick);
      PushedAdded(cache.slots, x, cache.cache.Length, added);
      KeepablePushed(cache.slots, x, cache.cache.Length);
      PushesIn(cache.slots, x, cache.cache.Length);
      cache.AddToCache(q.key, q.msg, clock);
      added := added + {x.entry};
      queries := queries[i := Answered(q.key, q.purgedAt, q.msg, false)];
    }

    method ReceiveReply(i: nat, reply: Option<Message>)
      requires Valid() && i < |queries| && queries[i].Asking?
      modifies this`queries, this`replied
      ensures Valid() && queries == old(queries)[i := Replied(old(queries)[i], reply)]
      ensures replied == old(replied) + ReplyOf(Reply(i, reply), old(queries))
    {
      hide Cache.Valid, AllAdded, Keepable;
      var q := queries[i];
      match reply {
        case None =>
          queries := queries[i := Refused(q.key, q.purgedAt)];
        case Some(m) =>
          replied := replied + {(q.key, m)};
          queries := queries[i := if m.rcode == RCODE_SUCCESS || m.rcode == RCODE_NAME_ERROR
                                  then Adding(q.key, q.purgedAt, m) else Answered(q.key, q.purgedAt, m, false)];
      }
    }
  }

  /** The outcome of an addition, entry by entry. */
  ghost predicate Pushes(slots: seq<Slot>, slots': seq<Slot>, entry: Entry, cap: nat) {
    && 0 < |slots'| == Min(|slots| + 1, cap) && slots'[0].entry == entry
    && forall j :: 1 <= j < |slots'| ==> slots'[j] == slots[j - 1]
  }

  lemma {:induction false} PushesIn(slots: seq<Slot>, x: Slot, cap: nat)
    requires 1 <= cap
    ensures Pushes(slots, Pushed(slots, x, cap), x.entry, cap)
  {
  }

  lemma {:induction false} KeepablePurged(slots: seq<Slot>, now: int)
    requires Keepable(slots)
    ensures Keepable(Purged(slots, now))
  {
    forall i | 0 <= i < |Purged(slots, now)|
      ensures Purged(slots, now)[i] in slots
    {
      assert Purged(slots, now)[i] in Purged(slots, now);
    }
  }

  lemma {:induction false} KeepableFronted(slots: seq<Slot>, i: nat, tick: nat)
    requires Keepable(slots) && i < |slots|
    ensures Keepable(Fronted(slots[i := slots[i].(used := tick)], i))
    ensures slots[i].entry.msg.Some? ==> slots[i].entry.msg.value.rcode in {0, 3}
  {
    FrontedSlots(slots, i, tick);
  }

  lemma {:induction false} KeepablePushed(slots: seq<Slot>, x: Slot, cap: nat)
    requires Keepable(slots) && 1 <= cap && x.entry.msg.Some? && x.entry.msg.value.rcode in {0, 3}
    ensures Keepable(Pushed(slots, x, cap))
  {
  }

  /** The outcome of a search, entry by entry. */
  ghost predicate SearchedRight(q: Query, q': Query, slots: seq<Slot>, slots': seq<Slot>)
    requires q.Searching?
  {
    && ((forall j :: 0 <= j < |slots| ==> slots[j].entry.key != q.key) ==>
          q' == Asking(q.key, q.purgedAt) && slots' == slots)
    && forall j :: 0 <= j < |slots| && slots[j].entry.key == q.key
                   && (forall k :: 0 <= k < j ==> slots[k].entry.key != q.key) ==>
         && q' == (match slots[j].entry.msg
                   case None => Asking(q.key, q.purgedAt)
                   case Some(m) => Answered(q.key, q.purgedAt, m, true))
         && |slots'| == |slots| && slots'[0].entry == slots[j].entry
         && (forall k :: 1 <= k <= j ==> slots'[k] == slots[k - 1])
         && (forall k :: j < k < |slots| ==> slots'[k] == slots[k])
  }

  lemma {:induction false} SearchIsRight(q: Query, slots: seq<Slot>, tick: nat)
    requires q.Searching?
    ensures var at := Find(slots, q.key);
            SearchedRight(q, Searched(q, slots), slots,
                          if at < |slots| then Fronted(slots[at := slots[at].(used := tick)], at) else slots)
  {
    var at := Find(slots, q.key);
    if at < |slots| {
      FrontedSlots(slots, at, tick);
    }
  }

  /** Every message in the list was put there. */
  ghost predicate AllAdded(slots: seq<Slot>, added: set<Entry>) {
    forall i :: 0 <= i < |slots| && slots[i].entry.msg.Some? ==> slots[i].entry in added
  }

  lemma {:induction false} AddedSlot(slots: seq<Slot>, i: nat, added: set<Entry>)
    requires AllAdded(slots, added) && i < |slots|
    ensures slots[i].entry.msg.Some? ==> slots[i].entry in added
  {
  }

  lemma {:induction false} PurgedAdded(slots: seq<Slot>, now: int, added: set<Entry>)
    requires AllAdded(slots, added)
    ensures AllAdded(Purged(slots, now), added)
  {
    forall i | 0 <= i < |Purged(slots, now)|
      ensures Purged(slots, now)[i] in slots
    {
      assert Purged(slots, now)[i] in Purged(slots, now);
    }
  }

  lemma {:induction false} FrontedAdded(slots: seq<Slot>, i: nat, tick: nat, added: set<Entry>)
    requires AllAdded(slots, added) && i < |slots|
    ensures AllAdded(Fronted(slots[i := slots[i].(used := tick)], i), added)
  {
    FrontedSlots(slots, i, tick);
  }

  lemma {:induction false} PushedAdded(slots: seq<Slot>, x: Slot, cap: nat, added: set<Entry>)
    requires AllAdded(slots, added) && 1 <= cap
    ensures AllAdded(Pushed(slots, x, cap), added + {x.entry})
  {
  }

  // ---------------------------------------------------------------- whole runs

  /** The time at the end of a schedule. */
  function Ticks(schedule: seq<Event>): (n: nat) {
    if schedule == [] then 0
    else Ticks(schedule[..|schedule| - 1]) + if schedule[|schedule| - 1].Tick? then 1 else 0
  }

  /** Event `k` of the schedule is the inner resolver's answer `msg` to a query with this key. */
  ghost predicate AnsweredAt(schedule: seq<Event>, k: nat, qs: seq<Query>, key: seq<byte>, msg: Message) {
    && k < |schedule| && schedule[k].Reply? && schedule[k].reply == Some(msg)
    && schedule[k].i < |qs| && qs[schedule[k].i].key == key
  }

  /** Event `k` of the schedule puts this entry in the cache, for a query that has just been answered so. */
  ghost predicate AddedAt(schedule: seq<Event>, k: nat, qs: seq<Query>, entry: Entry) {
    && k < |schedule| && schedule[k].Advance? && entry.expire == Ticks(schedule[..k]) + KEEP
    && schedule[k].i < |qs| && var q := qs[schedule[k].i];
       q.Answered? && !q.hit && q.key == entry.key && Some(q.msg) == entry.msg
  }

  /** Query `i` was begun by event `k`. */
  ghost predicate BegunAt(schedule: seq<Event>, k: nat, printer: Printer, q: Query) {
    && k < |schedule| && schedule[k].Begin? && q.key == MakeCacheKey(printer, schedule[k].question)
    && (if q.Purging? then q.now else q.purgedAt) == Ticks(schedule[..k])
  }

  ghost predicate Begun(schedule: seq<Event>, printer: Printer, q: Query) {
    exists k: nat :: BegunAt(schedule, k, printer, q)
  }

  /** Everything the server has noted down is in the schedule. */
  ghost predicate Traced(schedule: seq<Event>, printer: Printer, qs: seq<Query>, clock: nat,
                         replied: set<(seq<byte>, Message)>, added: set<Entry>) {
    && clock == Ticks(schedule)
    && (forall key, msg :: (key, msg) in replied ==> exists k: nat :: AnsweredAt(schedule, k, qs, key, msg))
    && (forall entry :: entry in added ==> exists k: nat :: AddedAt(schedule, k, qs, entry))
    && (forall i :: 0 <= i < |qs| ==> Begun(schedule, printer, qs[i]))
  }

  /** Every schedule of concurrent queries.  Each query's key and time are those of the event that began it.
      Each answer is a reply of the inner resolver to a query with the same key; and an answer from the cache
      was put there by such a query less than the keeping time before this one read the clock. */
  method Serve(printer: Printer, numEntries: nat, schedule: seq<Event>) returns (s: Server)
    requires 1 <= numEntries
    ensures fresh(s) && s.Valid() && s.printer == printer
    ensures |s.cache.slots| <= s.cache.cache.Length == numEntries
    ensures ByUse(s.cache.slots) && NewestFirst(s.cache.slots)
    // Nothing but successes and name errors is ever kept, or answered from the cache.
    ensures forall i :: 0 <= i < |s.cache.slots| && s.cache.slots[i].entry.msg.Some? ==>
              s.cache.slots[i].entry.msg.value.rcode == 0 || s.cache.slots[i].entry.msg.value.rcode == 3
    ensures forall i :: 0 <= i < |s.queries| && s.queries[i].Answered? && s.queries[i].hit ==>
              s.queries[i].msg.rcode == 0 || s.queries[i].msg.rcode == 3
    ensures forall i :: 0 <= i < |s.queries| ==> Begun(schedule, printer, s.queries[i])
    ensures forall i :: 0 <= i < |s.queries| && s.queries[i].Answered? ==>
              exists k: nat :: AnsweredAt(schedule, k, s.queries, s.queries[i].key, s.queries[i].msg)
    ensures forall i :: 0 <= i < |s.queries| && s.queries[i].Answered? && s.queries[i].hit ==>
              exists k: nat, expire ::
                AddedAt(schedule, k, s.queries, Entry(s.queries[i].key, Some(s.queries[i].msg), expire))
                && expire > s.queries[i].purgedAt
  {
    hide Server.QueryOk, Traced, NextQueries, ReplyOf, AddedBy, NextSlots;
    s := new Server(printer, numEntries);
    TracedNothing(printer);
    assert schedule[..0] == [];
    for i := 0 to |schedule|
      invariant s.Valid() && fresh(s) && fresh(s.cache) && fresh(s.cache.cache)
      invariant s.printer == printer && s.cache.cache.Length == numEntries
      invariant Traced(schedule[..i], printer, s.queries, s.clock, s.replied, s.added)
    {
      TracedStep(schedule[..i], schedule[i], printer, s.queries, s.clock, s.replied, s.added, s.cache.slots);
      assert schedule[..i + 1] == schedule[..i] + [schedule[i]];
      s.Step(schedule[i]);
    }
    assert schedule[..|schedule|] == schedule;
    AnsweredOk(s, schedule);
    OnlyKeepable(s);
  }

  lemma {:induction false} OnlyKeepable(s: Server)
    requires s.Valid()
    ensures forall i :: 0 <= i < |s.cache.slots| && s.cache.slots[i].entry.msg.Some? ==>
              s.cache.slots[i].entry.msg.value.rcode == 0 || s.cache.slots[i].entry.msg.value.rcode == 3
    ensures forall i :: 0 <= i < |s.queries| && s.queries[i].Answered? && s.queries[i].hit ==>
              s.queries[i].msg.rcode == 0 || s.queries[i].msg.rcode == 3
  {
    forall i | 0 <= i < |s.queries| && s.queries[i].Answered? && s.queries[i].hit
      ensures s.queries[i].msg.rcode == 0 || s.queries[i].msg.rcode == 3
    {
      assert s.QueryOk(s.queries[i], s.expires[i]);
    }
  }

  lemma {:induction false} TracedNothing(printer: Printer)
    ensures Traced([], printer, [], 0, {}, {})
  {
  }

  lemma {:induction false} TracedStep(
    schedule: seq<Event>, e: Event, printer: Printer, qs: seq<Query>, clock: nat,
    replied: set<(seq<byte>, Message)>, added: set<Entry>, slots: seq<Slot>)
    requires Traced(schedule, printer, qs, clock, replied, added)
    ensures Traced(schedule + [e], printer, NextQueries(qs, e, printer, slots, clock),
                   clock + if e.Tick? then 1 else 0, replied + ReplyOf(e, qs), added + AddedBy(e, qs, clock))
  {
    var schedule', qs' := schedule + [e], NextQueries(qs, e, printer, slots, clock);
    var replied', added' := replied + ReplyOf(e, qs), added + AddedBy(e, qs, clock);
    QueriesStay(qs, e, printer, slots, clock);
    assert schedule'[..|schedule|] == schedule;
    forall key, msg | (key, msg) in replied'
      ensures exists k: nat :: AnsweredAt(schedule', k, qs', key, msg)
    {
      if (key, msg) in replied {
        var k: nat :| AnsweredAt(schedule, k, qs, key, msg);
        assert AnsweredAt(schedule', k, qs', key, msg);
      } else {
        assert AnsweredAt(schedule', |schedule|, qs', key, msg);
      }
    }
    forall entry | entry in added'
      ensures exists k: nat :: AddedAt(schedule', k, qs', entry)
    {
      if entry in added {
        var k: nat :| AddedAt(schedule, k, qs, entry);
        assert schedule'[..k] == schedule[..k];
        assert AddedAt(schedule', k, qs', entry);
      } else {
        assert AddedAt(schedule', |schedule|, qs', entry);
      }
    }
    forall i | 0 <= i < |qs'|
      ensures Begun(schedule', printer, qs'[i])
    {
      if i < |qs| {
        var k: nat :| BegunAt(schedule, k, printer, qs[i]);
        assert schedule'[..k] == schedule[..k];
        assert BegunAt(schedule', k, printer, qs'[i]);
      } else {
        assert BegunAt(schedule', |schedule|, printer, qs'[i]);
      }
    }
  }

  /** A query keeps its key and its time, and an answered one stays as it is. */
  lemma {:induction false} QueriesStay(qs: seq<Query>, e: Event, printer: Printer, slots: seq<Slot>, clock: nat)
    ensures var qs' := NextQueries(qs, e, printer, slots, clock);
            forall i :: 0 <= i < |qs| ==>
              && qs'[i].key == qs[i].key && (qs[i].Answered? ==> qs'[i] == qs[i])
              && (if qs'[i].Purging? then qs'[i].now else qs'[i].purgedAt) ==
                 (if qs[i].Purging? then qs[i].now else qs[i].purgedAt)
  {
    hide Searched, Replied;
  }

  lemma {:induction false} AnsweredOk(s: Server, schedule: seq<Event>)
    requires s.Valid() && Traced(schedule, s.printer, s.queries, s.clock, s.replied, s.added)
    ensures forall i :: 0 <= i < |s.queries| ==> Begun(schedule, s.printer, s.queries[i])
    ensures forall i :: 0 <= i < |s.queries| && s.queries[i].Answered? ==>
              exists k: nat :: AnsweredAt(schedule, k, s.queries, s.queries[i].key, s.queries[i].msg)
    ensures forall i :: 0 <= i < |s.queries| && s.queries[i].Answered? && s.queries[i].hit ==>
              exists k: nat, expire ::
                AddedAt(schedule, k, s.queries, Entry(s.queries[i].key, Some(s.queries[i].msg), expire))
                && expire > s.queries[i].purgedAt
  {
    hide AnsweredAt, AddedAt, Begun;
    forall i | 0 <= i < |s.queries| && s.queries[i].Answered?
      ensures exists k: nat :: AnsweredAt(schedule, k, s.queries, s.queries[i].key, s.queries[i].msg)
      ensures s.queries[i].hit ==>
              exists k: nat, expire ::
                AddedAt(schedule, k, s.queries, Entry(s.queries[i].key, Some(s.queries[i].msg), expire))
                && expire > s.queries[i].purgedAt
    {
      var q, expire := s.queries[i], s.expires[i];
      assert s.QueryOk(q, expire);
      if q.hit {
        var k: nat :| AddedAt(schedule, k, s.queries, Entry(q.key, Some(q.msg), expire));
      }
    }
  }
}
