/** The in-memory cache store: entries expire lazily, and nobody can tell. */
module CacheStore {
  import opened Text
  import Decimal

  /** A value and the instant it expires at, if any. */
  datatype Entry = Entry(value: Bytes, expiresAt: Option<int>)

  type Entries = map<Bytes, Entry>

  predicate Alive(e: Entry, now: int) {
    match e.expiresAt
    case Some(at) => now < at
    case None => true
  }

  /** A zero lifetime means forever. */
  function Deadline(ttl: nat, now: int): Option<int> {
    if ttl == 0 then None else Some(now + ttl)
  }

  /** The entries still inside their lifetime. */
  function Live(m: Entries, now: int): Entries {
    map k | k in m && Alive(m[k], now) :: m[k]
  }

  /** Addition as a release build performs it. */
  function WrappingAdd(a: i64, b: i64): (r: i64)
    ensures (a + b - r) % 0x1_0000_0000_0000_0000 == 0
  {
    var sum: int := a + b;
    if sum > I64_MAX then sum - 0x1_0000_0000_0000_0000
    else if sum < I64_MIN then sum + 0x1_0000_0000_0000_0000
    else sum
  }

  datatype Op =
    | Get(key: Bytes)
    | Put(key: Bytes, value: Bytes, ttl: nat)
    | PutIfAbsent(key: Bytes, value: Bytes, ttl: nat)
    | CompareAndDelete(key: Bytes, expected: Bytes)
    | Touch(key: Bytes, ttl: nat)
    | Forget(key: Bytes)
    | Flush
    | Increment(key: Bytes, n: i64)

  /** What a caller sees of one operation. */
  datatype Out =
    | Found(value: Option<Bytes>)
    | Done
    | Flag(ok: bool)
    | Count(n: i64)
    | NotAnInteger

  function LiveAt(m: Entries, key: Bytes, now: int): Option<Entry> {
    if key in m && Alive(m[key], now) then Some(m[key]) else None
  }

  /** One operation on the stored map, dead entries and all. */
  function Step(m: Entries, op: Op, now: int): (Entries, Out) {
    match op
    case Get(key) =>
      var swept := Live(m, now);
      (swept, Found(if key in swept then Some(swept[key].value) else None))
    case Put(key, value, ttl) =>
      (m[key := Entry(value, Deadline(ttl, now))], Done)
    case PutIfAbsent(key, value, ttl) =>
      if LiveAt(m, key, now).Some? then (m, Flag(false))
      else (m[key := Entry(value, Deadline(ttl, now))], Flag(true))
    case CompareAndDelete(key, expected) =>
      if LiveAt(m, key, now).Some? && m[key].value == expected then (m - {key}, Flag(true)) else (m, Flag(false))
    case Touch(key, ttl) =>
      if LiveAt(m, key, now).Some? then (m[key := m[key].(expiresAt := Deadline(ttl, now))], Flag(true))
      else (m, Flag(false))
    case Forget(key) => (m - {key}, Done)
    case Flush => (map[], Done)
    case Increment(key, n) =>
      var current := if LiveAt(m, key, now).Some? then Decimal.Parsed(m[key].value) else Some(0);
      match current
      case None => (m, NotAnInteger)
      case Some(number) =>
        var next := WrappingAdd(number, n);
        (m[key := Entry(Decimal.Printed(next), None)], Count(next))
  }

  /** The store itself. Each method reads the clock once: `get` just before taking the lock, the
      others under it. */
  class MemoryStore {
    var entries: Entries

    constructor ()
      ensures entries == map[]
    {
      entries := map[];
    }

    /** Sweep expired entries out. */
    method Sweep(now: int)
      modifies this
      ensures entries == Live(old(entries), now)
    {
      entries := map k | k in entries && Alive(entries[k], now) :: entries[k];
    }

    method Get(key: Bytes, now: int) returns (value: Option<Bytes>)
      modifies this
      ensures (entries, Found(value)) == Step(old(entries), Op.Get(key), now)
    {
      Sweep(now);
      value := if key in entries then Some(entries[key].value) else None;
    }

    method Put(key: Bytes, value: Bytes, ttl: nat, now: int)
      modifies this
      ensures (entries, Done) == Step(old(entries), Op.Put(key, value, ttl), now)
    {
      var expiresAt := if ttl != 0 then Some(now + ttl) else None;
      entries := entries[key := Entry(value, expiresAt)];
    }

    method PutIfAbsent(key: Bytes, value: Bytes, ttl: nat, now: int) returns (ok: bool)
      modifies this
      ensures (entries, Flag(ok)) == Step(old(entries), Op.PutIfAbsent(key, value, ttl), now)
    {
      if key in entries && Alive(entries[key], now) {
        return false;
      }
      var expiresAt := if ttl != 0 then Some(now + ttl) else None;
      entries := entries[key := Entry(value, expiresAt)];
      return true;
    }

    method CompareAndDelete(key: Bytes, expected: Bytes, now: int) returns (ok: bool)
      modifies this
      ensures (entries, Flag(ok)) == Step(old(entries), Op.CompareAndDelete(key, expected), now)
    {
      if key in entries && Alive(entries[key], now) && entries[key].value == expected {
        entries := entries - {key};
        return true;
      }
      return false;
    }

    method Touch(key: Bytes, ttl: nat, now: int) returns (ok: bool)
      modifies this
      ensures (entries, Flag(ok)) == Step(old(entries), Op.Touch(key, ttl), now)
    {
      if key in entries && Alive(entries[key], now) {
        entries := entries[key := entries[key].(expiresAt := if ttl != 0 then Some(now + ttl) else None)];
        return true;
      }
      return false;
    }

    method Forget(key: Bytes, now: int)
      modifies this
      ensures (entries, Done) == Step(old(entries), Op.Forget(key), now)
    {
      entries := entries - {key};
    }

    method Flush(now: int)
      modifies this
      ensures (entries, Done) == Step(old(entries), Op.Flush, now)
    {
      entries := map[];
    }

    method Increment(key: Bytes, n: i64, now: int) returns (next: Option<i64>)
      modifies this
      ensures (entries, if next.Some? then Count(next.value) else NotAnInteger)
           == Step(old(entries), Op.Increment(key, n), now)
    {
      var current: Option<i64> := Some(0);
      if key in entries && Alive(entries[key], now) {
        current := Decimal.Parsed(entries[key].value);
        if current == None {
          return None;
        }
      }
      var sum := WrappingAdd(current.value, n);
      entries := entries[key := Entry(Decimal.Printed(sum), None)];
      return Some(sum);
    }
  }

  // ---------- The ideal store ----------

  /** A plain map: whatever it holds is there, and deadlines are none of its business. */
  function IdealStep(m: Entries, op: Op, now: int): (Entries, Out) {
    match op
    case Get(key) => (m, Found(if key in m then Some(m[key].value) else None))
    case Put(key, value, ttl) => (m[key := Entry(value, Deadline(ttl, now))], Done)
    case PutIfAbsent(key, value, ttl) =>
      if key in m then (m, Flag(false)) else (m[key := Entry(value, Deadline(ttl, now))], Flag(true))
    case CompareAndDelete(key, expected) =>
      if key in m && m[key].value == expected then (m - {key}, Flag(true)) else (m, Flag(false))
    case Touch(key, ttl) =>
      if key in m then (m[key := m[key].(expiresAt := Deadline(ttl, now))], Flag(true)) else (m, Flag(false))
    case Forget(key) => (m - {key}, Done)
    case Flush => (map[], Done)
    case Increment(key, n) =>
      var current := if key in m then Decimal.Parsed(m[key].value) else Some(0);
      match current
      case None => (m, NotAnInteger)
      case Some(number) =>
        var next := WrappingAdd(number, n);
        (m[key := Entry(Decimal.Printed(next), None)], Count(next))
  }

  /** The timer of the ideal store: at each instant it drops the entries due then. */
  function Tick(m: Entries, instant: int): Entries {
    map k | k in m && m[k].expiresAt != Some(instant) :: m[k]
  }

  function Elapse(m: Entries, from: int, until: int): Entries
    decreases until - from
  {
    if from >= until then m else Elapse(Tick(m, from + 1), from + 1, until)
  }

  /** Operations, each with the instant it happens at. */
  type Run = seq<(int, Op)>

  ghost predicate Ordered(run: Run, clock: int)
    decreases |run|
  {
    run == [] || (clock <= run[0].0 && Ordered(run[1..], run[0].0))
  }

  function Outputs(m: Entries, run: Run): seq<Out>
    decreases |run|
  {
    if run == [] then []
    else
      var (m', out) := Step(m, run[0].1, run[0].0);
      [out] + Outputs(m', run[1..])
  }

  function IdealOutputs(m: Entries, clock: int, run: Run): seq<Out>
    decreases |run|
  {
    if run == [] then []
    else
      var (m', out) := IdealStep(Elapse(m, clock, run[0].0), run[0].1, run[0].0);
      [out] + IdealOutputs(m', run[0].0, run[1..])
  }

  /** No entry is past its deadline. */
  ghost predicate Fresh(m: Entries, clock: int) {
    forall k :: k in m ==> Alive(m[k], clock)
  }

  lemma {:induction false} ElapseIsLive(m: Entries, from: int, until: int)
    requires Fresh(m, from) && from <= until
    ensures Elapse(m, from, until) == Live(m, until)
    decreases until - from
  {
    if from < until {
      var ticked := Tick(m, from + 1);
      assert Fresh(ticked, from + 1);
      ElapseIsLive(ticked, from + 1, until);
      assert Live(ticked, until) == Live(m, until);
    }
  }

  lemma LiveLater(m: Entries, from: int, until: int)
    requires from <= until
    ensures Live(Live(m, from), until) == Live(m, until)
  {
  }

  /** One lazy step shows what the ideal step shows, and leaves the same live entries. */
  lemma StepRefines(m: Entries, op: Op, now: int)
    ensures Step(m, op, now).1 == IdealStep(Live(m, now), op, now).1
    ensures Live(Step(m, op, now).0, now) == IdealStep(Live(m, now), op, now).0
  {
    var live := Live(m, now);
    match op {
      case Get(key) => LiveLater(m, now, now);
      case Put(key, value, ttl) =>
      case PutIfAbsent(key, value, ttl) =>
      case CompareAndDelete(key, expected) =>
      case Touch(key, ttl) =>
      case Forget(key) =>
      case Flush =>
      case Increment(key, n) =>
    }
  }

  /** Over every run with a clock that never goes back, the lazy store answers exactly as a store
      that drops each entry at its expiry instant. */
  lemma {:induction false} LazyIsIdeal(m: Entries, clock: int, run: Run)
    requires Ordered(run, clock)
    ensures Outputs(m, run) == IdealOutputs(Live(m, clock), clock, run)
    decreases |run|
  {
    if run != [] {
      var (now, op) := run[0];
      ElapseIsLive(Live(m, clock), clock, now);
      LiveLater(m, clock, now);
      StepRefines(m, op, now);
      LazyIsIdeal(Step(m, op, now).0, now, run[1..]);
    }
  }

  // ---------- What the answers are ----------

  /** What an operation does to a key that is seen to hold a value, or none: nothing, or it is gone, or
      it holds a value for so long, zero being forever. */
  datatype Effect = Untouched | Gone | Holds(value: Bytes, ttl: nat)

  function EffectOn(key: Bytes, seen: Option<Bytes>, op: Op): Effect {
    if op.Flush? then Gone
    else if op.key != key then Untouched
    else
      match op
      case Get(_) => Untouched
      case Put(_, value, ttl) => Holds(value, ttl)
      case PutIfAbsent(_, value, ttl) => if seen == None then Holds(value, ttl) else Untouched
      case CompareAndDelete(_, expected) => if seen == Some(expected) then Gone else Untouched
      case Touch(_, ttl) => if seen.Some? then Holds(seen.value, ttl) else Untouched
      case Forget(_) => Gone
      case Increment(_, n) =>
        match Number(seen)
        case Some(number) => Holds(Decimal.Printed(WrappingAdd(number, n)), 0)
        case None => Untouched
  }

  /** A missing number is zero. */
  function Number(seen: Option<Bytes>): Option<i64> {
    match seen
    case Some(text) => Decimal.Parsed(text)
    case None => Some(0)
  }

  /** What a key is seen to hold at an instant, after a run of operations on an empty store: the last
      operation to have an effect on it decides, and what was put at `s` for `ttl` is there before
      `s + ttl` and not from then on. */
  function History(run: Run, key: Bytes, at: int): Option<Bytes> {
    if run == [] then None
    else
      var front := run[..|run| - 1];
      var (s, op) := run[|run| - 1];
      match EffectOn(key, History(front, key, s), op)
      case Untouched => History(front, key, at)
      case Gone => None
      case Holds(value, ttl) => if ttl == 0 || at < s + ttl then Some(value) else None
  }

  /** What an operation answers, by what its key is seen to hold. */
  function Answer(run: Run, op: Op, at: int): Out {
    match op
    case Get(key) => Found(History(run, key, at))
    case Put(_, _, _) => Done
    case PutIfAbsent(key, _, _) => Flag(History(run, key, at) == None)
    case CompareAndDelete(key, expected) => Flag(History(run, key, at) == Some(expected))
    case Touch(key, _) => Flag(History(run, key, at).Some?)
    case Forget(_) => Done
    case Flush => Done
    case Increment(key, n) =>
      match Number(History(run, key, at))
      case Some(number) => Count(WrappingAdd(number, n))
      case None => NotAnInteger
  }

  function StoreAfter(m: Entries, run: Run): Entries {
    if run == [] then m
    else Step(StoreAfter(m, run[..|run| - 1]), run[|run| - 1].1, run[|run| - 1].0).0
  }

  lemma {:induction false} StoreAfterCons(m: Entries, run: Run)
    requires run != []
    ensures StoreAfter(m, run) == StoreAfter(Step(m, run[0].1, run[0].0).0, run[1..])
  {
    hide Step;
    var n := |run| - 1;
    if n == 0 {
      assert run[..0] == [] && run[1..] == [];
    } else {
      StoreAfterCons(m, run[..n]);
      assert run[..n][1..] == run[1..][..n - 1];
    }
  }

  lemma {:induction false} OutputAt(m: Entries, run: Run, i: nat)
    requires i < |run|
    ensures |Outputs(m, run)| == |run|
    ensures Outputs(m, run)[i] == Step(StoreAfter(m, run[..i]), run[i].1, run[i].0).1
    decreases |run|
  {
    hide Step;
    var m' := Step(m, run[0].1, run[0].0).0;
    if |run| > 1 {
      OutputAt(m', run[1..], if i > 0 then i - 1 else 0);
    } else {
      assert Outputs(m', run[1..]) == [];
    }
    if i > 0 {
      StoreAfterCons(m, run[..i]);
      assert run[..i][1..] == run[1..][..i - 1];
    } else {
      assert run[..0] == [];
    }
  }

  /** From an instant on, the store shows what the history says. */
  ghost predicate Shows(m: Entries, run: Run, clock: int) {
    forall key, at :: clock <= at ==> ValueAt(m, key, at) == History(run, key, at)
  }

  function ValueAt(m: Entries, key: Bytes, at: int): Option<Bytes> {
    match LiveAt(m, key, at)
    case Some(e) => Some(e.value)
    case None => None
  }

  /** What one operation leaves of one key. */
  lemma StepShows(m: Entries, op: Op, s: int, key: Bytes, at: int)
    requires s <= at
    ensures ValueAt(Step(m, op, s).0, key, at) ==
      match EffectOn(key, ValueAt(m, key, s), op)
      case Untouched => ValueAt(m, key, at)
      case Gone => None
      case Holds(value, ttl) => if ttl == 0 || at < s + ttl then Some(value) else None
  {
    match op {
      case Get(_) =>
      case Put(_, value, ttl) =>
      case PutIfAbsent(_, value, ttl) =>
      case CompareAndDelete(_, expected) =>
      case Touch(_, ttl) =>
      case Forget(_) =>
      case Flush =>
      case Increment(_, n) =>
    }
  }

  lemma StepAnswers(m: Entries, run: Run, op: Op, at: int)
    requires Shows(m, run, at)
    ensures Step(m, op, at).1 == Answer(run, op, at)
  {
    if !op.Flush? {
      assert ValueAt(m, op.key, at) == History(run, op.key, at);
    }
  }

  lemma {:induction false} RunShows(run: Run, clock: int)
    requires forall i :: 0 <= i < |run| ==> run[i].0 <= clock
    requires forall i, j :: 0 <= i < j < |run| ==> run[i].0 <= run[j].0
    ensures Shows(StoreAfter(map[], run), run, clock)
  {
    hide Step, EffectOn, ValueAt;
    if run == [] {
      forall key, at ensures ValueAt(map[], key, at) == None {
        NoValue(key, at);
      }
    } else {
      var front := run[..|run| - 1];
      var (s, op) := run[|run| - 1];
      var m := StoreAfter(map[], front);
      RunShows(front, s);
      forall key, at | clock <= at
        ensures ValueAt(StoreAfter(map[], run), key, at) == History(run, key, at)
      {
        StepShows(m, op, s, key, at);
      }
    }
  }

  lemma NoValue(key: Bytes, at: int)
    ensures ValueAt(map[], key, at) == None
  {
  }

  /** Over every run from the empty store with a clock that never goes back, each operation answers
      what the history of its key says. */
  lemma OutputsAreHistory(run: Run, i: nat)
    requires i < |run| && forall j, k :: 0 <= j < k < |run| ==> run[j].0 <= run[k].0
    ensures |Outputs(map[], run)| == |run|
    ensures Outputs(map[], run)[i] == Answer(run[..i], run[i].1, run[i].0)
  {
    hide Step, Answer;
    OutputAt(map[], run, i);
    RunShows(run[..i], run[i].0);
    StepAnswers(StoreAfter(map[], run[..i]), run[..i], run[i].1, run[i].0);
  }

  /** Nothing in the run can change what the key holds. */
  predicate Spared(run: Run, key: Bytes) {
    forall i :: 0 <= i < |run| ==> run[i].1.Get? || (!run[i].1.Flush? && run[i].1.key != key)
  }

  lemma {:induction false} SparedHistory(before: Run, between: Run, key: Bytes, at: int)
    requires Spared(between, key)
    ensures History(before + between, key, at) == History(before, key, at)
    decreases |between|
  {
    if between == [] {
      assert before + between == before;
    } else {
      var front := between[..|between| - 1];
      assert (before + between)[..|before + between| - 1] == before + front;
      SparedHistory(before, front, key, at);
      SparedHistory(before, front, key, between[|between| - 1].0);
    }
  }

  /** How long an entry lives. After a put at `s`, a put-if-absent that stored or a touch that found
      something, and with nothing else done to the key, a `get` finds the value if and only if the
      lifetime is zero or has not passed. */
  lemma LivesExactly(before: Run, s: int, op: Op, between: Run, at: int, key: Bytes)
    requires !op.Flush? && op.key == key && Spared(between, key)
    ensures var seen, run := History(before, key, s), before + [(s, op)] + between;
      && (op.Put? ==> History(run, key, at) == if op.ttl == 0 || at < s + op.ttl then Some(op.value) else None)
      && (op.PutIfAbsent? && seen == None ==>
            History(run, key, at) == if op.ttl == 0 || at < s + op.ttl then Some(op.value) else None)
      && (op.Touch? && seen.Some? ==>
            History(run, key, at) == if op.ttl == 0 || at < s + op.ttl then seen else None)
  {
    var put := before + [(s, op)];
    assert put[..|before|] == before;
    SparedHistory(put, between, key, at);
  }

  // ---------- Counters ----------

  predicate Counts(run: Run, key: Bytes) {
    forall i :: 0 <= i < |run| ==> run[i].1.Increment? && run[i].1.key == key
  }

  /** The additions of a run of increments, folded into a starting number. */
  function Totals(start: i64, run: Run, key: Bytes): seq<Out>
    requires Counts(run, key)
    decreases |run|
  {
    if run == [] then []
    else
      var next := WrappingAdd(start, run[0].1.n);
      [Count(next)] + Totals(next, run[1..], key)
  }

  lemma {:induction false} IncrementsFrom(m: Entries, run: Run, key: Bytes, start: i64)
    requires Counts(run, key) && key in m && m[key] == Entry(Decimal.Printed(start), None)
    ensures Outputs(m, run) == Totals(start, run, key)
    decreases |run|
  {
    if run != [] {
      Decimal.ParsePrinted(start);
      var next := WrappingAdd(start, run[0].1.n);
      var m' := Step(m, run[0].1, run[0].0).0;
      IncrementsFrom(m', run[1..], key, next);
    }
  }

  /** Increments of a missing or expired counter report the running total from zero: what is
      stored as text between the calls is the number itself. */
  lemma IncrementsAccumulate(m: Entries, run: Run, key: Bytes)
    requires Counts(run, key) && run != [] && LiveAt(m, key, run[0].0) == None
    ensures Outputs(m, run) == Totals(0, run, key)
  {
    var next := WrappingAdd(0, run[0].1.n);
    IncrementsFrom(Step(m, run[0].1, run[0].0).0, run[1..], key, next);
  }

  // ---------- A clock read before the lock ----------

  /** A call, with the instant its clock was read and the instant it had the lock. */
  datatype Call = Call(op: Op, read: int, at: int)

  /** Calls in lock order. Only `get` may have read its clock earlier than it got the lock. */
  ghost predicate WellTimed(calls: seq<Call>, clock: int) {
    && (forall i :: 0 <= i < |calls| ==> clock <= calls[i].read <= calls[i].at)
    && (forall i :: 0 <= i < |calls| && !calls[i].op.Get? ==> calls[i].read == calls[i].at)
    && (forall i, j :: 0 <= i < j < |calls| ==> calls[i].at <= calls[j].at)
  }

  function LastInstant(clock: int, calls: seq<Call>): int {
    if calls == [] then clock else calls[|calls| - 1].at
  }

  function StoredAfter(m: Entries, calls: seq<Call>): Entries {
    if calls == [] then m
    else
      var last := calls[|calls| - 1];
      Step(StoredAfter(m, calls[..|calls| - 1]), last.op, last.read).0
  }

  /** What the ideal store holds after the calls, each at the instant it had the lock. */
  function IdealAfter(m: Entries, clock: int, calls: seq<Call>): Entries {
    if calls == [] then m
    else
      var front, last := calls[..|calls| - 1], calls[|calls| - 1];
      IdealStep(Elapse(IdealAfter(m, clock, front), LastInstant(clock, front), last.at), last.op, last.at).0
  }

  lemma {:induction false} StaleSweepsRefine(m: Entries, clock: int, calls: seq<Call>)
    requires WellTimed(calls, clock)
    ensures IdealAfter(Live(m, clock), clock, calls) == Live(StoredAfter(m, calls), LastInstant(clock, calls))
  {
    if calls != [] {
      var front, last := calls[..|calls| - 1], calls[|calls| - 1];
      var stored, since := StoredAfter(m, front), LastInstant(clock, front);
      StaleSweepsRefine(m, clock, front);
      ElapseIsLive(Live(stored, since), since, last.at);
      LiveLater(stored, since, last.at);
      StepRefines(stored, last.op, last.at);
      if last.op.Get? {
        LiveLater(stored, last.read, last.at);
        LiveLater(stored, last.at, last.at);
      }
    }
  }

  /** What the ideal store answers a `get` at instant `t`, after the first `k` calls. */
  function IdealAnswer(m: Entries, clock: int, calls: seq<Call>, k: int, t: int, key: Bytes): Out
    requires 0 <= k <= |calls|
  {
    IdealStep(Elapse(IdealAfter(Live(m, clock), clock, calls[..k]), LastInstant(clock, calls[..k]), t), Get(key), t).1
  }

  /** Instant `t` falls between the first `k` calls and the rest. */
  ghost predicate FallsAfter(clock: int, calls: seq<Call>, k: int, t: int) {
    && 0 <= k <= |calls|
    && LastInstant(clock, calls[..k]) <= t
    && forall i :: k <= i < |calls| ==> t <= calls[i].at
  }

  lemma AnswerFromStored(m: Entries, clock: int, calls: seq<Call>, k: nat, t: int, key: Bytes)
    requires WellTimed(calls, clock) && FallsAfter(clock, calls, k, t)
    ensures IdealAnswer(m, clock, calls, k, t, key)
         == Found(match LiveAt(StoredAfter(m, calls[..k]), key, t) case Some(e) => Some(e.value) case None => None)
  {
    var stored, last := StoredAfter(m, calls[..k]), LastInstant(clock, calls[..k]);
    StaleSweepsRefine(m, clock, calls[..k]);
    ElapseIsLive(Live(stored, last), last, t);
    LiveLater(stored, last, t);
  }

  /** An entry a step puts in place is alive when it does. */
  lemma WrittenAlive(m: Entries, op: Op, now: int, key: Bytes)
    requires key in Step(m, op, now).0 && !(key in m && m[key] == Step(m, op, now).0[key])
    ensures Alive(Step(m, op, now).0[key], now) && !op.Get?
  {
  }

  /** An entry found in the store and alive at `read` was held by the ideal store, alive, at some
      instant from `read` to `at`. */
  lemma {:induction false} FoundAtSomeInstant(m: Entries, clock: int, calls: seq<Call>, key: Bytes, read: int, at: int)
      returns (k: nat, t: int)
    requires WellTimed(calls, clock) && clock <= read <= at && LastInstant(clock, calls) <= at
    requires key in StoredAfter(m, calls) && Alive(StoredAfter(m, calls)[key], read)
    ensures FallsAfter(clock, calls, k, t) && read <= t <= at
    ensures LiveAt(StoredAfter(m, calls[..k]), key, t) == Some(StoredAfter(m, calls)[key])
  {
    var n := |calls|;
    if n == 0 || calls[n - 1].at <= read {
      k, t := n, read;
      assert calls[..n] == calls;
    } else {
      var front, last := calls[..n - 1], calls[n - 1];
      var before := StoredAfter(m, front);
      hide Step;
      if key in before && before[key] == StoredAfter(m, calls)[key] {
        assert LastInstant(clock, front) <= last.at;
        k, t := FoundAtSomeInstant(m, clock, front, key, read, last.at);
        assert front[..k] == calls[..k];
      } else {
        WrittenAlive(before, last.op, last.read, key);
        k, t := n, last.at;
        assert calls[..n] == calls;
      }
    }
  }

  /** Reading the clock before taking the lock is harmless: the answer of a `get` is what the ideal
      store answers at some instant between the two. */
  lemma GetLinearizes(m: Entries, clock: int, calls: seq<Call>, key: Bytes, read: int, at: int)
    requires WellTimed(calls, clock) && clock <= read <= at && LastInstant(clock, calls) <= at
    ensures exists k, t ::
      && FallsAfter(clock, calls, k, t)
      && read <= t <= at
      && Step(StoredAfter(m, calls), Get(key), read).1 == IdealAnswer(m, clock, calls, k, t, key)
  {
    var stored := StoredAfter(m, calls);
    if key in stored && Alive(stored[key], read) {
      var k, t := FoundAtSomeInstant(m, clock, calls, key, read, at);
      AnswerFromStored(m, clock, calls, k, t, key);
    } else {
      assert calls[..|calls|] == calls;
      assert FallsAfter(clock, calls, |calls|, at);
      AnswerFromStored(m, clock, calls, |calls|, at, key);
    }
  }
}
