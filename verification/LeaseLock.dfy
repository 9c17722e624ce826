/** The owner-token lease lock, as a machine over every interleaving of its clients. */
module LeaseLock {
  import opened Text
  import opened CacheStore

  /** A guard: the token it acquired with, whether it was given up, and its lease's end. */
  datatype Guard = Guard(token: Bytes, released: bool, lease: Option<int>)

  /** Everything the clients of one lock key share. `owed` holds the tokens whose
      compare-and-delete has been started, by `release` or by drop, and not yet performed. */
  datatype World = World(now: int, store: Entries, guards: seq<Guard>, owed: set<Bytes>, used: set<Bytes>)

  datatype Action =
    | Acquire(token: Bytes, ttl: nat)
    | GiveUp(guard: nat)
    | Deliver(token: Bytes)
    | Wait(until: int)
    | Other(op: Op)

  /** Whether an operation, as the store stands, leaves what is live under `key` as it is. */
  predicate Spares(store: Entries, op: Op, key: Bytes, now: int) {
    LiveAt(Step(store, op, now).0, key, now) == LiveAt(store, key, now)
  }

  /** Tokens are fresh, a guard is given up once, a delete is performed once, time does not go
      back, and nobody else's operation changes what is live under the lock's key. */
  predicate Enabled(w: World, key: Bytes, a: Action) {
    match a
    case Acquire(token, _) => token !in w.used
    case GiveUp(g) => g < |w.guards| && !w.guards[g].released
    case Deliver(token) => token in w.owed
    case Wait(until) => w.now <= until
    case Other(op) => Spares(w.store, op, key, w.now)
  }

  function After(w: World, key: Bytes, a: Action): World
    requires Enabled(w, key, a)
  {
    match a
    case Acquire(token, ttl) =>
      var (store, out) := Step(w.store, PutIfAbsent(key, token, ttl), w.now);
      w.(store := store, used := w.used + {token},
         guards := if out == Flag(true) then w.guards + [Guard(token, false, Deadline(ttl, w.now))] else w.guards)
    case GiveUp(g) =>
      w.(guards := w.guards[g := w.guards[g].(released := true)], owed := w.owed + {w.guards[g].token})
    case Deliver(token) =>
      w.(store := Step(w.store, CompareAndDelete(key, token), w.now).0, owed := w.owed - {token})
    case Wait(until) => w.(now := until)
    case Other(op) => w.(store := Step(w.store, op, w.now).0)
  }

  predicate Unexpired(g: Guard, now: int) {
    match g.lease
    case Some(at) => now < at
    case None => true
  }

  /** An unreleased guard whose lease runs: its owner may be in the critical section. */
  predicate Holds(w: World, g: int) {
    0 <= g < |w.guards| && !w.guards[g].released && Unexpired(w.guards[g], w.now)
  }

  /** A lease still running that is held, or given up with its delete not yet performed. */
  predicate Outstanding(w: World, g: int) {
    0 <= g < |w.guards| && Unexpired(w.guards[g], w.now) && (!w.guards[g].released || w.guards[g].token in w.owed)
  }

  ghost predicate TokensAreOwn(w: World) {
    && (forall g, h :: 0 <= g < h < |w.guards| ==> w.guards[g].token != w.guards[h].token)
    && (forall g :: 0 <= g < |w.guards| ==> w.guards[g].token in w.used)
    && w.owed <= w.used
  }

  ghost predicate OwedIsGivenUp(w: World) {
    forall g :: 0 <= g < |w.guards| && w.guards[g].token in w.owed ==> w.guards[g].released
  }

  /** The store holds the outstanding lease. */
  ghost predicate LeaseIsStored(w: World, key: Bytes) {
    forall g :: Outstanding(w, g) ==>
      key in w.store && w.store[key] == Entry(w.guards[g].token, w.guards[g].lease)
  }

  /** A live entry is some outstanding lease. */
  ghost predicate StoredIsLease(w: World, key: Bytes) {
    LiveAt(w.store, key, w.now).Some? ==> exists g :: Outstanding(w, g) && w.store[key].value == w.guards[g].token
  }

  ghost predicate Inv(w: World, key: Bytes) {
    TokensAreOwn(w) && OwedIsGivenUp(w) && LeaseIsStored(w, key) && StoredIsLease(w, key)
  }

  /** Before the first action: no guards, and nothing live under the key. */
  ghost predicate Initial(w: World, key: Bytes) {
    w.guards == [] && w.owed == {} && LiveAt(w.store, key, w.now) == None
  }

  lemma InitialInv(w: World, key: Bytes)
    requires Initial(w, key)
    ensures Inv(w, key)
  {
  }

  /** The token under which a live entry stands belongs to one outstanding guard only. */
  lemma OneOutstanding(w: World, key: Bytes, g: nat, h: nat)
    requires Inv(w, key) && Outstanding(w, g) && Outstanding(w, h)
    ensures g == h
  {
    assert w.store[key].value == w.guards[g].token == w.guards[h].token;
  }

  lemma OutstandingIsLive(w: World, key: Bytes, g: nat)
    requires Inv(w, key) && Outstanding(w, g)
    ensures LiveAt(w.store, key, w.now) == Some(Entry(w.guards[g].token, w.guards[g].lease))
  {
  }

  lemma AcquireKeepsInv(w: World, key: Bytes, token: Bytes, ttl: nat)
    requires Inv(w, key) && token !in w.used
    ensures Inv(After(w, key, Acquire(token, ttl)), key)
  {
    var w' := After(w, key, Acquire(token, ttl));
    forall g | 0 <= g < |w.guards|
      ensures w'.guards[g] == w.guards[g] && (Outstanding(w', g) <==> Outstanding(w, g))
    {
    }
    if LiveAt(w.store, key, w.now).Some? {
      assert w'.guards == w.guards && w'.store == w.store;
      var g :| Outstanding(w, g) && w.store[key].value == w.guards[g].token;
      assert Outstanding(w', g);
    } else {
      var mine := |w.guards|;
      assert w'.guards[mine] == Guard(token, false, Deadline(ttl, w.now));
      assert Outstanding(w', mine);
      forall g | Outstanding(w', g)
        ensures g == mine
      {
        if g < mine {
          OutstandingIsLive(w, key, g);
        }
      }
    }
  }

  lemma GiveUpKeepsInv(w: World, key: Bytes, given: nat)
    requires Inv(w, key) && Enabled(w, key, GiveUp(given))
    ensures Inv(After(w, key, GiveUp(given)), key)
  {
    var w' := After(w, key, GiveUp(given));
    forall g | 0 <= g < |w.guards|
      ensures w'.guards[g].token == w.guards[g].token && w'.guards[g].lease == w.guards[g].lease
      ensures Outstanding(w', g) <==> Outstanding(w, g)
    {
      if g != given {
        assert w.guards[g].token != w.guards[given].token;
      }
    }
    if LiveAt(w.store, key, w.now).Some? {
      var g :| Outstanding(w, g) && w.store[key].value == w.guards[g].token;
      assert Outstanding(w', g);
    }
  }

  lemma DeliverKeepsInv(w: World, key: Bytes, token: Bytes)
    requires Inv(w, key) && token in w.owed
    ensures Inv(After(w, key, Deliver(token)), key)
  {
    var w' := After(w, key, Deliver(token));
    forall g | Outstanding(w', g)
      ensures Outstanding(w, g) && w.guards[g].token != token
      ensures key in w'.store && w'.store[key] == Entry(w'.guards[g].token, w'.guards[g].lease)
    {
      OutstandingIsLive(w, key, g);
    }
    if LiveAt(w'.store, key, w'.now).Some? {
      var g :| Outstanding(w, g) && w.store[key].value == w.guards[g].token;
      assert w.guards[g].token != token;
      assert Outstanding(w', g);
    }
  }

  lemma WaitKeepsInv(w: World, key: Bytes, until: int)
    requires Inv(w, key) && w.now <= until
    ensures Inv(After(w, key, Wait(until)), key)
  {
    var w' := After(w, key, Wait(until));
    forall g | Outstanding(w', g)
      ensures Outstanding(w, g)
    {
    }
    if LiveAt(w'.store, key, until).Some? {
      var g :| Outstanding(w, g) && w.store[key].value == w.guards[g].token;
      assert Outstanding(w', g);
    }
  }

  lemma OtherKeepsInv(w: World, key: Bytes, op: Op)
    requires Inv(w, key) && Spares(w.store, op, key, w.now)
    ensures Inv(After(w, key, Other(op)), key)
  {
    var w' := After(w, key, Other(op));
    forall g | 0 <= g < |w.guards|
      ensures Outstanding(w', g) <==> Outstanding(w, g)
    {
    }
    forall g | Outstanding(w', g)
      ensures key in w'.store && w'.store[key] == Entry(w'.guards[g].token, w'.guards[g].lease)
    {
      OutstandingIsLive(w, key, g);
    }
    if LiveAt(w'.store, key, w'.now).Some? {
      var g :| Outstanding(w, g) && w.store[key].value == w.guards[g].token;
      assert Outstanding(w', g);
    }
  }

  lemma StepKeepsInv(w: World, key: Bytes, a: Action)
    requires Inv(w, key) && Enabled(w, key, a)
    ensures Inv(After(w, key, a), key)
  {
    match a {
      case Acquire(token, ttl) => AcquireKeepsInv(w, key, token, ttl);
      case GiveUp(g) => GiveUpKeepsInv(w, key, g);
      case Deliver(token) => DeliverKeepsInv(w, key, token);
      case Wait(until) => WaitKeepsInv(w, key, until);
      case Other(op) => OtherKeepsInv(w, key, op);
    }
  }

  /** The worlds a sequence of enabled actions passes through. */
  ghost predicate Follows(ws: seq<World>, key: Bytes, actions: seq<Action>) {
    && |ws| == |actions| + 1
    && forall i :: 0 <= i < |actions| ==> Enabled(ws[i], key, actions[i]) && ws[i + 1] == After(ws[i], key, actions[i])
  }

  ghost predicate IsRun(ws: seq<World>, key: Bytes, actions: seq<Action>) {
    Follows(ws, key, actions) && Initial(ws[0], key)
  }

  lemma {:induction false} RunKeepsInv(ws: seq<World>, key: Bytes, actions: seq<Action>, i: nat)
    requires IsRun(ws, key, actions) && i < |ws|
    ensures Inv(ws[i], key)
  {
    if i == 0 {
      InitialInv(ws[0], key);
    } else {
      RunKeepsInv(ws, key, actions, i - 1);
      assert Enabled(ws[i - 1], key, actions[i - 1]) && ws[i - 1 + 1] == After(ws[i - 1], key, actions[i - 1]);
      StepKeepsInv(ws[i - 1], key, actions[i - 1]);
    }
  }

  /** Mutual exclusion at every moment of every run: at most one guard holds, and the live entry
      in the store is its own, under its token and until its lease's end. */
  lemma MutualExclusion(ws: seq<World>, key: Bytes, actions: seq<Action>, i: nat)
    requires IsRun(ws, key, actions) && i < |ws|
    ensures forall g, h :: Holds(ws[i], g) && Holds(ws[i], h) ==> g == h
    ensures forall g :: Holds(ws[i], g) ==>
      LiveAt(ws[i].store, key, ws[i].now) == Some(Entry(ws[i].guards[g].token, ws[i].guards[g].lease))
  {
    var w := ws[i];
    RunKeepsInv(ws, key, actions, i);
    forall g, h | Holds(w, g) && Holds(w, h)
      ensures g == h
    {
      assert Outstanding(w, g) && Outstanding(w, h);
      OneOutstanding(w, key, g, h);
    }
    forall g | Holds(w, g)
      ensures LiveAt(w.store, key, w.now) == Some(Entry(w.guards[g].token, w.guards[g].lease))
    {
      assert Outstanding(w, g);
      OutstandingIsLive(w, key, g);
    }
  }

  /** A holder keeps the lock until it gives it up or its lease runs out: no action of anyone
      else, late deletes by earlier owners included, takes it away. */
  lemma HolderKeepsHolding(ws: seq<World>, key: Bytes, actions: seq<Action>, i: nat, g: nat)
    requires IsRun(ws, key, actions) && i < |actions| && Holds(ws[i], g)
    requires actions[i] != GiveUp(g) && Unexpired(ws[i].guards[g], ws[i + 1].now)
    ensures Holds(ws[i + 1], g)
    ensures LiveAt(ws[i + 1].store, key, ws[i + 1].now) == LiveAt(ws[i].store, key, ws[i].now)
  {
    assert ws[i + 1] == After(ws[i], key, actions[i]);
    assert Holds(ws[i + 1], g) && ws[i + 1].guards[g] == ws[i].guards[g];
    MutualExclusion(ws, key, actions, i);
    MutualExclusion(ws, key, actions, i + 1);
  }

  /** An attempt succeeds exactly when no lease is outstanding: a crashed owner blocks others only
      until its lease ends, a late release only until its delete is performed. */
  lemma AcquireSucceedsIff(ws: seq<World>, key: Bytes, actions: seq<Action>, i: nat, token: Bytes, ttl: nat)
    requires IsRun(ws, key, actions) && i < |ws| && token !in ws[i].used
    ensures |After(ws[i], key, Acquire(token, ttl)).guards| > |ws[i].guards| <==> !exists g :: Outstanding(ws[i], g)
  {
    var w := ws[i];
    RunKeepsInv(ws, key, actions, i);
    if g :| Outstanding(w, g) {
      OutstandingIsLive(w, key, g);
    }
  }

  /** A lease lasts from its acquisition for its time to live, zero being forever: from then on an
      unreleased guard holds exactly as long as that. */
  lemma {:induction false} LeaseLasts(ws: seq<World>, key: Bytes, actions: seq<Action>, i: nat, ttl: nat, j: nat)
    requires IsRun(ws, key, actions) && i < j < |ws| && actions[i].Acquire? && actions[i].ttl == ttl
    requires |ws[i + 1].guards| > |ws[i].guards|
    ensures var g := |ws[i].guards|;
      && g < |ws[j].guards| && ws[j].guards[g].token == actions[i].token
      && (!ws[j].guards[g].released ==> (Holds(ws[j], g) <==> ttl == 0 || ws[j].now < ws[i].now + ttl))
  {
    LeaseStays(ws, key, actions, i, j);
  }

  lemma {:induction false} LeaseStays(ws: seq<World>, key: Bytes, actions: seq<Action>, i: nat, j: nat)
    requires IsRun(ws, key, actions) && i < j < |ws| && actions[i].Acquire?
    requires |ws[i + 1].guards| > |ws[i].guards|
    ensures var g, ttl := |ws[i].guards|, actions[i].ttl;
      && g < |ws[j].guards| && ws[j].guards[g].token == actions[i].token
      && ws[j].guards[g].lease == if ttl == 0 then None else Some(ws[i].now + ttl)
    decreases j
  {
    assert Enabled(ws[j - 1], key, actions[j - 1]) && ws[j - 1 + 1] == After(ws[j - 1], key, actions[j - 1]);
    if j > i + 1 {
      LeaseStays(ws, key, actions, i, j - 1);
    }
  }

  // ---------- Operations that do not spare the key ----------

  /** The world after any operation at all on the store. */
  function Interfered(w: World, op: Op): World {
    w.(store := Step(w.store, op, w.now).0)
  }

  ghost predicate TwoHold(w: World) {
    exists g, h :: g < h && Holds(w, g) && Holds(w, h)
  }

  /** The next acquire makes a second holder exactly when some guard holds and nothing is live under
      the key any more. */
  lemma NextAcquireBreaksIff(ws: seq<World>, key: Bytes, actions: seq<Action>, i: nat, op: Op, token: Bytes, ttl: nat)
    requires IsRun(ws, key, actions) && i < |ws| && token !in ws[i].used
    ensures var w' := Interfered(ws[i], op);
      && (TwoHold(After(w', key, Acquire(token, ttl))) <==>
            (exists g :: Holds(ws[i], g)) && LiveAt(w'.store, key, w'.now) == None)
  {
    var w, w' := ws[i], Interfered(ws[i], op);
    var after := After(w', key, Acquire(token, ttl));
    MutualExclusion(ws, key, actions, i);
    if LiveAt(w'.store, key, w'.now) == None {
      assert Holds(after, |w.guards|);
      assert forall g :: 0 <= g < |w.guards| ==> (Holds(after, g) <==> Holds(w, g));
    } else {
      assert forall g :: Holds(after, g) <==> Holds(w, g);
    }
  }

  predicate Outlives(deadline: Option<int>, lease: Option<int>) {
    deadline.Some? ==> lease.Some? && lease.value <= deadline.value
  }

  /** What keeps everyone else out while a guard holds: an entry, of whatever value, that lives as
      long as the lease and that no other guard's delete, owed or still to come, will remove. */
  ghost predicate Protected(w: World, key: Bytes, g: int)
    requires 0 <= g < |w.guards|
  {
    match LiveAt(w.store, key, w.now)
    case None => false
    case Some(e) =>
      && Outlives(e.expiresAt, w.guards[g].lease)
      && e.value !in w.owed
      && forall h :: 0 <= h < |w.guards| && h != g && !w.guards[h].released ==> w.guards[h].token != e.value
  }

  ghost predicate HoldersProtected(w: World, key: Bytes) {
    forall g :: Holds(w, g) ==> Protected(w, key, g)
  }

  ghost predicate Safe(w: World, key: Bytes) {
    TokensAreOwn(w) && OwedIsGivenUp(w) && !TwoHold(w) && HoldersProtected(w, key)
  }

  lemma HeldStays(w: World, key: Bytes, a: Action, g: int)
    requires Enabled(w, key, a) && 0 <= g < |w.guards| && Holds(After(w, key, a), g)
    ensures Holds(w, g) && After(w, key, a).guards[g].lease == w.guards[g].lease
  {
  }

  lemma AcquireKeepsSafe(w: World, key: Bytes, token: Bytes, ttl: nat)
    requires Safe(w, key) && token !in w.used
    ensures Safe(After(w, key, Acquire(token, ttl)), key)
  {
    var w', a := After(w, key, Acquire(token, ttl)), Acquire(token, ttl);
    if LiveAt(w.store, key, w.now).Some? {
      assert w' == w.(used := w'.used);
      assert forall g :: Holds(w', g) <==> Holds(w, g);
      assert forall g :: 0 <= g < |w.guards| ==> (Protected(w', key, g) <==> Protected(w, key, g));
    } else {
      forall g | Holds(w', g) ensures g == |w.guards| {
        if g < |w.guards| {
          HeldStays(w, key, a, g);
        }
      }
    }
  }

  lemma LaterKeepsSafe(w: World, key: Bytes, a: Action)
    requires Safe(w, key) && Enabled(w, key, a) && !a.Acquire?
    ensures Safe(After(w, key, a), key)
  {
    var w' := After(w, key, a);
    assert |w'.guards| == |w.guards|;
    assert forall h :: 0 <= h < |w.guards| ==>
      w'.guards[h].token == w.guards[h].token && (w.guards[h].released ==> w'.guards[h].released);
    forall g | Holds(w', g) ensures Holds(w, g) && Protected(w', key, g) {
      HeldStays(w, key, a, g);
      ProtectedStays(w, key, a, g);
    }
  }

  lemma ProtectedStays(w: World, key: Bytes, a: Action, g: int)
    requires Safe(w, key) && Enabled(w, key, a) && !a.Acquire?
    requires Holds(w, g) && Holds(After(w, key, a), g)
    ensures Protected(After(w, key, a), key, g)
  {
    assert Protected(w, key, g);
  }

  lemma {:induction false} SafeThroughout(ws: seq<World>, key: Bytes, actions: seq<Action>, i: nat)
    requires Follows(ws, key, actions) && Safe(ws[0], key) && i < |ws|
    ensures Safe(ws[i], key)
  {
    if i > 0 {
      SafeThroughout(ws, key, actions, i - 1);
      var w, a := ws[i - 1], actions[i - 1];
      assert Enabled(w, key, a) && ws[i - 1 + 1] == After(w, key, a);
      if a.Acquire? {
        AcquireKeepsSafe(w, key, a.token, a.ttl);
      } else {
        LaterKeepsSafe(w, key, a);
      }
    }
  }

  ghost predicate Breaks(w: World, key: Bytes, ws: seq<World>, actions: seq<Action>) {
    Follows(ws, key, actions) && ws[0] == w && TwoHold(ws[|actions|])
  }

  /** Some way on from here ends with two holders. */
  ghost predicate CanBreak(w: World, key: Bytes) {
    exists ws, actions :: Breaks(w, key, ws, actions)
  }

  lemma BreaksLater(w: World, key: Bytes, a: Action)
    requires Enabled(w, key, a) && CanBreak(After(w, key, a), key)
    ensures CanBreak(w, key)
  {
    var ws, actions :| Breaks(After(w, key, a), key, ws, actions);
    var longer, more := [w] + ws, [a] + actions;
    forall i | 0 <= i < |more|
      ensures Enabled(longer[i], key, more[i]) && longer[i + 1] == After(longer[i], key, more[i])
    {
      if i > 0 {
        assert longer[i] == ws[i - 1] && more[i] == actions[i - 1] && longer[i + 1] == ws[i - 1 + 1];
      }
    }
    assert Breaks(w, key, longer, more);
  }

  lemma BreaksAtOnce(w: World, key: Bytes, g: int, token: Bytes)
    requires Holds(w, g) && LiveAt(w.store, key, w.now) == None && token !in w.used
    ensures CanBreak(w, key)
  {
    var a := Acquire(token, 0);
    var after := After(w, key, a);
    assert Holds(after, g) && Holds(after, |w.guards|);
    assert TwoHold(after);
    assert Breaks(w, key, [w, after], [a]);
  }

  lemma DeleteBreaks(w: World, key: Bytes, g: int, token: Bytes)
    requires TokensAreOwn(w) && OwedIsGivenUp(w) && Holds(w, g) && token !in w.used
    requires LiveAt(w.store, key, w.now).Some? && w.store[key].value in w.owed
    ensures CanBreak(w, key)
  {
    var deliver := Deliver(w.store[key].value);
    BreaksAtOnce(After(w, key, deliver), key, g, token);
    BreaksLater(w, key, deliver);
  }

  lemma UnprotectedBreaks(w: World, key: Bytes, g: int, token: Bytes)
    requires TokensAreOwn(w) && OwedIsGivenUp(w) && token !in w.used
    requires Holds(w, g) && !Protected(w, key, g)
    ensures CanBreak(w, key)
  {
    match LiveAt(w.store, key, w.now)
    case None => BreaksAtOnce(w, key, g, token);
    case Some(e) =>
      if !Outlives(e.expiresAt, w.guards[g].lease) {
        var wait := Wait(e.expiresAt.value);
        BreaksAtOnce(After(w, key, wait), key, g, token);
        BreaksLater(w, key, wait);
      } else if e.value in w.owed {
        DeleteBreaks(w, key, g, token);
      } else {
        var h :| 0 <= h < |w.guards| && h != g && !w.guards[h].released && w.guards[h].token == e.value;
        var giveUp := GiveUp(h);
        DeleteBreaks(After(w, key, giveUp), key, g, token);
        BreaksLater(w, key, giveUp);
      }
  }

  /** Wherever tokens are their owners' own: two clients can come to hold the lock exactly when two
      do already, or some holder is without protection: no live entry, one that dies before the
      lease, or one under a token some other guard is yet to delete. */
  lemma CanBreakIff(w: World, key: Bytes, token: Bytes)
    requires TokensAreOwn(w) && OwedIsGivenUp(w) && token !in w.used
    ensures CanBreak(w, key) <==> TwoHold(w) || !HoldersProtected(w, key)
  {
    hide Protected;
    if TwoHold(w) {
      assert Breaks(w, key, [w], []);
    } else if HoldersProtected(w, key) {
      if CanBreak(w, key) {
        var future, further :| Breaks(w, key, future, further);
        SafeThroughout(future, key, further, |further|);
        assert false;
      }
    } else {
      var g :| Holds(w, g) && !Protected(w, key, g);
      UnprotectedBreaks(w, key, g, token);
    }
  }

  /** The worlds a run passes through in which everyone else's operations may do anything to the key. */
  ghost predicate IsFreeRun(ws: seq<World>, key: Bytes, actions: seq<Action>) {
    && |ws| == |actions| + 1
    && Initial(ws[0], key)
    && forall i :: 0 <= i < |actions| ==> FreelyFollows(ws[i], key, actions[i], ws[i + 1])
  }

  predicate FreelyFollows(w: World, key: Bytes, a: Action, w': World) {
    if a.Other? then w' == Interfered(w, a.op) else Enabled(w, key, a) && w' == After(w, key, a)
  }

  lemma StaysOwn(w: World, key: Bytes, a: Action, w': World)
    requires TokensAreOwn(w) && OwedIsGivenUp(w) && FreelyFollows(w, key, a, w')
    ensures TokensAreOwn(w') && OwedIsGivenUp(w')
  {
  }

  lemma {:induction false} FreeRunOwns(ws: seq<World>, key: Bytes, actions: seq<Action>, i: nat)
    requires IsFreeRun(ws, key, actions) && i < |ws|
    ensures TokensAreOwn(ws[i]) && OwedIsGivenUp(ws[i])
  {
    hide TokensAreOwn, OwedIsGivenUp, FreelyFollows;
    if i == 0 {
      InitialInv(ws[0], key);
    } else {
      FreeRunOwns(ws, key, actions, i - 1);
      assert FreelyFollows(ws[i - 1], key, actions[i - 1], ws[i - 1 + 1]);
      StaysOwn(ws[i - 1], key, actions[i - 1], ws[i]);
    }
  }

  /** So at every moment of every run, whatever has been done to the key, however often. */
  lemma InterferenceBreaksIff(ws: seq<World>, key: Bytes, actions: seq<Action>, i: nat, token: Bytes)
    requires IsFreeRun(ws, key, actions) && i < |ws| && token !in ws[i].used
    ensures CanBreak(ws[i], key) <==> TwoHold(ws[i]) || !HoldersProtected(ws[i], key)
  {
    FreeRunOwns(ws, key, actions, i);
    CanBreakIff(ws[i], key, token);
  }

  /** So after a flush, two clients can come to hold exactly when one holds already. */
  lemma FlushBreaksIff(ws: seq<World>, key: Bytes, actions: seq<Action>, i: nat, token: Bytes)
    requires IsRun(ws, key, actions) && i < |ws| && token !in ws[i].used
    ensures CanBreak(Interfered(ws[i], Flush), key) <==> exists g :: Holds(ws[i], g)
  {
    RunKeepsInv(ws, key, actions, i);
    MutualExclusion(ws, key, actions, i);
    CanBreakIff(Interfered(ws[i], Flush), key, token);
    assert forall g :: Holds(Interfered(ws[i], Flush), g) <==> Holds(ws[i], g);
  }

  /** One run in which it comes to that. */
  lemma FlushBreaksExclusion(key: Bytes, first: Bytes, second: Bytes)
    requires first != second
    ensures var w0 := World(0, map[], [], {}, {});
      var w1 := After(w0, key, Acquire(first, 0));
      var w2 := After(Interfered(w1, Flush), key, Acquire(second, 0));
      Initial(w0, key) && Holds(w2, 0) && Holds(w2, 1)
  {
  }

  // ---------- The lock and its guard ----------

  class LockGuard {
    const store: MemoryStore
    const key: Bytes
    const token: Bytes
    var released: bool

    constructor (store: MemoryStore, key: Bytes, token: Bytes)
      ensures this.store == store && this.key == key && this.token == token && !released
    {
      this.store, this.key, this.token, released := store, key, token, false;
    }

    /** Give the lease up, at most once: only an entry under this guard's own token goes. */
    method Release(now: int)
      modifies this, store
      ensures released
      ensures store.entries == if old(released) then old(store.entries)
                               else Step(old(store.entries), CompareAndDelete(key, token), now).0
    {
      if released {
        return;
      }
      released := true;
      var _ := store.CompareAndDelete(key, token, now);
    }
  }

  class Lock {
    const store: MemoryStore
    const key: Bytes
    const ttl: nat

    constructor (store: MemoryStore, key: Bytes, ttl: nat)
      ensures this.store == store && this.key == key && this.ttl == ttl
    {
      this.store, this.key, this.ttl := store, key, ttl;
    }

    /** One attempt, under a token minted for it. */
    method Get(token: Bytes, now: int) returns (guard: Option<LockGuard>)
      modifies store
      ensures (store.entries, Flag(guard.Some?)) == Step(old(store.entries), PutIfAbsent(key, token, ttl), now)
      ensures guard.Some? ==>
        && fresh(guard.value) && guard.value.store == store && guard.value.key == key
        && guard.value.token == token && !guard.value.released
    {
      var ok := store.PutIfAbsent(key, token, ttl, now);
      if !ok {
        return None;
      }
      var g := new LockGuard(store, key, token);
      return Some(g);
    }

    /** Attempt until acquired or until the wait has passed. Between attempts, `others(i)` is what
        everyone else has made of the store by attempt `i`, `clock(i)` the instant it is tried at
        and `elapsed(i)` the time waited by then; the pause between attempts is 50. */
    method Block(wait: nat, tokens: nat -> Bytes, others: nat -> Entries, clock: nat -> int, elapsed: nat -> nat)
      returns (guard: Option<LockGuard>, attempts: nat)
      requires forall i: nat :: elapsed(i) + 50 <= elapsed(i + 1)
      modifies store
      ensures attempts > 0
      ensures forall i :: 0 <= i < attempts - 1 ==>
        LiveAt(others(i), key, clock(i)).Some? && elapsed(i) < wait
      ensures guard.Some? <==> LiveAt(others(attempts - 1), key, clock(attempts - 1)) == None
      ensures guard.Some? ==>
        && guard.value.token == tokens(attempts - 1) && !guard.value.released
        && LiveAt(store.entries, key, clock(attempts - 1)) == Some(Entry(guard.value.token, Deadline(ttl, clock(attempts - 1))))
      ensures guard == None ==> elapsed(attempts - 1) >= wait
    {
      attempts := 0;
      while true
        invariant forall i :: 0 <= i < attempts ==> LiveAt(others(i), key, clock(i)).Some? && elapsed(i) < wait
        decreases wait - elapsed(attempts)
      {
        store.entries := others(attempts);
        guard := Get(tokens(attempts), clock(attempts));
        attempts := attempts + 1;
        if guard.Some? {
          return;
        }
        if elapsed(attempts - 1) >= wait {
          return;
        }
      }
    }
  }
}
