/** The profiler's process-wide slot: which request a hook's entry is credited to, under every
    interleaving of requests and hooks. */
module ProfilerSlot {
  import opened Text

  datatype Kind = Query | CacheOp | Event

  /** A recorded call, with the request it was made for, if any: the profiler does not look at that,
      and this is about whether it gets it right. */
  datatype Entry = Entry(owner: Option<nat>, content: Bytes)

  datatype Collections = Collections(queries: seq<Entry>, cacheOps: seq<Entry>, events: seq<Entry>) {
    function Of(kind: Kind): seq<Entry> {
      match kind
      case Query => queries
      case CacheOp => cacheOps
      case Event => events
    }

    function With(kind: Kind, entries: seq<Entry>): Collections {
      match kind
      case Query => this.(queries := entries)
      case CacheOp => this.(cacheOps := entries)
      case Event => this.(events := entries)
    }
  }

  lemma KindsAre(c: Collections, kind: Kind, entries: seq<Entry>)
    ensures c.Of(Query) == c.queries && c.Of(CacheOp) == c.cacheOps && c.Of(Event) == c.events
    ensures forall other :: c.With(kind, entries).Of(other) == if other == kind then entries else c.Of(other)
  {
  }

  const NOTHING := Collections([], [], [])

  datatype Profile = Profile(request: nat, entries: Collections)

  function Vacated<T(==)>(slot: Option<T>, same: T): Option<T> {
    if slot == Some(same) then None else slot
  }

  /** The last `capacity` of a sequence. */
  function Newest<T>(capacity: nat, all: seq<T>): seq<T> {
    if |all| <= capacity then all else all[|all| - capacity..]
  }

  /** As many as there are and there is room for, from the end. */
  lemma NewestIs<T>(capacity: nat, all: seq<T>)
    ensures |Newest(capacity, all)| == if |all| < capacity then |all| else capacity
    ensures forall i :: 0 <= i < |Newest(capacity, all)| ==>
      Newest(capacity, all)[i] == all[|all| - |Newest(capacity, all)| + i]
  {
  }

  lemma NewestAppend<T>(capacity: nat, all: seq<T>, x: T)
    requires capacity > 0
    ensures Newest(capacity, all + [x]) == Newest(capacity - 1, Newest(capacity, all)) + [x]
  {
  }

  // ---------- The machine ----------

  /** A request by what it has done since it installed its context: 0 while the inner service runs,
      then one more for each list taken, then 4 once its profile is recorded and 5 once it has
      cleared the slot. A request dropped halfway stays where it is. */
  datatype Request = Request(done: nat, pending: Collections, taken: Collections)

  /** An entry on its way to the context a hook read from the slot. */
  datatype Handle = Handle(target: nat, kind: Kind, entry: Entry)

  /** Requests are numbered as they install their contexts. */
  datatype World = World(slot: Option<nat>, requests: seq<Request>, onTheWay: multiset<Handle>, recorded: seq<Profile>)

  datatype Action =
    | Start
    | Advance(request: nat)
    | Hook(kind: Kind, entry: Entry)
    | Push(handle: Handle)

  function Index(kind: Kind): nat {
    match kind
    case Query => 0
    case CacheOp => 1
    case Event => 2
  }

  function KindAt(done: nat): (kind: Kind)
    requires done < 3
    ensures Index(kind) == done
  {
    if done == 0 then Query else if done == 1 then CacheOp else Event
  }

  predicate Enabled(w: World, a: Action) {
    match a
    case Start => true
    case Advance(c) => c < |w.requests| && w.requests[c].done < 5
    case Hook(_, entry) => entry.owner.Some? ==> entry.owner.value < |w.requests|
    case Push(h) => h in w.onTheWay && h.target < |w.requests|
  }

  /** The next thing a request does: the first three take a list each. */
  function Further(r: Request): Request {
    if r.done < 3 then
      var kind := KindAt(r.done);
      Request(r.done + 1, r.pending.With(kind, []), r.taken.With(kind, r.pending.Of(kind)))
    else r.(done := r.done + 1)
  }

  function Pushed(r: Request, kind: Kind, entry: Entry): Request {
    r.(pending := r.pending.With(kind, r.pending.Of(kind) + [entry]))
  }

  function Step(w: World, a: Action): World
    requires Enabled(w, a)
  {
    match a
    case Start => w.(slot := Some(|w.requests|), requests := w.requests + [Request(0, NOTHING, NOTHING)])
    case Advance(c) =>
      var r := w.requests[c];
      w.(requests := w.requests[c := Further(r)],
         recorded := if r.done == 3 then w.recorded + [Profile(c, r.taken)] else w.recorded,
         slot := if r.done == 4 then Vacated(w.slot, c) else w.slot)
    case Hook(kind, entry) =>
      if w.slot.Some? then w.(onTheWay := w.onTheWay + multiset{Handle(w.slot.value, kind, entry)}) else w
    case Push(h) =>
      w.(onTheWay := w.onTheWay - multiset{h},
         requests := w.requests[h.target := Pushed(w.requests[h.target], h.kind, h.entry)])
  }

  const EMPTY := World(None, [], multiset{}, [])

  /** What a run of actions reaches; one that is not enabled is passed over. */
  function Reached(run: seq<Action>): World {
    if run == [] then EMPTY else Next(Reached(run[..|run| - 1]), run[|run| - 1])
  }

  function Next(w: World, a: Action): World {
    if Enabled(w, a) then Step(w, a) else w
  }

  lemma ReachedSnoc(run: seq<Action>, a: Action)
    ensures Reached(run + [a]) == Next(Reached(run), a)
  {
    assert (run + [a])[..|run|] == run;
  }

  /** What one action does to one request. */
  lemma NextOf(w: World, a: Action, c: nat)
    requires c < |w.requests|
    ensures c < |Next(w, a).requests|
    ensures var r, r' := w.requests[c], Next(w, a).requests[c];
      r' == if !Enabled(w, a) then r
            else if a == Advance(c) then Further(r)
            else if a.Push? && a.handle.target == c then Pushed(r, a.handle.kind, a.handle.entry)
            else r
  {
  }

  /** A request advanced so many times in a row. */
  function Finished(w: World, c: nat, times: nat): World {
    if times == 0 then w else Next(Finished(w, c, times - 1), Advance(c))
  }

  lemma FinishedUnrolls(w: World, c: nat)
    ensures Finished(w, c, 5) == Next(Next(Next(Next(Next(w, Advance(c)), Advance(c)), Advance(c)), Advance(c)), Advance(c))
  {
    hide Next;
    assert Finished(w, c, 0) == w && Finished(w, c, 1) == Next(w, Advance(c));
    assert Finished(w, c, 3) == Next(Next(Finished(w, c, 1), Advance(c)), Advance(c));
    assert Finished(w, c, 5) == Next(Next(Finished(w, c, 3), Advance(c)), Advance(c));
  }

  // ---------- The objects ----------

  class ProfileContext {
    var collected: Collections

    constructor ()
      ensures collected == NOTHING
    {
      collected := NOTHING;
    }

    method Push(kind: Kind, entry: Entry)
      modifies this
      ensures collected == old(collected).With(kind, old(collected).Of(kind) + [entry])
    {
      collected := collected.With(kind, collected.Of(kind) + [entry]);
    }

    /** Take one list and leave it empty. */
    method Take(kind: Kind) returns (entries: seq<Entry>)
      modifies this
      ensures entries == old(collected).Of(kind) && collected == old(collected).With(kind, [])
    {
      entries := collected.Of(kind);
      collected := collected.With(kind, []);
    }
  }

  /** The process-wide slot and ring. `contexts` are all the contexts ever installed and `world` is
      the state of the machine: each method takes the machine one step. */
  class Profiler {
    var current: Option<ProfileContext>
    var profiles: seq<Profile>
    const capacity: nat
    ghost var contexts: seq<ProfileContext>
    ghost var world: World

    ghost predicate Valid()
      reads this, contexts
    {
      && (forall i, j :: 0 <= i < j < |contexts| ==> contexts[i] != contexts[j])
      && |contexts| == |world.requests|
      && (forall i :: 0 <= i < |contexts| ==> contexts[i].collected == world.requests[i].pending)
      && (match world.slot
          case None => current == None
          case Some(c) => c < |contexts| && current == Some(contexts[c]))
      && capacity > 0 && profiles == Newest(capacity, world.recorded)
    }

    constructor (capacity: nat)
      ensures Valid() && world == EMPTY && contexts == []
      ensures this.capacity == if capacity == 0 then 1 else capacity
    {
      this.capacity := if capacity == 0 then 1 else capacity;
      current, profiles, contexts, world := None, [], [], EMPTY;
    }

    /** A request enters: a context of its own goes into the slot. */
    method Enter() returns (context: ProfileContext)
      requires Valid()
      modifies this
      ensures Valid() && world == Step(old(world), Start)
      ensures fresh(context) && contexts == old(contexts) + [context]
    {
      context := new ProfileContext();
      current := Some(context);
      contexts := contexts + [context];
      world := Step(world, Start);
    }

    /** A hook reads the slot. */
    method Current(ghost kind: Kind, ghost entry: Entry) returns (context: Option<ProfileContext>)
      requires Valid() && Enabled(world, Hook(kind, entry))
      modifies this`world
      ensures Valid() && world == Step(old(world), Hook(kind, entry)) && context == current
    {
      context := current;
      world := Step(world, Hook(kind, entry));
    }

    /** A hook pushes to the context it has read. */
    method PushTo(context: ProfileContext, kind: Kind, entry: Entry, ghost c: nat)
      requires Valid() && Enabled(world, Push(Handle(c, kind, entry))) && context == contexts[c]
      modifies this`world, context
      ensures Valid() && world == Step(old(world), Push(Handle(c, kind, entry)))
    {
      context.Push(kind, entry);
      world := Step(world, Push(Handle(c, kind, entry)));
    }

    /** The middleware takes the next list of its context. */
    method TakeFrom(context: ProfileContext, kind: Kind, ghost c: nat) returns (entries: seq<Entry>)
      requires Valid() && c < |world.requests| && world.requests[c].done == Index(kind) && context == contexts[c]
      modifies this`world, context
      ensures Valid() && world == Step(old(world), Advance(c))
      ensures entries == world.requests[c].taken.Of(kind)
    {
      entries := context.Take(kind);
      world := Step(world, Advance(c));
    }

    /** Drop the oldest until there is room for one more. */
    method Evict()
      requires capacity > 0
      modifies this`profiles
      ensures profiles == Newest(capacity - 1, old(profiles))
    {
      while |profiles| >= capacity
        invariant |profiles| <= |old(profiles)| && profiles == old(profiles)[|old(profiles)| - |profiles|..]
        invariant |profiles| >= capacity - 1 || profiles == old(profiles)
      {
        profiles := profiles[1..];
      }
    }

    /** The profile goes into the ring: the oldest make room for it. */
    method Record(c: nat, entries: Collections)
      requires Valid() && c < |world.requests| && world.requests[c].done == 3 && entries == world.requests[c].taken
      modifies this`world, this`profiles
      ensures Valid() && world == Step(old(world), Advance(c))
    {
      NewestAppend(capacity, world.recorded, Profile(c, entries));
      Evict();
      profiles := profiles + [Profile(c, entries)];
      world := Step(world, Advance(c));
    }

    /** The slot is cleared only while it holds this very context. */
    method ClearCurrentIf(same: ProfileContext, ghost c: nat)
      requires Valid() && c < |world.requests| && world.requests[c].done == 4 && same == contexts[c]
      modifies this`world, this`current
      ensures Valid() && world == Step(old(world), Advance(c))
    {
      if current == Some(same) {
        current := None;
      }
      world := Step(world, Advance(c));
    }

    /** What the middleware does once the inner service has answered, when nothing comes in between:
        take the three lists, record the profile, clear the slot. */
    method Finish(context: ProfileContext, c: nat)
      requires Valid() && c < |world.requests| && world.requests[c] == Request(0, world.requests[c].pending, NOTHING)
      requires context == contexts[c]
      modifies this`world, this`profiles, this`current, context
      ensures Valid() && contexts == old(contexts) && world == Finished(old(world), c, 5)
    {
      ghost var w0 := world;
      var queries := TakeFrom(context, Query, c);
      ghost var w1 := world;
      var cacheOps := TakeFrom(context, CacheOp, c);
      ghost var w2 := world;
      var events := TakeFrom(context, Event, c);
      ghost var w3 := world;
      Record(c, Collections(queries, cacheOps, events));
      ghost var w4 := world;
      ClearCurrentIf(context, c);
      assert w1 == Next(w0, Advance(c)) && w2 == Next(w1, Advance(c)) && w3 == Next(w2, Advance(c));
      assert w4 == Next(w3, Advance(c)) && world == Next(w4, Advance(c));
      FinishedUnrolls(w0, c);
    }
  }

  // ---------- The slot ----------

  /** The most recently started request, unless it has cleared the slot. */
  function Latest(requests: seq<Request>): Option<nat> {
    if requests != [] && requests[|requests| - 1].done < 5 then Some(|requests| - 1) else None
  }

  lemma SlotStep(w: World, a: Action)
    requires w.slot == Latest(w.requests)
    ensures Next(w, a).slot == Latest(Next(w, a).requests)
  {
    if w.requests != [] {
      NextOf(w, a, |w.requests| - 1);
    }
  }

  /** At every moment the slot holds the most recently started request, until that request clears
      it; no earlier request's clearing counts. */
  lemma {:induction false} SlotHoldsLatest(run: seq<Action>)
    ensures Reached(run).slot == Latest(Reached(run).requests)
  {
    hide Next, Latest;
    if run == [] {
      assert Latest([]) == None by { EmptyLatest(); }
    } else {
      SlotHoldsLatest(run[..|run| - 1]);
      SlotStep(Reached(run[..|run| - 1]), run[|run| - 1]);
    }
  }

  lemma EmptyLatest()
    ensures Latest([]) == None
  {
  }

  // ---------- The entries ----------

  /** What one action pushes to a request, of one kind. */
  function PushedBy(w: World, a: Action, c: nat, kind: Kind): seq<Entry> {
    if a.Push? && Enabled(w, a) && a.handle.target == c && a.handle.kind == kind then [a.handle.entry] else []
  }

  /** The entries of a kind pushed to a request, in order. */
  function PushedTo(run: seq<Action>, c: nat, kind: Kind): seq<Entry> {
    if run == [] then []
    else
      var front := run[..|run| - 1];
      PushedTo(front, c, kind) + PushedBy(Reached(front), run[|run| - 1], c, kind)
  }

  function ProfilesOf(recorded: seq<Profile>, c: nat): seq<Collections> {
    if recorded == [] then []
    else
      ProfilesOf(recorded[..|recorded| - 1], c)
      + if recorded[|recorded| - 1].request == c then [recorded[|recorded| - 1].entries] else []
  }

  lemma ProfilesOfSnoc(recorded: seq<Profile>, p: Profile, c: nat)
    ensures ProfilesOf(recorded + [p], c) == ProfilesOf(recorded, c) + if p.request == c then [p.entries] else []
  {
    assert (recorded + [p])[..|recorded|] == recorded;
  }

  /** The profile of a request, once it is recorded. */
  function OwnProfile(requests: seq<Request>, c: nat): seq<Collections> {
    if c < |requests| && requests[c].done >= 4 then [requests[c].taken] else []
  }

  lemma RecordedStep(w: World, a: Action, c: nat)
    requires ProfilesOf(w.recorded, c) == OwnProfile(w.requests, c)
    ensures ProfilesOf(Next(w, a).recorded, c) == OwnProfile(Next(w, a).requests, c)
  {
    hide ProfilesOf;
    if c < |w.requests| {
      NextOf(w, a, c);
    }
    if Enabled(w, a) && a.Advance? && w.requests[a.request].done == 3 {
      ProfilesOfSnoc(w.recorded, Profile(a.request, w.requests[a.request].taken), c);
    }
  }

  /** A request is recorded once or not at all, with the lists it took. */
  lemma {:induction false} RecordedOnce(run: seq<Action>, c: nat)
    ensures ProfilesOf(Reached(run).recorded, c) == OwnProfile(Reached(run).requests, c)
  {
    hide Next;
    if run != [] {
      RecordedOnce(run[..|run| - 1], c);
      RecordedStep(Reached(run[..|run| - 1]), run[|run| - 1], c);
    }
  }

  /** The entries of a kind a request has had, and nothing taken before its turn. */
  ghost predicate Has(w: World, c: nat, kind: Kind, entries: seq<Entry>) {
    if c < |w.requests| then
      && w.requests[c].taken.Of(kind) + w.requests[c].pending.Of(kind) == entries
      && (w.requests[c].done <= Index(kind) ==> w.requests[c].taken.Of(kind) == [])
    else
      entries == []
  }

  lemma FurtherMoves(r: Request, kind: Kind)
    requires r.done <= Index(kind) ==> r.taken.Of(kind) == []
    ensures Further(r).taken.Of(kind) + Further(r).pending.Of(kind) == r.taken.Of(kind) + r.pending.Of(kind)
    ensures Further(r).done <= Index(kind) ==> Further(r).taken.Of(kind) == []
  {
  }

  lemma PushedAppends(r: Request, pushed: Kind, entry: Entry, kind: Kind)
    ensures Pushed(r, pushed, entry).taken == r.taken && Pushed(r, pushed, entry).done == r.done
    ensures Pushed(r, pushed, entry).pending.Of(kind) == r.pending.Of(kind) + if pushed == kind then [entry] else []
  {
  }

  lemma EntriesStep(w: World, a: Action, c: nat, kind: Kind, entries: seq<Entry>)
    requires Has(w, c, kind, entries)
    ensures Has(Next(w, a), c, kind, entries + PushedBy(w, a, c, kind))
  {
    if c < |w.requests| {
      hide Next, Step, Further, Pushed, Collections.Of;
      NextOf(w, a, c);
      FurtherMoves(w.requests[c], kind);
      if a.Push? {
        PushedAppends(w.requests[c], a.handle.kind, a.handle.entry, kind);
      }
      Reassociate(w.requests[c].taken.Of(kind), w.requests[c].pending.Of(kind), PushedBy(w, a, c, kind));
    }
  }

  /** Nothing pushed is lost, repeated or moved to another request: what was taken, followed by what
      is still collected, is what was pushed, in order. */
  lemma {:induction false} EntriesConserved(run: seq<Action>, c: nat, kind: Kind)
    ensures Has(Reached(run), c, kind, PushedTo(run, c, kind))
  {
    hide Next, PushedBy;
    if run != [] {
      var front := run[..|run| - 1];
      EntriesConserved(front, c, kind);
      EntriesStep(Reached(front), run[|run| - 1], c, kind, PushedTo(front, c, kind));
    }
  }

  /** The request has taken a list and found these entries in it. */
  ghost predicate Decided(w: World, c: nat, kind: Kind, entries: seq<Entry>) {
    c < |w.requests| && w.requests[c].done > Index(kind) && w.requests[c].taken.Of(kind) == entries
  }

  lemma DecidedStep(w: World, a: Action, c: nat, kind: Kind, entries: seq<Entry>)
    requires Decided(w, c, kind, entries)
    ensures Decided(Next(w, a), c, kind, entries)
  {
    hide Next;
    NextOf(w, a, c);
  }

  lemma TakeStep(w: World, c: nat, kind: Kind, entries: seq<Entry>)
    requires c < |w.requests| && w.requests[c].done == Index(kind) && Has(w, c, kind, entries)
    ensures Decided(Next(w, Advance(c)), c, kind, entries)
  {
    hide Next;
    NextOf(w, Advance(c), c);
  }

  /** What has been pushed to the request once it has taken these entries, and what has become of it. */
  ghost predicate Settled(run: seq<Action>, c: nat, kind: Kind, entries: seq<Entry>) {
    var w := Reached(run);
    && Decided(w, c, kind, entries)
    && PushedTo(run, c, kind) == entries + w.requests[c].pending.Of(kind)
    && forall profile :: profile in ProfilesOf(w.recorded, c) ==> profile.Of(kind) == entries
  }

  lemma DecidedIsSettled(run: seq<Action>, c: nat, kind: Kind, entries: seq<Entry>)
    requires Decided(Reached(run), c, kind, entries)
    ensures Settled(run, c, kind, entries)
  {
    hide Reached, PushedTo, ProfilesOf;
    EntriesConserved(run, c, kind);
    RecordedOnce(run, c);
  }

  /** The moment a list is taken decides it: whatever happens later, the request's profile holds the
      entries pushed before, and those pushed after stay in the context and are in no profile. */
  lemma {:induction false} TakingDecides(before: seq<Action>, c: nat, kind: Kind, later: seq<Action>)
    requires c < |Reached(before).requests| && Reached(before).requests[c].done == Index(kind)
    ensures Settled(before + [Advance(c)] + later, c, kind, PushedTo(before, c, kind))
    decreases |later|
  {
    hide Next, Decided, Has, PushedTo, Reached;
    var taking := before + [Advance(c)];
    if later == [] {
      ReachedSnoc(before, Advance(c));
      EntriesConserved(before, c, kind);
      TakeStep(Reached(before), c, kind, PushedTo(before, c, kind));
      assert taking + later == taking;
    } else {
      var front, a := later[..|later| - 1], later[|later| - 1];
      TakingDecides(before, c, kind, front);
      assert taking + later == (taking + front) + [a];
      ReachedSnoc(taking + front, a);
      DecidedStep(Reached(taking + front), a, c, kind, PushedTo(before, c, kind));
    }
    DecidedIsSettled(taking + later, c, kind, PushedTo(before, c, kind));
  }

  // ---------- Whose work a profile holds ----------

  /** What one action's hook was given while the slot held the request. */
  function CreditedIn(w: World, a: Action, c: nat, kind: Kind): multiset<Entry> {
    if a.Hook? && Enabled(w, a) && w.slot == Some(c) && a.kind == kind then multiset{a.entry} else multiset{}
  }

  /** The entries of a kind that hooks were given while the slot held the request. */
  function CreditedTo(run: seq<Action>, c: nat, kind: Kind): multiset<Entry> {
    if run == [] then multiset{}
    else
      var front := run[..|run| - 1];
      CreditedTo(front, c, kind) + CreditedIn(Reached(front), run[|run| - 1], c, kind)
  }

  /** What one action's hook was given by work done for the request. */
  function HookedIn(w: World, a: Action, c: nat, kind: Kind): multiset<Entry> {
    if a.Hook? && Enabled(w, a) && a.entry.owner == Some(c) && a.kind == kind then multiset{a.entry} else multiset{}
  }

  /** The entries of a kind that work done for the request gave its hooks. */
  function HookedBy(run: seq<Action>, c: nat, kind: Kind): multiset<Entry> {
    if run == [] then multiset{}
    else
      var front := run[..|run| - 1];
      HookedBy(front, c, kind) + HookedIn(Reached(front), run[|run| - 1], c, kind)
  }

  lemma LogsSnoc(run: seq<Action>, a: Action, c: nat, kind: Kind)
    ensures PushedTo(run + [a], c, kind) == PushedTo(run, c, kind) + PushedBy(Reached(run), a, c, kind)
    ensures HookedBy(run + [a], c, kind) == HookedBy(run, c, kind) + HookedIn(Reached(run), a, c, kind)
  {
    assert (run + [a])[..|run|] == run;
  }

  /** Of an entry, as many were credited as have been pushed or are on their way. */
  ghost predicate Accounts(w: World, h: Handle, credited: multiset<Entry>, pushed: seq<Entry>) {
    credited[h.entry] == multiset(pushed)[h.entry] + w.onTheWay[h]
  }

  lemma AccountsStep(w: World, a: Action, h: Handle, credited: multiset<Entry>, pushed: seq<Entry>)
    requires Accounts(w, h, credited, pushed)
    ensures Accounts(Next(w, a), h, credited + CreditedIn(w, a, h.target, h.kind), pushed + PushedBy(w, a, h.target, h.kind))
  {
    hide Next, CreditedIn, PushedBy;
    OnTheWayStep(w, a, h);
  }

  lemma OnTheWayStep(w: World, a: Action, h: Handle)
    ensures Next(w, a).onTheWay[h] + multiset(PushedBy(w, a, h.target, h.kind))[h.entry]
         == w.onTheWay[h] + CreditedIn(w, a, h.target, h.kind)[h.entry]
  {
    hide Step;
    if Enabled(w, a) {
      OnTheWayIs(w, a);
    }
  }

  /** Hooks put entries on their way, pushes take them off it. */
  lemma OnTheWayIs(w: World, a: Action)
    requires Enabled(w, a)
    ensures Step(w, a).onTheWay == match a
      case Hook(kind, entry) =>
        if w.slot.Some? then w.onTheWay + multiset{Handle(w.slot.value, kind, entry)} else w.onTheWay
      case Push(h) => w.onTheWay - multiset{h}
      case _ => w.onTheWay
  {
    hide Further, Pushed;
  }

  lemma {:induction false} EveryHookAccounted(run: seq<Action>, h: Handle)
    ensures Accounts(Reached(run), h, CreditedTo(run, h.target, h.kind), PushedTo(run, h.target, h.kind))
  {
    hide Next, CreditedIn, PushedBy;
    if run != [] {
      var front := run[..|run| - 1];
      EveryHookAccounted(front, h);
      AccountsStep(Reached(front), run[|run| - 1], h,
        CreditedTo(front, h.target, h.kind), PushedTo(front, h.target, h.kind));
    }
  }

  /** In every run, what a request took is what hooks were given while the slot held it, but for what
      was still on its way at the taking. */
  lemma {:induction false} TakenIsCredited(before: seq<Action>, c: nat, kind: Kind, later: seq<Action>, e: Entry)
    requires c < |Reached(before).requests| && Reached(before).requests[c].done == Index(kind)
    ensures var run := before + [Advance(c)] + later;
      && c < |Reached(run).requests|
      && multiset(Reached(run).requests[c].taken.Of(kind))[e] + Reached(before).onTheWay[Handle(c, kind, e)]
         == CreditedTo(before, c, kind)[e]
  {
    hide Reached, PushedTo, CreditedTo, ProfilesOf;
    TakingDecides(before, c, kind, later);
    EveryHookAccounted(before, Handle(c, kind, e));
  }

  /** Every hook called for the request's work found the request in the slot. */
  ghost predicate AllFound(run: seq<Action>, c: nat, kind: Kind) {
    run == []
    || (&& AllFound(run[..|run| - 1], c, kind)
        && HookedIn(Reached(run[..|run| - 1]), run[|run| - 1], c, kind)
           <= CreditedIn(Reached(run[..|run| - 1]), run[|run| - 1], c, kind))
  }

  lemma {:induction false} OwnAtMostHooked(run: seq<Action>, c: nat, kind: Kind, e: Entry)
    ensures e.owner == Some(c) ==> CreditedTo(run, c, kind)[e] <= HookedBy(run, c, kind)[e]
    ensures e.owner != Some(c) ==> HookedBy(run, c, kind)[e] == 0
  {
    hide Next, Reached;
    if run != [] {
      OwnAtMostHooked(run[..|run| - 1], c, kind, e);
    }
  }

  lemma {:induction false} FoundIsCredited(run: seq<Action>, c: nat, kind: Kind, e: Entry)
    requires AllFound(run, c, kind) && e.owner == Some(c)
    ensures CreditedTo(run, c, kind)[e] == HookedBy(run, c, kind)[e]
  {
    hide Next, Reached;
    if run != [] {
      FoundIsCredited(run[..|run| - 1], c, kind, e);
    }
  }

  lemma {:induction false} MissedIsNotCredited(run: seq<Action>, c: nat, kind: Kind) returns (e: Entry)
    requires !AllFound(run, c, kind)
    ensures e.owner == Some(c) && CreditedTo(run, c, kind)[e] < HookedBy(run, c, kind)[e]
  {
    hide Next, Reached;
    var front, a := run[..|run| - 1], run[|run| - 1];
    if AllFound(front, c, kind) {
      e := a.entry;
      OwnAtMostHooked(front, c, kind, e);
    } else {
      e := MissedIsNotCredited(front, c, kind);
    }
  }

  predicate IsHookOf(a: Action, c: nat, kind: Kind) {
    a.Hook? && a.kind == kind && a.entry.owner == Some(c)
  }

  lemma {:induction false} RequestsStay(run: seq<Action>, more: seq<Action>)
    ensures |Reached(run).requests| <= |Reached(run + more).requests|
    decreases |more|
  {
    hide Next, Reached;
    if more == [] {
      assert run + more == run;
    } else {
      var front, a := more[..|more| - 1], more[|more| - 1];
      RequestsStay(run, front);
      assert run + more == (run + front) + [a];
      ReachedSnoc(run + front, a);
      NoneLeaves(Reached(run + front), a);
    }
  }

  lemma NoneLeaves(w: World, a: Action)
    ensures |w.requests| <= |Next(w, a).requests|
  {
  }

  lemma {:induction false} HookedLater(run: seq<Action>, more: seq<Action>, c: nat, kind: Kind, e: Entry)
    requires c < |Reached(run).requests|
    ensures HookedBy(run + more, c, kind)[e] >= HookedBy(run, c, kind)[e]
    ensures (exists i :: 0 <= i < |more| && IsHookOf(more[i], c, kind) && more[i].entry == e)
       <==> HookedBy(run + more, c, kind)[e] > HookedBy(run, c, kind)[e]
    decreases |more|
  {
    hide Next, Reached, HookedBy;
    if more == [] {
      assert run + more == run;
    } else {
      var front, a := more[..|more| - 1], more[|more| - 1];
      HookedLater(run, front, c, kind, e);
      RequestsStay(run, front);
      assert run + more == (run + front) + [a];
      LogsSnoc(run + front, a, c, kind);
      HooksSnoc(front, a, c, kind, e);
      assert more == front + [a];
    }
  }

  lemma HooksSnoc(front: seq<Action>, a: Action, c: nat, kind: Kind, e: Entry)
    ensures (exists i :: 0 <= i < |front + [a]| && IsHookOf((front + [a])[i], c, kind) && (front + [a])[i].entry == e)
       <==> (exists i :: 0 <= i < |front| && IsHookOf(front[i], c, kind) && front[i].entry == e)
            || (IsHookOf(a, c, kind) && a.entry == e)
  {
    var more := front + [a];
    assert more[|front|] == a;
    assert forall i :: 0 <= i < |front| ==> more[i] == front[i];
  }

  /** A profile can be trusted with a list: nothing foreign was pushed before it was taken, every hook
      called for the request's work found it in the slot, none of these entries was still on its way,
      and none came later. */
  ghost predicate OwnAndInTime(before: seq<Action>, c: nat, kind: Kind, later: seq<Action>) {
    && (forall e :: e in PushedTo(before, c, kind) ==> e.owner == Some(c))
    && AllFound(before, c, kind)
    && (forall e :: Handle(c, kind, e) in Reached(before).onTheWay ==> e.owner != Some(c))
    && (forall i :: 0 <= i < |later| ==> !IsHookOf(later[i], c, kind))
  }

  /** In every run, a request's profile holds exactly its own work if and only if that is so. */
  lemma {:induction false} OwnWorkIff(before: seq<Action>, c: nat, kind: Kind, later: seq<Action>)
    requires c < |Reached(before).requests| && Reached(before).requests[c].done == Index(kind)
    ensures var run := before + [Advance(c)] + later;
      && c < |Reached(run).requests|
      && (multiset(Reached(run).requests[c].taken.Of(kind)) == HookedBy(run, c, kind)
          <==> OwnAndInTime(before, c, kind, later))
  {
    hide Reached, PushedTo, HookedBy, CreditedTo, AllFound, ProfilesOf;
    var run := before + [Advance(c)] + later;
    TakingDecides(before, c, kind, later);
    var taken := multiset(PushedTo(before, c, kind));
    if OwnAndInTime(before, c, kind, later) {
      forall e ensures taken[e] == HookedBy(run, c, kind)[e] {
        OwnCounts(before, c, kind, later, e);
        if e.owner == Some(c) {
          FoundIsCredited(before, c, kind, e);
          HookedAfter(before, c, kind, later, e);
        } else {
          OwnAtMostHooked(run, c, kind, e);
          assert e !in PushedTo(before, c, kind);
        }
      }
    }
    if taken == HookedBy(run, c, kind) {
      forall e: Entry | e.owner == Some(c)
        ensures Handle(c, kind, e) !in Reached(before).onTheWay
        ensures CreditedTo(before, c, kind)[e] == HookedBy(before, c, kind)[e] == HookedBy(run, c, kind)[e]
      {
        OwnCounts(before, c, kind, later, e);
      }
      forall e | e in PushedTo(before, c, kind) ensures e.owner == Some(c) {
        OwnAtMostHooked(run, c, kind, e);
        assert taken[e] > 0;
      }
      if !AllFound(before, c, kind) {
        var e := MissedIsNotCredited(before, c, kind);
        assert false;
      }
      forall i | 0 <= i < |later| ensures !IsHookOf(later[i], c, kind) {
        if IsHookOf(later[i], c, kind) {
          HookedAfter(before, c, kind, later, later[i].entry);
        }
      }
    }
  }

  lemma HookedAfter(before: seq<Action>, c: nat, kind: Kind, later: seq<Action>, e: Entry)
    requires c < |Reached(before).requests|
    ensures HookedBy(before + [Advance(c)] + later, c, kind)[e] >= HookedBy(before, c, kind)[e]
    ensures (exists i :: 0 <= i < |later| && IsHookOf(later[i], c, kind) && later[i].entry == e)
       <==> HookedBy(before + [Advance(c)] + later, c, kind)[e] > HookedBy(before, c, kind)[e]
  {
    hide Reached, HookedBy;
    var taking := before + [Advance(c)];
    LogsSnoc(before, Advance(c), c, kind);
    RequestsStay(before, [Advance(c)]);
    HookedLater(taking, later, c, kind, e);
  }

  /** Of one entry of the request's own: pushed, on the way, credited, hooked. */
  lemma OwnCounts(before: seq<Action>, c: nat, kind: Kind, later: seq<Action>, e: Entry)
    requires c < |Reached(before).requests| && Reached(before).requests[c].done == Index(kind)
    ensures multiset(PushedTo(before, c, kind))[e] + Reached(before).onTheWay[Handle(c, kind, e)] == CreditedTo(before, c, kind)[e]
    ensures e.owner == Some(c) ==>
      CreditedTo(before, c, kind)[e] <= HookedBy(before, c, kind)[e] <= HookedBy(before + [Advance(c)] + later, c, kind)[e]
  {
    hide Reached, HookedBy, PushedTo, CreditedTo;
    EveryHookAccounted(before, Handle(c, kind, e));
    OwnAtMostHooked(before, c, kind, e);
    HookedAfter(before, c, kind, later, e);
  }

  // ---------- One request at a time ----------

  predicate AllCleared(w: World) {
    forall c :: 0 <= c < |w.requests| ==> w.requests[c].done == 5
  }

  /** A request starts when the one before has cleared the slot, does its work while the inner
      service runs, and has no hook under way when it begins to collect. */
  predicate Orderly(w: World, a: Action) {
    match a
    case Start => AllCleared(w)
    case Advance(c) => c < |w.requests| && w.requests[c].done == 0 ==> w.onTheWay == multiset{}
    case Hook(_, Entry(Some(c), _)) => c < |w.requests| && w.requests[c].done == 0
    case Hook(_, Entry(None, _)) => AllCleared(w)
    case Push(_) => true
  }

  ghost predicate OneAtATime(run: seq<Action>) {
    run == [] || (OneAtATime(run[..|run| - 1]) && Orderly(Reached(run[..|run| - 1]), run[|run| - 1]))
  }

  /** All but the latest request are over, and hooks are under way for its work only. */
  ghost predicate OnlyLatestWorks(w: World) {
    && (forall c :: 0 <= c < |w.requests| - 1 ==> w.requests[c].done == 5)
    && (forall h :: h in w.onTheWay ==> h.target == |w.requests| - 1 && w.requests[h.target].done == 0)
    && (forall c, kind :: 0 <= c < |w.requests| && w.requests[c].done > Index(kind) ==> w.requests[c].pending.Of(kind) == [])
  }

  lemma StaysEmpty(w: World, a: Action, c: nat, kind: Kind)
    requires OnlyLatestWorks(w) && c < |w.requests| && Next(w, a).requests[c].done > Index(kind)
    ensures Next(w, a).requests[c].pending.Of(kind) == []
  {
    hide Next;
    NextOf(w, a, c);
  }

  lemma StaysOver(w: World, a: Action, c: nat)
    requires OnlyLatestWorks(w) && Orderly(w, a) && c < |Next(w, a).requests| - 1
    ensures Next(w, a).requests[c].done == 5
  {
    if c < |w.requests| {
      NextOf(w, a, c);
    }
  }

  lemma OnTheWayToLatest(w: World, a: Action, h: Handle)
    requires OnlyLatestWorks(w) && w.slot == Latest(w.requests) && Orderly(w, a) && h in Next(w, a).onTheWay
    ensures h.target == |Next(w, a).requests| - 1 && Next(w, a).requests[h.target].done == 0
  {
    if Enabled(w, a) {
      match a {
        case Start =>
        case Advance(_) =>
          NextOf(w, a, h.target);
        case Hook(_, _) =>
        case Push(pushed) =>
          assert h in w.onTheWay;
          NextOf(w, a, h.target);
      }
    }
  }

  lemma OrderlyStep(w: World, a: Action)
    requires OnlyLatestWorks(w) && w.slot == Latest(w.requests) && Orderly(w, a)
    ensures OnlyLatestWorks(Next(w, a))
  {
    var w' := Next(w, a);
    forall c | 0 <= c < |w'.requests| - 1 ensures w'.requests[c].done == 5 {
      StaysOver(w, a, c);
    }
    forall h | h in w'.onTheWay ensures h.target == |w'.requests| - 1 && w'.requests[h.target].done == 0 {
      OnTheWayToLatest(w, a, h);
    }
    forall c, kind | 0 <= c < |w'.requests| && w'.requests[c].done > Index(kind)
      ensures w'.requests[c].pending.Of(kind) == []
    {
      if c < |w.requests| {
        StaysEmpty(w, a, c, kind);
      }
    }
  }

  lemma {:induction false} OnlyTheLatestWorks(run: seq<Action>)
    requires OneAtATime(run)
    ensures OnlyLatestWorks(Reached(run))
  {
    if run != [] {
      hide Next, OnlyLatestWorks, Orderly, Latest;
      var front := run[..|run| - 1];
      OnlyTheLatestWorks(front);
      SlotHoldsLatest(front);
      OrderlyStep(Reached(front), run[|run| - 1]);
    }
  }

  /** An orderly hook is credited to the request it was called for. */
  lemma HookFindsOwner(w: World, a: Action, c: nat, kind: Kind)
    requires w.slot == Latest(w.requests) && OnlyLatestWorks(w) && Orderly(w, a)
    ensures HookedIn(w, a, c, kind) == CreditedIn(w, a, c, kind)
  {
  }

  lemma {:induction false} HookedIsCredited(run: seq<Action>, c: nat, kind: Kind)
    requires OneAtATime(run)
    ensures HookedBy(run, c, kind) == CreditedTo(run, c, kind)
  {
    hide Reached, Orderly, OnlyLatestWorks, Latest, HookedIn, CreditedIn;
    if run != [] {
      var front := run[..|run| - 1];
      HookedIsCredited(front, c, kind);
      OnlyTheLatestWorks(front);
      SlotHoldsLatest(front);
      HookFindsOwner(Reached(front), run[|run| - 1], c, kind);
    }
  }

  lemma AllTaken(w: World, c: nat, kind: Kind, pushed: seq<Entry>)
    requires OnlyLatestWorks(w) && Has(w, c, kind, pushed) && c < |w.requests| && w.requests[c].done >= 4
    ensures w.requests[c].taken.Of(kind) == pushed
  {
    var taken, left := w.requests[c].taken.Of(kind), w.requests[c].pending.Of(kind);
    assert left == [] && taken + left == taken;
  }

  /** Served one at a time, every request's profile holds exactly what its own work did. */
  lemma ProfileIsOwnWork(run: seq<Action>, c: nat, kind: Kind)
    requires OneAtATime(run)
    requires c < |Reached(run).requests| && Reached(run).requests[c].done >= 4
    ensures exists profile ::
      && ProfilesOf(Reached(run).recorded, c) == [profile]
      && multiset(profile.Of(kind)) == HookedBy(run, c, kind)
  {
    hide Next, Reached, HookedBy, CreditedTo, PushedTo, ProfilesOf;
    var w := Reached(run);
    var profile := w.requests[c].taken;
    RecordedOnce(run, c);
    OnlyTheLatestWorks(run);
    EntriesConserved(run, c, kind);
    HookedIsCredited(run, c, kind);
    AllTaken(w, c, kind, PushedTo(run, c, kind));
    forall e: Entry ensures multiset(profile.Of(kind))[e] == HookedBy(run, c, kind)[e] {
      EveryHookAccounted(run, Handle(c, kind, e));
      assert Handle(c, kind, e) !in w.onTheWay;
    }
  }

  lemma {:induction false} AdvancedBy(run: seq<Action>, c: nat, times: nat)
    requires c < |Reached(run).requests| && Reached(run).requests[c].done + times <= 5
    ensures var w := Reached(run + Advances(c, times));
      c < |w.requests| && w.requests[c].done == Reached(run).requests[c].done + times
  {
    hide Reached, Next;
    if times == 0 {
      assert run + [] == run;
    } else {
      AdvancedBy(run, c, times - 1);
      assert run + Advances(c, times) == (run + Advances(c, times - 1)) + [Advance(c)];
      ReachedSnoc(run + Advances(c, times - 1), Advance(c));
      NextOf(Reached(run + Advances(c, times - 1)), Advance(c), c);
    }
  }

  function Advances(c: nat, times: nat): seq<Action> {
    if times == 0 then [] else Advances(c, times - 1) + [Advance(c)]
  }

  /** Served together, they need not: a query of the earlier request ends up in the later one's
      profile. */
  lemma OverlapMisattributes(content: Bytes)
    ensures var e := Entry(Some(0), content);
      var run := [Start, Start, Hook(Query, e), Push(Handle(1, Query, e))] + Advances(1, 5);
      && HookedBy(run, 0, Query) == multiset{e}
      && exists profile :: ProfilesOf(Reached(run).recorded, 1) == [profile] && profile.Of(Query) == [e]
  {
    var e := Entry(Some(0), content);
    var before := [Start] + [Start] + [Hook(Query, e)] + [Push(Handle(1, Query, e))];
    assert before == [Start, Start, Hook(Query, e), Push(Handle(1, Query, e))];
    OverlapPushes(e);
    hide Reached, PushedTo, HookedBy, ProfilesOf, Advances;
    HookedInOrder(before, 1, 5, 0);
    ServedProfile(before, 1, [e]);
  }

  /** The profile of a request that goes on to the end at once. */
  lemma ServedProfile(before: seq<Action>, c: nat, entries: seq<Entry>)
    requires c < |Reached(before).requests| && Reached(before).requests[c].done == 0
    requires PushedTo(before, c, Query) == entries
    ensures exists profile ::
      && ProfilesOf(Reached(before + Advances(c, 5)).recorded, c) == [profile]
      && profile.Of(Query) == entries
  {
    hide Reached, PushedTo, ProfilesOf, Advances;
    var later := [Advance(c), Advance(c), Advance(c), Advance(c)];
    FiveAdvances(c);
    var run := before + Advances(c, 5);
    assert run == before + [Advance(c)] + later;
    AdvancedBy(before, c, 5);
    TakingDecides(before, c, Query, later);
    RecordedOnce(run, c);
    assert OwnProfile(Reached(run).requests, c) == [Reached(run).requests[c].taken];
  }

  lemma FiveAdvances(c: nat)
    ensures Advances(c, 5) == [Advance(c), Advance(c), Advance(c), Advance(c), Advance(c)]
  {
    assert Advances(c, 0) == [] && Advances(c, 1) == [Advance(c)];
    assert Advances(c, 3) == [Advance(c), Advance(c), Advance(c)];
  }

  lemma {:induction false} HookedInOrder(run: seq<Action>, c: nat, times: nat, owner: nat)
    ensures HookedBy(run + Advances(c, times), owner, Query) == HookedBy(run, owner, Query)
  {
    hide HookedBy, Reached, Enabled;
    if times == 0 {
      assert run + [] == run;
    } else {
      HookedInOrder(run, c, times - 1, owner);
      assert run + Advances(c, times) == (run + Advances(c, times - 1)) + [Advance(c)];
      LogsSnoc(run + Advances(c, times - 1), Advance(c), owner, Query);
    }
  }

  lemma OverlapPushes(e: Entry)
    requires e.owner == Some(0)
    ensures var before := [Start] + [Start] + [Hook(Query, e)] + [Push(Handle(1, Query, e))];
      && HookedBy(before, 0, Query) == multiset{e} && PushedTo(before, 1, Query) == [e]
      && |Reached(before).requests| == 2 && Reached(before).requests[1].done == 0
  {
    var hook, push := Hook(Query, e), Push(Handle(1, Query, e));
    var begun := [Start] + [Start];
    OverlapReaches(e);
    NothingYet(0);
    NothingYet(1);
    hide Reached, PushedTo, HookedBy, Step, NOTHING, PushedBy, HookedIn, Enabled;
    LogsSnoc(begun, hook, 0, Query);
    LogsSnoc(begun, hook, 1, Query);
    LogsSnoc(begun + [hook], push, 0, Query);
    LogsSnoc(begun + [hook], push, 1, Query);
  }

  lemma NothingYet(c: nat)
    ensures PushedTo([Start] + [Start], c, Query) == [] && HookedBy([Start] + [Start], c, Query) == multiset{}
  {
    hide Reached;
    assert [] + [Start] == [Start];
    LogsSnoc([], Start, c, Query);
    LogsSnoc([Start], Start, c, Query);
  }

  /** What the hook and its push come to, once both requests have started. */
  lemma OverlapReaches(e: Entry)
    requires e.owner == Some(0)
    ensures var begun, hook, push := [Start] + [Start], Hook(Query, e), Push(Handle(1, Query, e));
      var before, after := Reached(begun), Reached(begun + [hook]);
      && HookedIn(before, hook, 0, Query) == multiset{e} && HookedIn(after, push, 0, Query) == multiset{}
      && PushedBy(before, hook, 1, Query) == [] && PushedBy(after, push, 1, Query) == [e]
      && |Reached(begun + [hook] + [push]).requests| == 2 && Reached(begun + [hook] + [push]).requests[1].done == 0
  {
    hide NOTHING;
    ReachedSnoc([], Start);
    ReachedSnoc([Start], Start);
    ReachedSnoc([Start] + [Start], Hook(Query, e));
    ReachedSnoc([Start] + [Start] + [Hook(Query, e)], Push(Handle(1, Query, e)));
    var r := Request(0, NOTHING, NOTHING);
    assert Reached([Start] + [Start]) == World(Some(1), [r, r], multiset{}, []);
  }
}
