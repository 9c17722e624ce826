/** The authentication log: an append-only table, logout accounting, and the new-device notice. */
module AuthLog {
  import opened Text

  datatype Kind = LoginSucceeded | LoginFailed | Lockout | Logout

  predicate IsSuccessful(kind: Kind) {
    kind.LoginSucceeded? || kind.Logout?
  }

  datatype Event = Event(kind: Kind, userId: Option<Bytes>, email: Option<Bytes>, guardName: Option<Bytes>,
                         ipAddress: Option<Bytes>, userAgent: Option<Bytes>)

  datatype Row = Row(id: int, userId: Option<Bytes>, email: Option<Bytes>, guardName: Option<Bytes>, kind: Kind,
                     ipAddress: Option<Bytes>, userAgent: Option<Bytes>, successful: bool,
                     loginAt: Option<int>, logoutAt: Option<int>, createdAt: int, updatedAt: int)

  type Table = seq<Row>

  /** The row of a login, a failed login or a lockout. */
  function EventRow(e: Event, id: int, now: int): Row {
    Row(id, e.userId, e.email, e.guardName, e.kind, e.ipAddress, e.userAgent, IsSuccessful(e.kind),
        Some(now), None, now, now)
  }

  /** The row of a logout that found nothing to close. */
  function LogoutRow(e: Event, id: int, now: int): Row {
    Row(id, e.userId, e.email, e.guardName, e.kind, e.ipAddress, e.userAgent, true,
        None, Some(now), now, now)
  }

  /** The column a logout matches on: the user id when known, else the email when known. */
  datatype Match = ByUser(userId: Bytes) | ByEmail(email: Bytes) | Nothing

  function LogoutMatch(e: Event): Match {
    match (e.userId, e.email)
    case (Some(userId), _) => ByUser(userId)
    case (None, Some(email)) => ByEmail(email)
    case (None, None) => Nothing
  }

  /** Whether the update of a logout touches a row. */
  predicate Closes(e: Event, row: Row) {
    && row.logoutAt == None
    && match LogoutMatch(e)
       case ByUser(userId) => row.userId == Some(userId)
       case ByEmail(email) => row.email == Some(email)
       case Nothing => false
  }

  /** The update statement: every matching open row is closed, not only the latest. */
  function Closed(table: Table, e: Event, now: int): Table {
    if table == [] then []
    else
      var row := table[0];
      [if Closes(e, row) then row.(logoutAt := Some(now), updatedAt := now) else row] + Closed(table[1..], e, now)
  }

  function Affected(table: Table, e: Event): nat {
    if table == [] then 0 else (if Closes(e, table[0]) then 1 else 0) + Affected(table[1..], e)
  }

  /** A successful row of this user from this address. */
  predicate IsFrom(row: Row, userId: Bytes, ip: Bytes) {
    row.userId == Some(userId) && row.ipAddress == Some(ip) && row.successful
  }

  predicate Seen(table: Table, userId: Bytes, ip: Bytes, exclude: int) {
    exists i :: 0 <= i < |table| && IsFrom(table[i], userId, ip) && table[i].id != exclude
  }

  datatype Notice = Notice(id: int, userId: Bytes, ip: Bytes)

  /** What recording an event in one go leaves in the table. */
  function Recorded(table: Table, e: Event, id: int, now: int): Table {
    if !e.kind.Logout? then table + [EventRow(e, id, now)]
    else if Affected(table, e) > 0 then Closed(table, e, now)
    else Closed(table, e, now) + [LogoutRow(e, id, now)]
  }

  /** The notice recording an event sends, with a notifier installed and a lookup that answers. */
  function Noticed(table: Table, e: Event, id: int): seq<Notice> {
    if e.kind.LoginSucceeded? && e.userId.Some? && e.ipAddress.Some?
       && !Seen(table, e.userId.value, e.ipAddress.value, id)
    then [Notice(id, e.userId.value, e.ipAddress.value)]
    else []
  }

  /** The logger, with the table it writes and the notices its notifier has been handed. */
  class AuthenticationLogLogger {
    var table: Table
    var notices: seq<Notice>
    const notifier: bool

    constructor (notifier: bool)
      ensures this.notifier == notifier && table == [] && notices == []
    {
      this.notifier := notifier;
      table := [];
      notices := [];
    }

    /** Persist one event; `lookup` says whether the database answers the new-device query. */
    method Record(e: Event, id: int, now: int, lookup: bool)
      modifies this
      ensures table == Recorded(old(table), e, id, now)
      ensures notices == old(notices) + if notifier && lookup then Noticed(table, e, id) else []
    {
      if e.kind.Logout? {
        RecordLogout(e, id, now);
      } else {
        table := table + [EventRow(e, id, now)];
        if e.kind == LoginSucceeded {
          NotifyNewDevice(e, id, lookup);
        }
      }
    }

    method RecordLogout(e: Event, id: int, now: int)
      requires e.kind.Logout?
      modifies this`table
      ensures table == Recorded(old(table), e, id, now)
    {
      if LogoutMatch(e) != Nothing {
        var affected := Affected(table, e);
        table := Closed(table, e, now);
        if affected > 0 {
          return;
        }
      } else {
        NothingCloses(table, e, now);
      }
      table := table + [LogoutRow(e, id, now)];
    }

    method NotifyNewDevice(e: Event, id: int, lookup: bool)
      requires e.kind.LoginSucceeded?
      modifies this`notices
      ensures notices == old(notices) + if notifier && lookup then Noticed(table, e, id) else []
    {
      if !notifier || e.userId == None || e.ipAddress == None || !lookup {
        return;
      }
      if !Seen(table, e.userId.value, e.ipAddress.value, id) {
        notices := notices + [Notice(id, e.userId.value, e.ipAddress.value)];
      }
    }
  }

  lemma {:induction false} NothingCloses(table: Table, e: Event, now: int)
    requires LogoutMatch(e) == Nothing
    ensures Closed(table, e, now) == table && Affected(table, e) == 0
  {
    if table != [] {
      NothingCloses(table[1..], e, now);
    }
  }

  // ---------- What the update does to the table ----------

  /** Two rows that differ at most in when they were closed. */
  predicate SameLogin(a: Row, b: Row) {
    b == a.(logoutAt := b.logoutAt, updatedAt := b.updatedAt)
  }

  /** Nothing is removed, reordered or rewritten; a closed row stays closed as it was. */
  ghost predicate Grows(a: Table, b: Table) {
    && |a| <= |b|
    && forall i :: 0 <= i < |a| ==> SameLogin(a[i], b[i]) && (a[i].logoutAt.Some? ==> b[i] == a[i])
  }

  lemma {:induction false} ClosedPointwise(table: Table, e: Event, now: int)
    ensures |Closed(table, e, now)| == |table|
    ensures forall i :: 0 <= i < |table| ==>
      Closed(table, e, now)[i] == if Closes(e, table[i]) then table[i].(logoutAt := Some(now), updatedAt := now) else table[i]
  {
    if table != [] {
      ClosedPointwise(table[1..], e, now);
    }
  }

  lemma {:induction false} AffectedIffCloses(table: Table, e: Event)
    ensures Affected(table, e) > 0 <==> exists i :: 0 <= i < |table| && Closes(e, table[i])
  {
    if table != [] {
      var rest := table[1..];
      AffectedIffCloses(rest, e);
      if Affected(rest, e) > 0 {
        var i :| 0 <= i < |rest| && Closes(e, rest[i]);
        assert Closes(e, table[i + 1]);
      } else {
        assert forall i :: 0 < i < |table| ==> table[i] == rest[i - 1];
      }
    }
  }

  /** The user has no row left open. */
  ghost predicate AllClosed(table: Table, userId: Bytes) {
    forall i :: 0 <= i < |table| && table[i].userId == Some(userId) ==> table[i].logoutAt.Some?
  }

  /** A logout of a known user closes every row of that user and leaves everyone else's alone; it
      adds a row of its own exactly when there was none to close. */
  lemma LogoutAccounts(table: Table, e: Event, id: int, now: int)
    requires e.kind.Logout? && e.userId.Some?
    ensures var after := Recorded(table, e, id, now);
      && AllClosed(after, e.userId.value)
      && Grows(table, after)
      && (forall i :: 0 <= i < |table| && table[i].userId != e.userId ==> after[i] == table[i])
      && |after| == |table| + (if AllClosed(table, e.userId.value) then 1 else 0)
  {
    ClosedPointwise(table, e, now);
    AffectedIffCloses(table, e);
    forall i | 0 <= i < |table|
      ensures Closes(e, table[i]) <==> table[i].userId == e.userId && table[i].logoutAt == None
    {
    }
  }

  /** What a logout closes: the open rows of its user if that is known, else those of its email if that
      is known. */
  ghost predicate IsOpenFor(e: Event, row: Row) {
    && row.logoutAt == None
    && if e.userId.Some? then row.userId == e.userId else e.email.Some? && row.email == e.email
  }

  ghost predicate SomeOpenFor(e: Event, table: Table) {
    exists i :: 0 <= i < |table| && IsOpenFor(e, table[i])
  }

  /** The rows it closes are closed now, and no other row changes. */
  ghost predicate ClosesOwn(table: Table, e: Event, now: int, after: Table) {
    && |table| <= |after|
    && forall i :: 0 <= i < |table| ==>
         after[i] == if IsOpenFor(e, table[i]) then table[i].(logoutAt := Some(now), updatedAt := now) else table[i]
  }

  lemma ClosesIs(e: Event, row: Row)
    ensures Closes(e, row) <==> IsOpenFor(e, row)
  {
  }

  lemma UpdateIs(table: Table, e: Event, now: int)
    ensures ClosesOwn(table, e, now, Closed(table, e, now)) && |Closed(table, e, now)| == |table|
    ensures Affected(table, e) > 0 <==> SomeOpenFor(e, table)
  {
    ClosedPointwise(table, e, now);
    AffectedIffCloses(table, e);
    forall i | 0 <= i < |table| ensures Closes(e, table[i]) <==> IsOpenFor(e, table[i]) {
      ClosesIs(e, table[i]);
    }
  }

  /** Every logout, whatever is known of it: the open rows of its user, or else of its email, are closed;
      no other row changes; and if there was none of them, and only then, it adds a row of its own. */
  lemma LogoutIs(table: Table, e: Event, id: int, now: int)
    requires e.kind.Logout?
    ensures var after := Recorded(table, e, id, now);
      && ClosesOwn(table, e, now, after)
      && after[|table|..] == if SomeOpenFor(e, table) then [] else
           [Row(id, e.userId, e.email, e.guardName, Logout, e.ipAddress, e.userAgent, true, None, Some(now), now, now)]
  {
    UpdateIs(table, e, now);
  }

  /** Any other event adds an open row, successful for a login only, and changes none. */
  lemma EventIs(table: Table, e: Event, id: int, now: int)
    requires !e.kind.Logout?
    ensures Recorded(table, e, id, now) == table + [Row(id, e.userId, e.email, e.guardName, e.kind,
      e.ipAddress, e.userAgent, e.kind == LoginSucceeded, Some(now), None, now, now)]
  {
  }

  /** After the logout of a known email without a user, no row of that email is open. */
  lemma EmailIsClosed(table: Table, e: Event, id: int, now: int)
    requires e.kind.Logout? && e.userId == None && e.email.Some?
    ensures forall row :: row in Recorded(table, e, id, now) && row.email == e.email ==> row.logoutAt.Some?
  {
    LogoutIs(table, e, id, now);
    var after := Recorded(table, e, id, now);
    forall i | 0 <= i < |after| && after[i].email == e.email ensures after[i].logoutAt.Some? {
      if i >= |table| {
        assert after[i] == after[|table|..][i - |table|];
      }
    }
  }

  /** The update as its description has it: of the matching open rows, only the latest is closed. */
  function LatestClosed(table: Table, e: Event, now: int): Table {
    if table == [] then []
    else
      var front, row := table[..|table| - 1], table[|table| - 1];
      if Closes(e, row) then front + [row.(logoutAt := Some(now), updatedAt := now)]
      else LatestClosed(front, e, now) + [row]
  }

  /** Description and code agree exactly when at most one open row matches. */
  lemma {:induction false} ClosesLatestOnlyIff(table: Table, e: Event, now: int)
    ensures Closed(table, e, now) == LatestClosed(table, e, now) <==> Affected(table, e) <= 1
  {
    if table != [] {
      var front, row := table[..|table| - 1], table[|table| - 1];
      var last := if Closes(e, row) then row.(logoutAt := Some(now), updatedAt := now) else row;
      assert front + [row] == table;
      ClosedSnoc(front, row, e, now);
      ClosesLatestOnlyIff(front, e, now);
      LatestClosedLength(front, e, now);
      ClosedPointwise(front, e, now);
      AffectedIffCloses(front, e);
      var closed, latest := Closed(front, e, now), LatestClosed(front, e, now);
      assert (closed + [last])[..|front|] == closed && (latest + [row])[..|front|] == latest;
      assert (front + [last])[..|front|] == front;
      if Closes(e, row) && Affected(front, e) > 0 {
        var i :| 0 <= i < |front| && Closes(e, front[i]);
        assert closed[i] != front[i];
      } else if Closes(e, row) {
        assert closed == front;
      }
    }
  }

  /** Two open logins of one user: the logout closes both. */
  lemma ClosesBoth(userId: Bytes, now: int)
    ensures var login := Event(LoginSucceeded, Some(userId), None, None, None, None);
      var logout := login.(kind := Logout);
      var table := [EventRow(login, 0, 0), EventRow(login, 1, 0)];
      && AllClosed(Closed(table, logout, now), userId)
      && LatestClosed(table, logout, now)[0] == table[0]
      && Closed(table, logout, now) != LatestClosed(table, logout, now)
  {
    var login := Event(LoginSucceeded, Some(userId), None, None, None, None);
    var logout := login.(kind := Logout);
    var first, second := EventRow(login, 0, 0), EventRow(login, 1, 0);
    var table := [first, second];
    assert Closes(logout, first) && Closes(logout, second);
    ClosedPointwise(table, logout, now);
    assert table[..1] == [first];
  }

  lemma {:induction false} ClosedSnoc(table: Table, row: Row, e: Event, now: int)
    ensures Closed(table + [row], e, now)
         == Closed(table, e, now) + [if Closes(e, row) then row.(logoutAt := Some(now), updatedAt := now) else row]
    ensures Affected(table + [row], e) == Affected(table, e) + if Closes(e, row) then 1 else 0
  {
    if table != [] {
      assert (table + [row])[1..] == table[1..] + [row];
      ClosedSnoc(table[1..], row, e, now);
    }
  }

  lemma {:induction false} LatestClosedLength(table: Table, e: Event, now: int)
    ensures |LatestClosed(table, e, now)| == |table|
  {
    if table != [] {
      LatestClosedLength(table[..|table| - 1], e, now);
    }
  }

  // ---------- Interleaved requests ----------

  /** How far a request has got. */
  datatype Stage =
    | ToLookUp                  // row inserted, predecessor query not yet run
    | ToNotify                  // the query found no predecessor
    | ToInsert                  // the update closed nothing, standalone row not yet inserted
    | Finished

  datatype Task = Task(event: Event, id: int, now: int, stage: Stage)

  datatype World = World(table: Table, tasks: seq<Task>, notices: seq<Notice>, used: set<int>)

  datatype Action =
    | Begin(event: Event, id: int, now: int)
    | LookUp(task: nat, answered: bool)
    | Notify(task: nat)
    | InsertStandalone(task: nat)

  predicate AtStage(w: World, t: nat, stage: Stage) {
    t < |w.tasks| && w.tasks[t].stage == stage
  }

  /** Row ids are minted fresh; every other step belongs to a request that has reached it. */
  predicate Enabled(w: World, a: Action) {
    match a
    case Begin(_, id, _) => id !in w.used
    case LookUp(t, _) => AtStage(w, t, ToLookUp)
    case Notify(t) => AtStage(w, t, ToNotify)
    case InsertStandalone(t) => AtStage(w, t, ToInsert)
  }

  predicate Identified(e: Event) {
    e.userId.Some? && e.ipAddress.Some?
  }

  /** The first statement of a request, with a notifier installed. */
  function Begun(w: World, e: Event, id: int, now: int): World {
    if e.kind.Logout? then
      var stage := if Affected(w.table, e) > 0 then Finished else ToInsert;
      World(Closed(w.table, e, now), w.tasks + [Task(e, id, now, stage)], w.notices, w.used + {id})
    else
      var stage := if e.kind.LoginSucceeded? && Identified(e) then ToLookUp else Finished;
      World(w.table + [EventRow(e, id, now)], w.tasks + [Task(e, id, now, stage)], w.notices, w.used + {id})
  }

  function After(w: World, a: Action): World
    requires Enabled(w, a)
  {
    match a
    case Begin(e, id, now) => Begun(w, e, id, now)
    case LookUp(t, answered) =>
      var task := w.tasks[t];
      var unseen := answered && Identified(task.event)
        && !Seen(w.table, task.event.userId.value, task.event.ipAddress.value, task.id);
      w.(tasks := w.tasks[t := task.(stage := if unseen then ToNotify else Finished)])
    case Notify(t) =>
      var task := w.tasks[t];
      if Identified(task.event) then
        w.(tasks := w.tasks[t := task.(stage := Finished)],
           notices := w.notices + [Notice(task.id, task.event.userId.value, task.event.ipAddress.value)])
      else w.(tasks := w.tasks[t := task.(stage := Finished)])
    case InsertStandalone(t) =>
      var task := w.tasks[t];
      w.(table := w.table + [LogoutRow(task.event, task.id, task.now)],
         tasks := w.tasks[t := task.(stage := Finished)])
  }

  /** The row `id` is the first successful one of this user from this address. */
  ghost predicate Earliest(table: Table, id: int, userId: Bytes, ip: Bytes) {
    exists r :: IsEarliestAt(table, r, id, userId, ip)
  }

  ghost predicate IsEarliestAt(table: Table, r: int, id: int, userId: Bytes, ip: Bytes) {
    && 0 <= r < |table| && table[r].id == id && IsFrom(table[r], userId, ip)
    && forall i :: 0 <= i < r ==> !IsFrom(table[i], userId, ip)
  }

  ghost predicate RowPresent(table: Table, task: Task) {
    exists r :: 0 <= r < |table| && IsRowOf(table[r], task)
  }

  predicate IsRowOf(row: Row, task: Task) {
    row.id == task.id && row.userId == task.event.userId && row.ipAddress == task.event.ipAddress && row.successful
  }

  ghost predicate IdsAreOwn(w: World) {
    && (forall i, j :: 0 <= i < j < |w.tasks| ==> w.tasks[i].id != w.tasks[j].id)
    && (forall i :: 0 <= i < |w.tasks| ==> w.tasks[i].id in w.used)
    && (forall i, j :: 0 <= i < j < |w.table| ==> w.table[i].id != w.table[j].id)
    && (forall i :: 0 <= i < |w.table| ==> w.table[i].id in w.used)
    && (forall t, i :: 0 <= t < |w.tasks| && 0 <= i < |w.table| && w.tasks[t].stage.ToInsert? ==> w.table[i].id != w.tasks[t].id)
  }

  ghost predicate TasksAreBacked(w: World) {
    forall t :: 0 <= t < |w.tasks| ==>
      && (w.tasks[t].stage.ToLookUp? ==> Identified(w.tasks[t].event) && RowPresent(w.table, w.tasks[t]))
      && (w.tasks[t].stage.ToLookUp? || w.tasks[t].stage.ToNotify? ==> w.tasks[t].event.kind.LoginSucceeded?)
      && (w.tasks[t].stage.ToNotify? ==>
            && Identified(w.tasks[t].event)
            && Earliest(w.table, w.tasks[t].id, w.tasks[t].event.userId.value, w.tasks[t].event.ipAddress.value))
  }

  ghost predicate NoticesAreEarliest(w: World) {
    && (forall n :: 0 <= n < |w.notices| ==> Earliest(w.table, w.notices[n].id, w.notices[n].userId, w.notices[n].ip))
    && (forall n :: 0 <= n < |w.notices| ==> w.notices[n].id in w.used)
    && (forall m, n :: 0 <= m < n < |w.notices| ==> w.notices[m].id != w.notices[n].id)
    && (forall t, n :: 0 <= t < |w.tasks| && 0 <= n < |w.notices| && !w.tasks[t].stage.Finished? ==>
          w.notices[n].id != w.tasks[t].id)
  }

  ghost predicate Inv(w: World) {
    IdsAreOwn(w) && TasksAreBacked(w) && NoticesAreEarliest(w)
  }

  lemma EarliestStays(a: Table, b: Table, id: int, userId: Bytes, ip: Bytes)
    requires Grows(a, b) && Earliest(a, id, userId, ip)
    ensures Earliest(b, id, userId, ip)
  {
    var r :| IsEarliestAt(a, r, id, userId, ip);
    forall i | 0 <= i < |a|
      ensures IsFrom(b[i], userId, ip) <==> IsFrom(a[i], userId, ip)
    {
      assert SameLogin(a[i], b[i]);
    }
    assert SameLogin(a[r], b[r]);
    assert IsEarliestAt(b, r, id, userId, ip);
  }

  lemma RowStays(a: Table, b: Table, task: Task)
    requires Grows(a, b) && RowPresent(a, task)
    ensures RowPresent(b, task)
  {
    var r :| 0 <= r < |a| && IsRowOf(a[r], task);
    assert SameLogin(a[r], b[r]);
    assert IsRowOf(b[r], task);
  }

  /** A row with no other successful row of its user and address is the earliest of them. */
  lemma UnseenIsEarliest(table: Table, task: Task)
    requires Identified(task.event) && RowPresent(table, task)
    requires forall i, j :: 0 <= i < j < |table| ==> table[i].id != table[j].id
    requires !Seen(table, task.event.userId.value, task.event.ipAddress.value, task.id)
    ensures Earliest(table, task.id, task.event.userId.value, task.event.ipAddress.value)
  {
    var userId, ip := task.event.userId.value, task.event.ipAddress.value;
    var r :| 0 <= r < |table| && IsRowOf(table[r], task);
    forall i | 0 <= i < r
      ensures !IsFrom(table[i], userId, ip)
    {
      assert table[i].id != table[r].id;
    }
    assert IsEarliestAt(table, r, task.id, userId, ip);
  }

  lemma StepGrows(w: World, a: Action)
    requires Enabled(w, a)
    ensures Grows(w.table, After(w, a).table)
  {
    if a.Begin? {
      ClosedPointwise(w.table, a.event, a.now);
    }
  }

  lemma BeginKeepsIds(w: World, e: Event, id: int, now: int)
    requires IdsAreOwn(w) && id !in w.used
    ensures IdsAreOwn(Begun(w, e, id, now))
  {
    ClosedPointwise(w.table, e, now);
    var w' := Begun(w, e, id, now);
    assert forall i :: 0 <= i < |w.table| ==> w'.table[i].id == w.table[i].id;
    assert forall i :: |w.table| <= i < |w'.table| ==> w'.table[i].id == id;
  }

  lemma LaterKeepsIds(w: World, a: Action)
    requires IdsAreOwn(w) && Enabled(w, a) && !a.Begin?
    ensures IdsAreOwn(After(w, a))
  {
    var w' := After(w, a);
    assert forall t :: 0 <= t < |w.tasks| ==> w'.tasks[t].id == w.tasks[t].id;
    assert forall i :: 0 <= i < |w.table| ==> w'.table[i].id == w.table[i].id;
    assert forall t :: 0 <= t < |w.tasks| && w'.tasks[t].stage.ToInsert? ==> w.tasks[t].stage.ToInsert?;
  }

  lemma BackingStays(w: World, w': World, t: nat)
    requires TasksAreBacked(w) && Grows(w.table, w'.table)
    requires t < |w.tasks| && t < |w'.tasks| && w'.tasks[t] == w.tasks[t]
    ensures w'.tasks[t].stage.ToLookUp? ==> Identified(w'.tasks[t].event) && RowPresent(w'.table, w'.tasks[t])
    ensures w'.tasks[t].stage.ToNotify? ==>
      && Identified(w'.tasks[t].event)
      && Earliest(w'.table, w'.tasks[t].id, w'.tasks[t].event.userId.value, w'.tasks[t].event.ipAddress.value)
  {
    var task := w.tasks[t];
    if task.stage.ToLookUp? {
      RowStays(w.table, w'.table, task);
    } else if task.stage.ToNotify? {
      EarliestStays(w.table, w'.table, task.id, task.event.userId.value, task.event.ipAddress.value);
    }
  }

  /** The one task an action belongs to. */
  function Actor(w: World, a: Action): nat {
    match a
    case Begin(_, _, _) => |w.tasks|
    case LookUp(t, _) => t
    case Notify(t) => t
    case InsertStandalone(t) => t
  }

  lemma OthersUntouched(w: World, a: Action, t: nat)
    requires Enabled(w, a) && t < |w.tasks| && t != Actor(w, a)
    ensures t < |After(w, a).tasks| && After(w, a).tasks[t] == w.tasks[t]
  {
  }

  lemma StepKeepsBacking(w: World, a: Action)
    requires Inv(w) && Enabled(w, a)
    ensures TasksAreBacked(After(w, a))
  {
    var w', actor := After(w, a), Actor(w, a);
    StepGrows(w, a);
    forall t | 0 <= t < |w'.tasks|
      ensures w'.tasks[t].stage.ToLookUp? ==> Identified(w'.tasks[t].event) && RowPresent(w'.table, w'.tasks[t])
      ensures w'.tasks[t].stage.ToNotify? ==>
        && Identified(w'.tasks[t].event)
        && Earliest(w'.table, w'.tasks[t].id, w'.tasks[t].event.userId.value, w'.tasks[t].event.ipAddress.value)
    {
      if t != actor {
        OthersUntouched(w, a, t);
        BackingStays(w, w', t);
      } else if a.Begin? {
        if w'.tasks[t].stage.ToLookUp? {
          assert IsRowOf(w'.table[|w.table|], w'.tasks[t]);
        }
      } else if a.LookUp? {
        if w'.tasks[t].stage.ToNotify? {
          UnseenIsEarliest(w.table, w.tasks[t]);
        }
      }
    }
  }

  lemma StepKeepsNotices(w: World, a: Action)
    requires Inv(w) && Enabled(w, a)
    ensures NoticesAreEarliest(After(w, a))
  {
    var w', actor := After(w, a), Actor(w, a);
    StepGrows(w, a);
    assert forall n :: 0 <= n < |w.notices| ==> w'.notices[n] == w.notices[n];
    forall n | 0 <= n < |w'.notices|
      ensures Earliest(w'.table, w'.notices[n].id, w'.notices[n].userId, w'.notices[n].ip)
    {
      if n < |w.notices| {
        EarliestStays(w.table, w'.table, w.notices[n].id, w.notices[n].userId, w.notices[n].ip);
      }
    }
    forall t, n | 0 <= t < |w'.tasks| && 0 <= n < |w'.notices| && !w'.tasks[t].stage.Finished?
      ensures w'.notices[n].id != w'.tasks[t].id
    {
      if t != actor {
        OthersUntouched(w, a, t);
      }
    }
  }

  lemma StepKeepsInv(w: World, a: Action)
    requires Inv(w) && Enabled(w, a)
    ensures Inv(After(w, a))
  {
    if a.Begin? {
      BeginKeepsIds(w, a.event, a.id, a.now);
    } else {
      LaterKeepsIds(w, a);
    }
    StepKeepsBacking(w, a);
    StepKeepsNotices(w, a);
  }

  /** An empty log and no request under way. */
  const EMPTY: World := World([], [], [], {})

  ghost predicate IsRun(ws: seq<World>, actions: seq<Action>) {
    && |ws| == |actions| + 1
    && ws[0] == EMPTY
    && forall i :: 0 <= i < |actions| ==> Enabled(ws[i], actions[i]) && ws[i + 1] == After(ws[i], actions[i])
  }

  lemma {:induction false} RunKeepsInv(ws: seq<World>, actions: seq<Action>, i: nat)
    requires IsRun(ws, actions) && i < |ws|
    ensures Inv(ws[i])
  {
    if i > 0 {
      RunKeepsInv(ws, actions, i - 1);
      StepOfRun(ws, actions, i - 1);
      StepKeepsInv(ws[i - 1], actions[i - 1]);
    }
  }

  /** However requests interleave, a user is told of an address at most once. */
  lemma NotifiedAtMostOnce(ws: seq<World>, actions: seq<Action>, i: nat)
    requires IsRun(ws, actions) && i < |ws|
    ensures forall m, n :: 0 <= m < n < |ws[i].notices| ==>
      ws[i].notices[m].userId != ws[i].notices[n].userId || ws[i].notices[m].ip != ws[i].notices[n].ip
  {
    var w := ws[i];
    RunKeepsInv(ws, actions, i);
    forall m, n | 0 <= m < n < |w.notices|
      ensures w.notices[m].userId != w.notices[n].userId || w.notices[m].ip != w.notices[n].ip
    {
      if w.notices[m].userId == w.notices[n].userId && w.notices[m].ip == w.notices[n].ip {
        OneEarliest(w.table, w.notices[m].id, w.notices[n].id, w.notices[m].userId, w.notices[m].ip);
      }
    }
  }

  lemma OneEarliest(table: Table, id: int, id': int, userId: Bytes, ip: Bytes)
    requires Earliest(table, id, userId, ip) && Earliest(table, id', userId, ip)
    ensures id == id'
  {
    var r :| IsEarliestAt(table, r, id, userId, ip);
    var q :| IsEarliestAt(table, q, id', userId, ip);
    assert r == q;
  }

  /** A notice is never wrong: its row is the first successful one of that user and address. */
  lemma NoticesAreForFirstRows(ws: seq<World>, actions: seq<Action>, i: nat, n: nat)
    requires IsRun(ws, actions) && i < |ws| && n < |ws[i].notices|
    ensures Earliest(ws[i].table, ws[i].notices[n].id, ws[i].notices[n].userId, ws[i].notices[n].ip)
  {
    RunKeepsInv(ws, actions, i);
  }

  // ---------- A request on its own ----------

  /** The next statement of a request, or `None` when it is done. */
  function NextOf(w: World, t: nat, answered: bool): Option<Action>
    requires t < |w.tasks|
  {
    match w.tasks[t].stage
    case ToLookUp => Some(LookUp(t, answered))
    case ToNotify => Some(Notify(t))
    case ToInsert => Some(InsertStandalone(t))
    case Finished => None
  }

  function Further(w: World, t: nat, answered: bool): World
    requires t < |w.tasks|
  {
    match NextOf(w, t, answered)
    case None => w
    case Some(a) => After(w, a)
  }

  /** A request served from beginning to end with nothing in between does what the logger does, at
      any moment of any run: whatever else is under way, the machine takes the logger's steps. */
  lemma ServedAloneIsRecorded(w: World, e: Event, id: int, now: int, answered: bool)
    requires id !in w.used
    ensures var begun, t := Begun(w, e, id, now), |w.tasks|;
      var served := Further(Further(begun, t, answered), t, answered);
      && served.table == Recorded(w.table, e, id, now)
      && served.notices == w.notices + (if answered then Noticed(served.table, e, id) else [])
      && served.tasks == w.tasks + [Task(e, id, now, Finished)]
  {
    var begun, t := Begun(w, e, id, now), |w.tasks|;
    var second := Further(begun, t, answered);
    assert second.tasks == w.tasks + [second.tasks[t]];
    var third := Further(second, t, answered);
    assert third.tasks == w.tasks + [third.tasks[t]];
  }

  // ---------- How many rows there are ----------

  /** The logins, failed logins and lockouts among the first `i` actions. */
  function EventsBegun(actions: seq<Action>, i: nat): nat
    requires i <= |actions|
  {
    if i == 0 then 0
    else
      var a := actions[i - 1];
      EventsBegun(actions, i - 1) + if a.Begin? && !a.event.kind.Logout? then 1 else 0
  }

  /** The logouts among the first `i` actions that match no open row when their update runs. */
  function UnmatchedLogouts(ws: seq<World>, actions: seq<Action>, i: nat): nat
    requires i <= |actions| && i <= |ws|
  {
    if i == 0 then 0
    else
      var a := actions[i - 1];
      UnmatchedLogouts(ws, actions, i - 1)
        + if a.Begin? && a.event.kind.Logout? && Affected(ws[i - 1].table, a.event) == 0 then 1 else 0
  }

  /** The requests whose standalone row is still to be inserted. */
  function StillToInsert(tasks: seq<Task>): nat {
    if tasks == [] then 0
    else StillToInsert(tasks[..|tasks| - 1]) + if tasks[|tasks| - 1].stage.ToInsert? then 1 else 0
  }

  lemma {:induction false} StillToInsertUpdate(tasks: seq<Task>, t: nat, task: Task)
    requires t < |tasks|
    ensures StillToInsert(tasks[t := task]) + (if tasks[t].stage.ToInsert? then 1 else 0)
         == StillToInsert(tasks) + (if task.stage.ToInsert? then 1 else 0)
  {
    var front := tasks[..|tasks| - 1];
    if t < |front| {
      StillToInsertUpdate(front, t, task);
      assert tasks[t := task][..|tasks| - 1] == front[t := task];
    } else {
      assert tasks[t := task][..|tasks| - 1] == front;
    }
  }

  lemma StepAccounts(w: World, a: Action)
    requires Enabled(w, a)
    ensures |After(w, a).table| + StillToInsert(After(w, a).tasks) == |w.table| + StillToInsert(w.tasks)
      + if a.Begin? && (a.event.kind.Logout? ==> Affected(w.table, a.event) == 0) then 1 else 0
  {
    var w' := After(w, a);
    match a {
      case Begin(e, id, now) =>
        ClosedPointwise(w.table, e, now);
        assert w'.tasks[..|w'.tasks| - 1] == w.tasks;
      case LookUp(t, answered) => StillToInsertUpdate(w.tasks, t, w'.tasks[t]);
      case Notify(t) => StillToInsertUpdate(w.tasks, t, w'.tasks[t]);
      case InsertStandalone(t) => StillToInsertUpdate(w.tasks, t, w'.tasks[t]);
    }
  }

  /** At every moment of every run the rows are the logins, failures and lockouts begun, and exactly
      the logouts that matched no open row and have inserted their own. */
  lemma {:induction false} RunAccounts(ws: seq<World>, actions: seq<Action>, i: nat)
    requires IsRun(ws, actions) && i < |ws|
    ensures |ws[i].table| + StillToInsert(ws[i].tasks) == EventsBegun(actions, i) + UnmatchedLogouts(ws, actions, i)
  {
    if i > 0 {
      RunAccounts(ws, actions, i - 1);
      StepOfRun(ws, actions, i - 1);
      StepAccounts(ws[i - 1], actions[i - 1]);
    }
  }

  lemma StepOfRun(ws: seq<World>, actions: seq<Action>, i: nat)
    requires IsRun(ws, actions) && i < |actions|
    ensures Enabled(ws[i], actions[i]) && ws[i + 1] == After(ws[i], actions[i])
  {
  }

  /** Over any stretch of any run no row is removed, reordered or rewritten but to be closed. */
  lemma {:induction false} RunGrows(ws: seq<World>, actions: seq<Action>, i: nat, j: nat)
    requires IsRun(ws, actions) && i <= j < |ws|
    ensures Grows(ws[i].table, ws[j].table)
    decreases j - i
  {
    if i < j {
      RunGrows(ws, actions, i, j - 1);
      StepOfRun(ws, actions, j - 1);
      StepGrows(ws[j - 1], actions[j - 1]);
      GrowsOn(ws[i].table, ws[j - 1].table, ws[j].table);
    }
  }

  lemma GrowsOn(a: Table, b: Table, c: Table)
    requires Grows(a, b) && Grows(b, c)
    ensures Grows(a, c)
  {
    forall i | 0 <= i < |a|
      ensures SameLogin(a[i], c[i]) && (a[i].logoutAt.Some? ==> c[i] == a[i])
    {
      assert SameLogin(a[i], b[i]) && SameLogin(b[i], c[i]);
    }
  }

  /** The moment a known user's logout runs its update, no row of that user is open, whatever
      other requests are under way. */
  lemma LogoutClosesAll(ws: seq<World>, actions: seq<Action>, i: nat)
    requires IsRun(ws, actions) && i < |actions|
    requires actions[i].Begin? && actions[i].event.kind.Logout? && actions[i].event.userId.Some?
    ensures AllClosed(ws[i + 1].table, actions[i].event.userId.value)
  {
    assert ws[i + 1] == After(ws[i], actions[i]);
    ClosedPointwise(ws[i].table, actions[i].event, actions[i].now);
  }

  /** Whatever other requests are under way, the update of a logout closes its rows and no others, and
      its request is left with a row of its own to insert exactly when there was none of them. */
  lemma LogoutUpdates(ws: seq<World>, actions: seq<Action>, i: nat)
    requires IsRun(ws, actions) && i < |actions| && actions[i].Begin? && actions[i].event.kind.Logout?
    ensures var (e, now) := (actions[i].event, actions[i].now);
      && |ws[i + 1].table| == |ws[i].table| && ClosesOwn(ws[i].table, e, now, ws[i + 1].table)
      && AtStage(ws[i + 1], |ws[i].tasks|, if SomeOpenFor(e, ws[i].table) then Finished else ToInsert)
  {
    StepOfRun(ws, actions, i);
    UpdateIs(ws[i].table, actions[i].event, actions[i].now);
  }

  /** That row, once inserted, and only rows of logins, failures and lockouts besides, are ever added. */
  lemma AddedIs(ws: seq<World>, actions: seq<Action>, i: nat)
    requires IsRun(ws, actions) && i < |actions|
    ensures match actions[i]
      case Begin(e, id, now) =>
        e.kind.Logout? || ws[i + 1].table == ws[i].table + [Row(id, e.userId, e.email, e.guardName, e.kind,
          e.ipAddress, e.userAgent, e.kind == LoginSucceeded, Some(now), None, now, now)]
      case InsertStandalone(t) =>
        t < |ws[i].tasks| && var (e, id, now) := (ws[i].tasks[t].event, ws[i].tasks[t].id, ws[i].tasks[t].now);
          ws[i + 1].table == ws[i].table + [Row(id, e.userId, e.email, e.guardName, e.kind,
            e.ipAddress, e.userAgent, true, None, Some(now), now, now)]
      case _ => ws[i + 1].table == ws[i].table
  {
    StepOfRun(ws, actions, i);
  }

  // ---------- When a notice is sent ----------

  /** The row an action inserts, if that is a successful row of this user from this address: a
      login's, or a standalone logout's. */
  function Marked(w: World, a: Action, userId: Bytes, ip: Bytes): Option<int>
    requires Enabled(w, a)
  {
    match a
    case Begin(e, id, _) => if IsLoginFrom(e, userId, ip) then Some(id) else None
    case InsertStandalone(t) =>
      var e := w.tasks[t].event;
      if e.userId == Some(userId) && e.ipAddress == Some(ip) then Some(w.tasks[t].id) else None
    case _ => None
  }

  function Listed(id: Option<int>): seq<int> {
    match id
    case Some(i) => [i]
    case None => []
  }

  /** Those rows of the first `i` actions, in order. */
  function MarkedBy(ws: seq<World>, actions: seq<Action>, i: nat, userId: Bytes, ip: Bytes): seq<int>
    requires IsRun(ws, actions) && i <= |actions|
  {
    if i == 0 then []
    else MarkedBy(ws, actions, i - 1, userId, ip) + Listed(Marked(ws[i - 1], actions[i - 1], userId, ip))
  }

  /** The successful rows of a user from an address, in order. */
  function RowsFrom(table: Table, userId: Bytes, ip: Bytes): seq<int> {
    if table == [] then []
    else
      var front, row := table[..|table| - 1], table[|table| - 1];
      RowsFrom(front, userId, ip) + if IsFrom(row, userId, ip) then [row.id] else []
  }

  lemma RowsFromSnoc(table: Table, row: Row, userId: Bytes, ip: Bytes)
    ensures RowsFrom(table + [row], userId, ip)
         == RowsFrom(table, userId, ip) + if IsFrom(row, userId, ip) then [row.id] else []
  {
    assert (table + [row])[..|table|] == table;
  }

  lemma {:induction false} RowsFromSameLogins(a: Table, b: Table, userId: Bytes, ip: Bytes)
    requires |a| == |b| && forall i :: 0 <= i < |a| ==> SameLogin(a[i], b[i])
    ensures RowsFrom(a, userId, ip) == RowsFrom(b, userId, ip)
  {
    if a != [] {
      RowsFromSameLogins(a[..|a| - 1], b[..|b| - 1], userId, ip);
      assert SameLogin(a[|a| - 1], b[|b| - 1]);
    }
  }

  /** A login finds no other row of its kind exactly when its own is the only one. */
  lemma {:induction false} SeenIffOthers(table: Table, userId: Bytes, ip: Bytes, id: int)
    ensures Seen(table, userId, ip, id) <==> exists i :: 0 <= i < |RowsFrom(table, userId, ip)| && RowsFrom(table, userId, ip)[i] != id
  {
    if table != [] {
      var front, row := table[..|table| - 1], table[|table| - 1];
      SeenIffOthers(front, userId, ip, id);
      var before, rows := RowsFrom(front, userId, ip), RowsFrom(table, userId, ip);
      assert forall i :: 0 <= i < |before| ==> rows[i] == before[i];
      assert forall i :: 0 <= i < |front| ==> table[i] == front[i];
      if IsFrom(row, userId, ip) {
        assert rows[|before|] == row.id;
      }
    }
  }

  lemma StepMarks(w: World, a: Action, userId: Bytes, ip: Bytes)
    requires Enabled(w, a)
    ensures RowsFrom(After(w, a).table, userId, ip) == RowsFrom(w.table, userId, ip) + Listed(Marked(w, a, userId, ip))
  {
    match a {
      case Begin(e, id, now) =>
        if e.kind.Logout? {
          ClosedPointwise(w.table, e, now);
          RowsFromSameLogins(w.table, Closed(w.table, e, now), userId, ip);
        } else {
          RowsFromSnoc(w.table, EventRow(e, id, now), userId, ip);
        }
      case InsertStandalone(t) =>
        var task := w.tasks[t];
        RowsFromSnoc(w.table, LogoutRow(task.event, task.id, task.now), userId, ip);
      case _ =>
    }
  }

  lemma NoRowsFrom(userId: Bytes, ip: Bytes)
    ensures RowsFrom([], userId, ip) == []
  {
  }

  lemma {:induction false} RowsAreMarked(ws: seq<World>, actions: seq<Action>, i: nat, userId: Bytes, ip: Bytes)
    requires IsRun(ws, actions) && i <= |actions|
    ensures RowsFrom(ws[i].table, userId, ip) == MarkedBy(ws, actions, i, userId, ip)
  {
    hide After, RowsFrom, Marked, Listed;
    if i == 0 {
      NoRowsFrom(userId, ip);
    } else {
      StepOfRun(ws, actions, i - 1);
      RowsAreMarked(ws, actions, i - 1, userId, ip);
      StepMarks(ws[i - 1], actions[i - 1], userId, ip);
    }
  }

  lemma {:induction false} MarkedGrows(ws: seq<World>, actions: seq<Action>, i: nat, j: nat, userId: Bytes, ip: Bytes)
    requires IsRun(ws, actions) && i <= j <= |actions|
    ensures MarkedBy(ws, actions, i, userId, ip) <= MarkedBy(ws, actions, j, userId, ip)
    decreases j - i
  {
    if i < j {
      MarkedGrows(ws, actions, i, j - 1, userId, ip);
    }
  }

  /** The `j`-th action is the answered lookup of login `id`, at a moment when that login's row is the
      only successful one its user has had from its address. */
  ghost predicate AnsweredAlone(ws: seq<World>, actions: seq<Action>, j: int, id: int, userId: Bytes, ip: Bytes)
    requires IsRun(ws, actions)
  {
    && 0 <= j < |actions| && actions[j].LookUp? && actions[j].answered
    && actions[j].task < |ws[j].tasks|
    && ws[j].tasks[actions[j].task].id == id
    && IsLoginFrom(ws[j].tasks[actions[j].task].event, userId, ip)
    && MarkedBy(ws, actions, j, userId, ip) == [id]
  }

  ghost predicate IsAnnounced(ws: seq<World>, actions: seq<Action>, i: nat, id: int, userId: Bytes, ip: Bytes)
    requires IsRun(ws, actions) && i <= |actions|
  {
    exists j :: j < i && AnsweredAlone(ws, actions, j, id, userId, ip)
  }

  ghost predicate Announces(w: World, t: int, id: int, userId: Bytes, ip: Bytes) {
    0 <= t < |w.tasks| && w.tasks[t].stage.ToNotify? && w.tasks[t].id == id && IsLoginFrom(w.tasks[t].event, userId, ip)
  }

  /** The notice is sent, or its request has only that left to do. */
  ghost predicate SentOrDue(w: World, id: int, userId: Bytes, ip: Bytes) {
    Notice(id, userId, ip) in w.notices || exists t :: Announces(w, t, id, userId, ip)
  }

  /** An answered lookup that finds no other row. */
  ghost predicate DueBy(w: World, a: Action, id: int, userId: Bytes, ip: Bytes)
    requires Enabled(w, a)
  {
    && a.LookUp? && a.answered && w.tasks[a.task].id == id
    && IsLoginFrom(w.tasks[a.task].event, userId, ip) && !Seen(w.table, userId, ip, id)
  }

  lemma StepAnnounces(w: World, a: Action, id: int, userId: Bytes, ip: Bytes)
    requires TasksAreBacked(w) && Enabled(w, a)
    ensures SentOrDue(After(w, a), id, userId, ip) <==> SentOrDue(w, id, userId, ip) || DueBy(w, a, id, userId, ip)
  {
    var w', actor := After(w, a), Actor(w, a);
    forall t | 0 <= t < |w.tasks| && t != actor
      ensures Announces(w', t, id, userId, ip) <==> Announces(w, t, id, userId, ip)
    {
      OthersUntouched(w, a, t);
    }
    assert forall n :: 0 <= n < |w.notices| ==> w'.notices[n] == w.notices[n];
    assert Announces(w', actor, id, userId, ip) <==> DueBy(w, a, id, userId, ip);
    if a.Notify? {
      var task := w.tasks[actor];
      var sent := Notice(task.id, task.event.userId.value, task.event.ipAddress.value);
      assert w'.notices == w.notices + [sent];
      assert w'.notices[|w.notices|] == sent;
      assert sent == Notice(id, userId, ip) <==> Announces(w, actor, id, userId, ip);
      assert Notice(id, userId, ip) in w'.notices <==> Notice(id, userId, ip) in w.notices || Announces(w, actor, id, userId, ip);
      assert forall t :: Announces(w', t, id, userId, ip) <==> t != actor && Announces(w, t, id, userId, ip);
    }
  }

  lemma {:induction false} RowsFromMembers(table: Table, userId: Bytes, ip: Bytes, id: int)
    ensures id in RowsFrom(table, userId, ip)
       <==> exists r :: 0 <= r < |table| && IsFrom(table[r], userId, ip) && table[r].id == id
  {
    if table != [] {
      RowsFromMembers(table[..|table| - 1], userId, ip, id);
      assert table[|table| - 1] in table;
    }
  }

  lemma {:induction false} RowsFromDistinct(table: Table, userId: Bytes, ip: Bytes)
    requires forall i, j :: 0 <= i < j < |table| ==> table[i].id != table[j].id
    ensures forall i, j :: 0 <= i < j < |RowsFrom(table, userId, ip)| ==>
      RowsFrom(table, userId, ip)[i] != RowsFrom(table, userId, ip)[j]
  {
    if table != [] {
      RowsFromDistinct(table[..|table| - 1], userId, ip);
      RowsFromMembers(table[..|table| - 1], userId, ip, table[|table| - 1].id);
    }
  }

  /** A login's own row is the only one that its lookup could find, exactly when no other does. */
  lemma OnlyRow(table: Table, userId: Bytes, ip: Bytes, id: int)
    requires forall i, j :: 0 <= i < j < |table| ==> table[i].id != table[j].id
    ensures RowsFrom(table, userId, ip) == [id]
       <==> !Seen(table, userId, ip, id) && exists r :: 0 <= r < |table| && IsFrom(table[r], userId, ip) && table[r].id == id
  {
    RowsFromDistinct(table, userId, ip);
    RowsFromMembers(table, userId, ip, id);
    SeenIffOthers(table, userId, ip, id);
    var rows := RowsFrom(table, userId, ip);
    if |rows| >= 2 {
      assert rows[0] != rows[1];
    }
  }

  lemma DueIsAnsweredAlone(ws: seq<World>, actions: seq<Action>, j: nat, id: int, userId: Bytes, ip: Bytes)
    requires IsRun(ws, actions) && j < |actions| && Enabled(ws[j], actions[j])
    ensures DueBy(ws[j], actions[j], id, userId, ip) <==> AnsweredAlone(ws, actions, j, id, userId, ip)
  {
    RunKeepsInv(ws, actions, j);
    RowsAreMarked(ws, actions, j, userId, ip);
    OnlyRow(ws[j].table, userId, ip, id);
    if DueBy(ws[j], actions[j], id, userId, ip) {
      var task := ws[j].tasks[actions[j].task];
      var r :| 0 <= r < |ws[j].table| && IsRowOf(ws[j].table[r], task);
      assert IsFrom(ws[j].table[r], userId, ip);
    }
  }

  lemma {:induction false} RunAnnounces(ws: seq<World>, actions: seq<Action>, i: nat, id: int, userId: Bytes, ip: Bytes)
    requires IsRun(ws, actions) && i <= |actions|
    ensures SentOrDue(ws[i], id, userId, ip) <==> IsAnnounced(ws, actions, i, id, userId, ip)
  {
    if i > 0 {
      StepOfRun(ws, actions, i - 1);
      RunKeepsInv(ws, actions, i - 1);
      RunAnnounces(ws, actions, i - 1, id, userId, ip);
      StepAnnounces(ws[i - 1], actions[i - 1], id, userId, ip);
      DueIsAnsweredAlone(ws, actions, i - 1, id, userId, ip);
    }
  }

  /** Over every run, once all its requests are finished: a user has been told of an address exactly
      when the first successful row of theirs from it is a login's, and that login's lookup was
      answered before a second such row was inserted. The notice is that login's. */
  lemma AnnouncedIff(ws: seq<World>, actions: seq<Action>, userId: Bytes, ip: Bytes)
    requires IsRun(ws, actions)
    requires forall t :: 0 <= t < |ws[|actions|].tasks| ==> ws[|actions|].tasks[t].stage.Finished?
    ensures var last, rows := ws[|actions|], RowsFrom(ws[|actions|].table, userId, ip);
      && ((exists id :: Notice(id, userId, ip) in last.notices)
          <==> rows != [] && exists j :: AnsweredAlone(ws, actions, j, rows[0], userId, ip))
      && (forall id :: Notice(id, userId, ip) in last.notices ==> rows != [] && id == rows[0])
  {
    var n := |actions|;
    var last, rows := ws[n], RowsFrom(ws[n].table, userId, ip);
    RowsAreMarked(ws, actions, n, userId, ip);
    forall id ensures Notice(id, userId, ip) in last.notices <==> IsAnnounced(ws, actions, n, id, userId, ip) {
      RunAnnounces(ws, actions, n, id, userId, ip);
    }
    forall id | Notice(id, userId, ip) in last.notices
      ensures rows != [] && id == rows[0] && exists j :: AnsweredAlone(ws, actions, j, id, userId, ip)
    {
      assert IsAnnounced(ws, actions, n, id, userId, ip);
      var j :| j < n && AnsweredAlone(ws, actions, j, id, userId, ip);
      MarkedGrows(ws, actions, j, n, userId, ip);
    }
    if rows != [] && exists j :: AnsweredAlone(ws, actions, j, rows[0], userId, ip) {
      assert IsAnnounced(ws, actions, n, rows[0], userId, ip);
    }
  }

  // ---------- Events recorded one after another ----------

  /** The table and the notices after recording events in turn, under ids 0, 1, 2 and so on. */
  function TableAfter(events: seq<Event>): Table {
    if events == [] then []
    else
      var n := |events| - 1;
      Recorded(TableAfter(events[..n]), events[n], n, n)
  }

  function NoticesAfter(events: seq<Event>): seq<Notice> {
    if events == [] then []
    else
      var n := |events| - 1;
      NoticesAfter(events[..n]) + Noticed(TableAfter(events), events[n], n)
  }

  predicate IsLoginFrom(e: Event, userId: Bytes, ip: Bytes) {
    e.kind.LoginSucceeded? && e.userId == Some(userId) && e.ipAddress == Some(ip)
  }

  /** The event leaves a successful row of this user from this address: it is such a login, or
      such a logout that finds nothing to close. */
  predicate Marks(events: seq<Event>, i: nat, userId: Bytes, ip: Bytes)
    requires i < |events|
  {
    || IsLoginFrom(events[i], userId, ip)
    || (&& events[i].kind.Logout? && events[i].userId == Some(userId) && events[i].ipAddress == Some(ip)
        && Affected(TableAfter(events[..i]), events[i]) == 0)
  }

  function FirstMark(events: seq<Event>, userId: Bytes, ip: Bytes): (first: Option<nat>)
    ensures first.Some? ==> first.value < |events|
  {
    if events == [] then None
    else
      var n := |events| - 1;
      var earlier := FirstMark(events[..n], userId, ip);
      if earlier.Some? then earlier else if Marks(events, n, userId, ip) then Some(n) else None
  }

  ghost predicate HasRowFrom(table: Table, userId: Bytes, ip: Bytes) {
    exists i :: 0 <= i < |table| && IsFrom(table[i], userId, ip)
  }

  lemma HasRowFromSnoc(table: Table, row: Row, userId: Bytes, ip: Bytes)
    ensures HasRowFrom(table + [row], userId, ip) <==> HasRowFrom(table, userId, ip) || IsFrom(row, userId, ip)
  {
    var longer := table + [row];
    assert longer[|table|] == row;
    assert forall i :: 0 <= i < |table| ==> longer[i] == table[i];
  }

  lemma ClosingKeepsRowsFrom(table: Table, e: Event, now: int, userId: Bytes, ip: Bytes)
    ensures HasRowFrom(Closed(table, e, now), userId, ip) <==> HasRowFrom(table, userId, ip)
  {
    ClosedPointwise(table, e, now);
    assert forall i :: 0 <= i < |table| ==> (IsFrom(Closed(table, e, now)[i], userId, ip) <==> IsFrom(table[i], userId, ip));
  }

  lemma {:induction false} MarkedIffRow(events: seq<Event>, userId: Bytes, ip: Bytes)
    ensures FirstMark(events, userId, ip).Some? <==> HasRowFrom(TableAfter(events), userId, ip)
  {
    if events != [] {
      var n := |events| - 1;
      var table, e := TableAfter(events[..n]), events[n];
      MarkedIffRow(events[..n], userId, ip);
      HasRowFromSnoc(table, EventRow(e, n, n), userId, ip);
      ClosingKeepsRowsFrom(table, e, n, userId, ip);
      HasRowFromSnoc(Closed(table, e, n), LogoutRow(e, n, n), userId, ip);
    }
  }

  lemma {:induction false} IdsBelow(events: seq<Event>)
    ensures forall i :: 0 <= i < |TableAfter(events)| ==> TableAfter(events)[i].id < |events|
  {
    if events != [] {
      var n := |events| - 1;
      IdsBelow(events[..n]);
      ClosedPointwise(TableAfter(events[..n]), events[n], n);
    }
  }

  /** The notices about one user and address. */
  function About(notices: seq<Notice>, userId: Bytes, ip: Bytes): seq<Notice> {
    if notices == [] then []
    else
      var n := |notices| - 1;
      About(notices[..n], userId, ip)
        + if notices[n].userId == userId && notices[n].ip == ip then [notices[n]] else []
  }

  /** One at a time, a login notifies exactly when the table held no successful row of its user
      and address before it. */
  lemma SequentialNotice(table: Table, e: Event, id: int, now: int)
    requires e.kind.LoginSucceeded? && Identified(e)
    requires forall i :: 0 <= i < |table| ==> table[i].id != id
    ensures Noticed(Recorded(table, e, id, now), e, id) != []
       <==> !HasRowFrom(table, e.userId.value, e.ipAddress.value)
  {
    var after, userId, ip := Recorded(table, e, id, now), e.userId.value, e.ipAddress.value;
    assert after == table + [EventRow(e, id, now)];
    if i :| 0 <= i < |table| && IsFrom(table[i], userId, ip) {
      assert IsFrom(after[i], userId, ip) && after[i].id != id;
    }
    if Seen(after, userId, ip, id) {
      var i :| 0 <= i < |after| && IsFrom(after[i], userId, ip) && after[i].id != id;
      assert i < |table|;
    }
  }

  lemma AboutSnoc(notices: seq<Notice>, notice: Notice, userId: Bytes, ip: Bytes)
    ensures About(notices + [notice], userId, ip)
         == About(notices, userId, ip) + if notice.userId == userId && notice.ip == ip then [notice] else []
  {
    assert (notices + [notice])[..|notices|] == notices;
  }

  /** Over any sequence of events recorded one at a time, a user is told of an address once if the
      first event to leave a successful row of theirs from it is a login, by that login; and
      never if there is no such event, or if it is a logout. */
  lemma {:induction false} FirstMarkDecides(events: seq<Event>, userId: Bytes, ip: Bytes)
    ensures About(NoticesAfter(events), userId, ip) ==
      match FirstMark(events, userId, ip)
      case None => []
      case Some(i) => if IsLoginFrom(events[i], userId, ip) then [Notice(i, userId, ip)] else []
  {
    if events != [] {
      var n := |events| - 1;
      var table, e := TableAfter(events[..n]), events[n];
      FirstMarkDecides(events[..n], userId, ip);
      IdsBelow(events[..n]);
      MarkedIffRow(events[..n], userId, ip);
      var before, sent := NoticesAfter(events[..n]), Noticed(TableAfter(events), e, n);
      assert NoticesAfter(events) == before + sent;
      if sent == [] {
        assert before + sent == before;
      } else {
        AboutSnoc(before, sent[0], userId, ip);
        assert sent == [sent[0]];
      }
      if IsLoginFrom(e, userId, ip) {
        SequentialNotice(table, e, n, n);
        assert Marks(events, n, userId, ip);
      }
      var first := FirstMark(events[..n], userId, ip);
      assert first.Some? ==> events[..n][first.value] == events[first.value];
    }
  }

  /** A login from an address nobody logged in from goes unannounced when an unmatched logout
      came from it before: the row of that logout counts as successful. */
  lemma LogoutSuppressesNotice(userId: Bytes, ip: Bytes)
    ensures var logout := Event(Logout, Some(userId), None, None, Some(ip), None);
      var login := Event(LoginSucceeded, Some(userId), None, None, Some(ip), None);
      NoticesAfter([logout, login]) == []
  {
    var logout := Event(Logout, Some(userId), None, None, Some(ip), None);
    var login := Event(LoginSucceeded, Some(userId), None, None, Some(ip), None);
    assert [logout, login][..1] == [logout] && [logout][..0] == [];
    assert TableAfter([logout]) == [LogoutRow(logout, 0, 0)];
    var table := TableAfter([logout, login]);
    assert table == [LogoutRow(logout, 0, 0), EventRow(login, 1, 1)];
    assert IsFrom(table[0], userId, ip) && table[0].id != 1;
    assert NoticesAfter([logout, login]) == NoticesAfter([logout]) + Noticed(table, login, 1);
    assert NoticesAfter([logout]) == NoticesAfter([]) + Noticed([LogoutRow(logout, 0, 0)], logout, 0);
  }

  /** At most once is not at least once: two first logins that overlap both see the other's row. */
  lemma OverlapLosesNotice(userId: Bytes, ip: Bytes)
    ensures var login := Event(LoginSucceeded, Some(userId), None, None, Some(ip), None);
      var w2 := After(After(EMPTY, Begin(login, 0, 0)), Begin(login, 1, 0));
      var w4 := After(After(w2, LookUp(0, true)), LookUp(1, true));
      AtStage(w4, 0, Finished) && AtStage(w4, 1, Finished) && w4.notices == []
  {
    var login := Event(LoginSucceeded, Some(userId), None, None, Some(ip), None);
    var w2 := After(After(EMPTY, Begin(login, 0, 0)), Begin(login, 1, 0));
    assert w2.table == [EventRow(login, 0, 0), EventRow(login, 1, 0)];
    assert IsFrom(w2.table[0], userId, ip) && IsFrom(w2.table[1], userId, ip);
    assert Seen(w2.table, userId, ip, 0) && Seen(w2.table, userId, ip, 1);
  }
}
