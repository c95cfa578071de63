/**
 The session protocol behind the tabs: one UI thread and one worker per started shell session,
 interleaved at critical-section granularity. Generations, presence checks and the closing flag
 decide who owns a session; every Close call is recorded in a log.
 */
module TabSessions {
  import opened Numerals
  import opened TabManager

  /** Where a worker stands between its critical sections, with the session it opened. */
  datatype Phase =
    | Opening
    | Opened(result: Option<nat>)
    | Cleared(result: Option<nat>)
    | Rejected(session: nat)
    | Copying(session: nat)
    | Ended(last: Option<nat>)
    | ClosingOwn(session: nat)
    | Done(last: Option<nat>)

  datatype Worker = Worker(tab: nat, generation: nat, phase: Phase)

  /** The UI thread between two keys, or inside an operation that left the critical section. */
  datatype UiNext = ToIdle | ToStart(tab: nat) | ToStop
  datatype Ui = Idle | Closing(sessions: seq<nat>, next: UiNext) | Begin(tab: nat) | Commit(tab: nat, generation: nat) | Stopped

  datatype World = World(tabs: Tabs, workers: seq<Worker>, ui: Ui, closeLog: seq<nat>, sessionCount: nat)

  datatype Action =
    | UiOpen(key: string)
    | UiCloseTab(index: int)
    | UiRestart
    | UiActivate(index: int)
    | UiQuit
    | UiCloseNext
    | UiBegin
    | UiCommit
    | WorkerOpens(k: nat, ok: bool)
    | WorkerClears(k: nat)
    | WorkerInstalls(k: nat)
    | WorkerClosesRejected(k: nat)
    | WorkerEnds(k: nat)
    | WorkerFinishes(k: nat)
    | WorkerClosesOwn(k: nat)

  function Init(name: string): World {
    World(Tabs([Tab(name, false, Running, None, false, 0, false)], [0], 0, false), [], Idle, [], 0)
  }

  function Holding(session: Option<nat>): seq<nat> {
    if session.Some? then [session.value] else []
  }

  function UiAct(w: World, a: Action): World
    requires Shape(w)
  {
    var t := w.tabs;
    match (w.ui, a)
    case (Idle, UiOpen(key)) =>
      var found := FirstWithKey(t, key, 0);
      if found < |t.order| then w.(tabs := Activate(t, found))
      else w.(tabs := NewTab(t, key, true), ui := Begin(|t.pool|))
    case (Idle, UiCloseTab(index)) =>
      if 0 <= index < |t.order| && |t.order| > 1 then
        w.(tabs := CloseAt(t, index), ui := Closing(Holding(t.pool[t.order[index]].session), ToIdle))
      else w
    case (Idle, UiRestart) =>
      var tab := t.order[t.active];
      if t.pool[tab].shell then
        w.(tabs := RestartTab(t, tab), ui := Closing(Holding(t.pool[tab].session), ToStart(tab)))
      else w
    case (Idle, UiActivate(index)) => w.(tabs := Activate(t, index))
    case (Idle, UiQuit) =>
      var (pool, sessions) := RetireAll(t.pool, t.order, |t.order|);
      w.(tabs := t.(pool := pool, closing := true), ui := Closing(sessions, ToStop))
    case (Closing(sessions, next), UiCloseNext) =>
      if sessions != [] then w.(ui := Closing(sessions[1..], next), closeLog := w.closeLog + [sessions[0]])
      else w.(ui := match next case ToIdle => Idle case ToStart(tab) => Begin(tab) case ToStop => Stopped)
    case (Begin(tab), UiBegin) =>
      w.(tabs := StartBegin(t, tab), ui := Commit(tab, t.pool[tab].generation + 1))
    case (Commit(tab, generation), UiCommit) =>
      if StartAllowed(t, tab, generation) then
        w.(tabs := Connecting(t, tab, true), workers := w.workers + [Worker(tab, generation, Opening)], ui := Idle)
      else w.(ui := Idle)
    case _ => w
  }

  function WorkerAct(w: World, a: Action): World
    requires Shape(w)
  {
    if !IsWorkerAction(a) || a.k >= |w.workers| then w
    else
      var me := w.workers[a.k];
      match (me.phase, a)
      case (Opening, WorkerOpens(k, ok)) =>
        if ok then Move(w, k, Opened(Some(w.sessionCount))).(sessionCount := w.sessionCount + 1)
        else Move(w, k, Opened(None))
      case (Opened(result), WorkerClears(k)) =>
        Move(w, k, Cleared(result)).(tabs := ClearConnectCancel(w.tabs, me.tab, me.generation))
      case (Cleared(result), WorkerInstalls(k)) =>
        if result.None? then Move(w, k, Ended(None))
        else if StartAllowed(w.tabs, me.tab, me.generation) then
          Move(w, k, Copying(result.value)).(tabs := SetSession(w.tabs, me.tab, me.generation, result.value))
        else Move(w, k, Rejected(result.value))
      case (Rejected(session), WorkerClosesRejected(k)) =>
        Move(w, k, Copying(session)).(closeLog := w.closeLog + [session])
      case (Copying(session), WorkerEnds(k)) => Move(w, k, Ended(Some(session)))
      case (Ended(last), WorkerFinishes(k)) =>
        var held := w.tabs.pool[me.tab].session;
        if Current(w.tabs, me.tab, me.generation) && held.Some? then
          Move(w, k, ClosingOwn(held.value)).(tabs := Finish(w.tabs, me.tab, me.generation))
        else Move(w, k, Done(last)).(tabs := Finish(w.tabs, me.tab, me.generation))
      case (ClosingOwn(session), WorkerClosesOwn(k)) =>
        Move(w, k, Done(Some(session))).(closeLog := w.closeLog + [session])
      case _ => w
  }

  predicate IsWorkerAction(a: Action) {
    a.WorkerOpens? || a.WorkerClears? || a.WorkerInstalls? || a.WorkerClosesRejected? || a.WorkerEnds?
    || a.WorkerFinishes? || a.WorkerClosesOwn?
  }

  function Move(w: World, k: nat, phase: Phase): World
    requires k < |w.workers|
  {
    w.(workers := w.workers[k := w.workers[k].(phase := phase)])
  }

  function Act(w: World, a: Action): World
    requires Shape(w)
  {
    if IsWorkerAction(a) then WorkerAct(w, a) else UiAct(w, a)
  }

  // ---------------------------------------------------------------- who holds a session

  function Has(holder: Option<nat>, session: nat): nat {
    if holder == Some(session) then 1 else 0
  }

  function TabsHold(pool: seq<Tab>, session: nat): nat {
    if pool == [] then 0
    else TabsHold(pool[..|pool| - 1], session) + Has(pool[|pool| - 1].session, session)
  }

  /** The session a worker alone knows: opened but not installed, or taken back to be closed. */
  function InHand(phase: Phase): Option<nat> {
    match phase
    case Opened(result) => result
    case Cleared(result) => result
    case Rejected(session) => Some(session)
    case ClosingOwn(session) => Some(session)
    case _ => None
  }

  function WorkersHold(workers: seq<Worker>, session: nat): nat {
    if workers == [] then 0
    else WorkersHold(workers[..|workers| - 1], session) + Has(InHand(workers[|workers| - 1].phase), session)
  }

  function Occurrences(sessions: seq<nat>, session: nat): nat {
    if sessions == [] then 0
    else Occurrences(sessions[1..], session) + if sessions[0] == session then 1 else 0
  }

  function ClosingList(ui: Ui): seq<nat> {
    if ui.Closing? then ui.sessions else []
  }

  /** The places a session can be: installed, in a worker's hands, on the UI's closing list, closed. */
  function Places(w: World, session: nat): nat {
    TabsHold(w.tabs.pool, session) + WorkersHold(w.workers, session)
    + Occurrences(ClosingList(w.ui), session) + Occurrences(w.closeLog, session)
  }

  /** Every session ever opened is in exactly one place, exactly once. */
  ghost predicate Conserved(w: World) {
    forall session: nat :: Places(w, session) == if session < w.sessionCount then 1 else 0
  }

  function SessionOf(phase: Phase): Option<nat> {
    match phase
    case Opening => None
    case Opened(result) => result
    case Cleared(result) => result
    case Ended(last) => last
    case Done(last) => last
    case Rejected(session) => Some(session)
    case Copying(session) => Some(session)
    case ClosingOwn(session) => Some(session)
  }

  // ---------------------------------------------------------------- the invariant

  predicate Shape(w: World) {
    && WellFormed(w.tabs)
    && (forall k | 0 <= k < |w.workers| :: w.workers[k].tab < |w.tabs.pool|)
    && (w.ui.Begin? ==> w.ui.tab < |w.tabs.pool|)
    && (w.ui.Commit? ==> w.ui.tab < |w.tabs.pool|)
    && (w.ui.Closing? && w.ui.next.ToStart? ==> w.ui.next.tab < |w.tabs.pool|)
  }

  predicate Generations(w: World)
    requires Shape(w)
  {
    && (forall k | 0 <= k < |w.workers| :: w.workers[k].generation <= w.tabs.pool[w.workers[k].tab].generation)
    && (forall j, k | 0 <= j < k < |w.workers| ::
          w.workers[j].tab != w.workers[k].tab || w.workers[j].generation != w.workers[k].generation)
  }

  /** No worker runs for the tab's present generation, and nothing is installed. */
  predicate Vacant(w: World, tab: nat)
    requires tab < |w.tabs.pool|
  {
    && w.tabs.pool[tab].session == None
    && (forall k | 0 <= k < |w.workers| ::
          w.workers[k].tab != tab || w.workers[k].generation != w.tabs.pool[tab].generation)
  }

  predicate UiConsistent(w: World)
    requires Shape(w)
  {
    && (w.ui.Begin? ==> Vacant(w, w.ui.tab))
    && (w.ui.Closing? && w.ui.next.ToStart? ==> Vacant(w, w.ui.next.tab))
    && (w.ui.Commit? ==> Vacant(w, w.ui.tab) && w.ui.generation == w.tabs.pool[w.ui.tab].generation)
    && (w.tabs.closing <==> w.ui.Stopped? || (w.ui.Closing? && w.ui.next.ToStop?))
  }

  /** Worker k serves the tab's present generation and is between installing and giving up session. */
  predicate Serves(w: World, k: nat, tab: nat, session: nat)
    requires tab < |w.tabs.pool|
  {
    && k < |w.workers| && w.workers[k].tab == tab && w.workers[k].generation == w.tabs.pool[tab].generation
    && (w.workers[k].phase == Copying(session) || w.workers[k].phase == Ended(Some(session)))
  }

  ghost predicate Installed(w: World)
    requires Shape(w)
  {
    forall tab | 0 <= tab < |w.tabs.pool| && w.tabs.pool[tab].session.Some? ::
      && !w.tabs.closing && tab in w.tabs.order
      && exists k: nat :: Serves(w, k, tab, w.tabs.pool[tab].session.value)
  }

  predicate OwnSessions(w: World) {
    && (forall k | 0 <= k < |w.workers| && SessionOf(w.workers[k].phase).Some? ::
          SessionOf(w.workers[k].phase).value < w.sessionCount)
    && (forall j, k | 0 <= j < k < |w.workers| && SessionOf(w.workers[j].phase).Some? ::
          SessionOf(w.workers[j].phase) != SessionOf(w.workers[k].phase))
  }

  predicate GivenUp(w: World, session: nat) {
    session in ClosingList(w.ui) || session in w.closeLog
  }

  predicate Placed(w: World)
    requires Shape(w)
  {
    forall k | 0 <= k < |w.workers| ::
      match w.workers[k].phase
      case Copying(s) => w.tabs.pool[w.workers[k].tab].session == Some(s) || GivenUp(w, s)
      case Ended(Some(s)) => w.tabs.pool[w.workers[k].tab].session == Some(s) || GivenUp(w, s)
      case Done(Some(s)) => GivenUp(w, s)
      case _ => true
  }

  ghost predicate Structured(w: World) {
    Shape(w) && Generations(w) && UiConsistent(w) && Installed(w) && OwnSessions(w) && Placed(w)
  }

  ghost predicate Inv(w: World) {
    Structured(w) && Conserved(w)
  }

  // ---------------------------------------------------------------- bookkeeping of holders

  lemma {:induction false} TabsHoldUpdate(pool: seq<Tab>, i: nat, record: Tab, session: nat)
    requires i < |pool|
    ensures TabsHold(pool[i := record], session) + Has(pool[i].session, session)
         == TabsHold(pool, session) + Has(record.session, session)
  {
    hide Has;
    var n := |pool| - 1;
    if i < n {
      TabsHoldUpdate(pool[..n], i, record, session);
      assert pool[i := record][..n] == pool[..n][i := record];
    } else {
      assert pool[i := record][..n] == pool[..n];
    }
  }

  lemma {:induction false} WorkersHoldUpdate(workers: seq<Worker>, i: nat, worker: Worker, session: nat)
    requires i < |workers|
    ensures WorkersHold(workers[i := worker], session) + Has(InHand(workers[i].phase), session)
         == WorkersHold(workers, session) + Has(InHand(worker.phase), session)
  {
    hide Has, InHand;
    var n := |workers| - 1;
    if i < n {
      WorkersHoldUpdate(workers[..n], i, worker, session);
      assert workers[i := worker][..n] == workers[..n][i := worker];
    } else {
      assert workers[i := worker][..n] == workers[..n];
    }
  }

  lemma {:induction false} OccurrencesConcat(a: seq<nat>, b: seq<nat>, session: nat)
    ensures Occurrences(a + b, session) == Occurrences(a, session) + Occurrences(b, session)
  {
    if a == [] {
      assert a + b == b;
    } else {
      OccurrencesConcat(a[1..], b, session);
      assert (a + b)[1..] == a[1..] + b;
    }
  }

  lemma OccurrencesOne(holder: Option<nat>, session: nat)
    ensures Occurrences(Holding(holder), session) == Has(holder, session)
  {
    if holder.Some? { assert [holder.value][1..] == []; }
  }

  predicate SameOwners(t: Tabs, t': Tabs) {
    && |t'.pool| == |t.pool| && t'.order == t.order && t'.closing == t.closing && WellFormed(t')
    && forall i | 0 <= i < |t.pool| ::
         t'.pool[i].session == t.pool[i].session && t'.pool[i].generation == t.pool[i].generation
  }

  lemma {:induction false} SameOwnersHold(pool: seq<Tab>, pool': seq<Tab>, session: nat)
    requires |pool| == |pool'| && forall i | 0 <= i < |pool| :: pool'[i].session == pool[i].session
    ensures TabsHold(pool, session) == TabsHold(pool', session)
  {
    if pool != [] {
      SameOwnersHold(pool[..|pool| - 1], pool'[..|pool| - 1], session);
    }
  }

  // ---------------------------------------------------------------- steps that move no session

  lemma DisplayKeepsInv(w: World, t': Tabs)
    requires Inv(w) && SameOwners(w.tabs, t')
    ensures Inv(w.(tabs := t'))
  {
    var w' := w.(tabs := t');
    assert Conserved(w') by {
      forall session: nat
        ensures Places(w', session) == Places(w, session)
      {
        SameOwnersHold(w.tabs.pool, t'.pool, session);
      }
    }
    assert Installed(w') by {
      forall tab | 0 <= tab < |t'.pool| && t'.pool[tab].session.Some?
        ensures exists k: nat :: Serves(w', k, tab, t'.pool[tab].session.value)
      {
        var k: nat :| Serves(w, k, tab, w.tabs.pool[tab].session.value);
        assert Serves(w', k, tab, t'.pool[tab].session.value);
      }
    }
  }

  /** A tab record changes and the UI moves on; every other tab keeps its servant. */
  lemma OthersStayInstalled(w: World, w': World, changed: nat)
    requires Shape(w) && Installed(w) && Shape(w') && changed < |w.tabs.pool| == |w'.tabs.pool|
    requires !w'.tabs.closing && w'.tabs.pool[changed].session == None
    requires forall i | 0 <= i < |w.tabs.pool| && i != changed :: w'.tabs.pool[i] == w.tabs.pool[i]
    requires forall tab | tab in w.tabs.order && tab != changed :: tab in w'.tabs.order
    requires |w.workers| <= |w'.workers| && forall k | 0 <= k < |w.workers| :: w'.workers[k] == w.workers[k]
    ensures Installed(w')
  {
    forall tab | 0 <= tab < |w'.tabs.pool| && w'.tabs.pool[tab].session.Some?
      ensures exists k: nat :: Serves(w', k, tab, w'.tabs.pool[tab].session.value)
    {
      var k: nat :| Serves(w, k, tab, w.tabs.pool[tab].session.value);
      assert Serves(w', k, tab, w'.tabs.pool[tab].session.value);
    }
  }

  /** Tabs, workers and closing flag as they were: whoever was installed still is. */
  lemma BystandersStayInstalled(w: World, w': World)
    requires Shape(w) && Installed(w) && Shape(w') && w'.tabs == w.tabs && w'.workers == w.workers
    ensures Installed(w')
  {
    forall tab | 0 <= tab < |w'.tabs.pool| && w'.tabs.pool[tab].session.Some?
      ensures exists k: nat :: Serves(w', k, tab, w'.tabs.pool[tab].session.value)
    {
      var k: nat :| Serves(w, k, tab, w.tabs.pool[tab].session.value);
      assert Serves(w', k, tab, w'.tabs.pool[tab].session.value);
    }
  }

  lemma NewTabConserves(w: World, key: string, ui: Ui)
    requires Conserved(w) && ClosingList(ui) == ClosingList(w.ui)
    ensures Conserved(w.(tabs := NewTab(w.tabs, key, true), ui := ui))
  {
    assert NewTab(w.tabs, key, true).pool[..|w.tabs.pool|] == w.tabs.pool;
    assert forall session: nat ::
      Places(w.(tabs := NewTab(w.tabs, key, true), ui := ui), session) == Places(w, session);
  }

  lemma OpenKeepsInv(w: World, key: string)
    requires Inv(w) && w.ui.Idle?
    ensures Inv(UiAct(w, UiOpen(key)))
  {
    hide Conserved;
    var t := w.tabs;
    var found := FirstWithKey(t, key, 0);
    if found < |t.order| {
      DisplayKeepsInv(w, Activate(t, found));
    } else {
      var w' := w.(tabs := NewTab(t, key, true), ui := Begin(|t.pool|));
      NewTabConserves(w, key, Begin(|t.pool|));
      assert Installed(w') by {
        forall tab | 0 <= tab < |w'.tabs.pool| && w'.tabs.pool[tab].session.Some?
          ensures tab in w'.tabs.order
          ensures exists k: nat :: Serves(w', k, tab, w'.tabs.pool[tab].session.value)
        {
          var k: nat :| Serves(w, k, tab, t.pool[tab].session.value);
          assert Serves(w', k, tab, w'.tabs.pool[tab].session.value);
        }
      }
    }
  }

  // ---------------------------------------------------------------- the UI takes a session and closes it

  /** Taking the session of one tab onto an empty closing list keeps every session in one place. */
  lemma TakingConserves(w: World, w': World, tab: nat, record: Tab)
    requires Conserved(w) && tab < |w.tabs.pool| && w.ui.Idle?
    requires w'.tabs.pool == w.tabs.pool[tab := record] && record.session == None
    requires w'.workers == w.workers && w'.closeLog == w.closeLog && w'.sessionCount == w.sessionCount
    requires ClosingList(w'.ui) == Holding(w.tabs.pool[tab].session)
    ensures Conserved(w')
  {
    forall session: nat
      ensures Places(w', session) == Places(w, session)
    {
      TabsHoldUpdate(w.tabs.pool, tab, record, session);
      OccurrencesOne(w.tabs.pool[tab].session, session);
    }
  }

  lemma CloseTabKeepsInv(w: World, index: nat)
    requires Inv(w) && w.ui.Idle? && index < |w.tabs.order| && |w.tabs.order| > 1
    ensures Inv(w.(tabs := CloseAt(w.tabs, index),
                   ui := Closing(Holding(w.tabs.pool[w.tabs.order[index]].session), ToIdle)))
  {
    hide Conserved;
    var t := w.tabs;
    var tab := t.order[index];
    var w' := w.(tabs := CloseAt(t, index), ui := Closing(Holding(t.pool[tab].session), ToIdle));
    CloseAtKeepsForm(t, index);
    TakingConserves(w, w', tab, t.pool[tab].(session := None, connecting := false));
    assert forall x | x in t.order && x != tab :: x in w'.tabs.order by { OrderWithout(t.order, index); }
    OthersStayInstalled(w, w', tab);
  }

  lemma OrderWithout(order: seq<nat>, index: nat)
    requires index < |order|
    ensures forall x | x in order && x != order[index] :: x in order[..index] + order[index + 1..]
  {
    forall x | x in order && x != order[index]
      ensures x in order[..index] + order[index + 1..]
    {
      var i :| 0 <= i < |order| && order[i] == x;
      if i < index { assert order[..index][i] == x; } else { assert order[index + 1..][i - index - 1] == x; }
    }
  }

  lemma RestartKeepsInv(w: World)
    requires Inv(w) && w.ui.Idle?
    ensures Inv(UiAct(w, UiRestart))
  {
    hide Conserved;
    var t := w.tabs;
    var tab := t.order[t.active];
    if t.pool[tab].shell {
      var w' := w.(tabs := RestartTab(t, tab), ui := Closing(Holding(t.pool[tab].session), ToStart(tab)));
      TakingConserves(w, w', tab, w'.tabs.pool[tab]);
      OthersStayInstalled(w, w', tab);
    }
  }

  lemma {:induction false} RetireAllRetires(pool: seq<Tab>, order: seq<nat>, n: nat)
    requires n <= |order| && forall i | 0 <= i < |order| :: order[i] < |pool|
    requires forall i, j | 0 <= i < j < |order| :: order[i] != order[j]
    ensures forall tab | 0 <= tab < |pool| ::
      RetireAll(pool, order, n).0[tab] == if tab in order[..n] then Retired(pool[tab]) else pool[tab]
    ensures forall i | 0 <= i < n && pool[order[i]].session.Some? ::
      pool[order[i]].session.value in RetireAll(pool, order, n).1
  {
    if n > 0 {
      RetireAllRetires(pool, order, n - 1);
      assert order[..n] == order[..n - 1] + [order[n - 1]];
      assert order[n - 1] !in order[..n - 1];
    }
  }

  lemma {:induction false} RetireAllCounts(pool: seq<Tab>, order: seq<nat>, n: nat, session: nat)
    requires n <= |order| && forall i | 0 <= i < |order| :: order[i] < |pool|
    ensures TabsHold(RetireAll(pool, order, n).0, session) + Occurrences(RetireAll(pool, order, n).1, session)
         == TabsHold(pool, session)
  {
    if n > 0 {
      RetireAllCounts(pool, order, n - 1, session);
      var before := RetireAll(pool, order, n - 1);
      var tab := order[n - 1];
      TabsHoldUpdate(before.0, tab, Retired(before.0[tab]), session);
      OccurrencesConcat(before.1, Holding(before.0[tab].session), session);
      OccurrencesOne(before.0[tab].session, session);
    }
  }

  /** Every open tab retired and its session on the closing list. */
  lemma RetiringKeepsStructure(w: World, pool: seq<Tab>, sessions: seq<nat>)
    requires Structured(w) && w.ui.Idle? && |pool| == |w.tabs.pool|
    requires forall tab | 0 <= tab < |pool| ::
      pool[tab] == if tab in w.tabs.order then Retired(w.tabs.pool[tab]) else w.tabs.pool[tab]
    requires forall tab | 0 <= tab < |pool| && tab in w.tabs.order && w.tabs.pool[tab].session.Some? ::
      w.tabs.pool[tab].session.value in sessions
    ensures Structured(w.(tabs := w.tabs.(pool := pool, closing := true), ui := Closing(sessions, ToStop)))
  {
  }

  lemma QuitKeepsInv(w: World)
    requires Inv(w) && w.ui.Idle?
    ensures var (pool, sessions) := RetireAll(w.tabs.pool, w.tabs.order, |w.tabs.order|);
      Inv(w.(tabs := w.tabs.(pool := pool, closing := true), ui := Closing(sessions, ToStop)))
  {
    hide Conserved, Installed, Generations, OwnSessions, Placed, UiConsistent;
    var t := w.tabs;
    var (pool, sessions) := RetireAll(t.pool, t.order, |t.order|);
    var w' := w.(tabs := t.(pool := pool, closing := true), ui := Closing(sessions, ToStop));
    RetireAllRetires(t.pool, t.order, |t.order|);
    assert t.order[..|t.order|] == t.order;
    forall tab | 0 <= tab < |pool| && tab in t.order && t.pool[tab].session.Some?
      ensures t.pool[tab].session.value in sessions
    {
      var i :| 0 <= i < |t.order| && t.order[i] == tab;
    }
    RetiringKeepsStructure(w, pool, sessions);
    QuitConserves(w, w');
  }

  lemma QuitConserves(w: World, w': World)
    requires Shape(w) && Conserved(w) && w.ui.Idle?
    requires (w'.tabs.pool, ClosingList(w'.ui)) == RetireAll(w.tabs.pool, w.tabs.order, |w.tabs.order|)
    requires w'.workers == w.workers && w'.closeLog == w.closeLog && w'.sessionCount == w.sessionCount
    ensures Conserved(w')
  {
    forall session: nat
      ensures Places(w', session) == Places(w, session)
    {
      RetireAllCounts(w.tabs.pool, w.tabs.order, |w.tabs.order|, session);
    }
  }

  lemma CloseNextConserves(w: World)
    requires Shape(w) && Conserved(w) && w.ui.Closing?
    ensures Conserved(UiAct(w, UiCloseNext))
  {
    var sessions := w.ui.sessions;
    forall session: nat
      ensures Places(UiAct(w, UiCloseNext), session) == Places(w, session)
    {
      if sessions != [] {
        OccurrencesConcat(w.closeLog, [sessions[0]], session);
        OccurrencesOne(Some(sessions[0]), session);
      }
    }
  }

  lemma CloseNextKeepsInv(w: World)
    requires Inv(w) && w.ui.Closing?
    ensures Inv(UiAct(w, UiCloseNext))
  {
    hide Conserved;
    var w' := UiAct(w, UiCloseNext);
    CloseNextConserves(w);
    if w.ui.sessions != [] {
      assert w.ui.sessions == [w.ui.sessions[0]] + w.ui.sessions[1..];
      assert forall s | GivenUp(w, s) :: GivenUp(w', s);
    }
    BystandersStayInstalled(w, w');
  }

  lemma RecordConserves(w: World, w': World, tab: nat, record: Tab)
    requires Conserved(w) && tab < |w.tabs.pool| && record.session == w.tabs.pool[tab].session
    requires w'.tabs.pool == w.tabs.pool[tab := record] && ClosingList(w'.ui) == ClosingList(w.ui)
    requires w'.workers == w.workers && w'.closeLog == w.closeLog && w'.sessionCount == w.sessionCount
    ensures Conserved(w')
  {
    forall session: nat
      ensures Places(w', session) == Places(w, session)
    {
      TabsHoldUpdate(w.tabs.pool, tab, record, session);
    }
  }

  lemma BeginKeepsInv(w: World)
    requires Inv(w) && w.ui.Begin?
    ensures Inv(UiAct(w, UiBegin))
  {
    hide Conserved;
    var tab := w.ui.tab;
    var w' := UiAct(w, UiBegin);
    RecordConserves(w, w', tab, w'.tabs.pool[tab]);
    OthersStayInstalled(w, w', tab);
  }

  /** Starting a worker hands it no session yet. */
  lemma SpawnKeepsInv(w: World, tab: nat, generation: nat)
    requires Inv(w) && tab < |w.tabs.pool| && w.ui.Idle?
    requires Vacant(w, tab) && generation == w.tabs.pool[tab].generation
    ensures Inv(w.(workers := w.workers + [Worker(tab, generation, Opening)]))
  {
    hide Conserved;
    var w' := w.(workers := w.workers + [Worker(tab, generation, Opening)]);
    OthersStayInstalled(w, w', tab) by { assert !w.tabs.closing; }
    assert Conserved(w') by { SpawnConserves(w, tab, generation); }
  }

  lemma SpawnConserves(w: World, tab: nat, generation: nat)
    requires Conserved(w)
    ensures Conserved(w.(workers := w.workers + [Worker(tab, generation, Opening)]))
  {
    var w' := w.(workers := w.workers + [Worker(tab, generation, Opening)]);
    assert w'.workers[..|w.workers|] == w.workers;
    assert forall session: nat :: Places(w', session) == Places(w, session);
  }

  lemma CommitKeepsInv(w: World)
    requires Inv(w) && w.ui.Commit?
    ensures Inv(UiAct(w, UiCommit))
  {
    hide Conserved;
    var tab := w.ui.tab;
    var idle := w.(ui := Idle);
    assert Inv(idle) by {
      RecordConserves(w, idle, tab, w.tabs.pool[tab]);
      BystandersStayInstalled(w, idle);
    }
    if StartAllowed(w.tabs, tab, w.ui.generation) {
      DisplayKeepsInv(idle, Connecting(w.tabs, tab, true));
      SpawnKeepsInv(idle.(tabs := Connecting(w.tabs, tab, true)), tab, w.ui.generation);
    }
  }

  // ---------------------------------------------------------------- worker steps

  lemma MoveConserves(w: World, w': World, k: nat, phase: Phase)
    requires Conserved(w) && k < |w.workers| && w'.workers == Move(w, k, phase).workers
    requires w'.tabs == w.tabs && w'.ui == w.ui && w'.sessionCount == w.sessionCount
    requires match (InHand(w.workers[k].phase), InHand(phase))
             case (Some(s), None) => w'.closeLog == w.closeLog + [s]
             case (before, after) => before == after && w'.closeLog == w.closeLog
    ensures Conserved(w')
  {
    forall session: nat
      ensures Places(w', session) == Places(w, session)
    {
      WorkersHoldUpdate(w.workers, k, Worker(w.workers[k].tab, w.workers[k].generation, phase), session);
      OccurrencesConcat(w.closeLog, Holding(InHand(w.workers[k].phase)), session);
      OccurrencesOne(InHand(w.workers[k].phase), session);
    }
  }

  /** A worker moves; whoever else was serving an installed session still does. */
  lemma MoveStaysInstalled(w: World, w': World, k: nat, phase: Phase)
    requires Shape(w) && Installed(w) && Shape(w') && k < |w.workers|
    requires w'.workers == Move(w, k, phase).workers && w'.tabs == w.tabs
    requires forall tab: nat, session: nat | tab < |w.tabs.pool| && Serves(w, k, tab, session) :: Serves(w', k, tab, session)
    ensures Installed(w')
  {
    forall tab | 0 <= tab < |w'.tabs.pool| && w'.tabs.pool[tab].session.Some?
      ensures exists j: nat :: Serves(w', j, tab, w'.tabs.pool[tab].session.value)
    {
      var j: nat :| Serves(w, j, tab, w.tabs.pool[tab].session.value);
      assert Serves(w', j, tab, w'.tabs.pool[tab].session.value);
    }
  }

  lemma OpensKeepsInv(w: World, k: nat, ok: bool)
    requires Inv(w) && k < |w.workers| && w.workers[k].phase == Opening
    ensures Inv(WorkerAct(w, WorkerOpens(k, ok)))
  {
    hide Conserved;
    var w' := WorkerAct(w, WorkerOpens(k, ok));
    var phase := if ok then Opened(Some(w.sessionCount)) else Opened(None);
    MoveStaysInstalled(w, w', k, phase);
    if ok {
      OpeningConserves(w, k);
    } else {
      MoveConserves(w, w', k, phase);
    }
  }

  lemma OpeningConserves(w: World, k: nat)
    requires Conserved(w) && k < |w.workers| && w.workers[k].phase == Opening
    ensures Conserved(Move(w, k, Opened(Some(w.sessionCount))).(sessionCount := w.sessionCount + 1))
  {
    var w' := Move(w, k, Opened(Some(w.sessionCount))).(sessionCount := w.sessionCount + 1);
    forall session: nat
      ensures Places(w', session) == Places(w, session) + Has(Some(w.sessionCount), session)
    {
      WorkersHoldUpdate(w.workers, k, w'.workers[k], session);
    }
  }

  lemma ClearsKeepsInv(w: World, k: nat)
    requires Inv(w) && k < |w.workers| && w.workers[k].phase.Opened?
    ensures Inv(WorkerAct(w, WorkerClears(k)))
  {
    hide Conserved;
    var me := w.workers[k];
    var moved := Move(w, k, Cleared(me.phase.result));
    MoveStaysInstalled(w, moved, k, Cleared(me.phase.result));
    MoveConserves(w, moved, k, Cleared(me.phase.result));
    if Current(w.tabs, me.tab, me.generation) {
      DisplayKeepsInv(moved, Connecting(w.tabs, me.tab, false));
    }
  }

  lemma RefusedKeepsInv(w: World, k: nat)
    requires Inv(w) && k < |w.workers| && w.workers[k].phase.Cleared?
    requires w.workers[k].phase.result.Some?
         ==> !StartAllowed(w.tabs, w.workers[k].tab, w.workers[k].generation)
    ensures Inv(WorkerAct(w, WorkerInstalls(k)))
  {
    hide Conserved;
    var result := w.workers[k].phase.result;
    var phase := if result.None? then Ended(None) else Rejected(result.value);
    MoveStaysInstalled(w, Move(w, k, phase), k, phase);
    MoveConserves(w, Move(w, k, phase), k, phase);
  }

  lemma InstallingKeepsInv(w: World, k: nat)
    requires Inv(w) && k < |w.workers| && w.workers[k].phase.Cleared? && w.workers[k].phase.result.Some?
    requires StartAllowed(w.tabs, w.workers[k].tab, w.workers[k].generation)
    ensures Inv(WorkerAct(w, WorkerInstalls(k)))
  {
    hide Conserved;
    var me := w.workers[k];
    var s := me.phase.result.value;
    var w' := Move(w, k, Copying(s)).(tabs := SetSession(w.tabs, me.tab, me.generation, s));
    NobodyElseServes(w, k);
    InstallingStaysInstalled(w, k);
    assert Placed(w') by { InstallingStaysPlaced(w, k); }
    InstallingConserves(w, k);
  }

  /** While worker k still has to install, its tab holds nothing: only k could be serving it. */
  lemma NobodyElseServes(w: World, k: nat)
    requires Shape(w) && Generations(w) && Installed(w) && k < |w.workers| && w.workers[k].phase.Cleared?
    requires w.workers[k].generation == w.tabs.pool[w.workers[k].tab].generation
    ensures w.tabs.pool[w.workers[k].tab].session == None
  {
  }

  lemma InstallingStaysInstalled(w: World, k: nat)
    requires Shape(w) && Installed(w)
    requires k < |w.workers| && w.workers[k].phase.Cleared? && w.workers[k].phase.result.Some?
    requires StartAllowed(w.tabs, w.workers[k].tab, w.workers[k].generation)
    ensures var me := w.workers[k]; var s := me.phase.result.value;
      var w' := Move(w, k, Copying(s)).(tabs := SetSession(w.tabs, me.tab, me.generation, s));
      Shape(w') && Installed(w')
  {
    var me := w.workers[k];
    var s := me.phase.result.value;
    var w' := Move(w, k, Copying(s)).(tabs := SetSession(w.tabs, me.tab, me.generation, s));
    assert Serves(w', k, me.tab, s);
    forall tab | 0 <= tab < |w'.tabs.pool| && tab != me.tab && w'.tabs.pool[tab].session.Some?
      ensures exists j: nat :: Serves(w', j, tab, w'.tabs.pool[tab].session.value)
    {
      var j: nat :| Serves(w, j, tab, w.tabs.pool[tab].session.value);
      assert Serves(w', j, tab, w'.tabs.pool[tab].session.value);
    }
  }

  lemma InstallingStaysPlaced(w: World, k: nat)
    requires Shape(w) && Placed(w)
    requires k < |w.workers| && w.workers[k].phase.Cleared? && w.workers[k].phase.result.Some?
    requires StartAllowed(w.tabs, w.workers[k].tab, w.workers[k].generation)
    requires w.tabs.pool[w.workers[k].tab].session == None
    ensures Placed(WorkerAct(w, WorkerInstalls(k)))
  {
  }

  lemma InstallingConserves(w: World, k: nat)
    requires Shape(w) && Conserved(w)
    requires k < |w.workers| && w.workers[k].phase.Cleared? && w.workers[k].phase.result.Some?
    requires StartAllowed(w.tabs, w.workers[k].tab, w.workers[k].generation)
    requires w.tabs.pool[w.workers[k].tab].session == None
    ensures Conserved(WorkerAct(w, WorkerInstalls(k)))
  {
    var w' := WorkerAct(w, WorkerInstalls(k));
    var me := w.workers[k];
    forall session: nat
      ensures Places(w', session) == Places(w, session)
    {
      WorkersHoldUpdate(w.workers, k, w'.workers[k], session);
      TabsHoldUpdate(w.tabs.pool, me.tab, w'.tabs.pool[me.tab], session);
    }
  }

  lemma ClosesKeepsInv(w: World, k: nat)
    requires Inv(w) && k < |w.workers| && (w.workers[k].phase.Rejected? || w.workers[k].phase.ClosingOwn?)
    ensures w.workers[k].phase.Rejected? ==> Inv(WorkerAct(w, WorkerClosesRejected(k)))
    ensures w.workers[k].phase.ClosingOwn? ==> Inv(WorkerAct(w, WorkerClosesOwn(k)))
  {
    hide Conserved;
    var s := w.workers[k].phase.session;
    var phase := if w.workers[k].phase.Rejected? then Copying(s) else Done(Some(s));
    var w' := Move(w, k, phase).(closeLog := w.closeLog + [s]);
    MoveStaysInstalled(w, w', k, phase);
    MoveConserves(w, w', k, phase);
    assert forall x | GivenUp(w, x) || x == s :: GivenUp(w', x);
  }

  lemma EndsKeepsInv(w: World, k: nat)
    requires Inv(w) && k < |w.workers| && w.workers[k].phase.Copying?
    ensures Inv(WorkerAct(w, WorkerEnds(k)))
  {
    hide Conserved;
    var phase := Ended(Some(w.workers[k].phase.session));
    MoveStaysInstalled(w, Move(w, k, phase), k, phase);
    MoveConserves(w, Move(w, k, phase), k, phase);
  }

  /** The worker that serves an installed session is the only one that knows it. */
  lemma ServantIsOwner(w: World, k: nat, tab: nat, session: nat)
    requires Structured(w) && tab < |w.tabs.pool| && w.tabs.pool[tab].session == Some(session)
    requires k < |w.workers|
    requires SessionOf(w.workers[k].phase) == Some(session)
          || (w.workers[k].tab == tab && w.workers[k].generation == w.tabs.pool[tab].generation)
    ensures Serves(w, k, tab, session)
  {
    var j: nat :| Serves(w, j, tab, session);
    assert SessionOf(w.workers[j].phase) == Some(session);
    assert j == k;
  }

  lemma FinishesEmptyKeepsInv(w: World, k: nat)
    requires Inv(w) && k < |w.workers| && w.workers[k].phase.Ended?
    requires var me := w.workers[k];
      !(Current(w.tabs, me.tab, me.generation) && w.tabs.pool[me.tab].session.Some?)
    ensures Inv(WorkerAct(w, WorkerFinishes(k)))
  {
    hide Conserved;
    var me := w.workers[k];
    var last := me.phase.last;
    if last.Some? && w.tabs.pool[me.tab].session == last {
      ServantIsOwner(w, k, me.tab, last.value);
      assert false;
    }
    var moved := Move(w, k, Done(last));
    IdleFinishStaysInstalled(w, k);
    MoveConserves(w, moved, k, Done(last));
    if Current(w.tabs, me.tab, me.generation) {
      DisplayKeepsInv(moved, Finish(w.tabs, me.tab, me.generation));
    }
  }

  lemma IdleFinishStaysInstalled(w: World, k: nat)
    requires Shape(w) && Installed(w) && k < |w.workers| && w.workers[k].phase.Ended?
    requires var me := w.workers[k];
      !(Current(w.tabs, me.tab, me.generation) && w.tabs.pool[me.tab].session.Some?)
    ensures Installed(Move(w, k, Done(w.workers[k].phase.last)))
  {
    var moved := Move(w, k, Done(w.workers[k].phase.last));
    forall tab | 0 <= tab < |w.tabs.pool| && w.tabs.pool[tab].session.Some?
      ensures exists j: nat :: Serves(moved, j, tab, w.tabs.pool[tab].session.value)
    {
      var j: nat :| Serves(w, j, tab, w.tabs.pool[tab].session.value);
      assert Serves(moved, j, tab, w.tabs.pool[tab].session.value);
    }
  }

  lemma FinishesHoldingKeepsInv(w: World, k: nat)
    requires Inv(w) && k < |w.workers| && w.workers[k].phase.Ended?
    requires var me := w.workers[k];
      Current(w.tabs, me.tab, me.generation) && w.tabs.pool[me.tab].session.Some?
    ensures Inv(WorkerAct(w, WorkerFinishes(k)))
  {
    hide Conserved;
    var me := w.workers[k];
    var s := w.tabs.pool[me.tab].session.value;
    var w' := WorkerAct(w, WorkerFinishes(k));
    ServantIsOwner(w, k, me.tab, s);
    assert w'.workers == Move(w, k, ClosingOwn(s)).workers;
    assert Installed(w') by {
      forall tab | 0 <= tab < |w'.tabs.pool| && w'.tabs.pool[tab].session.Some?
        ensures exists j: nat :: Serves(w', j, tab, w'.tabs.pool[tab].session.value)
      {
        var j: nat :| Serves(w, j, tab, w.tabs.pool[tab].session.value);
        assert Serves(w', j, tab, w'.tabs.pool[tab].session.value);
      }
    }
    FinishingStaysPlaced(w, k);
    FinishingConserves(w, k);
  }

  lemma FinishingStaysPlaced(w: World, k: nat)
    requires Structured(w) && k < |w.workers| && w.workers[k].phase.Ended?
    requires var me := w.workers[k];
      Current(w.tabs, me.tab, me.generation) && w.tabs.pool[me.tab].session.Some?
      && Serves(w, k, me.tab, w.tabs.pool[me.tab].session.value)
    ensures Placed(WorkerAct(w, WorkerFinishes(k)))
  {
  }

  lemma FinishingConserves(w: World, k: nat)
    requires Shape(w) && Conserved(w) && k < |w.workers| && w.workers[k].phase.Ended?
    requires var me := w.workers[k];
      Current(w.tabs, me.tab, me.generation) && w.tabs.pool[me.tab].session.Some?
    ensures Conserved(WorkerAct(w, WorkerFinishes(k)))
  {
    var w' := WorkerAct(w, WorkerFinishes(k));
    var me := w.workers[k];
    forall session: nat
      ensures Places(w', session) == Places(w, session)
    {
      WorkersHoldUpdate(w.workers, k, w'.workers[k], session);
      TabsHoldUpdate(w.tabs.pool, me.tab, w'.tabs.pool[me.tab], session);
    }
  }

  // ---------------------------------------------------------------- every interleaving

  lemma WorkerActKeepsInv(w: World, a: Action)
    requires Inv(w) && IsWorkerAction(a)
    ensures Inv(WorkerAct(w, a))
  {
    hide Inv;
    if a.k < |w.workers| {
      var me := w.workers[a.k];
      match (me.phase, a)
      case (Opening, WorkerOpens(k, ok)) => OpensKeepsInv(w, k, ok);
      case (Opened(result), WorkerClears(k)) => ClearsKeepsInv(w, k);
      case (Cleared(result), WorkerInstalls(k)) =>
        if result.Some? && StartAllowed(w.tabs, me.tab, me.generation) { InstallingKeepsInv(w, k); }
        else { RefusedKeepsInv(w, k); }
      case (Rejected(session), WorkerClosesRejected(k)) => ClosesKeepsInv(w, k);
      case (Copying(session), WorkerEnds(k)) => EndsKeepsInv(w, k);
      case (Ended(last), WorkerFinishes(k)) =>
        if Current(w.tabs, me.tab, me.generation) && w.tabs.pool[me.tab].session.Some? { FinishesHoldingKeepsInv(w, k); }
        else { FinishesEmptyKeepsInv(w, k); }
      case (ClosingOwn(session), WorkerClosesOwn(k)) => ClosesKeepsInv(w, k);
      case _ =>
    }
  }

  lemma UiActKeepsInv(w: World, a: Action)
    requires Inv(w) && !IsWorkerAction(a)
    ensures Inv(UiAct(w, a))
  {
    match (w.ui, a)
    case (Idle, UiOpen(key)) => OpenKeepsInv(w, key);
    case (Idle, UiCloseTab(index)) =>
      if 0 <= index < |w.tabs.order| && |w.tabs.order| > 1 { CloseTabKeepsInv(w, index); }
    case (Idle, UiRestart) => RestartKeepsInv(w);
    case (Idle, UiActivate(index)) => DisplayKeepsInv(w, Activate(w.tabs, index));
    case (Idle, UiQuit) => QuitKeepsInv(w);
    case (Closing(_, _), UiCloseNext) => CloseNextKeepsInv(w);
    case (Begin(_), UiBegin) => BeginKeepsInv(w);
    case (Commit(_, _), UiCommit) => CommitKeepsInv(w);
    case _ =>
  }

  lemma InitHasInv(name: string)
    ensures Inv(Init(name))
  {
    var w := Init(name);
    assert w.tabs.pool[..0] == [];
    assert forall session: nat :: TabsHold(w.tabs.pool, session) == 0;
  }

  lemma ActKeepsInv(w: World, a: Action)
    requires Inv(w)
    ensures Inv(Act(w, a))
  {
    hide Inv;
    if IsWorkerAction(a) { WorkerActKeepsInv(w, a); } else { UiActKeepsInv(w, a); }
  }

  /** The world an interleaving ends in; actions that are not enabled change nothing. */
  ghost function Reach(name: string, actions: seq<Action>): (w: World)
    ensures Inv(w)
    decreases |actions|
  {
    hide Conserved, Act;
    if actions == [] then
      InitHasInv(name);
      Init(name)
    else
      var before := Reach(name, actions[..|actions| - 1]);
      ActKeepsInv(before, actions[|actions| - 1]);
      Act(before, actions[|actions| - 1])
  }

  // ---------------------------------------------------------------- what the protocol guarantees

  /** An installed session belongs to an open tab's present generation, is not closed, and has one live worker. */
  lemma InstalledSessionIsCurrent(name: string, actions: seq<Action>, tab: nat, session: nat)
    requires var t := Reach(name, actions).tabs; tab < |t.pool| && t.pool[tab].session == Some(session)
    ensures var w := Reach(name, actions);
      && !w.tabs.closing && tab in w.tabs.order && session !in w.closeLog
      && (exists k: nat :: Serves(w, k, tab, session))
      && (forall j: nat, k: nat | Serves(w, j, tab, session) && Serves(w, k, tab, session) :: j == k)
  {
    var w := Reach(name, actions);
    TabsHoldIt(w.tabs.pool, tab, session);
    OccursIfIn(w.closeLog, session);
    assert Places(w, session) <= 1;
  }

  lemma {:induction false} TabsHoldIt(pool: seq<Tab>, tab: nat, session: nat)
    requires tab < |pool| && pool[tab].session == Some(session)
    ensures TabsHold(pool, session) >= 1
  {
    if tab < |pool| - 1 {
      TabsHoldIt(pool[..|pool| - 1], tab, session);
    }
  }

  lemma {:induction false} OccursIfIn(sessions: seq<nat>, session: nat)
    ensures Occurrences(sessions, session) >= 1 <==> session in sessions
  {
    if sessions != [] {
      OccursIfIn(sessions[1..], session);
      assert sessions == [sessions[0]] + sessions[1..];
    }
  }

  /** A worker whose tab was closed, restarted or shut down can no longer change any tab. */
  lemma StaleWorkerChangesNothing(name: string, actions: seq<Action>, a: Action)
    requires IsWorkerAction(a) && a.k < |Reach(name, actions).workers|
    requires var w := Reach(name, actions);
      !Current(w.tabs, w.workers[a.k].tab, w.workers[a.k].generation)
    ensures Act(Reach(name, actions), a).tabs == Reach(name, actions).tabs
  {
  }

  /** Once the UI has begun to quit, no tab holds a session and none ever will. */
  lemma NothingInstalledAfterClosing(name: string, actions: seq<Action>, more: seq<Action>)
    requires Reach(name, actions).tabs.closing
    ensures var w := Reach(name, actions + more);
      w.tabs.closing && forall tab | 0 <= tab < |w.tabs.pool| :: w.tabs.pool[tab].session == None
    decreases |more|
  {
    hide Conserved, Act;
    if more == [] {
      assert actions + more == actions;
    } else {
      NothingInstalledAfterClosing(name, actions, more[..|more| - 1]);
      assert (actions + more)[..|actions + more| - 1] == actions + more[..|more| - 1];
      ClosingIsForever(Reach(name, actions + more[..|more| - 1]), more[|more| - 1]);
    }
  }

  lemma ClosingIsForever(w: World, a: Action)
    requires Inv(w) && w.tabs.closing
    ensures Act(w, a).tabs.closing
  {
    hide Conserved, Installed, Placed, OwnSessions, Generations;
  }

  /** Quiet: when a worker is done its session has been closed, exactly once, or the UI is about to close it. */
  lemma EndedSessionIsClosed(name: string, actions: seq<Action>, k: nat, session: nat)
    requires var w := Reach(name, actions); k < |w.workers| && w.workers[k].phase == Done(Some(session))
    ensures var w := Reach(name, actions);
      Occurrences(ClosingList(w.ui), session) + Occurrences(w.closeLog, session) == 1
  {
    var w := Reach(name, actions);
    OccursIfIn(ClosingList(w.ui), session);
    OccursIfIn(w.closeLog, session);
    assert GivenUp(w, session);
    assert session < w.sessionCount;
    assert Places(w, session) == 1;
  }

  /** No session is ever closed twice. */
  lemma ClosedAtMostOnce(name: string, actions: seq<Action>, session: nat)
    ensures Occurrences(Reach(name, actions).closeLog, session) <= 1
  {
    assert Places(Reach(name, actions), session) <= 1;
  }

  /** No leak: with every worker done and the UI at rest, each session that was ever opened has been closed. */
  lemma QuietMeansClosed(name: string, actions: seq<Action>, session: nat)
    requires var w := Reach(name, actions);
      && session < w.sessionCount && !w.ui.Closing?
      && forall k | 0 <= k < |w.workers| :: w.workers[k].phase.Done?
    ensures Occurrences(Reach(name, actions).closeLog, session) == 1
  {
    var w := Reach(name, actions);
    DoneMeansNoneInstalled(w);
    NoneHeld(w.tabs.pool, session);
    NoneInHand(w.workers, session);
    assert Places(w, session) == 1;
  }

  lemma DoneMeansNoneInstalled(w: World)
    requires Shape(w) && Installed(w) && forall k | 0 <= k < |w.workers| :: w.workers[k].phase.Done?
    ensures forall tab | 0 <= tab < |w.tabs.pool| :: w.tabs.pool[tab].session == None
  {
  }

  lemma {:induction false} NoneHeld(pool: seq<Tab>, session: nat)
    requires forall tab | 0 <= tab < |pool| :: pool[tab].session == None
    ensures TabsHold(pool, session) == 0
  {
    if pool != [] { NoneHeld(pool[..|pool| - 1], session); }
  }

  lemma {:induction false} NoneInHand(workers: seq<Worker>, session: nat)
    requires forall k | 0 <= k < |workers| :: workers[k].phase.Done?
    ensures WorkersHold(workers, session) == 0
  {
    if workers != [] { NoneInHand(workers[..|workers| - 1], session); }
  }
}
