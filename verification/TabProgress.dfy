/**
 The protocol does its work: from every reachable state of the tabs an opened or restarted shell can come to run, an ended
 session can be closed, and quitting can come to a stop with every session it took away closed.
 */
module TabProgress {
  import opened Numerals
  import opened TabManager
  import opened TabSessions

  /** The world after further steps. */
  ghost function Then(w: World, actions: seq<Action>): (after: World)
    requires Inv(w)
    ensures Inv(after)
    decreases |actions|
  {
    if actions == [] then w
    else
      ActKeepsInv(w, actions[0]);
      Then(Act(w, actions[0]), actions[1..])
  }

  lemma FirstStep(w: World, a: Action, rest: seq<Action>)
    requires Inv(w)
    ensures Inv(Act(w, a)) && Then(w, [a] + rest) == Then(Act(w, a), rest)
  {
    hide Inv, Act;
    ActKeepsInv(w, a);
    assert ([a] + rest)[1..] == rest;
  }

  lemma NoStep(w: World)
    requires Inv(w)
    ensures Then(w, []) == w
  {
  }

  /** The tab runs an open session of its own. */
  predicate Runs(w: World, tab: nat) {
    && tab in w.tabs.order && tab < |w.tabs.pool| && w.tabs.pool[tab].status == Running
    && w.tabs.pool[tab].session.Some? && w.tabs.pool[tab].session.value !in w.closeLog
  }

  lemma InstalledIsOpen(w: World, tab: nat)
    requires Inv(w) && tab < |w.tabs.pool| && w.tabs.pool[tab].session.Some?
    ensures w.tabs.pool[tab].session.value !in w.closeLog
  {
    var session := w.tabs.pool[tab].session.value;
    TabsHoldIt(w.tabs.pool, tab, session);
    OccursIfIn(w.closeLog, session);
    assert Places(w, session) <= 1;
  }

  // ---------------------------------------------------------------- single steps

  lemma HasShape(w: World)
    requires Inv(w)
    ensures Shape(w) && (w.ui.Idle? || w.ui.Begin? || w.ui.Commit? ==> !w.tabs.closing) && (w.ui.Begin? ==> w.ui.tab < |w.tabs.pool|)
  {
    hide Conserved, Installed, Placed, OwnSessions, Generations, Vacant;
  }

  lemma Opens(w: World, k: nat)
    requires Shape(w) && k < |w.workers| && w.workers[k].phase == Opening
    ensures Act(w, WorkerOpens(k, true)) == Move(w, k, Opened(Some(w.sessionCount))).(sessionCount := w.sessionCount + 1)
  {
  }

  lemma Clears(w: World, k: nat, session: nat)
    requires Shape(w) && k < |w.workers| && w.workers[k].phase == Opened(Some(session))
    ensures var tabs := Act(w, WorkerClears(k)).tabs;
      Act(w, WorkerClears(k)) == Move(w, k, Cleared(Some(session))).(tabs := tabs) && SameOwners(w.tabs, tabs) && tabs.active == w.tabs.active
  {
  }

  lemma Installs(w: World, k: nat, session: nat)
    requires Shape(w) && k < |w.workers| && w.workers[k].phase == Cleared(Some(session))
    requires StartAllowed(w.tabs, w.workers[k].tab, w.workers[k].generation)
    ensures var me := w.workers[k];
      Act(w, WorkerInstalls(k)) == Move(w, k, Copying(session)).(tabs := SetSession(w.tabs, me.tab, me.generation, session))
  {
  }

  lemma Ends(w: World, k: nat, session: nat)
    requires Shape(w) && k < |w.workers| && w.workers[k].phase == Copying(session)
    ensures Act(w, WorkerEnds(k)) == Move(w, k, Ended(Some(session)))
  {
  }

  lemma Finishes(w: World, k: nat, session: nat)
    requires Shape(w) && k < |w.workers| && w.workers[k].phase == Ended(Some(session))
    requires Current(w.tabs, w.workers[k].tab, w.workers[k].generation) && w.tabs.pool[w.workers[k].tab].session == Some(session)
    ensures var me := w.workers[k];
      Act(w, WorkerFinishes(k)) == Move(w, k, ClosingOwn(session)).(tabs := Finish(w.tabs, me.tab, me.generation))
  {
  }

  lemma ClosesOwn(w: World, k: nat, session: nat)
    requires Shape(w) && k < |w.workers| && w.workers[k].phase == ClosingOwn(session)
    ensures Act(w, WorkerClosesOwn(k)) == Move(w, k, Done(Some(session))).(closeLog := w.closeLog + [session])
  {
  }

  lemma Begins(w: World, tab: nat)
    requires Shape(w) && w.ui == Begin(tab)
    ensures Act(w, UiBegin) == w.(tabs := StartBegin(w.tabs, tab), ui := Commit(tab, w.tabs.pool[tab].generation + 1))
  {
  }

  lemma Commits(w: World, tab: nat, generation: nat)
    requires Shape(w) && w.ui == Commit(tab, generation) && StartAllowed(w.tabs, tab, generation)
    ensures Act(w, UiCommit)
         == w.(tabs := Connecting(w.tabs, tab, true), workers := w.workers + [Worker(tab, generation, Opening)], ui := Idle)
  {
  }

  // ---------------------------------------------------------------- coming to run

  /** Worker k has nothing to wait for: its backend opens, its cancel handle goes, and its session is installed. */
  lemma WorkerComesToServe(w: World, k: nat)
    requires Inv(w) && k < |w.workers| && w.workers[k].phase == Opening
    requires !w.tabs.closing && Current(w.tabs, w.workers[k].tab, w.workers[k].generation)
    ensures var after := Then(w, [WorkerOpens(k, true), WorkerClears(k), WorkerInstalls(k)]);
      Runs(after, w.workers[k].tab) && after.ui == w.ui && after.tabs.active == w.tabs.active && after.tabs.order == w.tabs.order
  {
    hide Inv, Act, Shape;
    var tab, session := w.workers[k].tab, w.sessionCount;
    HasShape(w);
    FirstStep(w, WorkerOpens(k, true), [WorkerClears(k), WorkerInstalls(k)]);
    assert [WorkerOpens(k, true), WorkerClears(k), WorkerInstalls(k)] == [WorkerOpens(k, true)] + [WorkerClears(k), WorkerInstalls(k)];
    var w1 := Act(w, WorkerOpens(k, true));
    Opens(w, k);
    HasShape(w1);
    FirstStep(w1, WorkerClears(k), [WorkerInstalls(k)]);
    assert [WorkerClears(k), WorkerInstalls(k)] == [WorkerClears(k)] + [WorkerInstalls(k)];
    var w2 := Act(w1, WorkerClears(k));
    Clears(w1, k, session);
    HasShape(w2);
    FirstStep(w2, WorkerInstalls(k), []);
    assert [WorkerInstalls(k)] == [WorkerInstalls(k)] + [];
    var w3 := Act(w2, WorkerInstalls(k));
    Installs(w2, k, session);
    NoStep(w3);
    InstalledIsOpen(w3, tab);
  }

  /** The steps from the start of a session to its installation by the worker that the start brings up. */
  function StartUp(k: nat): seq<Action> {
    [UiBegin, UiCommit, WorkerOpens(k, true), WorkerClears(k), WorkerInstalls(k)]
  }

  lemma StartComesToRun(w: World, tab: nat)
    requires Inv(w) && w.ui == Begin(tab) && tab in w.tabs.order
    ensures var after := Then(w, StartUp(|w.workers|)); Runs(after, tab) && after.ui == Idle && after.tabs.active == w.tabs.active && after.tabs.order == w.tabs.order
  {
    hide Inv, Act, Shape;
    var k := |w.workers|;
    var install := [WorkerOpens(k, true), WorkerClears(k), WorkerInstalls(k)];
    HasShape(w);
    FirstStep(w, UiBegin, [UiCommit] + install);
    assert StartUp(k) == [UiBegin] + ([UiCommit] + install);
    var w1 := Act(w, UiBegin);
    Begins(w, tab);
    HasShape(w1);
    FirstStep(w1, UiCommit, install);
    var w2 := Act(w1, UiCommit);
    Commits(w1, tab, w1.ui.generation);
    WorkerComesToServe(w2, k);
  }

  /** A shell that is not open yet can be opened, becomes the active tab and comes to run. */
  lemma OpenedShellComesToRun(w: World, key: string)
    requires Inv(w) && w.ui == Idle && forall i | 0 <= i < |w.tabs.order| :: w.tabs.pool[w.tabs.order[i]].key != key
    ensures var after := Then(w, [UiOpen(key)] + StartUp(|w.workers|)); var t := after.tabs;
      && after.ui == Idle && 0 <= t.active < |t.order| && Runs(after, t.order[t.active]) && t.pool[t.order[t.active]].key == key
  {
    hide Conserved, Installed, Placed, OwnSessions, Generations;
    FirstStep(w, UiOpen(key), StartUp(|w.workers|));
    var w1 := Act(w, UiOpen(key));
    var tab := |w.tabs.pool|;
    assert w1 == w.(tabs := NewTab(w.tabs, key, true), ui := Begin(tab));
    assert w1.tabs.order[w1.tabs.active] == tab && tab in w1.tabs.order && w1.tabs.pool[tab].key == key;
    StartComesToRun(w1, tab);
    NamesStay(w1, StartUp(|w.workers|), tab);
  }

  /** No step moves a tab's key. */
  lemma {:induction false} NamesStay(w: World, actions: seq<Action>, tab: nat)
    requires Inv(w) && tab < |w.tabs.pool|
    ensures var after := Then(w, actions); |after.tabs.pool| >= |w.tabs.pool| && after.tabs.pool[tab].key == w.tabs.pool[tab].key
    decreases |actions|
  {
    hide Conserved, Installed, Placed, OwnSessions, Generations, UiConsistent, Act;
    if actions != [] {
      KeyStays(w, actions[0], tab);
      ActKeepsInv(w, actions[0]);
      NamesStay(Act(w, actions[0]), actions[1..], tab);
    }
  }

  lemma KeyStays(w: World, a: Action, tab: nat)
    requires Inv(w) && tab < |w.tabs.pool|
    ensures |Act(w, a).tabs.pool| >= |w.tabs.pool| && Act(w, a).tabs.pool[tab].key == w.tabs.pool[tab].key
  {
    hide Conserved, Installed, Placed, OwnSessions, Generations, UiConsistent, RetireAll, FirstWithKey;
    if a.UiQuit? && w.ui.Idle? { RetiredTabs(w.tabs.pool, w.tabs.order, |w.tabs.order|, tab); }
  }

  // ---------------------------------------------------------------- ending

  /** A session that ends by itself is closed by its worker, and its tab shows that it has exited. */
  lemma EndedSessionComesToBeClosed(w: World, k: nat, session: nat)
    requires Inv(w) && k < |w.workers| && w.workers[k].phase == Copying(session)
    requires Current(w.tabs, w.workers[k].tab, w.workers[k].generation) && w.tabs.pool[w.workers[k].tab].session == Some(session)
    ensures var after := Then(w, [WorkerEnds(k), WorkerFinishes(k), WorkerClosesOwn(k)]); var tab := w.workers[k].tab;
      && tab < |after.tabs.pool| && after.tabs.pool[tab].session == None && after.tabs.pool[tab].status == Exited
      && session in after.closeLog && k < |after.workers| && after.workers[k].phase == Done(Some(session)) && after.ui == w.ui
  {
    hide Inv, Act, Shape;
    HasShape(w);
    var w1 := Act(w, WorkerEnds(k));
    FirstStep(w, WorkerEnds(k), [WorkerFinishes(k), WorkerClosesOwn(k)]);
    assert [WorkerEnds(k), WorkerFinishes(k), WorkerClosesOwn(k)] == [WorkerEnds(k)] + [WorkerFinishes(k), WorkerClosesOwn(k)];
    Ends(w, k, session);
    HasShape(w1);
    var w2 := Act(w1, WorkerFinishes(k));
    FirstStep(w1, WorkerFinishes(k), [WorkerClosesOwn(k)]);
    assert [WorkerFinishes(k), WorkerClosesOwn(k)] == [WorkerFinishes(k)] + [WorkerClosesOwn(k)];
    Finishes(w1, k, session);
    HasShape(w2);
    FirstStep(w2, WorkerClosesOwn(k), []);
    assert [WorkerClosesOwn(k)] == [WorkerClosesOwn(k)] + [];
    ClosesOwn(w2, k, session);
    NoStep(Act(w2, WorkerClosesOwn(k)));
  }

  function CloseAll(n: nat): seq<Action> {
    if n == 0 then [UiCloseNext] else [UiCloseNext] + CloseAll(n - 1)
  }

  /** What the UI has taken away it closes, one after the other, and then goes on. */
  lemma {:induction false} ListComesToBeClosed(w: World)
    requires Inv(w) && w.ui.Closing?
    ensures var after := Then(w, CloseAll(|w.ui.sessions|));
      && after == w.(ui := after.ui, closeLog := w.closeLog + w.ui.sessions)
      && after.ui == match w.ui.next case ToIdle => Idle case ToStart(tab) => Begin(tab) case ToStop => Stopped
    decreases |w.ui.sessions|
  {
    hide Conserved, Installed, Placed, OwnSessions, Generations, UiConsistent;
    var w1 := Act(w, UiCloseNext);
    if w.ui.sessions == [] {
      FirstStep(w, UiCloseNext, []);
      assert [UiCloseNext] + [] == [UiCloseNext];
      NoStep(w1);
      assert w.closeLog + [] == w.closeLog;
    } else {
      FirstStep(w, UiCloseNext, CloseAll(|w.ui.sessions| - 1));
      ListComesToBeClosed(w1);
      assert w.closeLog + w.ui.sessions == (w.closeLog + [w.ui.sessions[0]]) + w.ui.sessions[1..];
    }
  }

  /** Quitting comes to a stop, with every session that was installed closed. */
  lemma QuittingStops(w: World, tab: nat)
    requires Inv(w) && w.ui == Idle && tab in w.tabs.order && w.tabs.pool[tab].session.Some?
    ensures var (_, sessions) := RetireAll(w.tabs.pool, w.tabs.order, |w.tabs.order|);
      var after := Then(w, [UiQuit] + CloseAll(|sessions|));
      after.ui == Stopped && after.tabs.closing && w.tabs.pool[tab].session.value in after.closeLog
  {
    hide Conserved, Installed, Placed, OwnSessions, Generations, UiConsistent, RetireAll;
    var sessions := RetireAll(w.tabs.pool, w.tabs.order, |w.tabs.order|).1;
    var w1 := Act(w, UiQuit);
    FirstStep(w, UiQuit, CloseAll(|sessions|));
    assert w1.ui == Closing(sessions, ToStop);
    ListComesToBeClosed(w1);
    var i :| 0 <= i < |w.tabs.order| && w.tabs.order[i] == tab;
    Collected(w.tabs.pool, w.tabs.order, |w.tabs.order|, i);
  }

  lemma {:induction false} Collected(pool: seq<Tab>, order: seq<nat>, n: nat, i: nat)
    requires i < n <= |order| && (forall j | 0 <= j < |order| :: order[j] < |pool|)
    requires (forall j, k | 0 <= j < k < |order| :: order[j] != order[k]) && pool[order[i]].session.Some?
    ensures pool[order[i]].session.value in RetireAll(pool, order, n).1
  {
    hide RetireAll;
    RetiredTabs(pool, order, n, order[i]);
    if i < n - 1 { Collected(pool, order, n - 1, i); }
  }

  /** Restarting a shell closes the session it had, and the tab comes to run another. */
  lemma RestartedShellComesToRun(w: World)
    requires Inv(w) && w.ui == Idle && w.tabs.pool[w.tabs.order[w.tabs.active]].shell
    ensures var tab := w.tabs.order[w.tabs.active]; var was := w.tabs.pool[tab].session;
      var after := Then(Then(w, [UiRestart] + CloseAll(if was.Some? then 1 else 0)), StartUp(|w.workers|));
      && Runs(after, tab) && after.ui == Idle && after.tabs.active == w.tabs.active
      && (was.Some? ==> was.value in Then(w, [UiRestart] + CloseAll(1)).closeLog)
  {
    hide Conserved, Installed, Placed, OwnSessions, Generations, UiConsistent;
    var tab := w.tabs.order[w.tabs.active];
    var was := w.tabs.pool[tab].session;
    var n := if was.Some? then 1 else 0;
    FirstStep(w, UiRestart, CloseAll(n));
    var w1 := Act(w, UiRestart);
    assert w1.ui == Closing(Holding(was), ToStart(tab)) && |Holding(was)| == n;
    ListComesToBeClosed(w1);
    var w2 := Then(w1, CloseAll(n));
    assert w2.tabs == w1.tabs && w2.workers == w.workers;
    StartComesToRun(w2, tab);
  }
}
