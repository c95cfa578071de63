/**
 The tab list of the terminal UI and its critical sections: every block the source runs under the
 tab mutex is one method here, proved to be one function of the abstract tab list. A tab pointer is
 an index into the pool of all tabs ever opened, so a closed tab can still be named by its worker.
 */
module TabManager {
  import opened Numerals

  datatype Status = Starting | Running | Exited

  datatype Tab = Tab(key: string, shell: bool, status: Status, session: Option<nat>, connecting: bool,
                     generation: nat, unread: bool)

  datatype Tabs = Tabs(pool: seq<Tab>, order: seq<nat>, active: int, closing: bool)

  predicate WellFormed(t: Tabs) {
    && (forall i | 0 <= i < |t.order| :: t.order[i] < |t.pool|)
    && (forall i, j | 0 <= i < j < |t.order| :: t.order[i] != t.order[j])
    && 0 <= t.active < |t.order|
  }

  // ---------------------------------------------------------------- critical sections as functions

  predicate Current(t: Tabs, tab: nat, generation: nat) {
    tab in t.order && tab < |t.pool| && t.pool[tab].generation == generation
  }

  function StartBegin(t: Tabs, tab: nat): Tabs
    requires tab < |t.pool|
  {
    var record := t.pool[tab];
    t.(pool := t.pool[tab := record.(generation := record.generation + 1, status := Starting, unread := false)])
  }

  predicate StartAllowed(t: Tabs, tab: nat, generation: nat) {
    !t.closing && Current(t, tab, generation)
  }

  function Connecting(t: Tabs, tab: nat, connecting: bool): Tabs
    requires tab < |t.pool|
  {
    t.(pool := t.pool[tab := t.pool[tab].(connecting := connecting)])
  }

  function ClearConnectCancel(t: Tabs, tab: nat, generation: nat): Tabs {
    if Current(t, tab, generation) then Connecting(t, tab, false) else t
  }

  function SetSession(t: Tabs, tab: nat, generation: nat, session: nat): Tabs {
    if StartAllowed(t, tab, generation) then
      t.(pool := t.pool[tab := t.pool[tab].(session := Some(session), status := Running)])
    else t
  }

  function Finish(t: Tabs, tab: nat, generation: nat): Tabs
    requires WellFormed(t)
  {
    if !Current(t, tab, generation) then t
    else
      var record := t.pool[tab].(session := None, status := Exited);
      var unread := record.unread || t.order[t.active] != tab;
      t.(pool := t.pool[tab := record.(unread := unread)])
  }

  function CloseAt(t: Tabs, index: nat): Tabs
    requires WellFormed(t) && index < |t.order| && |t.order| > 1
  {
    var tab := t.order[index];
    var order := t.order[..index] + t.order[index + 1..];
    var active := if t.active >= |order| then |order| - 1 else if t.active > index then t.active - 1 else t.active;
    Tabs(t.pool[tab := t.pool[tab].(session := None, connecting := false)], order, active, t.closing)
  }

  function RestartTab(t: Tabs, tab: nat): Tabs
    requires tab < |t.pool|
  {
    var record := t.pool[tab];
    t.(pool := t.pool[tab := record.(session := None, connecting := false, generation := record.generation + 1)])
  }

  function Retired(record: Tab): Tab {
    record.(session := None, connecting := false, generation := record.generation + 1)
  }

  /** closeTabs walks the open tabs: each is retired and its session collected. */
  function RetireAll(pool: seq<Tab>, order: seq<nat>, n: nat): (r: (seq<Tab>, seq<nat>))
    requires n <= |order| && forall i | 0 <= i < |order| :: order[i] < |pool|
    ensures |r.0| == |pool|
  {
    if n == 0 then (pool, [])
    else
      var before := RetireAll(pool, order, n - 1);
      var tab := order[n - 1];
      var session := before.0[tab].session;
      (before.0[tab := Retired(before.0[tab])], before.1 + if session.Some? then [session.value] else [])
  }

  function FirstWithKey(t: Tabs, key: string, from: nat): (i: nat)
    requires from <= |t.order| && forall k | 0 <= k < |t.order| :: t.order[k] < |t.pool|
    ensures from <= i <= |t.order|
    ensures i < |t.order| ==> t.pool[t.order[i]].key == key
    ensures forall k | from <= k < i :: t.pool[t.order[k]].key != key
    decreases |t.order| - from
  {
    if from == |t.order| || t.pool[t.order[from]].key == key then from else FirstWithKey(t, key, from + 1)
  }

  function Activate(t: Tabs, index: int): Tabs
    requires WellFormed(t)
  {
    if 0 <= index < |t.order| then
      var tab := t.order[index];
      t.(active := index, pool := t.pool[tab := t.pool[tab].(unread := false)])
    else t
  }

  function NewTab(t: Tabs, key: string, shell: bool): Tabs {
    var tab := Tab(key, shell, Starting, None, false, 0, false);
    Tabs(t.pool + [tab], t.order + [|t.pool|], |t.order|, t.closing)
  }

  // ---------------------------------------------------------------- the class

  class Manager {
    var pool: seq<Tab>
    var order: seq<nat>
    var active: int
    var closing: bool

    function View(): Tabs
      reads this
    {
      Tabs(pool, order, active, closing)
    }

    constructor (name: string)
      ensures View() == Tabs([Tab(name, false, Running, None, false, 0, false)], [0], 0, false)
    {
      pool := [Tab(name, false, Running, None, false, 0, false)];
      order, active, closing := [0], 0, false;
    }

    method Present(tab: nat) returns (present: bool)
      ensures present <==> tab in order
    {
      for i := 0 to |order|
        invariant tab !in order[..i]
      {
        if order[i] == tab {
          return true;
        }
      }
      return false;
    }

    method BeginStart(tab: nat) returns (generation: nat)
      requires tab < |pool|
      modifies this
      ensures View() == StartBegin(old(View()), tab) && generation == pool[tab].generation
    {
      pool := pool[tab := pool[tab].(generation := pool[tab].generation + 1)];
      generation := pool[tab].generation;
      pool := pool[tab := pool[tab].(status := Starting, unread := false)];
    }

    method CommitStart(tab: nat, generation: nat) returns (started: bool)
      requires tab < |pool|
      modifies this
      ensures started <==> StartAllowed(old(View()), tab, generation)
      ensures View() == if started then Connecting(old(View()), tab, true) else old(View())
    {
      var present := Present(tab);
      if closing || !present || pool[tab].generation != generation {
        return false;
      }
      pool := pool[tab := pool[tab].(connecting := true)];
      return true;
    }

    method ClearTabConnectCancel(tab: nat, generation: nat)
      requires tab < |pool|
      modifies this
      ensures View() == ClearConnectCancel(old(View()), tab, generation)
    {
      var present := Present(tab);
      if present && pool[tab].generation == generation {
        pool := pool[tab := pool[tab].(connecting := false)];
      }
    }

    /** The caller must close the session itself when it was not installed. */
    method SetTabSession(tab: nat, generation: nat, session: nat) returns (installed: bool)
      requires tab < |pool|
      modifies this
      ensures installed <==> StartAllowed(old(View()), tab, generation)
      ensures View() == SetSession(old(View()), tab, generation, session)
    {
      var present := Present(tab);
      if !closing && present && pool[tab].generation == generation {
        pool := pool[tab := pool[tab].(session := Some(session), status := Running)];
        return true;
      }
      return false;
    }

    /** The session handed back is the caller's to close. */
    method FinishTabSession(tab: nat, generation: nat) returns (session: Option<nat>)
      requires WellFormed(View()) && tab < |pool|
      modifies this
      ensures View() == Finish(old(View()), tab, generation)
      ensures session == if Current(old(View()), tab, generation) then old(pool[tab].session) else None
    {
      var present := Present(tab);
      if !present || pool[tab].generation != generation {
        return None;
      }
      session := pool[tab].session;
      pool := pool[tab := pool[tab].(session := None, status := Exited)];
      if order[active] != tab {
        pool := pool[tab := pool[tab].(unread := true)];
      }
    }

    method CloseTab(index: int) returns (quit: bool, session: Option<nat>)
      requires WellFormed(View())
      modifies this
      ensures WellFormed(View())
      ensures quit <==> 0 <= index < old(|order|) == 1
      ensures 0 <= index < old(|order|) && !quit
          ==> View() == CloseAt(old(View()), index) && session == old(pool[order[index]].session)
      ensures !(0 <= index < old(|order|)) || quit ==> View() == old(View()) && session == None
    {
      if index < 0 || index >= |order| {
        return false, None;
      }
      if |order| == 1 {
        return true, None;
      }
      var tab := order[index];
      session := pool[tab].session;
      pool := pool[tab := pool[tab].(session := None, connecting := false)];
      order := order[..index] + order[index + 1..];
      if active >= |order| {
        active := |order| - 1;
      } else if active > index {
        active := active - 1;
      }
      quit := false;
      CloseAtKeepsForm(old(View()), index);
    }

    /** None for the lab and disk tabs, which have no session to restart. */
    method RestartActiveTab() returns (tab: Option<nat>, session: Option<nat>)
      requires WellFormed(View())
      modifies this
      ensures old(pool[order[active]].shell) ==>
        && tab == Some(old(order[active])) && session == old(pool[order[active]].session)
        && View() == RestartTab(old(View()), old(order[active]))
      ensures !old(pool[order[active]].shell) ==> tab == None && session == None && View() == old(View())
    {
      if active < 0 || active >= |order| {
        return None, None;
      }
      var current := order[active];
      if !pool[current].shell {
        return None, None;
      }
      session := pool[current].session;
      pool := pool[current := pool[current].(session := None, connecting := false)];
      pool := pool[current := pool[current].(generation := pool[current].generation + 1)];
      tab := Some(current);
    }

    method CloseTabs() returns (sessions: seq<nat>)
      requires WellFormed(View())
      modifies this
      ensures order == old(order) && active == old(active) && closing
      ensures (pool, sessions) == RetireAll(old(pool), old(order), |old(order)|)
    {
      closing := true;
      sessions := [];
      for i := 0 to |order|
        invariant order == old(order) && active == old(active) && closing
        invariant |pool| == old(|pool|)
        invariant (pool, sessions) == RetireAll(old(pool), old(order), i)
      {
        var tab := order[i];
        ghost var before := pool;
        pool := pool[tab := pool[tab].(generation := pool[tab].generation + 1, connecting := false)];
        if pool[tab].session.Some? {
          sessions := sessions + [pool[tab].session.value];
          pool := pool[tab := pool[tab].(session := None)];
        }
        assert pool == before[tab := Retired(before[tab])];
        assert before[tab].session == None ==> sessions + [] == sessions;
      }
    }

    method ActivateTab(index: int)
      requires WellFormed(View())
      modifies this
      ensures View() == Activate(old(View()), index) && WellFormed(View())
    {
      if index < 0 || index >= |order| {
        return;
      }
      active := index;
      pool := pool[order[index] := pool[order[index]].(unread := false)];
    }

    method NextTab(delta: int)
      requires WellFormed(View())
      modifies this
      ensures WellFormed(View()) && order == old(order) && closing == old(closing)
      ensures View() == Activate(old(View()), CyclicIndex(old(active), delta, |order|))
    {
      hide CyclicIndex, TruncatedRemainder;
      var count := |order|;
      if count > 0 {
        CyclicIndexInRange(active, delta, count);
        active := (active + TruncatedRemainder(delta, count) + count) % count;
        pool := pool[order[active] := pool[order[active]].(unread := false)];
      }
    }

    /** Finds the tab of a node or appends a new one; a new shell tab still has to be started. */
    method OpenShellTab(key: string) returns (created: Option<nat>)
      requires WellFormed(View())
      modifies this
      ensures WellFormed(View())
      ensures var found := FirstWithKey(old(View()), key, 0);
        if found < old(|order|) then created == None && View() == Activate(old(View()), found)
        else created == Some(old(|pool|)) && View() == NewTab(old(View()), key, true)
    {
      for i := 0 to |order|
        invariant View() == old(View())
        invariant forall k | 0 <= k < i :: pool[order[k]].key != key
      {
        if pool[order[i]].key == key {
          active := i;
          pool := pool[order[i] := pool[order[i]].(unread := false)];
          return None;
        }
      }
      var tab := Tab(key, true, Starting, None, false, 0, false);
      pool := pool + [tab];
      order := order + [|pool| - 1];
      active := |order| - 1;
      return Some(|pool| - 1);
    }
  }

  /** Go's remainder takes the sign of the dividend. */
  function TruncatedRemainder(a: int, b: nat): int
    requires b > 0
  {
    if a >= 0 then a % b else -((-a) % b)
  }

  function CyclicIndex(active: int, delta: int, count: nat): int
    requires count > 0
  {
    (active + delta) % count
  }

  /** Stepping by any distance, forwards or backwards, is movement modulo the number of tabs. */
  lemma CyclicIndexInRange(active: int, delta: int, count: nat)
    requires 0 <= active < count
    ensures 0 <= CyclicIndex(active, delta, count) < count
    ensures (active + TruncatedRemainder(delta, count) + count) % count == CyclicIndex(active, delta, count)
  {
    var r := TruncatedRemainder(delta, count);
    var q := if delta >= 0 then delta / count else -((-delta) / count);
    assert delta == q * count + r;
    AddMultiple(active + r + count, count, q - 1);
    assert active + delta == (active + r + count) + (q - 1) * count;
  }

  lemma AddMultiple(x: int, m: nat, k: int)
    requires m > 0
    ensures (x + k * m) % m == x % m
  {
    var y := x + k * m;
    var d := y / m - x / m - k;
    assert y == m * (y / m) + y % m && x == m * (x / m) + x % m;
    assert y % m - x % m == m * k - m * (y / m) + m * (x / m);
    assert m * d == m * (y / m) - m * (x / m) - m * k;
    assert y % m - x % m == -(m * d);
    assert d >= 1 ==> m * d >= m;
    assert d <= -1 ==> m * d <= -(m as int);
  }

  // ---------------------------------------------------------------- the active tab

  lemma CloseAtKeepsForm(t: Tabs, index: nat)
    requires WellFormed(t) && index < |t.order| && |t.order| > 1
    ensures WellFormed(CloseAt(t, index))
  {
  }

  /** Closing another tab leaves the same tab active, whichever side it was on. */
  lemma CloseOtherKeepsActive(t: Tabs, index: nat)
    requires WellFormed(t) && index < |t.order| && |t.order| > 1 && index != t.active
    ensures var after := CloseAt(t, index); after.order[after.active] == t.order[t.active]
  {
  }

  /** Closing the active tab moves on to the tab that followed it, or to the new last one where it was the last. */
  lemma CloseActiveMovesOn(t: Tabs)
    requires WellFormed(t) && |t.order| > 1
    ensures var after := CloseAt(t, t.active);
      && 0 <= after.active < |after.order|
      && (t.active + 1 < |t.order| ==> after.order[after.active] == t.order[t.active + 1])
      && (t.active + 1 == |t.order| ==> after.order[after.active] == t.order[t.active - 1] && after.active + 1 == |after.order|)
  {
  }

  /** The other tabs keep their order and their records; the closed one holds nothing any more. */
  lemma ClosedTab(t: Tabs, index: nat)
    requires WellFormed(t) && index < |t.order| && |t.order| > 1
    ensures var after := CloseAt(t, index); var tab := t.order[index];
      && |after.order| == |t.order| - 1 && tab !in after.order
      && (forall i | 0 <= i < index :: after.order[i] == t.order[i])
      && (forall i | index < i < |t.order| :: after.order[i - 1] == t.order[i])
      && after.closing == t.closing && |after.pool| == |t.pool|
      && (forall other | 0 <= other < |t.pool| && other != tab :: after.pool[other] == t.pool[other])
      && after.pool[tab].session == None && !after.pool[tab].connecting
      && after.pool[tab].generation == t.pool[tab].generation
      && after.pool[tab].key == t.pool[tab].key && after.pool[tab].shell == t.pool[tab].shell
      && after.pool[tab].status == t.pool[tab].status && after.pool[tab].unread == t.pool[tab].unread
  {
  }

  // ---------------------------------------------------------------- the other critical sections

  /** One step forwards goes to the next tab and from the last to the first; one step back undoes it. */
  lemma SingleSteps(active: int, count: nat)
    requires 0 <= active < count
    ensures CyclicIndex(active, 1, count) == if active == count - 1 then 0 else active + 1
    ensures CyclicIndex(active, -1, count) == if active == 0 then count - 1 else active - 1
  {
    hide CyclicIndex;
    if active == count - 1 { IsRemainder(active + 1, count, 0, 1); } else { IsRemainder(active + 1, count, active + 1, 0); }
    if active == 0 { IsRemainder(active - 1, count, count - 1, -1); } else { IsRemainder(active - 1, count, active - 1, 0); }
  }

  lemma IsRemainder(x: int, m: nat, r: nat, q: int)
    requires r < m && x == r + q * m
    ensures CyclicIndex(x, 0, m) == r && forall a: int, d: int | a + d == x :: CyclicIndex(a, d, m) == r
  {
    AddMultiple(r, m, q);
    SmallRemainder(r, m);
  }

  lemma SmallRemainder(r: nat, m: nat)
    requires r < m
    ensures r % m == r
  {
  }

  /** Steps add up, so that the single steps fix where any number of them leads. */
  lemma StepsAddUp(active: int, d: int, e: int, count: nat)
    requires 0 <= active < count
    ensures CyclicIndex(CyclicIndex(active, d, count), e, count) == CyclicIndex(active, d + e, count)
  {
    var r := CyclicIndex(active, d, count);
    var q := Quotient(active + d, count);
    AddMultiple(r + e, count, q);
    assert active + (d + e) == r + e + q * count;
  }

  lemma Quotient(x: int, m: nat) returns (q: int)
    requires m > 0
    ensures x == x % m + q * m
  {
    q := x / m;
  }

  /** A key opens the tab that bears it, if there is one, and otherwise one tab more; every other tab keeps its place. */
  lemma OpenedTab(t: Tabs, key: string)
    requires WellFormed(t)
    ensures var found := FirstWithKey(t, key, 0); var after := if found < |t.order| then Activate(t, found) else NewTab(t, key, true);
      && WellFormed(after) && t.order <= after.order && after.closing == t.closing
      && var tab := after.order[after.active];
        && after.pool[tab].key == key && !after.pool[tab].unread
        && (forall other | 0 <= other < |t.pool| && other != tab :: after.pool[other] == t.pool[other])
        && (after.order == t.order <==> exists i | 0 <= i < |t.order| :: t.pool[t.order[i]].key == key)
        && (after.order == t.order ==> after.pool[tab] == t.pool[tab].(unread := false))
        && (after.order != t.order ==> after.pool[tab] == Tab(key, true, Starting, None, false, 0, false) && |after.order| == |t.order| + 1)
  {
    var found := FirstWithKey(t, key, 0);
    if found < |t.order| { assert t.pool[t.order[found]].key == key; }
  }

  /** The end of a session is noticed by its own tab alone, which counts as unread unless it is the one looked at. */
  lemma FinishedTab(t: Tabs, tab: nat, generation: nat)
    requires WellFormed(t) && tab < |t.pool|
    ensures var after := Finish(t, tab, generation); var open := tab in t.order && t.pool[tab].generation == generation;
      && after.order == t.order && after.active == t.active && after.closing == t.closing && |after.pool| == |t.pool|
      && (forall other | 0 <= other < |t.pool| && (other != tab || !open) :: after.pool[other] == t.pool[other])
      && (open ==>
            && after.pool[tab].session == None && after.pool[tab].status == Exited && after.pool[tab].generation == generation
            && (after.pool[tab].unread <==> t.pool[tab].unread || t.order[t.active] != tab))
  {
  }

  /** Closing all tabs hands over exactly the sessions of the open tabs, in order, and outdates every worker of theirs. */
  lemma {:induction false} RetiredTabs(pool: seq<Tab>, order: seq<nat>, n: nat, tab: nat)
    requires n <= |order| && (forall i | 0 <= i < |order| :: order[i] < |pool|)
    requires (forall i, j | 0 <= i < j < |order| :: order[i] != order[j]) && tab < |pool|
    ensures var after := RetireAll(pool, order, n).0[tab];
      if tab in order[..n] then
        && after.session == None && !after.connecting && after.generation == pool[tab].generation + 1
        && after == pool[tab].(session := None, connecting := false, generation := after.generation)
      else after == pool[tab]
    ensures |RetireAll(pool, order, n).1| <= n
    ensures n > 0 ==> var before := RetireAll(pool, order, n - 1).1;
      RetireAll(pool, order, n).1 == match pool[order[n - 1]].session case Some(s) => before + [s] case None => before
  {
    if n > 0 {
      RetiredTabs(pool, order, n - 1, tab);
      RetiredTabs(pool, order, n - 1, order[n - 1]);
      assert order[..n] == order[..n - 1] + [order[n - 1]];
    }
  }
}
