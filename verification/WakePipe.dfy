/**
 Waking the main loop: notifiers put a token into a channel of capacity one and then write a byte
 into a non-blocking pipe; the loop polls the pipe. The two writes are separate steps, and any
 number of notifiers may stand between them.
 */
module WakePipe {

  const PIPE_CAPACITY: nat := 65536
  const READ_SIZE: nat := 64

  /** Loop positions: opening the pipe, before and after the drain at the top, at the poll, woken inside the read. */
  datatype Place = Booting | Top | Drained | AtPoll | Woken

  /** between counts notifiers that have sent their token and not yet reached the pipe. */
  datatype State = State(open: bool, full: bool, pipe: nat, between: nat, place: Place)

  datatype Action = OpenPipe | Announce | Send | Write | Drain | Receive | PollWakes | PollReturns

  const START := State(false, false, 0, 0, Booting)

  function WriteByte(pipe: nat): nat {
    if pipe < PIPE_CAPACITY then pipe + 1 else pipe
  }

  /** One read takes up to 64 bytes. */
  function ReadOnce(pipe: nat): nat {
    if pipe <= READ_SIZE then 0 else pipe - READ_SIZE
  }

  predicate Enabled(s: State, a: Action) {
    match a
    case OpenPipe => !s.open
    case Announce => s.open && s.place == Booting
    case Send => true
    case Write => s.between > 0
    case Drain => s.open && (s.place == Top || s.place == Woken)
    case Receive => s.place == Drained
    case PollWakes => s.place == AtPoll && s.pipe > 0
    case PollReturns => s.place == AtPoll
  }

  function Next(s: State, a: Action): State {
    if !Enabled(s, a) then s
    else
      match a
      case OpenPipe => s.(open := true)
      // A token queued before the pipe existed gets its byte once the pipe is open.
      case Announce => s.(pipe := if s.full then WriteByte(s.pipe) else s.pipe, place := Top)
      case Send => if s.full then s else s.(full := true, between := s.between + 1)
      case Write => s.(between := s.between - 1, pipe := if s.open then WriteByte(s.pipe) else s.pipe)
      case Drain => s.(pipe := ReadOnce(s.pipe), place := if s.place == Top then Drained else Top)
      case Receive => s.(full := false, place := AtPoll)
      case PollWakes => s.(place := Woken)
      case PollReturns => s.(place := Top)
  }

  function Run(actions: seq<Action>): State {
    if actions == [] then START else Next(Run(actions[..|actions| - 1]), actions[|actions| - 1])
  }

  predicate WakeIsComing(s: State) {
    s.full ==> s.pipe > 0 || s.between > 0
  }

  predicate Inv(s: State) {
    && (s.place == AtPoll ==> s.open && WakeIsComing(s))
    && (!s.open ==> s.pipe == 0 && s.place == Booting)
  }

  lemma {:induction false} InvAlways(actions: seq<Action>)
    ensures Inv(Run(actions))
  {
    if actions != [] {
      InvAlways(actions[..|actions| - 1]);
    }
  }

  /**
   No lost wakeup: whenever the loop stands at its poll with a token queued, the pipe is readable, or
   a notifier is about to make it so and its write does.
   */
  lemma NoLostWakeup(actions: seq<Action>)
    requires Run(actions).place == AtPoll && Run(actions).full
    ensures var s := Run(actions);
      Enabled(s, PollWakes) || (Enabled(s, Write) && Enabled(Next(s, Write), PollWakes))
  {
    InvAlways(actions);
  }

  /** From a wake the loop reaches the channel before it can poll again, and then the token is taken. */
  lemma WokenLoopTakesTheToken(actions: seq<Action>)
    requires Enabled(Run(actions), PollWakes)
    ensures var after := Next(Next(Next(Next(Run(actions), PollWakes), Drain), Drain), Receive);
      after.place == AtPoll && !after.full
  {
    InvAlways(actions);
  }

  // ---------------------------------------------------------------- the order of the two drains

  /** The loop with its two drains exchanged: the channel first, the pipe afterwards. */
  function NextSwapped(s: State, a: Action): State {
    if !s.open then Next(s, a)
    else if a == Receive && s.place == Top then s.(full := false, place := Drained)
    else if a == Drain && s.place == Drained then s.(pipe := ReadOnce(s.pipe), place := AtPoll)
    else if (a == Receive && s.place == Drained) || (a == Drain && s.place == Top) then s
    else Next(s, a)
  }

  function RunSwapped(actions: seq<Action>): State {
    if actions == [] then START else NextSwapped(RunSwapped(actions[..|actions| - 1]), actions[|actions| - 1])
  }

  lemma RunSwappedSnoc(actions: seq<Action>, a: Action)
    ensures RunSwapped(actions + [a]) == NextSwapped(RunSwapped(actions), a)
  {
    assert (actions + [a])[..|actions|] == actions;
  }

  /** A token sent and signalled between the two exchanged drains is never announced. */
  lemma SwappedDrainsLoseAWakeup()
    ensures exists actions :: var s := RunSwapped(actions);
      s.place == AtPoll && s.full && !Enabled(s, PollWakes) && !Enabled(s, Write)
  {
    var a0 := [] + [OpenPipe];
    var a1 := a0 + [Announce];
    var a2 := a1 + [Receive];
    var a3 := a2 + [Send];
    var a4 := a3 + [Write];
    var a5 := a4 + [Drain];
    RunSwappedSnoc([], OpenPipe);
    RunSwappedSnoc(a0, Announce);
    RunSwappedSnoc(a1, Receive);
    RunSwappedSnoc(a2, Send);
    RunSwappedSnoc(a3, Write);
    RunSwappedSnoc(a4, Drain);
    assert RunSwapped(a5).place == AtPoll;
  }

  // ---------------------------------------------------------------- tokens and bytes

  function Sends(actions: seq<Action>): nat {
    if actions == [] then 0
    else
      var init := actions[..|actions| - 1];
      Sends(init) + if actions[|actions| - 1] == Send && !Run(init).full then 1 else 0
  }

  function Receipts(actions: seq<Action>): nat {
    if actions == [] then 0
    else
      var init := actions[..|actions| - 1];
      Receipts(init) + if actions[|actions| - 1] == Receive && Enabled(Run(init), Receive) && Run(init).full then 1 else 0
  }

  /** Coalescing loses no token: each accepted one is received or still queued. */
  lemma {:induction false} TokensAreConserved(actions: seq<Action>)
    ensures Sends(actions) == Receipts(actions) + if Run(actions).full then 1 else 0
  {
    if actions != [] {
      TokensAreConserved(actions[..|actions| - 1]);
    }
  }

  /** Stray bytes are bounded by the tokens sent: a race costs at most one harmless wake each. */
  lemma {:induction false} WakesAreBounded(actions: seq<Action>)
    ensures var s := Run(actions);
      s.pipe + s.between <= Sends(actions) + (if s.place == Booting then 0 else 1)
  {
    if actions != [] {
      WakesAreBounded(actions[..|actions| - 1]);
      InvAlways(actions[..|actions| - 1]);
    }
  }
}
