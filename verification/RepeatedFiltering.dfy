/**
 Which streams the sanitiser passes unchanged, and for which a second pass changes nothing more. Dropping a
 command can bring an escape byte before a bracket that was not there before; the second pass then reads on
 from that bracket, up to the next kept segment that terminates a command.
 */
module RepeatedFiltering {
  import opened Numerals
  import opened OscFilter

  // ---------------------------------------------------------------- streams that pass unchanged

  predicate Keeps(g: Segment) {
    g.Command? ==> |g.text| <= MAX_OSC_BYTES && ValidOscSequence(g.text)
  }

  predicate AllKept(segments: seq<Segment>) {
    forall i | 0 <= i < |segments| :: Keeps(segments[i])
  }

  /** Every command of the stream is complete, numbered and within the limit, and no escape byte is pending. */
  predicate NothingDropped(p: Parsed) {
    p.tail == [] && AllKept(p.segments)
  }

  /** A command as the grammar finds it: opened by ESC ], and terminated by its last byte for the first time. */
  predicate Shaped(g: Segment) {
    g.Command? ==>
      |g.text| >= 3 && g.text[0] == ESC && g.text[1] == ']' && CommandEnd(g.text, 2) == |g.text| - 1
  }

  predicate AllShaped(segments: seq<Segment>) {
    forall i | 0 <= i < |segments| :: Shaped(segments[i])
  }

  function SegmentText(g: Segment): bytes {
    match g case Plain(value) => [value] case Command(text) => text
  }

  lemma SameEnds(s: bytes, t: bytes, n: nat)
    requires n <= |s| && n <= |t| && s[..n] == t[..n]
    ensures forall k | 2 <= k < n :: Terminates(s, k) <==> Terminates(t, k)
  {
    forall k | 2 <= k < n
      ensures Terminates(s, k) <==> Terminates(t, k)
    {
      assert s[k] == s[..n][k] == t[k] && s[k - 1] == s[..n][k - 1] == t[k - 1];
    }
  }

  /** Where a command ends is decided by what comes before its end. */
  lemma EndOfPrefix(s: bytes, t: bytes)
    requires |t| >= 3 && |t| <= |s| && s[..|t|] == t
    ensures CommandEnd(t, 2) < |t| ==> CommandEnd(s, 2) == CommandEnd(t, 2)
    ensures CommandEnd(s, 2) < |t| ==> CommandEnd(t, 2) == CommandEnd(s, 2)
  {
    SameEnds(s, t, |t|);
  }

  lemma {:induction false} ParseIsShaped(s: bytes)
    ensures AllShaped(Parse(s).segments)
  {
    if s == [] || s == [ESC] {
    } else if s[0] == ESC && s[1] == ']' {
      var end := CommandEnd(s, 2);
      if end < |s| {
        ParseIsShaped(s[end + 1..]);
        EndOfPrefix(s, s[..end + 1]);
      }
    } else {
      ParseIsShaped(s[1..]);
    }
  }

  /** Dropping makes the output shorter. */
  lemma {:induction false} DroppingShortens(segments: seq<Segment>)
    requires AllShaped(segments)
    ensures |EmittedSegments(segments)| <= |Spelled(segments)|
    ensures AllKept(segments) ==> EmittedSegments(segments) == Spelled(segments)
    ensures !AllKept(segments) ==> |EmittedSegments(segments)| < |Spelled(segments)|
  {
    hide ValidOscSequence, CommandEnd;
    if segments != [] {
      DroppingShortens(segments[1..]);
      assert AllKept(segments) <==> Keeps(segments[0]) && AllKept(segments[1..]);
    }
  }

  /** The filter passes a stream unchanged exactly if the grammar finds nothing to drop or hold back in it. */
  lemma PassesUnchangedExactly(s: bytes)
    ensures Run(START, s).out == s <==> NothingDropped(Parse(s))
  {
    hide Run, Parse, EmittedSegments, Spelled, AllShaped, AllKept;
    FilterMeetsGrammar(s);
    ParseSpellsInput(s);
    ParseIsShaped(s);
    DroppingShortens(Parse(s).segments);
    if Parse(s).tail == [] { assert Spelled(Parse(s).segments) + [] == s; }
  }

  // ---------------------------------------------------------------- what the first pass leaves

  function Kept(segments: seq<Segment>): (kept: seq<Segment>)
    ensures AllKept(kept) && (AllShaped(segments) ==> AllShaped(kept))
  {
    if segments == [] then []
    else (if Keeps(segments[0]) then [segments[0]] else []) + Kept(segments[1..])
  }

  lemma {:induction false} KeptIsEmitted(segments: seq<Segment>)
    ensures Spelled(Kept(segments)) == EmittedSegments(segments)
  {
    hide ValidOscSequence;
    if segments != [] {
      KeptIsEmitted(segments[1..]);
      if Keeps(segments[0]) {
        assert Kept(segments)[1..] == Kept(segments[1..]);
      } else {
        assert Kept(segments) == Kept(segments[1..]);
      }
    }
  }

  // ---------------------------------------------------------------- reading it a second time

  /** An escape byte was left directly before a bracket: together they open a command. */
  predicate Reopens(kept: seq<Segment>) {
    |kept| >= 2 && kept[0] == Plain(ESC) && kept[1] == Plain(']')
  }

  /** The segment terminates a command that is open when it comes: a bell, ESC and backslash, or a whole command. */
  predicate Closes(kept: seq<Segment>, i: nat)
    requires 2 <= i < |kept|
  {
    kept[i].Command? || kept[i] == Plain(BEL) || (kept[i] == Plain('\\') && kept[i - 1] == Plain(ESC))
  }

  function Closing(kept: seq<Segment>, i: nat := 2): (end: nat)
    requires 2 <= i <= |kept|
    ensures i <= end <= |kept|
    ensures forall k | i <= k < end :: !Closes(kept, k)
    ensures end < |kept| ==> Closes(kept, end)
    decreases |kept| - i
  {
    if i == |kept| || Closes(kept, i) then i else Closing(kept, i + 1)
  }

  /**
   No escape byte comes last, and where one was left directly before a bracket, the bytes up to the first
   closing segment make a command that is kept in its turn.
   */
  predicate Settled(kept: seq<Segment>)
    decreases |kept|
  {
    if kept == [] then true
    else if kept == [Plain(ESC)] then false
    else if Reopens(kept) then
      var end := Closing(kept);
      end < |kept| && Keeps(Command(Spelled(kept[..end + 1]))) && Settled(kept[end + 1..])
    else Settled(kept[1..])
  }

  lemma SpelledNothing()
    ensures Spelled([]) == []
  {
  }

  lemma SpelledCons(g: Segment, rest: seq<Segment>)
    ensures Spelled([g] + rest) == SegmentText(g) + Spelled(rest)
  {
    assert ([g] + rest)[1..] == rest;
  }

  lemma {:induction false} SpelledConcat(a: seq<Segment>, b: seq<Segment>)
    ensures Spelled(a + b) == Spelled(a) + Spelled(b)
  {
    hide Spelled, SegmentText;
    if a == [] {
      SpelledNothing();
      assert a + b == b;
    } else {
      var rest := a[1..] + b;
      SpelledConcat(a[1..], b);
      assert a + b == [a[0]] + rest;
      SpelledCons(a[0], rest);
      SpelledCons(a[0], a[1..]);
      assert a == [a[0]] + a[1..];
    }
  }

  lemma SpelledNext(kept: seq<Segment>, i: nat)
    requires i < |kept|
    ensures Spelled(kept[..i + 1]) == Spelled(kept[..i]) + SegmentText(kept[i])
  {
    SpelledConcat(kept[..i], [kept[i]]);
    assert kept[..i] + [kept[i]] == kept[..i + 1] && [kept[i]][1..] == [];
  }

  lemma SpelledSplit(kept: seq<Segment>, i: nat)
    requires i <= |kept|
    ensures Spelled(kept) == Spelled(kept[..i]) + Spelled(kept[i..])
  {
    SpelledConcat(kept[..i], kept[i..]);
    assert kept[..i] + kept[i..] == kept;
  }

  /** Spelled out, a reopened command is open before its closing segment. */
  ghost predicate OpenUpTo(kept: seq<Segment>, i: nat)
    requires i <= |kept|
  {
    var p := Spelled(kept[..i]);
    && |p| >= 2 && p[0] == ESC && p[1] == ']' && CommandEnd(p, 2) == |p|
    && ((|p| > 2 && p[|p| - 1] == ESC) <==> (i > 2 && kept[i - 1] == Plain(ESC)))
  }

  lemma OpenAtTwo(kept: seq<Segment>)
    requires Reopens(kept)
    ensures Spelled(kept[..2]) == [ESC, ']'] && OpenUpTo(kept, 2)
  {
    assert kept[..2] == [Plain(ESC), Plain(']')];
    assert kept[..2][1..] == [Plain(']')] && kept[..2][1..][1..] == [];
    assert Spelled([Plain(']')]) == [']'];
  }

  lemma ByteAfterOpen(p: bytes, value: byte)
    requires |p| >= 2 && CommandEnd(p, 2) == |p|
    ensures var q := p + [value];
      CommandEnd(q, 2) == if value == BEL || (value == '\\' && |p| > 2 && p[|p| - 1] == ESC) then |p| else |q|
  {
    var q := p + [value];
    SameEnds(q, p, |p|);
    var n := |p|;
    assert q[n] == value && q[n - 1] == p[n - 1];
    assert Terminates(q, n) <==> value == BEL || (value == '\\' && n > 2 && p[n - 1] == ESC);
  }

  lemma CommandAfterOpen(p: bytes, t: bytes)
    requires |p| >= 2 && CommandEnd(p, 2) == |p| && Shaped(Command(t))
    ensures CommandEnd(p + t, 2) == |p + t| - 1
  {
    var q := p + t;
    SameEnds(q, p, |p|);
    assert q[|p|] == ESC && q[|p| + 1] == ']';
    forall k | 2 <= k < |t|
      ensures Terminates(q, |p| + k) <==> Terminates(t, k)
    {
      assert q[|p| + k] == t[k] && q[|p| + k - 1] == t[k - 1];
    }
    forall k | |p| + 2 <= k < |q|
      ensures Terminates(q, k) <==> k == |q| - 1
    {
      assert Terminates(q, |p| + (k - |p|)) <==> Terminates(t, k - |p|);
    }
  }

  /** The reopened command runs on through segments that do not close it. */
  lemma {:induction false} StaysOpen(kept: seq<Segment>, i: nat)
    requires AllShaped(kept) && Reopens(kept) && 2 <= i <= Closing(kept)
    ensures OpenUpTo(kept, i)
  {
    if i == 2 {
      OpenAtTwo(kept);
    } else {
      StaysOpen(kept, i - 1);
      SpelledNext(kept, i - 1);
      assert !Closes(kept, i - 1);
      ByteAfterOpen(Spelled(kept[..i - 1]), kept[i - 1].value);
      if i - 1 == 2 { assert kept[1] == Plain(']'); }
    }
  }

  /** It ends with the last byte of its closing segment. */
  lemma ClosingEnds(kept: seq<Segment>)
    requires AllShaped(kept) && Reopens(kept) && Closing(kept) < |kept|
    ensures var text := Spelled(kept[..Closing(kept) + 1]); |text| >= 3 && CommandEnd(text, 2) == |text| - 1
  {
    hide Spelled, CommandEnd;
    var end := Closing(kept);
    var p := Spelled(kept[..end]);
    StaysOpen(kept, end);
    SpelledNext(kept, end);
    if end == 2 { OpenAtTwo(kept); }
    if kept[end].Command? { CommandAfterOpen(p, kept[end].text); } else { ByteAfterOpen(p, kept[end].value); }
  }

  /** Nowhere else, and not at all if nothing closes it. */
  lemma ReopenedEnds(kept: seq<Segment>)
    requires AllShaped(kept) && Reopens(kept)
    ensures var s := Spelled(kept); var end := Closing(kept);
      && |s| >= 2 && s[0] == ESC && s[1] == ']'
      && if end == |kept| then CommandEnd(s, 2) == |s|
         else
           var text := Spelled(kept[..end + 1]);
           && |text| <= |s| && CommandEnd(s, 2) == |text| - 1 && s[..|text|] == text && s[|text|..] == Spelled(kept[end + 1..])
  {
    hide Spelled, CommandEnd, AllShaped;
    var s, end := Spelled(kept), Closing(kept);
    OpenAtTwo(kept);
    SpelledSplit(kept, 2);
    if end < |kept| {
      ClosingEnds(kept);
      SpelledSplit(kept, end + 1);
      EndOfPrefix(s, Spelled(kept[..end + 1]));
    } else {
      StaysOpen(kept, end);
      assert kept[..|kept|] == kept;
    }
  }

  lemma WholeCommandFirst(t: bytes, rest: bytes)
    requires Shaped(Command(t))
    ensures Parse(t + rest) == var after := Parse(rest); Parsed([Command(t)] + after.segments, after.tail)
  {
    var s := t + rest;
    assert s[..|t|] == t && s[|t|..] == rest;
    EndOfPrefix(s, t);
  }

  lemma NothingDroppedFirst(g: Segment, rest: Parsed)
    ensures NothingDropped(Parsed([g] + rest.segments, rest.tail)) <==> Keeps(g) && NothingDropped(rest)
  {
    hide Keeps;
    var all := [g] + rest.segments;
    assert all[0] == g && forall i | 0 <= i < |rest.segments| :: all[i + 1] == rest.segments[i];
  }

  lemma SecondByte(kept: seq<Segment>)
    requires AllShaped(kept) && |kept| >= 2 && kept[0] == Plain(ESC)
    ensures |Spelled(kept)| >= 2 && Spelled(kept)[0] == ESC && (Spelled(kept)[1] == ']' <==> Reopens(kept))
    ensures Spelled(kept)[1..] == Spelled(kept[1..])
  {
    assert Spelled(kept) == [ESC] + Spelled(kept[1..]);
    assert Spelled(kept[1..]) == SegmentText(kept[1]) + Spelled(kept[1..][1..]);
  }

  /** A second pass finds nothing to drop exactly if what the first one kept is settled. */
  lemma {:induction false} SettledExactly(kept: seq<Segment>)
    requires AllShaped(kept) && AllKept(kept)
    ensures NothingDropped(Parse(Spelled(kept))) <==> Settled(kept)
    decreases |kept|
  {
    hide Keeps, Shaped, CommandEnd;
    var s := Spelled(kept);
    if kept == [] {
    } else if kept == [Plain(ESC)] {
      assert Spelled(kept[1..]) == [] && s == [ESC];
    } else if Reopens(kept) {
      var end := Closing(kept);
      ReopenedEnds(kept);
      if end < |kept| {
        SettledExactly(kept[end + 1..]);
        NothingDroppedFirst(Command(Spelled(kept[..end + 1])), Parse(Spelled(kept[end + 1..])));
      }
    } else {
      SettledExactly(kept[1..]);
      NothingDroppedFirst(kept[0], Parse(Spelled(kept[1..])));
      assert Keeps(kept[0]) && Shaped(kept[0]);
      if kept[0].Command? {
        WholeCommandFirst(kept[0].text, Spelled(kept[1..]));
      } else if kept[0].value == ESC {
        SecondByte(kept);
      } else {
        assert s == [kept[0].value] + Spelled(kept[1..]);
        assert s[0] != ESC && s[1..] == Spelled(kept[1..]);
      }
    }
  }

  /** Main theorem: filtering twice is filtering once exactly if what the first pass kept is settled. */
  lemma IdempotentExactly(s: bytes)
    ensures var once := Run(START, s).out;
      Run(START, once).out == once <==> Settled(Kept(Parse(s).segments))
  {
    hide Run, Parse, Settled, NothingDropped, EmittedSegments, Spelled, AllShaped, AllKept;
    var kept := Kept(Parse(s).segments);
    FilterMeetsGrammar(s);
    ParseIsShaped(s);
    KeptIsEmitted(Parse(s).segments);
    SettledExactly(kept);
    PassesUnchangedExactly(Spelled(kept));
  }

  // ---------------------------------------------------------------- simpler conditions

  /** No escape byte that was kept comes last or directly before a kept bracket. */
  predicate NothingReopens(kept: seq<Segment>) {
    forall i | 0 <= i < |kept| && kept[i] == Plain(ESC) :: i + 1 < |kept| && kept[i + 1] != Plain(']')
  }

  lemma {:induction false} UnopenedIsSettled(kept: seq<Segment>)
    requires NothingReopens(kept)
    ensures Settled(kept)
  {
    if kept != [] {
      assert kept[0] == Plain(ESC) ==> 1 < |kept|;
      assert forall i | 0 <= i < |kept| - 1 :: kept[1..][i] == kept[i + 1];
      UnopenedIsSettled(kept[1..]);
    }
  }

  /** Conversely an escape byte at the end is always lost. */
  lemma {:induction false} TrailingEscapeIsUnsettled(kept: seq<Segment>)
    requires kept != [] && kept[|kept| - 1] == Plain(ESC)
    ensures !Settled(kept)
    decreases |kept|
  {
    if kept == [Plain(ESC)] {
    } else if Reopens(kept) {
      var end := Closing(kept);
      if end < |kept| - 1 { TrailingEscapeIsUnsettled(kept[end + 1..]); }
    } else {
      TrailingEscapeIsUnsettled(kept[1..]);
    }
  }

  predicate NothingCloses(kept: seq<Segment>) {
    forall i | 2 <= i < |kept| :: !Closes(kept, i)
  }

  /** And so is one before a bracket that nothing closes. */
  lemma {:induction false} UnclosedIsUnsettled(kept: seq<Segment>)
    requires !NothingReopens(kept) && NothingCloses(kept)
    ensures !Settled(kept)
    decreases |kept|
  {
    if kept != [] && kept != [Plain(ESC)] && !Reopens(kept) {
      var rest := kept[1..];
      forall i | 2 <= i < |rest|
        ensures !Closes(rest, i)
      {
        assert !Closes(kept, i + 1);
      }
      ReopensLater(kept);
      UnclosedIsUnsettled(rest);
    }
  }

  lemma ReopensLater(kept: seq<Segment>)
    requires |kept| >= 1 && kept != [Plain(ESC)] && !Reopens(kept) && !NothingReopens(kept)
    ensures !NothingReopens(kept[1..])
  {
    var i :| 0 <= i < |kept| && kept[i] == Plain(ESC) && !(i + 1 < |kept| && kept[i + 1] != Plain(']'));
    assert i > 0;
    assert kept[1..][i - 1] == Plain(ESC);
    assert i + 1 < |kept| ==> kept[1..][i] == kept[i + 1];
  }

  lemma UnopenedIsIdempotent(s: bytes)
    requires NothingReopens(Kept(Parse(s).segments))
    ensures Run(START, Run(START, s).out).out == Run(START, s).out
  {
    hide Run, Parse, Kept;
    UnopenedIsSettled(Kept(Parse(s).segments));
    IdempotentExactly(s);
  }

  /** The grammar itself never leaves an escape byte before a bracket. */
  lemma {:induction false} ParsedApart(s: bytes)
    ensures var segments := Parse(s).segments;
      && (segments != [] && segments[0].Plain? ==> s != [] && segments[0] == Plain(s[0]))
      && forall i | 0 <= i < |segments| - 1 && segments[i] == Plain(ESC) :: segments[i + 1] != Plain(']')
  {
    if s == [] || s == [ESC] {
    } else if s[0] == ESC && s[1] == ']' {
      var end := CommandEnd(s, 2);
      if end < |s| { ParsedApart(s[end + 1..]); }
    } else {
      ParsedApart(s[1..]);
    }
  }

  lemma {:induction false} AllAreKept(segments: seq<Segment>)
    requires AllKept(segments)
    ensures Kept(segments) == segments
  {
    hide Keeps;
    if segments != [] {
      AllAreKept(segments[1..]);
      assert Keeps(segments[0]);
    }
  }

  /** Where no complete command was dropped, only an escape byte at the very end of the output is at risk. */
  lemma UndroppedIsIdempotentExactly(s: bytes)
    requires AllKept(Parse(s).segments)
    ensures var segments := Parse(s).segments;
      Run(START, Run(START, s).out).out == Run(START, s).out <==> segments == [] || segments[|segments| - 1] != Plain(ESC)
  {
    hide Run, Parse, Kept, Settled, AllKept;
    var segments := Parse(s).segments;
    ParsedApart(s);
    AllAreKept(segments);
    IdempotentExactly(s);
    if segments == [] || segments[|segments| - 1] != Plain(ESC) {
      UnopenedIsSettled(segments);
    } else {
      TrailingEscapeIsUnsettled(segments);
    }
  }
}
