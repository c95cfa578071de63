/**
 The output sanitiser of a terminal tab: guest output reaches the emulator only after
 operating-system commands (ESC ] ... terminator; control strings, section 5.6 of ECMA-48)
 have been checked. The filter works on whatever chunks the session happens to deliver.
 */
module OscFilter {
  import opened Numerals

  const ESC: byte := '\U{1b}'
  const BEL: byte := '\U{07}'
  const MAX_OSC_BYTES: nat := 65536

  // ---------------------------------------------------------------- the validator

  function IndexByte(s: bytes, b: byte): (i: int)
    ensures -1 <= i < |s|
    ensures i >= 0 ==> s[i] == b && b !in s[..i]
    ensures i < 0 ==> b !in s
  {
    if s == [] then -1
    else if s[0] == b then 0
    else
      var rest := IndexByte(s[1..], b);
      if rest < 0 then -1 else rest + 1
  }

  /** The end of the payload, or None where a final backslash is not preceded by ESC. */
  function PayloadEnd(sequence: bytes): (end: Option<nat>)
    requires |sequence| >= 4
    ensures end.Some? ==> 2 <= end.value < |sequence|
  {
    var last := |sequence| - 1;
    if sequence[last] != '\\' then Some(last)
    else if sequence[last - 1] != ESC then None
    else Some(last - 1)
  }

  predicate ValidOscSequence(sequence: bytes) {
    && |sequence| >= 4 && sequence[0] == ESC && sequence[1] == ']'
    && var end := PayloadEnd(sequence);
      && end.Some?
      && var payload := sequence[2..end.value];
        var separator := IndexByte(payload, ';');
        var command := if separator >= 0 then payload[..separator] else payload;
        command != [] && AllDigits(command)
  }

  /** The shape the validator accepts, written as a grammar: ESC ] digits [; text] terminator. */
  ghost predicate NumberedCommand(sequence: bytes, command: bytes, text: bytes, terminator: bytes) {
    && sequence == [ESC, ']'] + command + text + terminator
    && command != [] && AllDigits(command)
    && (text == [] || text[0] == ';')
    && (terminator == [ESC, '\\'] || (|terminator| == 1 && terminator[0] != '\\'))
  }

  lemma ValidOscIsNumberedCommand(sequence: bytes)
    ensures ValidOscSequence(sequence)
       <==> exists command, text, terminator :: NumberedCommand(sequence, command, text, terminator)
  {
    if ValidOscSequence(sequence) {
      var _, _, _ := SplitCommand(sequence);
    }
    if command, text, terminator :| NumberedCommand(sequence, command, text, terminator) {
      NumberedIsValid(sequence, command, text, terminator);
    }
  }

  lemma SplitCommand(sequence: bytes) returns (command: bytes, text: bytes, terminator: bytes)
    requires ValidOscSequence(sequence)
    ensures NumberedCommand(sequence, command, text, terminator)
  {
    var end := PayloadEnd(sequence).value;
    var payload := sequence[2..end];
    var separator := IndexByte(payload, ';');
    var cut := if separator >= 0 then separator else |payload|;
    command, text, terminator := payload[..cut], payload[cut..], sequence[end..];
    TerminatorShape(sequence);
    hide PayloadEnd;
    assert payload == command + text;
    Rejoin(sequence, end);
    assert [ESC, ']'] + payload == [ESC, ']'] + command + text;
  }

  lemma TerminatorShape(sequence: bytes)
    requires |sequence| >= 4 && PayloadEnd(sequence).Some?
    ensures var terminator := sequence[PayloadEnd(sequence).value..];
      terminator == [ESC, '\\'] || (|terminator| == 1 && terminator[0] != '\\')
  {
  }

  lemma Rejoin(s: bytes, end: nat)
    requires 2 <= end <= |s|
    ensures s == [s[0], s[1]] + s[2..end] + s[end..]
  {
    assert s[..end] == [s[0], s[1]] + s[2..end];
  }

  lemma NumberedIsValid(sequence: bytes, command: bytes, text: bytes, terminator: bytes)
    requires NumberedCommand(sequence, command, text, terminator)
    ensures ValidOscSequence(sequence)
  {
    var end := 2 + |command| + |text|;
    assert sequence[..end] == [ESC, ']'] + command + text;
    assert sequence[end..] == terminator;
    if |terminator| == 1 {
      assert sequence[|sequence| - 1] == terminator[0];
    } else {
      assert sequence[|sequence| - 1] == sequence[end..][1] && sequence[|sequence| - 2] == sequence[end..][0];
    }
    assert PayloadEnd(sequence) == Some(end);
    assert sequence[2..end] == sequence[..end][2..] == command + text;
    SeparatorFollowsDigits(command, text);
  }

  lemma SeparatorFollowsDigits(command: bytes, text: bytes)
    requires AllDigits(command) && (text == [] || text[0] == ';')
    ensures var separator := IndexByte(command + text, ';');
      (if separator >= 0 then (command + text)[..separator] else command + text) == command
  {
    var payload := command + text;
    var separator := IndexByte(payload, ';');
    assert text != [] ==> payload[|command|] == ';';
    assert separator >= 0 ==> payload[separator] == ';';
    assert forall i | 0 <= i < |command| :: payload[i] == command[i];
  }

  // ---------------------------------------------------------------- one byte at a time

  datatype FilterState = FilterState(pendingEscape: bool, inOsc: bool, discard: bool, oscEscape: bool, buffer: bytes)

  const START := FilterState(false, false, false, false, [])

  /** No flag survives outside a command, and the buffer never exceeds the limit. */
  predicate Consistent(st: FilterState) {
    && |st.buffer| <= MAX_OSC_BYTES
    && (st.inOsc ==> !st.pendingEscape && (if st.discard then st.buffer == [] else |st.buffer| >= 2))
    && (!st.inOsc ==> !st.discard && !st.oscEscape && st.buffer == [])
  }

  datatype Output = Output(next: FilterState, out: bytes)

  function OscStep(st: FilterState, value: byte): Output
    requires st.inOsc
  {
    var full := !st.discard && |st.buffer| >= MAX_OSC_BYTES;
    var discard := st.discard || full;
    var buffer := if st.discard then st.buffer else if full then [] else st.buffer + [value];
    if value == BEL || (value == '\\' && st.oscEscape) then
      Output(START, if !discard && ValidOscSequence(buffer) then buffer else [])
    else
      Output(FilterState(st.pendingEscape, true, discard, value == ESC, buffer), [])
  }

  function Step(st: FilterState, value: byte): Output {
    if st.inOsc then OscStep(st, value)
    else if st.pendingEscape && value == ']' then Output(FilterState(false, true, false, false, [ESC, ']']), [])
    else
      var flushed := if st.pendingEscape then [ESC] else [];
      if value == ESC then Output(START.(pendingEscape := true), flushed)
      else Output(START, flushed + [value])
  }

  lemma StepKeepsConsistent(st: FilterState, value: byte)
    requires Consistent(st)
    ensures Consistent(Step(st, value).next)
  {
  }

  /** Any machine that reads a byte and emits bytes, run over an input. */
  function Fold(step: (FilterState, byte) -> Output, st: FilterState, input: bytes): Output {
    if input == [] then Output(st, [])
    else
      var before := Fold(step, st, input[..|input| - 1]);
      var last := step(before.next, input[|input| - 1]);
      Output(last.next, before.out + last.out)
  }

  lemma {:induction false} FoldConcat(step: (FilterState, byte) -> Output, st: FilterState, a: bytes, b: bytes)
    ensures Fold(step, st, a + b) == var first := Fold(step, st, a); var second := Fold(step, first.next, b);
                                     Output(second.next, first.out + second.out)
  {
    if b == [] {
      assert a + b == a;
    } else {
      FoldConcat(step, st, a, b[..|b| - 1]);
      assert (a + b)[..|a + b| - 1] == a + b[..|b| - 1];
    }
  }

  lemma FoldSnoc(step: (FilterState, byte) -> Output, st: FilterState, input: bytes, value: byte)
    ensures Fold(step, st, input + [value])
         == var before := Fold(step, st, input); var last := step(before.next, value);
            Output(last.next, before.out + last.out)
  {
    assert (input + [value])[..|input|] == input;
  }

  function Run(st: FilterState, input: bytes): Output {
    Fold(Step, st, input)
  }

  lemma RunConcat(st: FilterState, a: bytes, b: bytes)
    ensures Run(st, a + b) == var first := Run(st, a); var second := Run(first.next, b);
                              Output(second.next, first.out + second.out)
  {
    FoldConcat(Step, st, a, b);
  }

  lemma {:induction false} RunKeepsConsistent(st: FilterState, input: bytes)
    requires Consistent(st)
    ensures Consistent(Run(st, input).next)
  {
    if input != [] {
      RunKeepsConsistent(st, input[..|input| - 1]);
      StepKeepsConsistent(Run(st, input[..|input| - 1]).next, input[|input| - 1]);
    }
  }

  /** The shortcut the filter takes: between sequences, a chunk without ESC passes through untouched. */
  lemma {:induction false} EscapeFreeIsIdentity(input: bytes)
    requires ESC !in input
    ensures Run(START, input) == Output(START, input)
  {
    if input != [] {
      EscapeFreeIsIdentity(input[..|input| - 1]);
      assert input[..|input| - 1] + [input[|input| - 1]] == input;
    }
  }

  class TerminalBuffer {
    var pendingEscape: bool
    var inOsc: bool
    var oscDiscard: bool
    var oscEscape: bool
    var oscBuffer: bytes

    function State(): FilterState
      reads this
    {
      FilterState(pendingEscape, inOsc, oscDiscard, oscEscape, oscBuffer)
    }

    constructor ()
      ensures State() == START
    {
      pendingEscape, inOsc, oscDiscard, oscEscape, oscBuffer := false, false, false, false, [];
    }

    method ConsumeByte(value: byte) returns (piece: bytes)
      requires Consistent(State())
      modifies this
      ensures Output(State(), piece) == Step(old(State()), value)
    {
      piece := [];
      if inOsc {
        if !oscDiscard {
          if |oscBuffer| < MAX_OSC_BYTES {
            oscBuffer := oscBuffer + [value];
          } else {
            oscDiscard := true;
            oscBuffer := [];
          }
        }
        if value == BEL || (value == '\\' && oscEscape) {
          if !oscDiscard && ValidOscSequence(oscBuffer) {
            piece := oscBuffer;
          }
          inOsc, oscDiscard, oscEscape, oscBuffer := false, false, false, [];
        } else {
          oscEscape := value == ESC;
        }
        return;
      }
      if pendingEscape {
        pendingEscape := false;
        if value == ']' {
          inOsc := true;
          oscBuffer := [ESC, ']'];
          return;
        }
        piece := [ESC];
      }
      if value == ESC {
        pendingEscape := true;
        return;
      }
      piece := piece + [value];
    }

    /** One Write of guest output: whatever the chunk, the buffer has run the automaton over it. */
    method SanitizeOutput(input: bytes) returns (out: bytes)
      requires Consistent(State())
      modifies this
      ensures Consistent(State())
      ensures Output(State(), out) == Run(old(State()), input)
    {
      if !pendingEscape && !inOsc && IndexByte(input, ESC) < 0 {
        EscapeFreeIsIdentity(input);
        return input;
      }
      out := [];
      ghost var start := State();
      for i := 0 to |input|
        invariant Consistent(State())
        invariant Output(State(), out) == Run(start, input[..i])
      {
        StepKeepsConsistent(State(), input[i]);
        FoldSnoc(Step, start, input[..i], input[i]);
        assert input[..i] + [input[i]] == input[..i + 1];
        var piece := ConsumeByte(input[i]);
        out := out + piece;
      }
      assert input[..|input|] == input;
    }
  }

  // ---------------------------------------------------------------- the whole stream

  function Flatten(chunks: seq<bytes>): bytes {
    if chunks == [] then [] else Flatten(chunks[..|chunks| - 1]) + chunks[|chunks| - 1]
  }

  /** What successive calls of SanitizeOutput leave behind and emit. */
  function RunChunks(chunks: seq<bytes>): Output {
    if chunks == [] then Output(START, [])
    else
      var before := RunChunks(chunks[..|chunks| - 1]);
      var last := Run(before.next, chunks[|chunks| - 1]);
      Output(last.next, before.out + last.out)
  }

  lemma {:induction false} ChunkingIsIrrelevant(chunks: seq<bytes>)
    ensures RunChunks(chunks) == Run(START, Flatten(chunks))
  {
    if chunks != [] {
      ChunkingIsIrrelevant(chunks[..|chunks| - 1]);
      RunConcat(START, Flatten(chunks[..|chunks| - 1]), chunks[|chunks| - 1]);
    }
  }

  /** A method client: any way of cutting the stream, written chunk by chunk. */
  method WriteAll(chunks: seq<bytes>) returns (out: bytes)
    ensures out == Emitted(Parse(Flatten(chunks)))
  {
    var buffer := new TerminalBuffer();
    out := [];
    for i := 0 to |chunks|
      invariant fresh(buffer) && Consistent(buffer.State())
      invariant Output(buffer.State(), out) == RunChunks(chunks[..i])
    {
      assert chunks[..i + 1][..i] == chunks[..i];
      var piece := buffer.SanitizeOutput(chunks[i]);
      out := out + piece;
    }
    assert chunks[..|chunks|] == chunks;
    ChunkingIsIrrelevant(chunks);
    FilterMeetsGrammar(Flatten(chunks));
  }

  // ---------------------------------------------------------------- the reference grammar

  /** A stream read with unlimited lookahead: plain bytes, complete commands, and what is still open at the end. */
  datatype Segment = Plain(value: byte) | Command(text: bytes)
  datatype Parsed = Parsed(segments: seq<Segment>, tail: bytes)

  predicate Terminates(s: bytes, i: nat)
    requires 2 <= i < |s|
  {
    s[i] == BEL || (s[i] == '\\' && i > 2 && s[i - 1] == ESC)
  }

  /** The first terminator at or after i, or |s|. */
  function CommandEnd(s: bytes, i: nat): (end: nat)
    requires 2 <= i <= |s|
    ensures i <= end <= |s|
    ensures forall k | i <= k < end :: !Terminates(s, k)
    ensures end < |s| ==> Terminates(s, end)
    decreases |s| - i
  {
    if i == |s| || Terminates(s, i) then i else CommandEnd(s, i + 1)
  }

  function Parse(s: bytes): Parsed {
    if s == [] || s == [ESC] then Parsed([], s)
    else if s[0] == ESC && s[1] == ']' then
      var end := CommandEnd(s, 2);
      if end == |s| then Parsed([], s)
      else
        var rest := Parse(s[end + 1..]);
        Parsed([Command(s[..end + 1])] + rest.segments, rest.tail)
    else
      var rest := Parse(s[1..]);
      Parsed([Plain(s[0])] + rest.segments, rest.tail)
  }

  function Spelled(segments: seq<Segment>): bytes {
    if segments == [] then []
    else (match segments[0] case Plain(value) => [value] case Command(text) => text) + Spelled(segments[1..])
  }

  /** Plain bytes, and the commands that are numbered and fit the limit; nothing of the tail. */
  function EmittedSegments(segments: seq<Segment>): bytes {
    if segments == [] then []
    else
      (match segments[0]
       case Plain(value) => [value]
       case Command(text) => if |text| <= MAX_OSC_BYTES && ValidOscSequence(text) then text else [])
      + EmittedSegments(segments[1..])
  }

  function Emitted(p: Parsed): bytes {
    EmittedSegments(p.segments)
  }

  /** The grammar loses nothing: segments and tail spell the stream. */
  lemma {:induction false} ParseSpellsInput(s: bytes)
    ensures Spelled(Parse(s).segments) + Parse(s).tail == s
  {
    if s == [] || s == [ESC] {
    } else if s[0] == ESC && s[1] == ']' {
      var end := CommandEnd(s, 2);
      if end < |s| {
        ParseSpellsInput(s[end + 1..]);
        assert Parse(s).segments[1..] == Parse(s[end + 1..]).segments;
        assert s[..end + 1] + s[end + 1..] == s;
      }
    } else {
      ParseSpellsInput(s[1..]);
      assert Parse(s).segments[1..] == Parse(s[1..]).segments;
      assert [s[0]] + s[1..] == s;
    }
  }

  /** The automaton after an unterminated command prefix p. */
  function InCommand(p: bytes): FilterState
    requires |p| >= 2
  {
    FilterState(false, true, |p| > MAX_OSC_BYTES, |p| > 2 && p[|p| - 1] == ESC,
                if |p| > MAX_OSC_BYTES then [] else p)
  }

  function TailState(tail: bytes): FilterState {
    if tail == [] then START
    else if tail == [ESC] then START.(pendingEscape := true)
    else if |tail| >= 2 then InCommand(tail)
    else START
  }

  predicate Ends(p: bytes, value: byte) {
    value == BEL || (value == '\\' && |p| > 2 && p[|p| - 1] == ESC)
  }

  lemma StepInsideCommand(p: bytes, value: byte)
    requires |p| >= 2
    ensures !Ends(p, value) ==> Step(InCommand(p), value) == Output(InCommand(p + [value]), [])
    ensures Ends(p, value) ==> Step(InCommand(p), value) == Output(START, EmittedSegments([Command(p + [value])]))
  {
  }

  lemma StepOpens()
    ensures Step(START, ESC) == Output(START.(pendingEscape := true), [])
    ensures Step(START.(pendingEscape := true), ']') == Output(InCommand([ESC, ']']), [])
    ensures forall value | value != ESC :: Step(START, value) == Output(START, [value])
    ensures forall value | value != ']' ::
      Step(START.(pendingEscape := true), value) == var plain := Step(START, value); Output(plain.next, [ESC] + plain.out)
  {
  }

  lemma EndsWhereItTerminates(s: bytes, n: nat)
    requires 2 <= n < |s|
    ensures Ends(s[..n], s[n]) <==> Terminates(s, n)
    ensures s[..n] + [s[n]] == s[..n + 1]
  {
  }

  lemma {:induction false} RunInsideCommand(s: bytes, n: nat)
    requires |s| >= 2 && s[0] == ESC && s[1] == ']' && 2 <= n <= CommandEnd(s, 2)
    ensures Run(START, s[..n]) == Output(InCommand(s[..n]), [])
  {
    hide Step, InCommand, Ends, Terminates, Run;
    if n == 2 {
      assert s[..2] == [ESC] + [']'] == [ESC, ']'];
      RunSnoc(START, [ESC], ']');
      RunOneByte(START, ESC);
      StepOpens();
    } else {
      RunInsideCommand(s, n - 1);
      EndsWhereItTerminates(s, n - 1);
      RunSnoc(START, s[..n - 1], s[n - 1]);
      StepInsideCommand(s[..n - 1], s[n - 1]);
    }
  }

  lemma RunWholeCommand(s: bytes)
    requires |s| >= 2 && s[0] == ESC && s[1] == ']' && CommandEnd(s, 2) < |s|
    ensures var text := s[..CommandEnd(s, 2) + 1];
      Run(START, text) == Output(START, EmittedSegments([Command(text)]))
  {
    hide Step, InCommand, Ends, Terminates, EmittedSegments, Run;
    var end := CommandEnd(s, 2);
    RunInsideCommand(s, end);
    EndsWhereItTerminates(s, end);
    RunSnoc(START, s[..end], s[end]);
    StepInsideCommand(s[..end], s[end]);
  }

  lemma RunSnoc(st: FilterState, input: bytes, value: byte)
    ensures Run(st, input + [value])
         == var before := Run(st, input); var last := Step(before.next, value); Output(last.next, before.out + last.out)
  {
    hide Step;
    FoldSnoc(Step, st, input, value);
  }

  lemma RunOneByte(st: FilterState, value: byte)
    ensures Run(st, [value]) == Step(st, value)
  {
    hide Step;
    RunSnoc(st, [], value);
    assert [] + [value] == [value];
  }

  /** A leading ESC that opens nothing is emitted together with whatever the following byte produces. */
  lemma RunPlainEscape(s: bytes)
    requires |s| >= 2 && s[0] == ESC && s[1] != ']'
    ensures Run(START, s) == var rest := Run(START, s[1..]); Output(rest.next, [ESC] + rest.out)
  {
    hide Step, Run;
    var pending := START.(pendingEscape := true);
    StepOpens();
    RunOneByte(START, ESC);
    RunOneByte(START, s[1]);
    RunOneByte(pending, s[1]);
    RunConcat(START, [ESC], s[1..]);
    RunConcat(pending, [s[1]], s[2..]);
    RunConcat(START, [s[1]], s[2..]);
    assert [ESC] + s[1..] == s && [s[1]] + s[2..] == s[1..];
    assert Run(pending, s[1..]).out == [ESC] + Run(START, s[1..]).out;
  }

  lemma EmittedCons(first: Segment, rest: seq<Segment>)
    ensures EmittedSegments([first] + rest) == EmittedSegments([first]) + EmittedSegments(rest)
    ensures EmittedSegments([]) == []
    ensures first.Plain? ==> EmittedSegments([first]) == [first.value]
  {
    hide ValidOscSequence;
    assert ([first] + rest)[1..] == rest && [first][1..] == [];
  }

  /** Main theorem: the byte automaton emits exactly what the grammar says and stops in the state of its tail. */
  lemma {:induction false} FilterMeetsGrammar(s: bytes)
    ensures Run(START, s) == Output(TailState(Parse(s).tail), Emitted(Parse(s)))
  {
    hide Step, InCommand, EmittedSegments;
    EmittedCons(Plain(ESC), []);
    if s == [] {
    } else if s == [ESC] {
      RunOneByte(START, ESC);
      StepOpens();
    } else if s[0] == ESC && s[1] == ']' {
      var end := CommandEnd(s, 2);
      if end == |s| {
        RunInsideCommand(s, |s|);
        assert s[..|s|] == s;
      } else {
        RunWholeCommand(s);
        FilterMeetsGrammar(s[end + 1..]);
        EmittedCons(Command(s[..end + 1]), Parse(s[end + 1..]).segments);
        RunConcat(START, s[..end + 1], s[end + 1..]);
        assert s[..end + 1] + s[end + 1..] == s;
        assert Parse(s).segments[1..] == Parse(s[end + 1..]).segments;
      }
    } else {
      FilterMeetsGrammar(s[1..]);
      assert Parse(s).segments[1..] == Parse(s[1..]).segments;
      EmittedCons(Plain(s[0]), Parse(s[1..]).segments);
      if s[0] == ESC {
        RunPlainEscape(s);
      } else {
        RunConcat(START, [s[0]], s[1..]);
        RunOneByte(START, s[0]);
        StepOpens();
        assert [s[0]] + s[1..] == s;
      }
    }
  }

  /** Filtering twice is not filtering once: the first pass can leave bytes that open a command. */
  lemma NotIdempotent()
    ensures exists s :: Emitted(Parse(Emitted(Parse(s)))) != Emitted(Parse(s))
  {
    var s: bytes := [ESC, ESC, ']', BEL, ']'];
    assert s[1..] == [ESC, ']', BEL, ']'];
    assert CommandEnd(s[1..], 2) == 2;
    assert s[1..][3..] == [']'] && s[1..][..3] == [ESC, ']', BEL];
    assert Parse([']']) == Parsed([Plain(']')], []) by { assert [']'][1..] == []; }
    assert Parse(s[1..]) == Parsed([Command([ESC, ']', BEL]), Plain(']')], []);
    assert Parse(s) == Parsed([Plain(ESC), Command([ESC, ']', BEL]), Plain(']')], []);
    assert EmittedSegments([Plain(']')]) == [']'] by { assert [Plain(']')][1..] == []; }
    assert EmittedSegments([Command([ESC, ']', BEL]), Plain(']')]) == [']'] by {
      assert [Command([ESC, ']', BEL]), Plain(']')][1..] == [Plain(']')];
    }
    assert Emitted(Parse(s)) == [ESC, ']'] by {
      assert Parse(s).segments[1..] == [Command([ESC, ']', BEL]), Plain(']')];
    }
    assert Emitted(Parse([ESC, ']'])) == [];
    assert Emitted(Parse(Emitted(Parse(s)))) != Emitted(Parse(s));
  }
}
