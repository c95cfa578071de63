/**
 At which cuts decoding agrees with decoding the whole: a chunk and what follows it decode separately to the
 events of the two together exactly if no event of the chunk would have gone on into what follows.
 */
module KeyCuts {
  import opened Numerals
  import opened KeyDecoding

  predicate HasMouseEnd(s: bytes) {
    IndexOfMouseEnd(s) < |s|
  }

  /** The second byte of an escape that makes the two of them one key, or the start of a sequence. */
  predicate JoinsEscape(c: byte) {
    c == '[' || c == 'O' || c == ':' || '1' <= c <= '9' || c in "gtT"
  }

  /** The first event of s comes out differently when b follows. */
  predicate Grows(s: bytes, b: bytes)
    requires s != [] && b != []
  {
    if s[0] == '\r' then |s| == 1 && b[0] == '\n'
    else if s[0] != ESC then !FullRune(s) && RuneSize(s + b) > 1
    else if |s| == 1 then JoinsEscape(b[0])
    else if s[1] == 'O' then |s| == 2
    else if s[1] == '[' then
      // No final byte yet, or a mouse report that looks past its final byte for an M that only b has.
      FinalByte(s, 2) == |s| || (StartsWith(s, MOUSE_START) && !HasMouseEnd(s) && HasMouseEnd(b))
    else false
  }

  // ---------------------------------------------------------------- one event

  lemma MouseEndOfMore(s: bytes, b: bytes)
    ensures HasMouseEnd(s) ==> IndexOfMouseEnd(s + b) == IndexOfMouseEnd(s)
    ensures !HasMouseEnd(s) && HasMouseEnd(b) ==> IndexOfMouseEnd(s + b) == |s| + IndexOfMouseEnd(b)
    ensures !HasMouseEnd(s) && !HasMouseEnd(b) ==> !HasMouseEnd(s + b)
  {
    var t := s + b;
    assert forall j | 0 <= j < |s| :: t[j] == s[j];
    forall j | |s| <= j < |t| ensures t[j] == b[j - |s|] {}
    var end := IndexOfMouseEnd(t);
    if !HasMouseEnd(s) && |s| <= end < |t| { assert b[end - |s|] == t[end]; }
    if HasMouseEnd(b) { assert t[|s| + IndexOfMouseEnd(b)] == b[IndexOfMouseEnd(b)]; }
  }

  /** A sequence with a fixed meaning ends with its one final byte, so it is not longer than what has one already. */
  lemma NamedIsShort(s: bytes, b: bytes, text: bytes)
    requires |s| >= 2 && s[0] == ESC && s[1] == '[' && FinalByte(s, 2) < |s|
    requires |text| >= 2 && text[0] == '[' && forall j | 1 <= j < |text| - 1 :: !(0x40 <= text[j] as int <= 0x7e)
    ensures StartsWith((s + b)[1..], text) <==> StartsWith(s[1..], text)
  {
    var t, e := (s + b)[1..], FinalByte(s, 2);
    assert t == s[1..] + b;
    assert |text| > e ==> t[e - 1] == s[e];
    if |text| <= |s| - 1 { assert t[..|text|] == s[1..][..|text|]; }
  }

  predicate Brackets(text: bytes) {
    |text| >= 2 && text[0] == '[' && (forall j | 1 <= j < |text| - 1 :: !(0x40 <= text[j] as int <= 0x7e))
    && 0x40 <= text[|text| - 1] as int <= 0x7e
  }

  lemma NamedShapes(i: nat)
    requires i < |NAMED|
    ensures i < |NAMED| - 1 ==> Brackets(NAMED[i].text)
    ensures i == |NAMED| - 1 ==> NAMED[i].text == ":"
  {
  }

  lemma {:induction false} NamedStays(s: bytes, b: bytes, i: nat)
    requires i <= |NAMED| && |s| >= 2 && s[0] == ESC && (s[1] == '[' ==> FinalByte(s, 2) < |s|)
    ensures FirstNamed(s + b, i) == FirstNamed(s, i)
    decreases |NAMED| - i
  {
    hide Brackets;
    if i < |NAMED| {
      NamedStays(s, b, i + 1);
      NamedTextStays(s, b, i);
    }
  }

  lemma NamedTextStays(s: bytes, b: bytes, i: nat)
    requires i < |NAMED| && |s| >= 2 && s[0] == ESC && (s[1] == '[' ==> FinalByte(s, 2) < |s|)
    ensures StartsWith((s + b)[1..], NAMED[i].text) <==> StartsWith(s[1..], NAMED[i].text)
  {
    var text := NAMED[i].text;
    NamedShapes(i);
    if i == |NAMED| - 1 {
      OneByteStarts(s, b, text);
    } else if s[1] == '[' {
      NamedIsShort(s, b, text);
    } else {
      OtherFirstByte(s[1..], text);
      OtherFirstByte((s + b)[1..], text);
    }
  }

  lemma OneByteStarts(s: bytes, b: bytes, text: bytes)
    requires |s| >= 2 && |text| == 1
    ensures StartsWith((s + b)[1..], text) <==> StartsWith(s[1..], text)
  {
    assert (s + b)[1..][..1] == [s[1]] && s[1..][..1] == [s[1]];
  }

  lemma OtherFirstByte(s: bytes, text: bytes)
    requires s != [] && text != [] && s[0] != text[0]
    ensures !StartsWith(s, text)
  {
  }

  /** A named sequence that matches contains its final byte. */
  lemma {:induction false} NamedHasFinal(s: bytes, i: nat)
    requires i <= |NAMED| && |s| >= 2 && s[0] == ESC && s[1] == '[' && FirstNamed(s, i).Some?
    ensures FinalByte(s, 2) < FirstNamed(s, i).value.size
    decreases |NAMED| - i
  {
    hide Brackets;
    NamedShapes(i);
    if StartsWith(s[1..], NAMED[i].text) {
      NamedEnd(s, NAMED[i].text);
    } else {
      NamedHasFinal(s, i + 1);
    }
  }

  lemma NamedEnd(s: bytes, text: bytes)
    requires |s| >= 2 && s[0] == ESC && s[1] == '[' && StartsWith(s[1..], text) && (Brackets(text) || text == ":")
    ensures FinalByte(s, 2) < 1 + |text|
  {
    var n := |text|;
    assert s[1..][..n][n - 1] == text[n - 1] && s[1..][..n][0] == text[0];
    assert s[n] == text[n - 1];
  }

  lemma {:induction false} NamedNone(s: bytes, i: nat)
    requires i <= |NAMED| && s != [] && (|s| == 1 || (s[1] != '[' && s[1] != ':'))
    ensures FirstNamed(s, i) == None
    decreases |NAMED| - i
  {
    hide Brackets;
    if i < |NAMED| {
      NamedNone(s, i + 1);
      NamedShapes(i);
      BracketsFirst(NAMED[i].text);
      if |s| > 1 { OtherFirstByte(s[1..], NAMED[i].text); }
    }
  }

  lemma BracketsFirst(text: bytes)
    ensures Brackets(text) ==> |text| >= 2 && text[0] == '['
  {
  }

  lemma {:induction false} ColonIsNamed(s: bytes, i: nat)
    requires i < |NAMED| && |s| >= 2 && s[0] == ESC && s[1] == ':'
    ensures FirstNamed(s, i) == Some(Decoded("alt+:", 2))
    decreases |NAMED| - i
  {
    hide Brackets;
    NamedShapes(i);
    if i == |NAMED| - 1 {
      assert s[1..][..1] == ":";
    } else {
      BracketsFirst(NAMED[i].text);
      OtherFirstByte(s[1..], NAMED[i].text);
      ColonIsNamed(s, i + 1);
    }
  }

  lemma NoPaste(s: bytes)
    requires |s| < |PASTE_START| || s[1] != '['
    ensures !StartsWith(s, PASTE_START) && !StartsWith(s, PASTE_END)
  {
    if |s| >= |PASTE_START| {
      OtherFirstByte(s[1..], PASTE_START[1..]);
      assert s[..|PASTE_START|][1] == s[1] && PASTE_START[1] == '[' && PASTE_END[1] == '[';
    }
  }

  lemma NoMouse(s: bytes)
    requires |s| < 3 || s[1] != '[' || s[2] != '<'
    ensures !StartsWith(s, MOUSE_START)
  {
    assert |s| >= 3 ==> s[..3][1] == s[1] && s[..3][2] == s[2];
    assert MOUSE_START[1] == '[' && MOUSE_START[2] == '<';
  }

  /** A control sequence is decoded at least up to its final byte. */
  lemma ReachesFinal(t: bytes, m: bool)
    requires |t| >= 2 && t[0] == ESC && t[1] == '['
    ensures var e := FinalByte(t, 2); |DecodeOne(t, m).raw| >= if e < |t| then e + 1 else |t|
  {
    hide Split, Atoi, Itoa;
    if StartsWith(t, PASTE_START) {
      assert t[..6][5] == '~' == t[5];
    } else if StartsWith(t, PASTE_END) {
      assert t[..6][5] == '~' == t[5];
    } else if StartsWith(t, MOUSE_START) {
    } else if FirstNamed(t).Some? {
      NamedHasFinal(t, 0);
    }
  }

  lemma LoneEscapeGrows(b: bytes, m: bool)
    requires b != []
    ensures DecodeOne([ESC] + b, m) != DecodeOne([ESC], m) <==> JoinsEscape(b[0])
  {
    hide FirstNamed, DecodeMouseKey, FinalByte;
    var s, t := [ESC], [ESC] + b;
    NoPaste(s);
    NoMouse(s);
    NamedNone(s, 0);
    assert DecodeOne(s, m) == Event("escape", [ESC]);
    if b[0] == '[' {
      ReachesFinal(t, m);
    } else {
      NoPaste(t);
      NoMouse(t);
      if b[0] == ':' { ColonIsNamed(t, 0); } else { NamedNone(t, 0); }
      assert t[..1] == [ESC];
    }
  }

  lemma OtherEscapeStays(s: bytes, b: bytes, m: bool)
    requires |s| >= 2 && s[0] == ESC && s[1] != '[' && b != []
    ensures DecodeOne(s + b, m) != DecodeOne(s, m) <==> s[1] == 'O' && |s| == 2
  {
    hide FirstNamed, DecodeMouseKey, FinalByte;
    var t := s + b;
    NoPaste(s);
    NoPaste(t);
    NoMouse(s);
    NoMouse(t);
    NamedStays(s, b, 0);
    if s[1] == 'O' {
      NamedNone(s, 0);
    } else if s[1] == ':' {
      ColonIsNamed(s, 0);
    } else {
      NamedNone(s, 0);
    }
    assert t[..1] == s[..1] && t[..2] == s[..2] && (|s| >= 3 ==> t[..3] == s[..3]);
  }

  lemma OpenSequenceGrows(s: bytes, b: bytes, m: bool)
    requires |s| >= 2 && s[0] == ESC && s[1] == '[' && FinalByte(s, 2) == |s| && b != []
    ensures DecodeOne(s + b, m) != DecodeOne(s, m)
  {
    hide DecodeOne;
    var t := s + b;
    assert forall j | 0 <= j < |s| :: t[j] == s[j];
    assert FinalByte(t, 2) >= |s|;
    ReachesFinal(t, m);
  }

  lemma PasteBegunIsOpen(s: bytes, paste: bytes)
    requires |s| >= 2 && (paste == PASTE_START || paste == PASTE_END)
    ensures |s| < |paste| && StartsWith(paste, s) ==> FinalByte(s, 2) == |s|
  {
    if |s| < |paste| && StartsWith(paste, s) {
      assert forall j | 0 <= j < |s| :: s[j] == paste[..|s|][j];
      assert forall j | 2 <= j < 5 :: IsDigit(paste[j]);
    }
  }

  lemma SecondByteOf(p: bytes, s: bytes)
    ensures StartsWith(p, s) && |s| >= 2 ==> |p| >= 2 && p[1] == s[1]
  {
    if StartsWith(p, s) && |s| >= 2 { assert p[..|s|][1] == s[1]; }
  }

  lemma FinalHasNoPaste(s: bytes, b: bytes)
    requires |s| >= 2 && s[0] == ESC && s[1] == '[' && FinalByte(s, 2) < |s|
    ensures StartsWith(s + b, PASTE_START) <==> StartsWith(s, PASTE_START)
    ensures StartsWith(s + b, PASTE_END) <==> StartsWith(s, PASTE_END)
  {
    PrefixOfMore(s, b, PASTE_START);
    PrefixOfMore(s, b, PASTE_END);
    PasteBegunIsOpen(s, PASTE_START);
    PasteBegunIsOpen(s, PASTE_END);
  }

  lemma EndedMouseStays(s: bytes, b: bytes)
    requires StartsWith(s, MOUSE_START) && HasMouseEnd(s) && StartsWith(s + b, MOUSE_START)
    ensures DecodeMouseKey(s + b) == DecodeMouseKey(s)
  {
    hide ReportKey, ConsumeEscapeSequence;
    var t, end := s + b, IndexOfMouseEnd(s);
    MouseEndOfMore(s, b);
    assert s[..3] == MOUSE_START && s[0] == MOUSE_START[0] && s[1] == MOUSE_START[1] && s[2] == MOUSE_START[2];
    assert t[3..end] == s[3..end] && t[end] == s[end];
  }

  lemma ConsumedStays(s: bytes, b: bytes)
    requires |s| >= 2 && s[0] == ESC && s[1] == '[' && FinalByte(s, 2) < |s|
    ensures ConsumeEscapeSequence(s + b) == ConsumeEscapeSequence(s)
  {
    FinalByteIsStable(s, b, 2);
  }

  lemma MouseGrows(s: bytes, b: bytes)
    requires StartsWith(s, MOUSE_START) && FinalByte(s, 2) < |s| && |s| >= 2 && s[0] == ESC && s[1] == '[' && StartsWith(s + b, MOUSE_START)
    ensures var grows := !HasMouseEnd(s) && HasMouseEnd(b);
      if grows then DecodeMouseKey(s + b).size > |s| else DecodeMouseKey(s + b) == DecodeMouseKey(s)
  {
    if HasMouseEnd(s) {
      EndedMouseStays(s, b);
    } else {
      hide ReportKey, FinalByte, ConsumeEscapeSequence, IndexOfMouseEnd;
      MouseEndOfMore(s, b);
      ConsumedStays(s, b);
    }
  }

  /** What is not a mouse report keeps its key once its final byte is there. */
  lemma ClosedKeyStays(s: bytes, b: bytes)
    requires |s| >= 2 && s[0] == ESC && s[1] == '[' && FinalByte(s, 2) < |s| && !StartsWith(s, MOUSE_START) && !StartsWith(s + b, MOUSE_START)
    ensures DecodeEscapeKey(s + b) == DecodeEscapeKey(s)
  {
    hide FirstNamed, FinalByte, ConsumeEscapeSequence, StartsWith;
    NamedStays(s, b, 0);
    ConsumedStays(s, b);
    assert (s + b)[1] == s[1];
  }

  predicate IsPaste(s: bytes) {
    StartsWith(s, PASTE_START) || StartsWith(s, PASTE_END)
  }

  lemma PasteStays(s: bytes, b: bytes, m: bool)
    requires IsPaste(s) && (StartsWith(s + b, PASTE_START) <==> StartsWith(s, PASTE_START)) && IsPaste(s + b)
    ensures DecodeOne(s + b, m) == DecodeOne(s, m)
  {
    assert (s + b)[..6] == s[..6];
  }

  lemma EscapeEvent(s: bytes, m: bool)
    requires s != [] && s[0] == ESC && !IsPaste(s)
    ensures var d := DecodeEscapeKey(s); DecodeOne(s, m) == Event(Named(d.key), s[..d.size])
  {
    hide DecodeEscapeKey;
  }

  lemma ClosedEscapeGrows(s: bytes, b: bytes)
    requires |s| >= 2 && s[0] == ESC && s[1] == '[' && FinalByte(s, 2) < |s|
    ensures if StartsWith(s, MOUSE_START) && !HasMouseEnd(s) && HasMouseEnd(b) then DecodeEscapeKey(s + b).size > |s|
            else DecodeEscapeKey(s + b) == DecodeEscapeKey(s)
  {
    PrefixOfMore(s, b, MOUSE_START);
    hide FinalByte, StartsWith, HasMouseEnd;
    if StartsWith(s, MOUSE_START) {
      MouseGrows(s, b);
      MouseDecodes(s);
      MouseDecodes(s + b);
    } else {
      assert |s| >= 3;
      ClosedKeyStays(s, b);
    }
  }

  lemma MouseDecodes(s: bytes)
    requires StartsWith(s, MOUSE_START) && s != [] && s[0] == ESC
    ensures DecodeEscapeKey(s) == DecodeMouseKey(s)
  {
    hide DecodeMouseKey, FirstNamed;
  }

  lemma PasteIsNoMouse(s: bytes)
    requires IsPaste(s)
    ensures !StartsWith(s, MOUSE_START)
  {
    assert s[..6][2] == '2';
    NoMouse(s);
  }

  lemma DecodedEvents(s: bytes, b: bytes, d: Decoded, e: Decoded)
    requires d.size <= |s| && e.size <= |s + b|
    ensures e.size > |s| ==> Event(Named(e.key), (s + b)[..e.size]) != Event(Named(d.key), s[..d.size])
    ensures e == d ==> Event(Named(e.key), (s + b)[..e.size]) == Event(Named(d.key), s[..d.size])
  {
    assert |(s + b)[..e.size]| == e.size && |s[..d.size]| == d.size;
    assert e == d ==> (s + b)[..e.size] == s[..d.size];
  }

  lemma ClosedSequenceGrows(s: bytes, b: bytes, m: bool)
    requires |s| >= 2 && s[0] == ESC && s[1] == '[' && FinalByte(s, 2) < |s|
    ensures DecodeOne(s + b, m) != DecodeOne(s, m) <==> StartsWith(s, MOUSE_START) && !HasMouseEnd(s) && HasMouseEnd(b)
  {
    FinalHasNoPaste(s, b);
    assert IsPaste(s + b) <==> IsPaste(s);
    hide DecodeOne, DecodeEscapeKey, FinalByte, HasMouseEnd, StartsWith, IsPaste, Named;
    if IsPaste(s) {
      PasteStays(s, b, m);
      PasteIsNoMouse(s);
    } else {
      EscapeEvent(s, m);
      EscapeEvent(s + b, m);
      ClosedEscapeGrows(s, b);
      DecodedEvents(s, b, DecodeEscapeKey(s), DecodeEscapeKey(s + b));
    }
  }

  lemma RuneGrows(s: bytes, b: bytes)
    requires s != [] && b != []
    ensures RuneSize(s + b) != RuneSize(s) <==> !FullRune(s) && RuneSize(s + b) > 1
  {
    if FullRune(s) { RuneIsStable(s, b); }
  }

  lemma PlainGrows(s: bytes, b: bytes, m: bool)
    requires s != [] && s[0] != ESC && b != []
    ensures DecodeOne(s + b, m) != DecodeOne(s, m) <==> Grows(s, b)
  {
    hide RuneSize, FullRune, ByteKey;
    var t := s + b;
    assert !StartsWith(s, PASTE_START) && !StartsWith(s, PASTE_END) && !StartsWith(t, PASTE_START) && !StartsWith(t, PASTE_END) by {
      OtherFirstByte(s, PASTE_START);
      OtherFirstByte(s, PASTE_END);
      OtherFirstByte(t, PASTE_START);
      OtherFirstByte(t, PASTE_END);
    }
    assert t[..|s|] == s;
    if s[0] == '\r' {
      ReturnIsOneByte(s);
      ReturnIsOneByte(t);
      assert StartsWith(s, "\r\n") <==> |s| >= 2 && s[1] == '\n' by { if |s| >= 2 { assert s[..2] == [s[0], s[1]]; } }
      assert StartsWith(t, "\r\n") <==> t[1] == '\n' by { assert t[..2] == [t[0], t[1]]; }
    } else {
      OtherFirstByte(s, "\r\n");
      OtherFirstByte(t, "\r\n");
      RuneGrows(s, b);
    }
    assert forall n: nat | n <= |s| :: t[..n] == s[..n];
  }

  lemma ReturnIsOneByte(s: bytes)
    requires s != [] && s[0] == '\r'
    ensures RuneSize(s) == 1 && FullRune(s)
  {
  }

  /** The condition is exact, in every mode. */
  lemma GrowsExactly(s: bytes, b: bytes, m: bool)
    requires s != [] && b != []
    ensures DecodeOne(s + b, m) != DecodeOne(s, m) <==> Grows(s, b)
  {
    hide DecodeOne, FinalByte;
    if s[0] != ESC {
      PlainGrows(s, b, m);
    } else if |s| == 1 {
      assert s == [ESC];
      LoneEscapeGrows(b, m);
    } else if s[1] != '[' {
      OtherEscapeStays(s, b, m);
    } else if FinalByte(s, 2) == |s| {
      OpenSequenceGrows(s, b, m);
    } else {
      ClosedSequenceGrows(s, b, m);
    }
  }

  // ---------------------------------------------------------------- whole chunks

  /** No event of a would have gone on into b: checked from one event of a to the next. */
  predicate CleanCut(a: bytes, b: bytes, m: bool) {
    a == [] || b == [] || (!Grows(a, b) && CleanCut(a[|DecodeOne(a, m).raw|..], b, m))
  }

  ghost predicate CutsAgree(a: bytes, b: bytes, m: bool) {
    DecodeEvents(a + b, m) == DecodeEvents(a, m) + DecodeEvents(b, m)
  }

  /** Main theorem: for any bytes whatever, a chunk decodes by itself as it does together with what follows exactly at a clean cut. */
  lemma {:induction false} CutsAgreeExactly(a: bytes, b: bytes, m: bool)
    ensures DecodeEvents(a + b, m) == DecodeEvents(a, m) + DecodeEvents(b, m) <==> CleanCut(a, b, m)
    decreases |a|
  {
    hide DecodeOne, Grows;
    if a == [] {
      assert a + b == b;
    } else if b == [] {
      assert a + b == a;
    } else {
      hide DecodeEvents;
      OneEventOn(a, b, m);
      if !Grows(a, b) { CutsAgreeExactly(a[|DecodeOne(a, m).raw|..], b, m); }
    }
  }

  lemma OneEventOn(a: bytes, b: bytes, m: bool)
    requires a != [] && b != []
    ensures CutsAgree(a, b, m) <==> !Grows(a, b) && CutsAgree(a[|DecodeOne(a, m).raw|..], b, m)
  {
    hide DecodeOne, Grows, DecodeEvents;
    var e, f := DecodeOne(a, m), DecodeOne(a + b, m);
    var rest := a[|e.raw|..];
    GrowsExactly(a, b, m);
    FirstEvent(a, m);
    FirstEvent(a + b, m);
    var tail := DecodeEvents(rest, m) + DecodeEvents(b, m);
    assert DecodeEvents(a, m) + DecodeEvents(b, m) == [e] + tail;
    if f == e {
      assert (a + b)[|e.raw|..] == rest + b;
      SameHead(e, DecodeEvents(rest + b, m), tail);
    } else {
      assert DecodeEvents(a + b, m)[0] != ([e] + tail)[0];
    }
  }

  lemma FirstEvent(s: bytes, m: bool)
    requires s != []
    ensures var e := DecodeOne(s, m);
      DecodeEvents(s, m) == [e] + DecodeEvents(s[|e.raw|..], m) && DecodeEvents(s, m)[0] == e
  {
    hide DecodeOne;
  }

  lemma SameHead<T>(x: T, s: seq<T>, t: seq<T>)
    ensures [x] + s == [x] + t <==> s == t
  {
    assert ([x] + s)[1..] == s && ([x] + t)[1..] == t;
  }

  // ---------------------------------------------------------------- chunks a terminal sends

  /** An escape byte is not doubled, and ESC O is not followed by a return. */
  predicate CalmEscape(a: bytes, i: nat)
    requires i < |a|
  {
    a[i] == ESC && i + 1 < |a| ==> a[i + 1] != ESC && (a[i + 1] == 'O' && i + 2 < |a| ==> a[i + 2] != '\r')
  }

  /** A mouse report has no other final byte before its M or m. */
  predicate CalmReport(a: bytes, i: nat)
    requires i < |a|
  {
    i + 2 < |a| && a[i] == ESC && a[i + 1] == '[' && a[i + 2] == '<' ==>
      var e := FinalByte(a, i + 2); e < |a| ==> a[e] == 'M' || a[e] == 'm'
  }

  predicate Calm(a: bytes) {
    forall i | 0 <= i < |a| :: CalmEscape(a, i) && CalmReport(a, i)
  }

  lemma FinalOfSuffix(a: bytes, n: nat, from: nat)
    requires n <= |a| && from <= |a| - n
    ensures FinalByte(a[n..], from) == FinalByte(a, n + from) - n
  {
    var t, e, f := a[n..], FinalByte(a[n..], from), FinalByte(a, n + from);
    assert forall j | n <= j < |a| :: a[j] == t[j - n];
    if e < |t| { assert a[n + e] == t[e]; }
    if f < |a| { assert t[f - n] == a[f]; }
  }

  lemma CalmInSuffix(a: bytes, n: nat, i: nat)
    requires n + i < |a| && CalmEscape(a, n + i) && CalmReport(a, n + i)
    ensures CalmEscape(a[n..], i) && CalmReport(a[n..], i)
  {
    hide FinalByte;
    if n + i + 2 < |a| { FinalOfSuffix(a, n, i + 2); }
  }

  lemma SuffixIsCalm(a: bytes, n: nat)
    requires Calm(a) && n <= |a|
    ensures Calm(a[n..])
  {
    hide CalmEscape, CalmReport;
    forall i | 0 <= i < |a[n..]|
      ensures CalmEscape(a[n..], i) && CalmReport(a[n..], i)
    {
      assert CalmEscape(a, n + i) && CalmReport(a, n + i);
      CalmInSuffix(a, n, i);
    }
  }

  predicate IsComplete(a: bytes) {
    Complete(a, false) == |a|
  }

  lemma CompleteStep(a: bytes)
    requires a != [] && IsComplete(a)
    ensures Unit(a, false) > 0 && IsComplete(a[Unit(a, false)..])
  {
    hide Unit;
  }

  /** What the first event of such a chunk takes, and what that means for the cut. */
  ghost predicate Steps(a: bytes, n: nat) {
    && 1 <= n <= |a| && IsComplete(a[n..])
    && (forall b: bytes | b != [] :: Grows(a, b) <==> a == ['\r'] && b[0] == '\n')
    && (n == |a| && a != ['\r'] ==> a[n - 1] != '\r')
  }

  lemma RuneEndsHigh(a: bytes)
    requires a != [] && RuneSize(a) > 1
    ensures a[RuneSize(a) - 1] != '\r'
  {
  }

  lemma PlainSteps(a: bytes, m: bool)
    requires a != [] && IsComplete(a) && a[0] != ESC
    ensures Steps(a, |DecodeOne(a, m).raw|)
  {
    hide RuneSize, FullRune, ByteKey, IsComplete;
    CompleteStep(a);
    OtherFirstByte(a, PASTE_START);
    OtherFirstByte(a, PASTE_END);
    assert StartsWith(a, "\r\n") <==> |a| >= 2 && a[0] == '\r' && a[1] == '\n' by { if |a| >= 2 { assert a[..2] == [a[0], a[1]]; } }
    if a[0] == '\r' {
      ReturnIsOneByte(a);
      if |a| == 1 { assert a == ['\r']; }
      if |a| >= 2 && a[1] == '\n' {
        CompleteStep(a[1..]);
        LineFeedIsOneByte(a[1..]);
        assert a[1..][1..] == a[2..];
      }
    } else if RuneSize(a) > 1 {
      RuneEndsHigh(a);
    }
  }

  lemma LineFeedIsOneByte(s: bytes)
    requires s != [] && s[0] == '\n'
    ensures Unit(s, false) == 1
  {
  }

  lemma {:induction false} NamedIsUnit(s: bytes, i: nat)
    requires i <= |NAMED| && |s| >= 2 && s[0] == ESC && s[1] == '[' && FirstNamed(s, i).Some?
    ensures FirstNamed(s, i).value.size == FinalByte(s, 2) + 1
    decreases |NAMED| - i
  {
    hide Brackets;
    NamedShapes(i);
    if StartsWith(s[1..], NAMED[i].text) {
      NamedEndsAt(s, NAMED[i].text);
    } else {
      NamedIsUnit(s, i + 1);
    }
  }

  lemma NamedEndsAt(s: bytes, text: bytes)
    requires |s| >= 2 && s[0] == ESC && s[1] == '[' && StartsWith(s[1..], text) && Brackets(text)
    ensures FinalByte(s, 2) == |text|
  {
    var n := |text|;
    assert forall j | 0 <= j < n :: s[j + 1] == s[1..][..n][j];
    assert s[n] == text[n - 1];
    assert forall k | 2 <= k < n :: s[k] == text[k - 1];
  }

  lemma PasteFinal(a: bytes)
    requires IsPaste(a)
    ensures FinalByte(a, 2) == 5 && |a| >= 6
  {
    assert forall j | 0 <= j < 6 :: a[j] == a[..6][j];
    assert a[5] == '~';
  }

  lemma CalmMouse(a: bytes)
    requires StartsWith(a, MOUSE_START) && Calm(a) && |a| >= 2 && a[0] == ESC && a[1] == '[' && FinalByte(a, 2) < |a|
    ensures HasMouseEnd(a) && IndexOfMouseEnd(a) == FinalByte(a, 2)
  {
    hide FinalByte, IndexOfMouseEnd;
    assert a[..3][2] == '<' == a[2] && CalmReport(a, 0);
  }

  lemma BracketSize(a: bytes, m: bool)
    requires |a| >= 2 && a[0] == ESC && a[1] == '[' && FinalByte(a, 2) < |a| && Calm(a)
    ensures |DecodeOne(a, m).raw| == FinalByte(a, 2) + 1
  {
    hide FinalByte, FirstNamed, ReportKey, IndexOfMouseEnd, Calm;
    if IsPaste(a) {
      PasteFinal(a);
    } else if StartsWith(a, MOUSE_START) {
      CalmMouse(a);
      MouseDecodes(a);
    } else if FirstNamed(a).Some? {
      NamedIsUnit(a, 0);
    }
  }

  lemma BracketSteps(a: bytes, m: bool)
    requires |a| >= 2 && a[0] == ESC && a[1] == '[' && IsComplete(a) && Calm(a)
    ensures Steps(a, |DecodeOne(a, m).raw|)
  {
    CompleteStep(a);
    BracketUnit(a);
    hide FinalByte, DecodeOne, Unit, IsComplete, Calm, HasMouseEnd;
    BracketSize(a, m);
    assert a != ['\r'];
    if StartsWith(a, MOUSE_START) { CalmMouse(a); }
  }

  lemma BracketUnit(a: bytes)
    requires |a| >= 2 && a[0] == ESC && a[1] == '[' && Unit(a, false) > 0
    ensures FinalByte(a, 2) < |a| && Unit(a, false) == FinalByte(a, 2) + 1
  {
    if IsPaste(a) { PasteFinal(a); }
  }

  lemma EscapeUnit(a: bytes)
    requires a != [] && a[0] == ESC && Unit(a, false) > 0 && (|a| >= 2 ==> a[1] != '[')
    ensures |a| >= 2 && if a[1] == 'O' then |a| >= 3 && Unit(a, false) == 3 else FullRune(a[1..]) && Unit(a, false) == 1 + RuneSize(a[1..])
  {
    assert PASTE_START[..1] == [ESC];
    if |a| >= 2 {
      NoPaste(a);
      SecondByteOf(PASTE_START, a);
      SecondByteOf(PASTE_END, a);
    }
  }

  lemma AltSteps(a: bytes, m: bool)
    requires |a| >= 2 && a[0] == ESC && JoinsEscape(a[1]) && a[1] != '[' && a[1] != 'O'
    ensures |DecodeOne(a, m).raw| == 2 && RuneSize(a[1..]) == 1
  {
    hide FirstNamed;
    NoPaste(a);
    NoMouse(a);
    if a[1] == ':' { ColonIsNamed(a, 0); } else { NamedNone(a, 0); }
  }

  lemma LoneEscapeSteps(a: bytes, m: bool)
    requires |a| >= 2 && a[0] == ESC && (!JoinsEscape(a[1]) || a[1] == 'O')
    ensures |DecodeOne(a, m).raw| == if a[1] == 'O' && |a| >= 3 then 3 else 1
  {
    hide FirstNamed;
    NoPaste(a);
    NoMouse(a);
    NamedNone(a, 0);
  }

  lemma RuneFirst(s: bytes)
    requires s != [] && s[0] != ESC && FullRune(s) && IsComplete(s[RuneSize(s)..])
    ensures IsComplete(s)
  {
    hide FullRune, RuneSize;
  }

  lemma EscapeSteps(a: bytes, m: bool)
    requires a != [] && a[0] == ESC && IsComplete(a) && Calm(a) && (|a| >= 2 ==> a[1] != '[')
    ensures Steps(a, |DecodeOne(a, m).raw|)
  {
    hide DecodeOne, Unit, RuneSize, FullRune, IsComplete, FinalByte;
    CompleteStep(a);
    EscapeUnit(a);
    assert a != ['\r'] && CalmEscape(a, 0);
    if a[1] == 'O' {
      LoneEscapeSteps(a, m);
    } else if JoinsEscape(a[1]) {
      AltSteps(a, m);
    } else {
      LoneEscapeSteps(a, m);
      var r := RuneSize(a[1..]);
      assert a[1..][r..] == a[1 + r..];
      RuneFirst(a[1..]);
    }
  }

  /**
   A complete chunk of the kind terminals send decodes by itself as it does together with what follows, except
   when a carriage return at its end meets a line feed.
   */
  lemma {:induction false} CalmCutsAgreeExactly(a: bytes, b: bytes, m: bool)
    requires Complete(a, false) == |a| && Calm(a)
    ensures DecodeEvents(a + b, m) == DecodeEvents(a, m) + DecodeEvents(b, m)
       <==> !(a != [] && b != [] && a[|a| - 1] == '\r' && b[0] == '\n')
  {
    hide DecodeEvents;
    CutsAgreeExactly(a, b, m);
    CleanIffNoReturn(a, b, m);
  }

  lemma {:induction false} CleanIffNoReturn(a: bytes, b: bytes, m: bool)
    requires IsComplete(a) && Calm(a)
    ensures CleanCut(a, b, m) <==> !(a != [] && b != [] && a[|a| - 1] == '\r' && b[0] == '\n')
    decreases |a|
  {
    hide DecodeOne, Grows, IsComplete, Calm;
    if a != [] && b != [] {
      var n := |DecodeOne(a, m).raw|;
      if a[0] != ESC {
        PlainSteps(a, m);
      } else if |a| >= 2 && a[1] == '[' {
        BracketSteps(a, m);
      } else {
        EscapeSteps(a, m);
      }
      SuffixIsCalm(a, n);
      CleanIffNoReturn(a[n..], b, m);
    }
  }

  /** Without an escape byte nothing else is asked of the chunk. */
  lemma EscapeFreeCutsAgreeExactly(a: bytes, b: bytes, m: bool)
    requires Complete(a, false) == |a| && ESC !in a
    ensures DecodeEvents(a + b, m) == DecodeEvents(a, m) + DecodeEvents(b, m)
       <==> !(a != [] && b != [] && a[|a| - 1] == '\r' && b[0] == '\n')
  {
    assert forall i | 0 <= i < |a| :: a[i] != ESC;
    CalmCutsAgreeExactly(a, b, m);
  }

  /** What the calm chunks exclude does happen: complete chunks whose last event goes on into what follows. */
  lemma DoubledEscapeDisagrees(m: bool)
    ensures Complete([ESC, ESC], false) == 2 && !CutsAgree([ESC, ESC], "[A", m)
  {
    var a: bytes := [ESC, ESC];
    NoPaste(a);
    assert PASTE_START[..2][1] == '[' && PASTE_END[..2][1] == '[';
    assert Unit(a, false) == 2 && a[2..] == [];
    LoneEscapeSteps(a, m);
    assert a[1..] == [ESC];
    CutsAgreeExactly(a, "[A", m);
  }

  lemma OverrunningMouseDisagrees(m: bool)
    ensures Complete([ESC, '[', '<', '0', 'A'], false) == 5 && !CutsAgree([ESC, '[', '<', '0', 'A'], "M", m)
  {
    var a: bytes := [ESC, '[', '<', '0', 'A'];
    assert FinalByte(a, 2) == 4 && !HasMouseEnd(a) && HasMouseEnd("M");
    assert StartsWith(a, MOUSE_START) by { assert a[..3] == MOUSE_START; }
    hide FinalByte, HasMouseEnd, IndexOfMouseEnd, DecodeOne;
    assert PASTE_START[..5][2] == '2' && PASTE_END[..5][2] == '2';
    assert Unit(a, false) == 5 && a[5..] == [];
    CutsAgreeExactly(a, "M", m);
  }
}
