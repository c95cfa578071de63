/** What the filter does with a single command such as a window title: all of it passes, or nothing. */
module OscTitles {
  import opened Numerals
  import opened OscFilter

  /** A numbered command with a text, ended by BEL. */
  function Title(command: bytes, text: bytes): bytes {
    [ESC, ']'] + command + [';'] + text + [BEL]
  }

  lemma TitleIsOneCommand(command: bytes, text: bytes)
    requires command != [] && AllDigits(command) && BEL !in text && ESC !in text
    ensures var s := Title(command, text); Parse(s) == Parsed([Command(s)], []) && ValidOscSequence(s)
  {
    var s := Title(command, text);
    var n := |s| - 1;
    assert s[0] == ESC && s[1] == ']' && s[n] == BEL;
    forall i | 2 <= i < n
      ensures s[i] != BEL && s[i] != ESC
    {
      assert s[i] == if i < 2 + |command| then command[i - 2] else if i == 2 + |command| then ';' else text[i - 3 - |command|];
    }
    assert Terminates(s, n);
    assert CommandEnd(s, 2) == n;
    assert s[..n + 1] == s && s[n + 1..] == [];
    NumberedIsValid(s, command, [';'] + text, [BEL]);
    assert s == [ESC, ']'] + command + ([';'] + text) + [BEL];
  }

  /** A title of at most 65536 bytes, markers included, passes unchanged; a longer one leaves nothing, and neither leaves the filter inside a command. */
  lemma TitlesPassWithinLimit(command: bytes, text: bytes)
    requires command != [] && AllDigits(command) && BEL !in text && ESC !in text
    ensures var s := Title(command, text); Run(OscFilter.START, s) == Output(OscFilter.START, if |s| <= 65536 then s else [])
  {
    hide Run, Parse, Title, ValidOscSequence;
    var s := Title(command, text);
    TitleIsOneCommand(command, text);
    FilterMeetsGrammar(s);
    OneCommandEmits(s);
  }

  lemma OneCommandEmits(s: bytes)
    requires ValidOscSequence(s)
    ensures EmittedSegments([Command(s)]) == if |s| <= 65536 then s else []
  {
    assert [Command(s)][1..] == [];
  }
}
