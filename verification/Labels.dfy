/** Unescaping of metric label values: _unescape in operations/verify_metrics_zero.py. */
module Labels {
  import opened Text

  const NUL := '\0'

  /** Four replacements, one after the other; a NUL stands for a backslash already read. */
  function Unescape(value: string): string {
    var one := Replace(value, ['\\', '\\'], [NUL]);
    var two := Replace(one, ['\\', '\"'], ['\"']);
    var three := Replace(two, ['\\', 'n'], ['\n']);
    Replace(three, [NUL], ['\\'])
  }

  /** The escaping of the Prometheus text format: backslash, double quote and line feed. */
  function EscapeChar(c: char): string {
    if c == '\\' then ['\\', '\\']
    else if c == '\"' then ['\\', '\"']
    else if c == '\n' then ['\\', 'n']
    else [c]
  }

  function Escape(text: string): string {
    Spell(text, EscapeChar)
  }

  // The spelling of a character after one, two and three replacements.

  function AfterOne(c: char): string { if c == '\\' then [NUL] else EscapeChar(c) }

  function AfterTwo(c: char): string { if c == '\"' then [c] else AfterOne(c) }

  function AfterThree(c: char): string { if c == '\n' then [c] else AfterTwo(c) }

  /** The four replacements undo the escaping of every text, except that a NUL becomes a backslash. */
  lemma UnescapeEscape(text: string)
    ensures Unescape(Escape(text)) == Spell(text, c => if c == NUL then ['\\'] else [c])
  {
    ReplaceInSpelling(text, '\\', '\\', [NUL], EscapeChar, AfterOne);
    ReplaceInSpelling(text, '\\', '\"', ['\"'], AfterOne, AfterTwo);
    ReplaceInSpelling(text, '\\', 'n', ['\n'], AfterTwo, AfterThree);
    var three := Spell(text, AfterThree);
    ReplaceChar(three, NUL, ['\\']);
    LastRound(text);
  }

  lemma {:induction false} LastRound(text: string)
    ensures Spell(Spell(text, AfterThree), c => if c == NUL then ['\\'] else [c]) ==
            Spell(text, c => if c == NUL then ['\\'] else [c])
  {
    if text != "" {
      LastRound(text[1..]);
      var spelled := AfterThree(text[0]) + Spell(text[1..], AfterThree);
      assert spelled[1..] == Spell(text[1..], AfterThree);
    }
  }

  lemma {:induction false} NulIsLost(text: string, i: nat)
    requires i < |text|
    ensures |Spell(text, c => if c == NUL then ['\\'] else [c])| == |text|
    ensures Spell(text, c => if c == NUL then ['\\'] else [c])[i] == if text[i] == NUL then '\\' else text[i]
  {
    if |text| > 1 {
      NulIsLost(text[1..], if i > 0 then i - 1 else 0);
    }
  }

  /** The round trip gives the label back exactly when it holds no NUL. */
  lemma LabelRoundTripIff(text: string)
    ensures Unescape(Escape(text)) == text <==> NUL !in text
  {
    UnescapeEscape(text);
    if NUL in text {
      var i :| 0 <= i < |text| && text[i] == NUL;
      NulIsLost(text, i);
    } else {
      SpellIdentity(text, c => if c == NUL then ['\\'] else [c]);
    }
  }

  /** The three escapes, as the format writes them. */
  lemma KnownEscapes()
    ensures Escape(['\\']) == ['\\', '\\'] && Escape(['\"']) == ['\\', '\"'] && Escape(['\n']) == ['\\', 'n']
    ensures Unescape(['\\', '\\']) == ['\\'] && Unescape(['\\', '\"']) == ['\"'] && Unescape(['\\', 'n']) == ['\n']
  {
    SpellOne('\\');
    SpellOne('\"');
    SpellOne('\n');
    LabelRoundTripIff(['\\']);
    LabelRoundTripIff(['\"']);
    LabelRoundTripIff(['\n']);
  }

  lemma SpellOne(c: char)
    ensures Escape([c]) == EscapeChar(c)
  {
    var s := [c];
    assert s[1..] == [] && Spell(s[1..], EscapeChar) == [];
    assert Spell(s, EscapeChar) == EscapeChar(s[0]) + Spell(s[1..], EscapeChar);
  }
}
