/** Text operations that the codecs share: replacement, splitting and decimal numerals. */
module Text {

  /** Left-to-right, non-overlapping replacement of a non-empty pattern. */
  function Replace(s: string, pattern: string, with: string): string
    requires pattern != ""
    decreases |s|
  {
    if |s| < |pattern| then s
    else if s[..|pattern|] == pattern then with + Replace(s[|pattern|..], pattern, with)
    else [s[0]] + Replace(s[1..], pattern, with)
  }

  /** The text in which every character is spelled as the code says. */
  function Spell(s: string, code: char -> string): string {
    if s == "" then "" else code(s[0]) + Spell(s[1..], code)
  }

  /** One round of decoding: each spelled unit is either the two-character pattern itself, or one or two
      characters in which the pattern neither occurs nor can begin at the end. */
  ghost predicate DecodesUnit(a: char, b: char, with: string, before: string, after: string) {
    || (before == [a, b] && after == with)
    || (before == after && |before| == 1 && before[0] != a)
    || (before == after && |before| == 2 && before != [a, b] && before[1] != a)
  }

  lemma {:induction false} ReplaceInSpelling(
    s: string, a: char, b: char, with: string, before: char -> string, after: char -> string)
    requires forall c | c in s :: DecodesUnit(a, b, with, before(c), after(c))
    ensures Replace(Spell(s, before), [a, b], with) == Spell(s, after)
    decreases |s|
  {
    if s != "" {
      var unit, rest := before(s[0]), Spell(s[1..], before);
      var whole := unit + rest;
      assert DecodesUnit(a, b, with, unit, after(s[0]));
      ReplaceInSpelling(s[1..], a, b, with, before, after);
    }
  }

  /** Replacing a single character rewrites the text character by character. */
  lemma {:induction false} ReplaceChar(s: string, a: char, with: string)
    ensures Replace(s, [a], with) == Spell(s, c => if c == a then with else [c])
  {
    if s != "" {
      assert s[..1] == [s[0]];
      ReplaceChar(s[1..], a, with);
    }
  }

  lemma {:induction false} SpellIdentity(s: string, code: char -> string)
    requires forall c | c in s :: code(c) == [c]
    ensures Spell(s, code) == s
  {
    if s != "" {
      SpellIdentity(s[1..], code);
    }
  }

  // ---------------------------------------------------------------------------------------------
  // Splitting
  // ---------------------------------------------------------------------------------------------

  /** The pieces between separators; there is always at least one. */
  function Split(s: string, separator: char): (pieces: seq<string>)
    ensures pieces != []
    decreases |s|
  {
    if s == "" then [""]
    else
      var rest := Split(s[1..], separator);
      if s[0] == separator then [""] + rest else [[s[0]] + rest[0]] + rest[1..]
  }

  /** The inverse: every piece after a separator. */
  function Prefixed(pieces: seq<string>, separator: char): string {
    if pieces == [] then "" else [separator] + pieces[0] + Prefixed(pieces[1..], separator)
  }

  lemma {:induction false} SplitPrefixed(piece: string, rest: seq<string>, separator: char)
    requires separator !in piece && forall i | 0 <= i < |rest| :: separator !in rest[i]
    ensures Split(piece + Prefixed(rest, separator), separator) == [piece] + rest
    decreases |rest|, |piece|
  {
    var s := piece + Prefixed(rest, separator);
    if piece != "" {
      assert s[1..] == piece[1..] + Prefixed(rest, separator);
      SplitPrefixed(piece[1..], rest, separator);
      assert piece == [piece[0]] + piece[1..];
    } else if rest != [] {
      assert s[1..] == rest[0] + Prefixed(rest[1..], separator);
      SplitPrefixed(rest[0], rest[1..], separator);
      assert rest == [rest[0]] + rest[1..];
    }
  }

  /** Joining the pieces gives the text back. */
  lemma {:induction false} PrefixedSplit(s: string, separator: char)
    ensures Split(s, separator)[0] + Prefixed(Split(s, separator)[1..], separator) == s
    decreases |s|
  {
    if s != "" {
      PrefixedSplit(s[1..], separator);
      var rest := Split(s[1..], separator);
      var tail := Prefixed(rest[1..], separator);
      assert s == [s[0]] + (rest[0] + tail);
      if s[0] == separator {
        assert ([""] + rest)[1..] == rest;
        assert Prefixed(rest, separator) == [separator] + rest[0] + tail;
      } else {
        assert ([[s[0]] + rest[0]] + rest[1..])[1..] == rest[1..];
      }
    }
  }

  lemma {:induction false} PiecesHoldNoSeparator(s: string, separator: char)
    ensures forall i | 0 <= i < |Split(s, separator)| :: separator !in Split(s, separator)[i]
    decreases |s|
  {
    if s != "" {
      PiecesHoldNoSeparator(s[1..], separator);
    }
  }

  // ---------------------------------------------------------------------------------------------
  // Decimal numerals
  // ---------------------------------------------------------------------------------------------

  predicate IsDigit(c: char) { '0' <= c <= '9' }

  predicate IsDecimal(s: string) {
    s != "" && forall i | 0 <= i < |s| :: IsDigit(s[i])
  }

  function DigitChar(d: nat): char
    requires d < 10
  {
    ('0' as int + d) as char
  }

  function Numeral(n: nat): string {
    if n < 10 then [DigitChar(n)] else Numeral(n / 10) + [DigitChar(n % 10)]
  }

  function DigitValue(c: char): nat
    requires IsDigit(c)
  {
    c as int - '0' as int
  }

  function ParseDecimal(s: string): nat
    requires forall i | 0 <= i < |s| :: IsDigit(s[i])
  {
    if s == "" then 0 else ParseDecimal(s[..|s| - 1]) * 10 + DigitValue(s[|s| - 1])
  }

  /** No sign, no leading zero. */
  predicate IsIndex(s: string) {
    IsDecimal(s) && !(|s| > 1 && s[0] == '0')
  }

  lemma {:induction false} ParseNumeral(n: nat)
    ensures IsIndex(Numeral(n)) && ParseDecimal(Numeral(n)) == n && (n > 0 ==> Numeral(n)[0] != '0')
  {
    if n >= 10 {
      ParseNumeral(n / 10);
      assert Numeral(n)[..|Numeral(n)| - 1] == Numeral(n / 10);
    } else {
      assert Numeral(n)[..0] == "";
      assert ParseDecimal("") == 0;
    }
  }

  lemma {:induction false} NumeralParse(s: string)
    requires IsIndex(s)
    ensures Numeral(ParseDecimal(s)) == s && (s[0] != '0' ==> ParseDecimal(s) > 0)
  {
    var front, last := s[..|s| - 1], s[|s| - 1];
    assert s == front + [last];
    if front == "" {
      assert ParseDecimal(front) == 0;
    } else {
      assert front[0] == s[0];
      NumeralParse(front);
    }
  }
}
