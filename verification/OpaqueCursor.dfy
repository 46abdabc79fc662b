/** Opaque paging cursors: opaque_cursor and decode_cursor of FX/news_app/newsdata.py, with the URL-safe base64 of
    sections 3.2 and 5 of RFC 4648. */
module OpaqueCursor {
  import opened Values

  type Byte = b: int | 0 <= b < 256

  type Sextet = v: int | 0 <= v < 64

  // ---------------------------------------------------------------------------------------------
  // Encoding
  // ---------------------------------------------------------------------------------------------

  function Letter(v: Sextet): char {
    if v < 26 then ('A' as int + v) as char
    else if v < 52 then ('a' as int + v - 26) as char
    else if v < 62 then ('0' as int + v - 52) as char
    else if v == 62 then '-'
    else '_'
  }

  /** The four letters of a group of three bytes. */
  function Quad(b0: Byte, b1: Byte, b2: Byte): string {
    [Letter(b0 / 4), Letter(b0 % 4 * 16 + b1 / 16), Letter(b1 % 16 * 4 + b2 / 64), Letter(b2 % 64)]
  }

  /** Three bytes become four letters; a final group of one or two bytes is filled up with '='. */
  function Encode(bytes: seq<Byte>): string {
    if bytes == [] then ""
    else if |bytes| == 1 then Quad(bytes[0], 0, 0)[..2] + ['=', '=']
    else if |bytes| == 2 then Quad(bytes[0], bytes[1], 0)[..3] + ['=']
    else Quad(bytes[0], bytes[1], bytes[2]) + Encode(bytes[3..])
  }

  /** rstrip("="). */
  function Stripped(s: string): string {
    if s != "" && s[|s| - 1] == '=' then Stripped(s[..|s| - 1]) else s
  }

  function Repeat(c: char, n: nat): string {
    seq(n, i => c)
  }

  /** The padding that decode_cursor puts back; the remainder is never negative. */
  function Repadded(s: string): string {
    s + Repeat('=', (-|s|) % 4)
  }

  // ---------------------------------------------------------------------------------------------
  // Decoding
  // ---------------------------------------------------------------------------------------------

  /** The value of a letter of either alphabet: the URL-safe one is translated to the plain one first. */
  function Value(c: char): Option<Sextet> {
    if 'A' <= c <= 'Z' then Some(c as int - 'A' as int)
    else if 'a' <= c <= 'z' then Some(c as int - 'a' as int + 26)
    else if '0' <= c <= '9' then Some(c as int - '0' as int + 52)
    else if c == '-' || c == '+' then Some(62)
    else if c == '_' || c == '/' then Some(63)
    else None
  }

  /** The lenient decoder, letter by letter: `phase` letters of the current group have been read, `carry` holds
      the bits they leave over and `pads` the '=' seen since; other characters are skipped. */
  function Feed(s: string, phase: nat, carry: nat, pads: nat, out: seq<Byte>): Option<seq<Byte>>
    requires phase < 4
    requires (phase == 1 ==> carry < 64) && (phase == 2 ==> carry < 16) && (phase == 3 ==> carry < 4)
    decreases |s|
  {
    if s == "" then if phase == 0 then Some(out) else None
    else
      var c, rest := s[0], s[1..];
      if c == '=' then
        if phase >= 2 then
          if phase + pads + 1 >= 4 then Some(out) else Feed(rest, phase, carry, pads + 1, out)
        else Feed(rest, phase, carry, pads, out)
      else
        match Value(c)
        case None => Feed(rest, phase, carry, pads, out)
        case Some(v) =>
          if phase == 0 then Feed(rest, 1, v, 0, out)
          else if phase == 1 then Feed(rest, 2, v % 16, 0, out + [carry * 4 + v / 16])
          else if phase == 2 then Feed(rest, 3, v % 4, 0, out + [carry * 16 + v / 4])
          else Feed(rest, 0, 0, 0, out + [carry * 64 + v])
  }

  predicate Ascii(s: string) {
    forall i | 0 <= i < |s| :: s[i] as int < 128
  }

  /** None when the library raises. */
  function Decode(s: string): Option<seq<Byte>> {
    if Ascii(s) then Feed(s, 0, 0, 0, []) else None
  }

  // ---------------------------------------------------------------------------------------------
  // Cursors
  // ---------------------------------------------------------------------------------------------

  /** The JSON library, as the two functions used here; `loads` is None when it raises. */
  datatype Codec = Codec(dumps: Json -> seq<Byte>, loads: seq<Byte> -> Option<Json>)

  const V := ['v']
  const PAYLOAD := ['p']

  function Wrapped(provider: string): Json {
    JObj(map[V := JInt(1), PAYLOAD := JStr(provider)])
  }

  /** None for a missing or empty cursor. */
  function Opaque(codec: Codec, provider: Option<string>): Option<string> {
    if provider.None? || provider.value == "" then None
    else Some(Stripped(Encode(codec.dumps(Wrapped(provider.value)))))
  }

  datatype Decoded = Invalid | Cursor(provider: Option<string>)

  /** Python's `==` holds between 1, 1.0 and True. */
  predicate EqualsOne(value: Json) {
    value == JInt(1) || value == JReal(1.0) || value == JBool(true)
  }

  function DecodeCursor(codec: Codec, cursor: Option<string>): Decoded {
    if cursor.None? || cursor.value == "" then Cursor(None)
    else
      match Decode(Repadded(cursor.value))
      case None => Invalid
      case Some(bytes) =>
        match codec.loads(bytes)
        case Some(JObj(fields)) =>
          if V in fields && EqualsOne(fields[V]) && PAYLOAD in fields && fields[PAYLOAD].JStr?
          then Cursor(Some(fields[PAYLOAD].text))
          else Cursor(None)
        case _ => Invalid
  }

  // ---------------------------------------------------------------------------------------------
  // Round trip
  // ---------------------------------------------------------------------------------------------

  /** The number of '=' at the end of an encoding. */
  function Padding(bytes: seq<Byte>): (n: nat)
    ensures n < 3
  {
    if bytes == [] then 0 else if |bytes| == 1 then 2 else if |bytes| == 2 then 1 else Padding(bytes[3..])
  }

  /** Letters of the alphabet only. */
  ghost predicate AllLetters(s: string) {
    forall i | 0 <= i < |s| :: s[i] != '=' && s[i] as int < 128
  }

  lemma QuadIsLetters(b0: Byte, b1: Byte, b2: Byte)
    ensures AllLetters(Quad(b0, b1, b2)) && |Quad(b0, b1, b2)| == 4
  {
  }

  lemma PrependQuad(quad: string, letters: string, n: nat)
    requires AllLetters(quad) && AllLetters(letters)
    ensures AllLetters(quad + letters)
    ensures quad + (letters + Repeat('=', n)) == (quad + letters) + Repeat('=', n)
  {
  }

  /** An encoding is letters followed by exactly its padding, in whole groups of four. */
  lemma {:induction false} EncodingShape(bytes: seq<Byte>) returns (letters: string, groups: nat)
    ensures Encode(bytes) == letters + Repeat('=', Padding(bytes))
    ensures AllLetters(letters) && |letters| + Padding(bytes) == 4 * groups
    ensures bytes != [] ==> letters != ""
  {
    if bytes == [] {
      letters, groups := "", 0;
    } else if |bytes| == 1 {
      QuadIsLetters(bytes[0], 0, 0);
      letters, groups := Quad(bytes[0], 0, 0)[..2], 1;
      assert ['=', '='] == Repeat('=', 2);
    } else if |bytes| == 2 {
      QuadIsLetters(bytes[0], bytes[1], 0);
      letters, groups := Quad(bytes[0], bytes[1], 0)[..3], 1;
      assert ['='] == Repeat('=', 1);
    } else {
      var rest, n := EncodingShape(bytes[3..]);
      var quad := Quad(bytes[0], bytes[1], bytes[2]);
      QuadIsLetters(bytes[0], bytes[1], bytes[2]);
      PrependQuad(quad, rest, Padding(bytes));
      letters, groups := quad + rest, n + 1;
    }
  }

  lemma {:induction false} StripPadding(letters: string, n: nat)
    requires AllLetters(letters)
    ensures Stripped(letters + Repeat('=', n)) == letters
  {
    var s := letters + Repeat('=', n);
    if n == 0 {
      assert s == letters;
    } else {
      assert s[..|s| - 1] == letters + Repeat('=', n - 1);
      StripPadding(letters, n - 1);
    }
  }

  /** The padding rebuilt from the length is exactly what was stripped. */
  lemma PaddingIsRebuilt(bytes: seq<Byte>)
    ensures Repadded(Stripped(Encode(bytes))) == Encode(bytes)
    ensures bytes != [] ==> Stripped(Encode(bytes)) != ""
    ensures '=' !in Stripped(Encode(bytes))
  {
    var letters, groups := EncodingShape(bytes);
    StripPadding(letters, Padding(bytes));
    RemainderIsPadding(|letters|, Padding(bytes), groups);
  }

  lemma RemainderIsPadding(length: int, padding: nat, groups: nat)
    requires padding < 3 && length + padding == 4 * groups
    ensures (-length) % 4 == padding
  {
  }

  lemma GroupOfThree(b0: Byte, b1: Byte, b2: Byte)
    ensures b0 / 4 * 4 + (b0 % 4 * 16 + b1 / 16) / 16 == b0
    ensures (b0 % 4 * 16 + b1 / 16) % 16 * 16 + (b1 % 16 * 4 + b2 / 64) / 4 == b1
    ensures (b1 % 16 * 4 + b2 / 64) % 4 * 64 + b2 % 64 == b2
  {
  }

  lemma FeedLetter(v: Sextet, rest: string, phase: nat, carry: nat, out: seq<Byte>)
    requires phase < 4
    requires (phase == 1 ==> carry < 64) && (phase == 2 ==> carry < 16) && (phase == 3 ==> carry < 4)
    ensures Feed([Letter(v)] + rest, phase, carry, 0, out) ==
            if phase == 0 then Feed(rest, 1, v, 0, out)
            else if phase == 1 then Feed(rest, 2, v % 16, 0, out + [carry * 4 + v / 16])
            else if phase == 2 then Feed(rest, 3, v % 4, 0, out + [carry * 16 + v / 4])
            else Feed(rest, 0, 0, 0, out + [carry * 64 + v])
  {
  }

  lemma FeedQuad(b0: Byte, b1: Byte, b2: Byte, rest: string, out: seq<Byte>)
    ensures Feed(Quad(b0, b1, b2) + rest, 0, 0, 0, out) == Feed(rest, 0, 0, 0, out + [b0, b1, b2])
  {
    var v0, v1, v2, v3 := b0 / 4, b0 % 4 * 16 + b1 / 16, b1 % 16 * 4 + b2 / 64, b2 % 64;
    GroupOfThree(b0, b1, b2);
    assert Quad(b0, b1, b2) + rest == [Letter(v0)] + ([Letter(v1)] + ([Letter(v2)] + ([Letter(v3)] + rest)));
    FeedLetter(v0, [Letter(v1)] + ([Letter(v2)] + ([Letter(v3)] + rest)), 0, 0, out);
    FeedLetter(v1, [Letter(v2)] + ([Letter(v3)] + rest), 1, v0, out);
    FeedLetter(v2, [Letter(v3)] + rest, 2, v1 % 16, out + [b0]);
    FeedLetter(v3, rest, 3, v2 % 4, out + [b0] + [b1]);
    assert out + [b0] + [b1] + [b2] == out + [b0, b1, b2];
  }

  lemma FeedOne(b0: Byte, out: seq<Byte>)
    ensures Feed(Quad(b0, 0, 0)[..2] + ['=', '='], 0, 0, 0, out) == Some(out + [b0])
  {
    var v0, v1 := b0 / 4, b0 % 4 * 16 + 0 / 16;
    GroupOfThree(b0, 0, 0);
    assert Quad(b0, 0, 0)[..2] + ['=', '='] == [Letter(v0)] + ([Letter(v1)] + ['=', '=']);
    FeedLetter(v0, [Letter(v1)] + ['=', '='], 0, 0, out);
    FeedLetter(v1, ['=', '='], 1, v0, out);
    assert ['=', '='][1..] == ['='];
  }

  lemma FeedTwo(b0: Byte, b1: Byte, out: seq<Byte>)
    ensures Feed(Quad(b0, b1, 0)[..3] + ['='], 0, 0, 0, out) == Some(out + [b0, b1])
  {
    var v0, v1, v2 := b0 / 4, b0 % 4 * 16 + b1 / 16, b1 % 16 * 4 + 0 / 64;
    GroupOfThree(b0, b1, 0);
    assert Quad(b0, b1, 0)[..3] + ['='] == [Letter(v0)] + ([Letter(v1)] + ([Letter(v2)] + ['=']));
    FeedLetter(v0, [Letter(v1)] + ([Letter(v2)] + ['=']), 0, 0, out);
    FeedLetter(v1, [Letter(v2)] + ['='], 1, v0, out);
    FeedLetter(v2, ['='], 2, v1 % 16, out + [b0]);
    assert out + [b0] + [b1] == out + [b0, b1];
  }

  /** The letter-by-letter decoder inverts the group-by-group encoder on every byte string. */
  lemma {:induction false} FeedEncoding(bytes: seq<Byte>, out: seq<Byte>)
    ensures Feed(Encode(bytes), 0, 0, 0, out) == Some(out + bytes)
  {
    if bytes == [] {
      assert out + bytes == out;
    } else if |bytes| == 1 {
      FeedOne(bytes[0], out);
      assert bytes == [bytes[0]];
    } else if |bytes| == 2 {
      FeedTwo(bytes[0], bytes[1], out);
      assert bytes == [bytes[0], bytes[1]];
    } else {
      FeedQuad(bytes[0], bytes[1], bytes[2], Encode(bytes[3..]), out);
      FeedEncoding(bytes[3..], out + [bytes[0], bytes[1], bytes[2]]);
      assert bytes == [bytes[0], bytes[1], bytes[2]] + bytes[3..];
      assert out + bytes == out + [bytes[0], bytes[1], bytes[2]] + bytes[3..];
    }
  }

  lemma Base64RoundTrip(bytes: seq<Byte>)
    ensures Decode(Repadded(Stripped(Encode(bytes)))) == Some(bytes)
  {
    PaddingIsRebuilt(bytes);
    var letters, _ := EncodingShape(bytes);
    FeedEncoding(bytes, []);
    assert [] + bytes == bytes;
  }

  /** With a JSON library that reads back what it wrote, every non-empty provider cursor survives the trip, and
      the opaque form carries no padding. */
  lemma CursorRoundTrip(codec: Codec, provider: string)
    requires provider != ""
    requires codec.dumps(Wrapped(provider)) != []
    requires codec.loads(codec.dumps(Wrapped(provider))) == Some(Wrapped(provider))
    ensures Opaque(codec, Some(provider)).Some? && '=' !in Opaque(codec, Some(provider)).value
    ensures DecodeCursor(codec, Opaque(codec, Some(provider))) == Cursor(Some(provider))
  {
    var bytes := codec.dumps(Wrapped(provider));
    PaddingIsRebuilt(bytes);
    Base64RoundTrip(bytes);
  }

  /** The test vectors of section 10 of RFC 4648, and the two letters of the URL-safe alphabet in its section 5. */
  lemma KnownVectors()
    ensures Encode([102]) == "Zg==" && Encode([102, 111]) == "Zm8=" && Encode([102, 111, 111]) == "Zm9v"
    ensures Encode([102, 111, 111, 98, 97, 114]) == "Zm9vYmFy"
    ensures Letter(62) == '-' && Letter(63) == '_' && Letter(61) == '9' && Letter(51) == 'z' && Letter(25) == 'Z'
  {
    var all: seq<Byte> := [102, 111, 111, 98, 97, 114];
    assert all[3..] == [98, 97, 114] && all[3..][3..] == [];
    var three: seq<Byte> := [102, 111, 111];
    assert three[3..] == [];
    assert Encode(all[3..]) == "YmFy";
  }

  /** No cursor gives none; a text that is not base64, or not JSON, or not an object is refused; an object of another
      version, or without a text, gives none. */
  lemma DecodedIff(codec: Codec, cursor: string, fields: map<string, Json>)
    ensures Opaque(codec, None) == None && Opaque(codec, Some("")) == None
    ensures DecodeCursor(codec, None) == DecodeCursor(codec, Some("")) == Cursor(None)
    ensures cursor != "" ==>
              var bytes := Decode(Repadded(cursor));
              && (bytes.None? ==> DecodeCursor(codec, Some(cursor)) == Invalid)
              && (bytes.Some? && !(codec.loads(bytes.value).Some? && codec.loads(bytes.value).value.JObj?) ==>
                    DecodeCursor(codec, Some(cursor)) == Invalid)
              && (bytes.Some? && codec.loads(bytes.value) == Some(JObj(fields)) ==>
                    var current := "v" in fields && (fields["v"] == JInt(1) || fields["v"] == JReal(1.0) ||
                                                     fields["v"] == JBool(true));
                    DecodeCursor(codec, Some(cursor)) ==
                    Cursor(if current && "p" in fields && fields["p"].JStr? then Some(fields["p"].text) else None))
  {
    assert V == "v" && PAYLOAD == "p";
  }

  /** What counts as a letter when decoding: the 64 letters, and the two of the plain alphabet. */
  lemma LettersDecoded(c: char)
    ensures forall v: Sextet :: Value(Letter(v)) == Some(v)
    ensures Value('+') == Some(62) && Value('/') == Some(63)
    ensures Value(c).Some? ==> Letter(Value(c).value) == c || c == '+' || c == '/'
  {
    forall v: Sextet ensures Value(Letter(v)) == Some(v) {
    }
  }

  /** Padding may not be short, other characters are skipped, and anything beyond ASCII is refused. */
  lemma KnownDecodings(c: char)
    ensures Decode(['Z', 'g', '=', '=']) == Some([102]) && Decode(['Z', 'g', '=']) == None
    ensures Decode(['Z', '!', 'g', '=', '=']) == Some([102]) && Decode(['Z']) == None
    ensures c as int >= 128 ==> Decode([c]) == None
    ensures c as int < 128 && Value(c) == None ==> Decode([c]) == Some([])
  {
    FeedKnown(['=', '=']);
    FeedKnown(['=']);
    assert ['=', '='][1..] == ['='] && ['='][1..] == [];
    assert Feed(['=', '='], 2, 0, 0, [102]) == Feed(['='], 2, 0, 1, [102]) == Some([102]);
    assert Feed(['='], 2, 0, 0, [102]) == Feed([], 2, 0, 1, [102]) == None;
    var skipped := ['Z', '!', 'g', '=', '='];
    assert skipped[1..] == ['!', 'g', '=', '='] && skipped[1..][1..] == ['g', '=', '='];
    assert ['Z', 'g', '=', '='] == ['Z', 'g'] + ['=', '='] && ['Z', 'g', '='] == ['Z', 'g'] + ['='];
    assert ['g', '=', '='] == ['g'] + ['=', '='];
    var one := [c];
    assert one[0] == c && one[1..] == [] && ['Z'][1..] == [];
    assert Value(c) == None ==> Feed(one, 0, 0, 0, []) == Feed([], 0, 0, 0, []);
  }

  lemma FeedKnown(rest: string)
    ensures Feed(['Z', 'g'] + rest, 0, 0, 0, []) == Feed(rest, 2, 0, 0, [102])
    ensures Feed(['g'] + rest, 1, 25, 0, []) == Feed(rest, 2, 0, 0, [102])
  {
    var s := ['Z', 'g'] + rest;
    assert s[0] == 'Z' && s[1..] == ['g'] + rest;
    assert (['g'] + rest)[0] == 'g' && (['g'] + rest)[1..] == rest;
    assert [] + [25 * 4 + 32 / 16] == [102];
  }
}
