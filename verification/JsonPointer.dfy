/** Document-local references of an OpenAPI document: the `walk` closure of scripts/validate_openapi.py, with the
    pointers of sections 3, 4 and 6 of RFC 6901. */
module JsonPointer {
  import opened Text
  import opened Values

  // ---------------------------------------------------------------------------------------------
  // Tokens
  // ---------------------------------------------------------------------------------------------

  function EscapeChar(c: char): string {
    if c == '~' then ['~', '0'] else if c == '/' then ['~', '1'] else [c]
  }

  function EscapeToken(token: string): string {
    Spell(token, EscapeChar)
  }

  function UnescapeToken(token: string): string {
    Replace(Replace(token, ['~', '1'], ['/']), ['~', '0'], ['~'])
  }

  function SlashRead(c: char): string {
    if c == '~' then ['~', '0'] else [c]
  }

  lemma UnescapeEscape(token: string)
    ensures UnescapeToken(EscapeToken(token)) == token
  {
    ReplaceInSpelling(token, '~', '1', ['/'], EscapeChar, SlashRead);
    ReplaceInSpelling(token, '~', '0', ['~'], SlashRead, c => [c]);
    SpellIdentity(token, c => [c]);
  }

  lemma {:induction false} EscapedHasNoSlash(token: string)
    ensures '/' !in EscapeToken(token)
  {
    if token != "" {
      EscapedHasNoSlash(token[1..]);
    }
  }

  /** Every tilde is followed by 0 or 1, as the grammar asks. */
  predicate TildesPaired(token: string)
    decreases |token|
  {
    if token == "" then true
    else if token[0] == '~' then |token| >= 2 && (token[1] == '0' || token[1] == '1') && TildesPaired(token[2..])
    else TildesPaired(token[1..])
  }

  lemma {:induction false} Unspell(token: string) returns (plain: string)
    requires TildesPaired(token) && '/' !in token
    ensures EscapeToken(plain) == token
    decreases |token|
  {
    if token == "" {
      plain := "";
    } else if token[0] == '~' {
      var rest := Unspell(token[2..]);
      plain := [if token[1] == '0' then '~' else '/'] + rest;
      assert plain[1..] == rest;
      assert token == [token[0], token[1]] + token[2..];
    } else {
      var rest := Unspell(token[1..]);
      plain := [token[0]] + rest;
      assert plain[1..] == rest;
      assert token == [token[0]] + token[1..];
    }
  }

  lemma EscapeUnescape(token: string)
    requires TildesPaired(token) && '/' !in token
    ensures EscapeToken(UnescapeToken(token)) == token
  {
    var plain := Unspell(token);
    UnescapeEscape(plain);
  }

  lemma {:induction false} EscapedIsPaired(token: string)
    ensures TildesPaired(EscapeToken(token))
  {
    if token != "" {
      EscapedIsPaired(token[1..]);
      var unit, rest := EscapeChar(token[0]), EscapeToken(token[1..]);
      assert (unit + rest)[|unit|..] == rest;
    }
  }

  // ---------------------------------------------------------------------------------------------
  // Resolution
  // ---------------------------------------------------------------------------------------------

  /** One turn of the loop: an array takes a plain index, anything else is subscripted by the token. */
  function Descend(target: Json, token: string): Option<Json> {
    match target
    case JArr(items) =>
      if IsIndex(token) && ParseDecimal(token) < |items| then Some(items[ParseDecimal(token)]) else None
    case JObj(fields) => if token in fields then Some(fields[token]) else None
    case _ => None
  }

  function Follow(target: Json, tokens: seq<string>): Option<Json>
    decreases |tokens|
  {
    if tokens == [] then Some(target)
    else
      match Descend(target, UnescapeToken(tokens[0]))
      case None => None
      case Some(next) => Follow(next, tokens[1..])
  }

  function Tokens(fragment: string): seq<string> {
    if fragment == "" then [] else Split(fragment[1..], '/')
  }

  /** None when the source raises: not a pointer, or no such node. */
  function Resolve(document: Json, fragment: string): Option<Json> {
    if fragment != "" && fragment[0] != '/' then None else Follow(document, Tokens(fragment))
  }

  /** The token loop, which moves `target` down the document. */
  method ResolveReference(document: Json, fragment: string) returns (target: Option<Json>)
    ensures target == Resolve(document, fragment)
  {
    if fragment != "" && fragment[0] != '/' {
      return None;
    }
    var tokens := if fragment == "" then [] else Split(fragment[1..], '/');
    var node := document;
    var i := 0;
    assert tokens[0..] == tokens;
    while i < |tokens|
      invariant 0 <= i <= |tokens|
      invariant Follow(node, tokens[i..]) == Follow(document, tokens)
    {
      var token := Replace(Replace(tokens[i], ['~', '1'], ['/']), ['~', '0'], ['~']);
      assert tokens[i..][0] == tokens[i] && tokens[i..][1..] == tokens[i + 1..];
      var next := Subscript(node, token);
      if next.None? {
        return None;
      }
      node := next.value;
      i := i + 1;
    }
    return Some(node);
  }

  /** The body of the loop; None where a subscript or the index check raises. */
  method Subscript(target: Json, token: string) returns (next: Option<Json>)
    ensures next == Descend(target, token)
  {
    match target {
      case JArr(items) =>
        if !IsDecimal(token) || (|token| > 1 && token[0] == '0') {
          return None;
        }
        if ParseDecimal(token) >= |items| {
          return None;
        }
        return Some(items[ParseDecimal(token)]);
      case JObj(fields) =>
        if token !in fields {
          return None;
        }
        return Some(fields[token]);
      case _ =>
        return None;
    }
  }

  // ---------------------------------------------------------------------------------------------
  // Printed pointers
  // ---------------------------------------------------------------------------------------------

  function TokenOf(step: Step): string {
    match step
    case Key(name) => name
    case Index(position) => Numeral(position)
  }

  function Escaped(path: Path): seq<string> {
    seq(|path|, i requires 0 <= i < |path| => EscapeToken(TokenOf(path[i])))
  }

  /** The pointer of a path: each step's token, escaped, after a slash. */
  function Print(path: Path): string {
    Prefixed(Escaped(path), '/')
  }

  lemma TokensOfPrint(path: Path)
    ensures Tokens(Print(path)) == Escaped(path)
    ensures path != [] ==> Print(path) != "" && Print(path)[0] == '/'
  {
    if path != [] {
      var tokens := Escaped(path);
      forall i | 0 <= i < |path| ensures '/' !in tokens[i] {
        EscapedHasNoSlash(TokenOf(path[i]));
      }
      assert Print(path)[1..] == tokens[0] + Prefixed(tokens[1..], '/');
      SplitPrefixed(tokens[0], tokens[1..], '/');
      assert tokens == [tokens[0]] + tokens[1..];
    }
  }

  lemma DescendStep(document: Json, step: Step)
    requires Child(document, step).Some?
    ensures Descend(document, TokenOf(step)) == Child(document, step)
  {
    if step.Index? {
      ParseNumeral(step.position);
    }
  }

  /** Resolving the pointer printed from a node's path yields exactly that node, whatever its keys hold. */
  lemma ResolvePrinted(document: Json, path: Path)
    requires NodeAt(document, path).Some?
    ensures Resolve(document, Print(path)) == NodeAt(document, path)
  {
    TokensOfPrint(path);
    forall i | 0 <= i < |path| ensures TokenOf(path[i]) == UnescapeToken(Escaped(path)[i]) {
      UnescapeEscape(TokenOf(path[i]));
    }
    FollowSpelled(document, path, Escaped(path));
  }

  /** A pointer in which every tilde is paired. */
  predicate WellFormed(fragment: string) {
    forall i | 0 <= i < |Tokens(fragment)| :: TildesPaired(Tokens(fragment)[i])
  }

  lemma {:induction false} PathFollowed(document: Json, tokens: seq<string>) returns (path: Path)
    requires Follow(document, tokens).Some?
    ensures NodeAt(document, path) == Follow(document, tokens)
    ensures |path| == |tokens| && forall i | 0 <= i < |path| :: TokenOf(path[i]) == UnescapeToken(tokens[i])
    decreases |tokens|
  {
    if tokens == [] {
      path := [];
    } else {
      var token := UnescapeToken(tokens[0]);
      var next := Descend(document, token).value;
      var rest := PathFollowed(next, tokens[1..]);
      var step := Key(token);
      if document.JArr? {
        step := Index(ParseDecimal(token));
        NumeralParse(token);
      }
      path := [step] + rest;
    }
  }

  lemma JoinTokens(fragment: string)
    requires fragment != "" && fragment[0] == '/'
    ensures Prefixed(Tokens(fragment), '/') == fragment
  {
    var tokens := Tokens(fragment);
    PrefixedSplit(fragment[1..], '/');
    assert fragment == ['/'] + (tokens[0] + Prefixed(tokens[1..], '/'));
  }

  lemma EscapedTokens(tokens: seq<string>, path: Path)
    requires |path| == |tokens|
    requires forall i | 0 <= i < |path| :: TokenOf(path[i]) == UnescapeToken(tokens[i])
    requires forall i | 0 <= i < |tokens| :: TildesPaired(tokens[i]) && '/' !in tokens[i]
    ensures Escaped(path) == tokens
  {
    forall i | 0 <= i < |path| ensures Escaped(path)[i] == tokens[i] {
      EscapeUnescape(tokens[i]);
    }
  }

  /** A path that spells the tokens of a well-formed pointer prints as that pointer. */
  lemma PrintOfTokens(fragment: string, path: Path)
    requires WellFormed(fragment) && (fragment != "" ==> fragment[0] == '/')
    requires |path| == |Tokens(fragment)|
    requires forall i | 0 <= i < |path| :: TokenOf(path[i]) == UnescapeToken(Tokens(fragment)[i])
    ensures Print(path) == fragment
  {
    if fragment != "" {
      PiecesHoldNoSeparator(fragment[1..], '/');
      EscapedTokens(Tokens(fragment), path);
      JoinTokens(fragment);
    }
  }

  /** The steps of the path are spelled by the unescaped tokens of the fragment. */
  ghost predicate Spells(path: Path, fragment: string) {
    && |path| == |Tokens(fragment)|
    && forall i | 0 <= i < |path| :: TokenOf(path[i]) == UnescapeToken(Tokens(fragment)[i])
  }

  /** The fragment points, token by token, to a node of the document. */
  ghost predicate PointsTo(document: Json, fragment: string, node: Json) {
    && (fragment == "" || fragment[0] == '/')
    && exists path :: Spells(path, fragment) && NodeAt(document, path) == Some(node)
  }

  lemma {:induction false} FollowSpelled(document: Json, path: Path, tokens: seq<string>)
    requires NodeAt(document, path).Some? && |path| == |tokens|
    requires forall i | 0 <= i < |path| :: TokenOf(path[i]) == UnescapeToken(tokens[i])
    ensures Follow(document, tokens) == NodeAt(document, path)
    decreases |path|
  {
    if path != [] {
      DescendStep(document, path[0]);
      FollowSpelled(Child(document, path[0]).value, path[1..], tokens[1..]);
    }
  }

  /** For every fragment, well formed or not: it resolves to a node if and only if it is empty or begins with a slash
      and a path to that node spells its unescaped tokens. */
  lemma ResolvesIffPointsTo(document: Json, fragment: string, node: Json)
    ensures Resolve(document, fragment) == Some(node) <==> PointsTo(document, fragment, node)
  {
    if Resolve(document, fragment) == Some(node) {
      var path := PathFollowed(document, Tokens(fragment));
      assert Spells(path, fragment);
    }
    if PointsTo(document, fragment, node) {
      var path :| Spells(path, fragment) && NodeAt(document, path) == Some(node);
      FollowSpelled(document, path, Tokens(fragment));
    }
  }

  /** No tilde is followed by 0 or 1. */
  predicate EscapesNothing(token: string) {
    token != "" ==>
      && !(|token| >= 2 && token[0] == '~' && (token[1] == '0' || token[1] == '1'))
      && EscapesNothing(token[1..])
  }

  lemma {:induction false} NothingToReplace(token: string, digit: char, with: string)
    requires EscapesNothing(token) && (digit == '0' || digit == '1')
    ensures Replace(token, ['~', digit], with) == token
  {
    if |token| >= 2 {
      NothingToReplace(token[1..], digit, with);
      assert token[..2] == [token[0], token[1]];
      assert token == [token[0]] + token[1..];
    }
  }

  /** A tilde that escapes nothing is read as itself: the fragment resolves to the member of that very name, although
      it is no pointer of the standard. */
  lemma UnpairedTildeResolves(name: string, node: Json)
    requires EscapesNothing(name) && '~' in name && '/' !in name
    ensures !WellFormed(['/'] + name)
    ensures Resolve(JObj(map[name := node]), ['/'] + name) == Some(node)
  {
    SingleToken(name);
    UnpairedTilde(name);
    NothingToReplace(name, '1', ['/']);
    NothingToReplace(name, '0', ['~']);
    FollowOne(JObj(map[name := node]), name);
  }

  lemma SingleToken(name: string)
    requires '/' !in name
    ensures Tokens(['/'] + name) == [name]
  {
    assert (['/'] + name)[1..] == name;
    SplitPrefixed(name, [], '/');
    assert name + Prefixed([], '/') == name;
  }

  lemma FollowOne(document: Json, token: string)
    ensures Follow(document, [token]) == Descend(document, UnescapeToken(token))
  {
    assert [token][1..] == [];
  }

  lemma {:induction false} UnpairedTilde(name: string)
    requires EscapesNothing(name) && '~' in name
    ensures !TildesPaired(name)
  {
    if name[0] != '~' {
      assert name == [name[0]] + name[1..];
      UnpairedTilde(name[1..]);
    }
  }

  /** A fragment is the printed pointer of a path to a node if and only if it resolves to that node and is well formed:
      beyond the pointers of the standard the code accepts only unpaired tildes. */
  lemma ResolvesIffPrinted(document: Json, fragment: string, node: Json)
    ensures Resolve(document, fragment) == Some(node) && WellFormed(fragment) <==>
            exists path :: NodeAt(document, path) == Some(node) && Print(path) == fragment
  {
    if Resolve(document, fragment) == Some(node) && WellFormed(fragment) {
      var path := PathFollowed(document, Tokens(fragment));
      PrintOfTokens(fragment, path);
      assert NodeAt(document, path) == Some(node) && Print(path) == fragment;
    }
    if path :| NodeAt(document, path) == Some(node) && Print(path) == fragment {
      ResolvePrinted(document, path);
      PrintedIsWellFormed(path);
    }
  }

  lemma PrintedIsWellFormed(path: Path)
    ensures WellFormed(Print(path))
  {
    TokensOfPrint(path);
    forall i | 0 <= i < |path| ensures TildesPaired(Escaped(path)[i]) {
      EscapedIsPaired(TokenOf(path[i]));
    }
  }

  // ---------------------------------------------------------------------------------------------
  // The walk
  // ---------------------------------------------------------------------------------------------

  const REF := ['$', 'r', 'e', 'f']

  /** The checks on one object; `unquote` is the library's percent-decoding. */
  predicate ReferenceOk(document: Json, unquote: string -> string, value: Json) {
    value.JObj? && REF in value.fields ==>
      && value.fields[REF].JStr?
      && var reference := value.fields[REF].text;
      && reference != "" && reference[0] == '#'
      && Resolve(document, unquote(reference[1..])).Some?
  }

  /** True when the walk raises nothing. */
  predicate Walk(document: Json, unquote: string -> string, value: Json) {
    && ReferenceOk(document, unquote, value)
    && match value
       case JObj(fields) => forall k | k in fields :: Walk(document, unquote, fields[k])
       case JArr(items) => forall i | 0 <= i < |items| :: Walk(document, unquote, items[i])
       case _ => true
  }

  ghost predicate ReferenceOkAt(document: Json, unquote: string -> string, value: Json, path: Path) {
    NodeAt(value, path).Some? ==> ReferenceOk(document, unquote, NodeAt(value, path).value)
  }

  lemma {:induction false} WalkCovers(document: Json, unquote: string -> string, value: Json, path: Path)
    requires Walk(document, unquote, value)
    ensures ReferenceOkAt(document, unquote, value, path)
    decreases |path|
  {
    if path != [] {
      var next := Child(value, path[0]);
      if next.Some? {
        WalkCovers(document, unquote, next.value, path[1..]);
      }
    }
  }

  lemma {:induction false} WalkFinds(document: Json, unquote: string -> string, value: Json) returns (path: Path)
    requires !Walk(document, unquote, value)
    ensures !ReferenceOkAt(document, unquote, value, path)
    decreases value
  {
    path := [];
    if ReferenceOk(document, unquote, value) {
      match value {
        case JObj(fields) =>
          var k :| k in fields && !Walk(document, unquote, fields[k]);
          var rest := WalkFinds(document, unquote, fields[k]);
          path := [Key(k)] + rest;
        case JArr(items) =>
          var i :| 0 <= i < |items| && !Walk(document, unquote, items[i]);
          var rest := WalkFinds(document, unquote, items[i]);
          path := [Index(i)] + rest;
      }
    }
  }

  /** `reference` is local and points to a node of the document. */
  ghost predicate PointsLocally(document: Json, unquote: string -> string, reference: Json) {
    && reference.JStr? && reference.text != "" && reference.text[0] == '#'
    && exists node :: PointsTo(document, unquote(reference.text[1..]), node)
  }

  ghost predicate ReferencePointsAt(document: Json, unquote: string -> string, path: Path) {
    var node := NodeAt(document, path);
    node.Some? && node.value.JObj? && REF in node.value.fields ==>
      PointsLocally(document, unquote, node.value.fields[REF])
  }

  /** The walk accepts a document if and only if every `$ref` of every object, at every depth, is a text that begins
      with '#' and whose fragment points to a node of the document. */
  lemma WalkIffReferencesPointToNodes(document: Json, unquote: string -> string)
    ensures Walk(document, unquote, document) <==> forall path :: ReferencePointsAt(document, unquote, path)
  {
    forall path
      ensures ReferencePointsAt(document, unquote, path) <==> ReferenceOkAt(document, unquote, document, path)
    {
      var node := NodeAt(document, path);
      if node.Some? && node.value.JObj? && REF in node.value.fields {
        LocallyIffOk(document, unquote, node.value.fields[REF]);
      }
    }
    WalkVisitsEveryNode(document, unquote);
  }

  lemma LocallyIffOk(document: Json, unquote: string -> string, reference: Json)
    ensures PointsLocally(document, unquote, reference) <==>
            && reference.JStr? && reference.text != "" && reference.text[0] == '#'
            && Resolve(document, unquote(reference.text[1..])).Some?
  {
    if reference.JStr? && reference.text != "" {
      ResolvesSomewhere(document, unquote(reference.text[1..]));
    }
  }

  lemma ResolvesSomewhere(document: Json, fragment: string)
    ensures Resolve(document, fragment).Some? <==> exists node :: PointsTo(document, fragment, node)
  {
    if Resolve(document, fragment).Some? {
      ResolvesIffPointsTo(document, fragment, Resolve(document, fragment).value);
    }
    if node :| PointsTo(document, fragment, node) {
      ResolvesIffPointsTo(document, fragment, node);
    }
  }

  lemma WalkVisitsEveryNode(document: Json, unquote: string -> string)
    ensures Walk(document, unquote, document) <==>
            forall path :: ReferenceOkAt(document, unquote, document, path)
  {
    if Walk(document, unquote, document) {
      forall path ensures ReferenceOkAt(document, unquote, document, path) {
        WalkCovers(document, unquote, document, path);
      }
    } else {
      var path := WalkFinds(document, unquote, document);
    }
  }

  /** The escapes of section 3 of RFC 6901, read in the order that its section 4 asks for. */
  lemma KnownTokens()
    ensures EscapeToken(['~']) == ['~', '0'] && EscapeToken(['/']) == ['~', '1']
    ensures UnescapeToken(['~', '0', '1']) == ['~', '1']
  {
    assert ['~'][1..] == [] && ['/'][1..] == [];
    var plain := ['~', '1'];
    assert plain[1..] == ['1'] && ['1'][1..] == [];
    assert EscapeToken(plain) == ['~', '0', '1'];
    UnescapeEscape(plain);
  }

  /** For instance `a~2`. */
  lemma UnpairedTildeExample()
    ensures EscapesNothing(['a', '~', '2']) && '~' in ['a', '~', '2'] && '/' !in ['a', '~', '2']
  {
    var name := ['a', '~', '2'];
    assert name[1..] == ['~', '2'] && name[1..][1..] == ['2'] && ['2'][1..] == [];
    assert name[1] == '~';
  }
}
