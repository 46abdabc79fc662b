/** The payload contract of the event pipeline: canonical_payload in FX/financial_boundary/eventing.py. */
module Payloads {
  import opened Values

  const DENIED_KEYS: set<string> := {
    "password", "secret", "token", "private_key", "seed", "mnemonic",
    "authorization", "client_key", "bank_account_number", "raw_provider_response"
  }

  /** A value inside the program, with string keys. Refused is one that the JSON library does not write. */
  datatype Value =
    | Null
    | Bool(truth: bool)
    | Number(number: int)
    | Real(value: real)
    | Str(text: string)
    | List(items: seq<Value>)
    | Tuple(items: seq<Value>)
    | Dict(fields: map<string, Value>)
    | Refused

  /** Python's `str.lower`; the results hold for every such function. */
  type Lower = string -> string

  predicate Denied(lower: Lower, key: string) {
    lower(key) in DENIED_KEYS
  }

  /** The recursive `inspect`: true when it raises nothing. It goes into dictionaries and lists only. */
  predicate Inspect(lower: Lower, value: Value) {
    match value
    case Dict(fields) => forall k | k in fields :: !Denied(lower, k) && Inspect(lower, fields[k])
    case List(items) => forall i | 0 <= i < |items| :: Inspect(lower, items[i])
    case _ => true
  }

  /** True when the JSON library writes the value. */
  predicate Writable(value: Value) {
    match value
    case Dict(fields) => forall k | k in fields :: Writable(fields[k])
    case List(items) => forall i | 0 <= i < |items| :: Writable(items[i])
    case Tuple(items) => forall i | 0 <= i < |items| :: Writable(items[i])
    case Refused => false
    case _ => true
  }

  /** What is written and read back: a tuple becomes an array like a list. */
  function Written(value: Value): Json {
    match value
    case Null => JNull
    case Bool(truth) => JBool(truth)
    case Number(number) => JInt(number)
    case Real(value) => JReal(value)
    case Str(text) => JStr(text)
    case List(items) => JArr(seq(|items|, i requires 0 <= i < |items| => Written(items[i])))
    case Tuple(items) => JArr(seq(|items|, i requires 0 <= i < |items| => Written(items[i])))
    case Dict(fields) => JObj(map k | k in fields :: Written(fields[k]))
    case Refused => JNull
  }

  /** The value that the JSON library makes of a document. */
  function Loaded(json: Json): Value {
    match json
    case JNull => Null
    case JBool(truth) => Bool(truth)
    case JInt(number) => Number(number)
    case JReal(value) => Real(value)
    case JStr(text) => Str(text)
    case JArr(items) => List(seq(|items|, i requires 0 <= i < |items| => Loaded(items[i])))
    case JObj(fields) => Dict(map k | k in fields :: Loaded(fields[k]))
  }

  /** None when the source raises EventContractError. */
  function Canonical(lower: Lower, payload: Value): Option<Json> {
    if payload.Dict? && Inspect(lower, payload) && Writable(payload) then Some(Written(payload)) else None
  }

  // ---------------------------------------------------------------------------------------------
  // Paths into a value
  // ---------------------------------------------------------------------------------------------

  function Below(value: Value, step: Step): Option<Value> {
    match (value, step)
    case (Dict(fields), Key(name)) => if name in fields then Some(fields[name]) else None
    case (List(items), Index(position)) => if position < |items| then Some(items[position]) else None
    case (Tuple(items), Index(position)) => if position < |items| then Some(items[position]) else None
    case _ => None
  }

  function NodeIn(value: Value, path: Path): Option<Value>
    decreases |path|
  {
    if path == [] then Some(value)
    else
      match Below(value, path[0])
      case None => None
      case Some(next) => NodeIn(next, path[1..])
  }

  /** The path does not go through a tuple. */
  predicate TupleFree(value: Value, path: Path)
    decreases |path|
  {
    path != [] ==>
      && !value.Tuple?
      && match Below(value, path[0])
         case None => true
         case Some(next) => TupleFree(next, path[1..])
  }

  /** The path leads to an object that has the denied key. */
  ghost predicate DeniedAt(lower: Lower, value: Value, path: Path, key: string) {
    var node := NodeIn(value, path);
    node.Some? && node.value.Dict? && key in node.value.fields && Denied(lower, key)
  }

  ghost predicate Exposed(lower: Lower, value: Value, path: Path, key: string) {
    TupleFree(value, path) && DeniedAt(lower, value, path, key)
  }

  ghost predicate RefusedAt(value: Value, path: Path) {
    NodeIn(value, path) == Some(Refused)
  }

  /** No object of the document, at any depth, has a denied key. */
  ghost predicate Clean(lower: Lower, json: Json) {
    forall path, key :: !DeniedIn(lower, json, path, key)
  }

  ghost predicate DeniedIn(lower: Lower, json: Json, path: Path, key: string) {
    var node := NodeAt(json, path);
    node.Some? && node.value.JObj? && key in node.value.fields && Denied(lower, key)
  }

  lemma PathBelow(value: Value, step: Step, path: Path)
    requires Below(value, step).Some?
    ensures NodeIn(value, [step] + path) == NodeIn(Below(value, step).value, path)
    ensures TupleFree(value, [step] + path) <==> !value.Tuple? && TupleFree(Below(value, step).value, path)
  {
    assert ([step] + path)[1..] == path;
  }

  // ---------------------------------------------------------------------------------------------
  // What is accepted, and what comes back
  // ---------------------------------------------------------------------------------------------

  lemma {:induction false} InspectedIsNotExposed(lower: Lower, value: Value, path: Path, key: string)
    requires Inspect(lower, value)
    ensures !Exposed(lower, value, path, key)
    decreases |path|
  {
    if path != [] && Below(value, path[0]).Some? && !value.Tuple? {
      InspectedIsNotExposed(lower, Below(value, path[0]).value, path[1..], key);
    }
  }

  lemma {:induction false} ExposedWitness(lower: Lower, value: Value) returns (path: Path, key: string)
    requires !Inspect(lower, value)
    ensures Exposed(lower, value, path, key)
    decreases value
  {
    match value {
      case Dict(fields) =>
        key :| key in fields && (Denied(lower, key) || !Inspect(lower, fields[key]));
        path := [];
        if !Denied(lower, key) {
          var step := Key(key);
          path, key := ExposedWitness(lower, fields[key]);
          PathBelow(value, step, path);
          path := [step] + path;
        }
      case List(items) =>
        var i :| 0 <= i < |items| && !Inspect(lower, items[i]);
        path, key := ExposedWitness(lower, items[i]);
        PathBelow(value, Index(i), path);
        path := [Index(i)] + path;
    }
  }

  lemma {:induction false} WritableIsNotRefused(value: Value, path: Path)
    requires Writable(value)
    ensures !RefusedAt(value, path)
    decreases |path|
  {
    if path != [] && Below(value, path[0]).Some? {
      WritableIsNotRefused(Below(value, path[0]).value, path[1..]);
    }
  }

  lemma {:induction false} RefusedWitness(value: Value) returns (path: Path)
    requires !Writable(value)
    ensures RefusedAt(value, path)
    decreases value
  {
    path := [];
    match value {
      case Refused =>
      case Dict(fields) =>
        var k :| k in fields && !Writable(fields[k]);
        path := RefusedWitness(fields[k]);
        PathBelow(value, Key(k), path);
        path := [Key(k)] + path;
      case List(items) =>
        var i :| 0 <= i < |items| && !Writable(items[i]);
        path := RefusedWitness(items[i]);
        PathBelow(value, Index(i), path);
        path := [Index(i)] + path;
      case Tuple(items) =>
        var i :| 0 <= i < |items| && !Writable(items[i]);
        path := RefusedWitness(items[i]);
        PathBelow(value, Index(i), path);
        path := [Index(i)] + path;
    }
  }

  /** A payload is accepted if and only if it is a dictionary, every value at any depth can be written, and no
      dictionary reached without going through a tuple has a denied key. */
  lemma AcceptedIffNothingExposed(lower: Lower, payload: Value)
    ensures Canonical(lower, payload).Some? <==>
            && payload.Dict?
            && (forall path :: !RefusedAt(payload, path))
            && (forall path, key :: !Exposed(lower, payload, path, key))
  {
    if Inspect(lower, payload) {
      forall path, key ensures !Exposed(lower, payload, path, key) {
        InspectedIsNotExposed(lower, payload, path, key);
      }
    } else {
      var path, key := ExposedWitness(lower, payload);
    }
    if Writable(payload) {
      forall path ensures !RefusedAt(payload, path) {
        WritableIsNotRefused(payload, path);
      }
    } else {
      var path := RefusedWitness(payload);
    }
  }

  /** Writing keeps every path. */
  lemma {:induction false} WrittenKeepsPaths(value: Value, path: Path)
    ensures NodeAt(Written(value), path) ==
            (match NodeIn(value, path) case None => None case Some(node) => Some(Written(node)))
    decreases |path|
  {
    if path != [] && Below(value, path[0]).Some? {
      WrittenKeepsPaths(Below(value, path[0]).value, path[1..]);
    }
  }

  /** What comes back is free of denied keys if and only if the payload had none anywhere, tuples included. */
  lemma ResultCleanIffNothingDenied(lower: Lower, payload: Value)
    requires Canonical(lower, payload).Some?
    ensures Clean(lower, Canonical(lower, payload).value) <==>
            forall path, key :: !DeniedAt(lower, payload, path, key)
  {
    forall path, key
      ensures DeniedIn(lower, Written(payload), path, key) <==> DeniedAt(lower, payload, path, key)
    {
      WrittenKeepsPaths(payload, path);
    }
  }

  lemma {:induction false} LoadedKeepsPaths(json: Json, path: Path)
    ensures NodeIn(Loaded(json), path) ==
            (match NodeAt(json, path) case None => None case Some(node) => Some(Loaded(node)))
    ensures TupleFree(Loaded(json), path)
    decreases |path|
  {
    if path != [] && Child(json, path[0]).Some? {
      LoadedKeepsPaths(Child(json, path[0]).value, path[1..]);
    }
  }

  lemma {:induction false} LoadedIsWritten(json: Json)
    ensures Writable(Loaded(json)) && Written(Loaded(json)) == json
  {
    match json {
      case JArr(items) =>
        forall i | 0 <= i < |items| ensures Writable(Loaded(items[i])) && Written(Loaded(items[i])) == items[i] {
          LoadedIsWritten(items[i]);
        }
      case JObj(fields) =>
        forall k | k in fields ensures Writable(Loaded(fields[k])) && Written(Loaded(fields[k])) == fields[k] {
          LoadedIsWritten(fields[k]);
        }
      case _ =>
    }
  }

  /** Canonicalising a result again, as its hash does, gives it back if and only if it is clean, and raises
      otherwise. */
  lemma RecanonicalIffClean(lower: Lower, payload: Value)
    requires Canonical(lower, payload).Some?
    ensures var result := Canonical(lower, payload).value;
            Canonical(lower, Loaded(result)) == if Clean(lower, result) then Some(result) else None
  {
    var result := Canonical(lower, payload).value;
    LoadedIsWritten(result);
    forall path, key
      ensures Exposed(lower, Loaded(result), path, key) <==> DeniedIn(lower, result, path, key)
    {
      LoadedKeepsPaths(result, path);
    }
    AcceptedIffNothingExposed(lower, Loaded(result));
    forall path ensures !RefusedAt(Loaded(result), path) {
      WritableIsNotRefused(Loaded(result), path);
    }
  }

  lemma OneField(lower: Lower, name: string, value: Value)
    ensures Inspect(lower, Dict(map[name := value])) <==> !Denied(lower, name) && Inspect(lower, value)
    ensures Writable(Dict(map[name := value])) <==> Writable(value)
  {
    var fields := map[name := value];
    assert name in fields && fields[name] == value;
  }

  lemma OneItem(lower: Lower, value: Value)
    ensures Inspect(lower, Tuple([value]))
    ensures Writable(Tuple([value])) <==> Writable(value)
  {
    var items := [value];
    assert items[0] == value;
  }

  /** The scan does not see into a tuple: a denied key there is accepted, comes back, and makes the second pass
      raise. */
  lemma TupleHidesDeniedKey(lower: Lower, name: string, key: string)
    requires Denied(lower, key) && !Denied(lower, name)
    ensures var payload := Dict(map[name := Tuple([Dict(map[key := Null])])]);
            && Canonical(lower, payload).Some?
            && Canonical(lower, Loaded(Canonical(lower, payload).value)) == None
  {
    var inner := Dict(map[key := Null]);
    var hidden := Tuple([inner]);
    var payload := Dict(map[name := hidden]);
    OneField(lower, key, Null);
    OneItem(lower, inner);
    OneField(lower, name, hidden);
    PathBelow(hidden, Index(0), []);
    PathBelow(payload, Key(name), [Index(0)] + []);
    assert DeniedAt(lower, payload, [Key(name)] + ([Index(0)] + []), key);
    ResultCleanIffNothingDenied(lower, payload);
    RecanonicalIffClean(lower, payload);
  }

  /** The names that no dictionary may have as a key, in any letter case. */
  predicate IsDeniedName(name: string) {
    || name == "password" || name == "secret" || name == "token" || name == "private_key" || name == "seed"
    || name == "mnemonic" || name == "authorization" || name == "client_key" || name == "bank_account_number"
    || name == "raw_provider_response"
  }

  /** A dictionary of plain values is accepted if and only if no key of it, lower-cased, is one of the ten names. */
  lemma PlainAcceptedIff(lower: Lower, fields: map<string, Value>)
    requires forall k | k in fields :: fields[k].Null? || fields[k].Bool? || fields[k].Number? || fields[k].Str?
    ensures Canonical(lower, Dict(fields)).Some? <==> forall k | k in fields :: !IsDeniedName(lower(k))
  {
    forall k ensures Denied(lower, k) <==> IsDeniedName(lower(k)) {
      DeniedIffNamed(lower, k);
    }
    assert forall k | k in fields :: Inspect(lower, fields[k]) && Writable(fields[k]);
    assert Inspect(lower, Dict(fields)) <==> forall k | k in fields :: !Denied(lower, k);
  }

  lemma DeniedIffNamed(lower: Lower, key: string)
    ensures Denied(lower, key) <==> IsDeniedName(lower(key))
  {
  }
}
