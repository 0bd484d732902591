/** The variable-binding state of the `App` component (src/App.tsx) and its
    event handlers, each written as a pure transition on an immutable state
    value. React's `useState` setters are applied in order. */
module AppState {

  import opened Seqs
  import KeyScan

  /** `type InputType = 'text' | 'null'`. */
  datatype InputType = Text | Null

  /** The component state that the handlers read and write. The evaluation
      result is not part of the model. */
  datatype State = State(
    expression: string,
    keys: seq<string>,
    keyValues: map<string, string>,
    inputTypes: map<string, InputType>,
    loading: bool,
    searchTerm: string)

  /** Every listed key has a value and a kind. */
  predicate Bound(st: State) {
    forall k :: k in st.keys ==> k in st.keyValues && k in st.inputTypes
  }

  /** A key of kind null holds the text `null`. */
  predicate NullPinned(st: State) {
    forall k :: k in st.inputTypes && st.inputTypes[k] == Null ==>
      k in st.keyValues && st.keyValues[k] == "null"
  }

  /** The invariant every reachable state keeps. */
  predicate Valid(st: State) {
    Bound(st) && NullPinned(st) && NoDup(st.keys)
  }

  /** The state the `useState` initialisers produce. */
  function Initial(): (st: State)
    ensures Valid(st)
    ensures st.keys == [] && st.keyValues == map[] && st.inputTypes == map[]
  {
    State("", [], map[], map[], false, "")
  }

  /** `keys.forEach(key => { if (!m[key]) m[key] = d })` with the lookup
      reading the map's own entries: every key gets an entry, entries that
      exist already are kept as they are, and nothing is removed. */
  function AddMissing<V>(m: map<string, V>, ks: seq<string>, d: V): (r: map<string, V>)
    ensures forall k :: k in r <==> k in m || k in ks
    ensures forall k :: k in m ==> r[k] == m[k]
    ensures forall k :: k in r && k !in m ==> r[k] == d
    decreases |ks|
  {
    if |ks| == 0 then m
    else
      var m' := if ks[0] in m then m else m[ks[0] := d];
      assert forall k :: k in ks <==> k == ks[0] || k in ks[1..];
      AddMissing(m', ks[1..], d)
  }

  /** `parseExpression(expr)`: the keys of `expr` replace the key list, new
      keys are bound to the empty text, and every existing binding (also one
      whose key is no longer referenced) is left exactly as it was. */
  function ParseExpression(st: State, expr: string): (r: State)
    ensures r.keys == KeyScan.ExtractKeys(expr) && NoDup(r.keys)
    ensures Bound(r)
    ensures forall k :: k in r.keyValues <==> k in st.keyValues || k in r.keys
    ensures forall k :: k in r.inputTypes <==> k in st.inputTypes || k in r.keys
    ensures forall k :: k in st.keyValues ==> r.keyValues[k] == st.keyValues[k]
    ensures forall k :: k in st.inputTypes ==> r.inputTypes[k] == st.inputTypes[k]
    ensures forall k :: k in r.keyValues && k !in st.keyValues ==> r.keyValues[k] == ""
    ensures forall k :: k in r.inputTypes && k !in st.inputTypes ==> r.inputTypes[k] == Text
    ensures r.expression == st.expression && r.loading == st.loading
    ensures r.searchTerm == st.searchTerm
  {
    var ks := KeyScan.ExtractKeys(expr);
    st.(keys := ks,
        keyValues := AddMissing(st.keyValues, ks, ""),
        inputTypes := AddMissing(st.inputTypes, ks, Text))
  }

  /** `handleExpressionChange`: store the new text, then parse it. */
  function ExpressionChange(st: State, e: string): (r: State)
    ensures r.expression == e
    ensures r.keys == KeyScan.ExtractKeys(e)
    ensures Valid(st) ==> Valid(r)
  {
    ParseExpression(st.(expression := e), e)
  }

  /** `handleKeyValueChange(key, value)`: binds `key` to `value` and touches
      nothing else. */
  function SetKeyValue(st: State, key: string, value: string): (r: State)
    ensures key in r.keyValues && r.keyValues[key] == value
    ensures forall k :: k != key ==> (k in r.keyValues <==> k in st.keyValues)
    ensures forall k :: k != key && k in st.keyValues ==> r.keyValues[k] == st.keyValues[k]
    ensures r.keys == st.keys && r.inputTypes == st.inputTypes
    ensures r.expression == st.expression && r.loading == st.loading
    ensures r.searchTerm == st.searchTerm
  {
    st.(keyValues := st.keyValues[key := value])
  }

  /** `handleInputTypeChange(key, type)`: sets the kind, and the value to the
      text `null` for kind null and to the empty text for kind text. Other
      keys are untouched. */
  function SetInputType(st: State, key: string, t: InputType): (r: State)
    ensures key in r.inputTypes && r.inputTypes[key] == t
    ensures key in r.keyValues && r.keyValues[key] == (if t == Null then "null" else "")
    ensures forall k :: k != key ==> (k in r.keyValues <==> k in st.keyValues)
    ensures forall k :: k != key ==> (k in r.inputTypes <==> k in st.inputTypes)
    ensures forall k :: k != key && k in st.keyValues ==> r.keyValues[k] == st.keyValues[k]
    ensures forall k :: k != key && k in st.inputTypes ==> r.inputTypes[k] == st.inputTypes[k]
    ensures r.keys == st.keys && r.expression == st.expression
    ensures r.loading == st.loading && r.searchTerm == st.searchTerm
  {
    var types := st.inputTypes[key := t];
    if t == Null then
      st.(inputTypes := types, keyValues := st.keyValues[key := "null"])
    else
      st.(inputTypes := types, keyValues := st.keyValues[key := ""])
  }

  /** `clearKey(key)`: removes the key from both maps and from the key list;
      the remaining keys keep their order and every other entry is kept. */
  function ClearKey(st: State, key: string): (r: State)
    ensures key !in r.keyValues && key !in r.inputTypes && key !in r.keys
    ensures forall k :: k != key ==> (k in r.keyValues <==> k in st.keyValues)
    ensures forall k :: k != key ==> (k in r.inputTypes <==> k in st.inputTypes)
    ensures forall k :: k in r.keyValues ==> r.keyValues[k] == st.keyValues[k]
    ensures forall k :: k in r.inputTypes ==> r.inputTypes[k] == st.inputTypes[k]
    ensures forall k :: k in r.keys <==> k in st.keys && k != key
    ensures Subseq(r.keys, st.keys)
    ensures r.expression == st.expression && r.loading == st.loading
    ensures r.searchTerm == st.searchTerm
  {
    st.(keyValues := st.keyValues - {key},
        inputTypes := st.inputTypes - {key},
        keys := Filter(st.keys, k => k != key))
  }

  /** Editing the value of a text-kind key keeps the invariant. The form
      only offers a value input for keys of kind text. */
  lemma SetKeyValuePreservesValid(st: State, key: string, value: string)
    requires Valid(st)
    requires !(key in st.inputTypes && st.inputTypes[key] == Null)
    ensures Valid(SetKeyValue(st, key, value))
  {
  }

  /** Choosing a kind keeps the invariant. */
  lemma SetInputTypePreservesValid(st: State, key: string, t: InputType)
    requires Valid(st)
    ensures Valid(SetInputType(st, key, t))
  {
  }

  /** Clearing a key keeps the invariant. */
  lemma ClearKeyPreservesValid(st: State, key: string)
    requires Valid(st)
    ensures Valid(ClearKey(st, key))
  {
    FilterNoDup(st.keys, k => k != key);
  }

  /** Every state the handlers can reach from the initial one is valid. */
  datatype Event =
    | Edit(text: string)
    | SetValue(key: string, value: string)
    | SetKind(key: string, kind: InputType)
    | Clear(key: string)

  /** The effect of one event; a value edit only happens for keys of kind
      text, the only ones that show a value input. */
  function Step(st: State, ev: Event): State {
    match ev
    case Edit(text) => ExpressionChange(st, text)
    case SetValue(key, value) =>
      if key in st.inputTypes && st.inputTypes[key] == Text then SetKeyValue(st, key, value) else st
    case SetKind(key, kind) => SetInputType(st, key, kind)
    case Clear(key) => ClearKey(st, key)
  }

  /** Runs a sequence of events from `st`. */
  function Run(st: State, evs: seq<Event>): State
    decreases |evs|
  {
    if |evs| == 0 then st else Run(Step(st, evs[0]), evs[1..])
  }

  /** The invariant holds after any sequence of events from the initial state. */
  lemma {:induction false} RunPreservesValid(st: State, evs: seq<Event>)
    requires Valid(st)
    ensures Valid(Run(st, evs))
    decreases |evs|
  {
    if |evs| > 0 {
      var ev := evs[0];
      match ev {
        case Edit(text) =>
        case SetValue(key, value) =>
          if key in st.inputTypes && st.inputTypes[key] == Text {
            SetKeyValuePreservesValid(st, key, value);
          }
        case SetKind(key, kind) => SetInputTypePreservesValid(st, key, kind);
        case Clear(key) => ClearKeyPreservesValid(st, key);
      }
      RunPreservesValid(Step(st, ev), evs[1..]);
    }
  }

  /** Re-parsing an unchanged expression changes nothing. */
  lemma ExpressionChangeIdempotent(st: State, e: string)
    ensures ExpressionChange(ExpressionChange(st, e), e) == ExpressionChange(st, e)
  {
    var ks := KeyScan.ExtractKeys(e);
    var r1 := ExpressionChange(st, e);
    assert r1.keyValues == AddMissing(st.keyValues, ks, "");
    assert r1.inputTypes == AddMissing(st.inputTypes, ks, Text);
    AddMissingIdempotent(st.keyValues, ks, "");
    AddMissingIdempotent(st.inputTypes, ks, Text);
  }

  /** Filling in the same keys twice adds nothing the first pass did not. */
  lemma AddMissingIdempotent<V>(m: map<string, V>, ks: seq<string>, d: V)
    ensures AddMissing(AddMissing(m, ks, d), ks, d) == AddMissing(m, ks, d)
  {
    var a := AddMissing(m, ks, d);
    assert AddMissing(a, ks, d).Keys == a.Keys;
  }

  /** Switching a key to null and back to text is the same as choosing text
      directly: the earlier value is gone and the value is empty. */
  lemma NullThenTextResets(st: State, key: string)
    ensures SetInputType(SetInputType(st, key, Null), key, Text) == SetInputType(st, key, Text)
  {
    assert st.inputTypes[key := Null][key := Text] == st.inputTypes[key := Text];
    assert st.keyValues[key := "null"][key := ""] == st.keyValues[key := ""];
  }

  /** Choosing the same kind twice is the same as choosing it once. */
  lemma SetInputTypeIdempotent(st: State, key: string, t: InputType)
    ensures SetInputType(SetInputType(st, key, t), key, t) == SetInputType(st, key, t)
  {
    var v := if t == Null then "null" else "";
    assert st.inputTypes[key := t][key := t] == st.inputTypes[key := t];
    assert st.keyValues[key := v][key := v] == st.keyValues[key := v];
  }

  /** A cleared key that the expression still references comes back on the
      next parse, bound afresh to the empty text with kind text. */
  lemma ClearThenReparse(st: State, key: string)
    requires key in KeyScan.ExtractKeys(st.expression)
    ensures var r := ExpressionChange(ClearKey(st, key), st.expression);
      && key in r.keys
      && key in r.keyValues && r.keyValues[key] == ""
      && key in r.inputTypes && r.inputTypes[key] == Text
  {
  }

  /** Editing `get('a')`, with `a` bound to `1`, into `get('b')` lists only
      `b`, binds `b` to the empty text and keeps the binding of `a`. */
  lemma StaleBindingKeptExample()
    ensures var st := State("get('a')", ["a"], map["a" := "1"], map["a" := Text], false, "");
      var r := ExpressionChange(st, "get('b')");
      && r.keys == ["b"]
      && r.keyValues == map["a" := "1", "b" := ""]
      && r.inputTypes == map["a" := Text, "b" := Text]
  {
    KeysOfGetB();
    var st := State("get('a')", ["a"], map["a" := "1"], map["a" := Text], false, "");
    var r := ExpressionChange(st, "get('b')");
    assert r.keyValues == AddMissing(map["a" := "1"], ["b"], "");
    assert r.inputTypes == AddMissing(map["a" := Text], ["b"], Text);
    assert r.keyValues.Keys == {"a", "b"};
    assert r.inputTypes.Keys == {"a", "b"};
  }

  /** The expression `get('b')` references the key `b` only. */
  lemma KeysOfGetB()
    ensures KeyScan.ExtractKeys("get('b')") == ["b"]
  {
    KeyScan.SingleAccessor('\'', "b", '\'');
    assert "get('b')" == "get(" + ['\''] + "b" + ['\'', ')'];
  }

}
