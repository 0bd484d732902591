/** The binding merge of `parseExpression` exactly as src/App.tsx writes it.
    `!newKeyValues[key]` reads a plain JavaScript object, so the lookup also
    sees the properties every object inherits from `Object.prototype`: for a
    key named like one of them the lookup yields a function (truthy) and no
    binding is created. The lookup is also true for an own empty-text value,
    which is then overwritten with the same empty text.

    `AppState.ParseExpression` is the corrected merge, which reads own entries
    only; everything else in the model uses it. */
module PrototypeLookup {

  import opened AppState
  import KeyScan

  /** Property names every object literal inherits from `Object.prototype`. */
  const InheritedNames: set<string> := {
    "constructor", "hasOwnProperty", "isPrototypeOf", "propertyIsEnumerable",
    "toLocaleString", "toString", "valueOf",
    "__defineGetter__", "__defineSetter__", "__lookupGetter__", "__lookupSetter__",
    "__proto__"
  }

  /** `!m[key]` on an object literal whose own falsy values are `falsy`. */
  predicate LooksMissing<V(==)>(m: map<string, V>, key: string, falsy: set<V>) {
    if key in m then m[key] in falsy else key !in InheritedNames
  }

  /** `keys.forEach(key => { if (!m[key]) m[key] = d })` as written. */
  function AddMissingAsWritten<V(==)>(m: map<string, V>, ks: seq<string>, d: V, falsy: set<V>): (r: map<string, V>)
    ensures forall k :: k in r <==> k in m || (k in ks && k !in InheritedNames)
    ensures forall k :: k in m && (m[k] !in falsy || k !in ks) ==> r[k] == m[k]
    ensures forall k :: k in r && k in ks && (k !in m || m[k] in falsy) ==> r[k] == d
    decreases |ks|
  {
    if |ks| == 0 then m
    else
      var m' := if LooksMissing(m, ks[0], falsy) then m[ks[0] := d] else m;
      assert forall k :: k in ks <==> k == ks[0] || k in ks[1..];
      AddMissingAsWritten(m', ks[1..], d, falsy)
  }

  /** `parseExpression(expr)` as written: the empty text is the only falsy
      value, and both kinds (`'text'`, `'null'`) are truthy strings. */
  function ParseExpressionAsWritten(st: State, expr: string): (r: State)
    ensures r.keys == KeyScan.ExtractKeys(expr)
    ensures forall k :: k in r.keyValues <==> k in st.keyValues || (k in r.keys && k !in InheritedNames)
    ensures forall k :: k in r.inputTypes <==> k in st.inputTypes || (k in r.keys && k !in InheritedNames)
    ensures forall k :: k in st.keyValues ==> r.keyValues[k] == st.keyValues[k]
    ensures forall k :: k in st.inputTypes ==> r.inputTypes[k] == st.inputTypes[k]
    ensures forall k :: k in r.keyValues && k !in st.keyValues ==> r.keyValues[k] == ""
    ensures forall k :: k in r.inputTypes && k !in st.inputTypes ==> r.inputTypes[k] == Text
    ensures r.expression == st.expression && r.loading == st.loading
    ensures r.searchTerm == st.searchTerm
  {
    var ks := KeyScan.ExtractKeys(expr);
    st.(keys := ks,
        keyValues := AddMissingAsWritten(st.keyValues, ks, "", {""}),
        inputTypes := AddMissingAsWritten(st.inputTypes, ks, Text, {}))
  }

  /** A referenced key named like an inherited property, and not yet bound,
      is listed but gets neither a value nor a kind. */
  lemma InheritedKeyLeftUnbound(st: State, expr: string, k: string)
    requires k in KeyScan.ExtractKeys(expr) && k in InheritedNames
    requires k !in st.keyValues && k !in st.inputTypes
    ensures var r := ParseExpressionAsWritten(st, expr);
      k in r.keys && k !in r.keyValues && k !in r.inputTypes && !Bound(r)
  {
  }

  /** The counterexample: typing `get('constructor')` into the empty form
      lists the key `constructor` without binding it, so it is never sent. */
  lemma ConstructorKeyUnbound()
    ensures var r := ParseExpressionAsWritten(Initial(), "get('constructor')");
      r.keys == ["constructor"] && "constructor" !in r.keyValues && !Bound(r)
  {
    var k := "constructor";
    assert KeyScan.PlainKey(k);
    KeyScan.SingleAccessor('\'', k, '\'');
    assert "get('constructor')" == "get(" + ['\''] + k + ['\'', ')'];
    InheritedKeyLeftUnbound(Initial(), "get('constructor')", k);
  }

  /** On keys that are not inherited names, a merge whose only falsy value
      is the default itself adds the same entries as the corrected merge. */
  lemma AddMissingAgrees<V>(m: map<string, V>, ks: seq<string>, d: V, falsy: set<V>)
    requires falsy <= {d}
    requires forall k :: k in ks ==> k !in InheritedNames
    ensures AddMissingAsWritten(m, ks, d, falsy) == AddMissing(m, ks, d)
  {
    var a := AddMissingAsWritten(m, ks, d, falsy);
    var b := AddMissing(m, ks, d);
    assert a.Keys == b.Keys;
    forall k | k in a ensures a[k] == b[k] {
      if k in m && m[k] in falsy {
        assert m[k] == d;
      }
    }
  }

  /** Away from inherited names the code as written and the corrected merge
      agree. */
  lemma AsWrittenAgreesOffInheritedNames(st: State, expr: string)
    requires forall k :: k in KeyScan.ExtractKeys(expr) ==> k !in InheritedNames
    ensures ParseExpressionAsWritten(st, expr) == ParseExpression(st, expr)
  {
    var ks := KeyScan.ExtractKeys(expr);
    AddMissingAgrees(st.keyValues, ks, "", {""});
    AddMissingAgrees(st.inputTypes, ks, Text, {});
  }

}
