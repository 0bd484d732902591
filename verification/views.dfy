/** Values the `App` component derives from its state: the `keys` object of
    the evaluation request, the search filter over the key list and the
    condition that disables the submit button (src/App.tsx). */
module Views {

  import opened Wrappers
  import opened Seqs
  import opened JsStrings
  import opened AppState
  import KeyScan

  /** The `keys` object sent to the evaluation service: one entry per stored
      value, JSON `null` (`None`) for a key of kind null and the stored text
      otherwise. */
  function Payload(st: State): (r: map<string, Option<string>>)
    ensures r.Keys == st.keyValues.Keys
    ensures forall k :: k in r ==> (r[k] == None <==> k in st.inputTypes && st.inputTypes[k] == Null)
    ensures forall k :: k in r && r[k].Some? ==> r[k].value == st.keyValues[k]
  {
    map k | k in st.keyValues :: if k in st.inputTypes && st.inputTypes[k] == Null then None else Some(st.keyValues[k])
  }

  /** In a valid state every listed key is sent, and a key sent as `null`
      stores the text `null`. */
  lemma PayloadCoversKeys(st: State)
    requires Valid(st)
    ensures forall k :: k in st.keys ==> k in Payload(st)
    ensures forall k :: k in Payload(st) && Payload(st)[k] == None ==> st.keyValues[k] == "null"
  {
  }

  /** A binding whose key the new expression no longer references is still
      sent, unchanged. */
  lemma StaleBindingStillSent(st: State, e: string, k: string)
    requires k in st.keyValues
    ensures k in Payload(ExpressionChange(st, e))
    ensures Payload(ExpressionChange(st, e))[k] == Payload(st)[k]
  {
  }

  /** After a parse the request carries exactly the old bindings plus the
      new keys, the new keys as empty text. */
  lemma PayloadAfterParse(st: State, e: string)
    ensures var p := Payload(ExpressionChange(st, e));
      && (forall k :: k in p <==> k in st.keyValues || k in KeyScan.ExtractKeys(e))
      && (forall k :: k in p && k !in st.keyValues && k !in st.inputTypes ==> p[k] == Some(""))
  {
  }

  /** Choosing a kind decides how the key is sent; other keys are sent as before. */
  lemma PayloadAfterSetInputType(st: State, key: string, t: InputType)
    ensures var p := Payload(SetInputType(st, key, t));
      && key in p && p[key] == (if t == Null then None else Some(""))
      && (forall k :: k != key ==> (k in p <==> k in Payload(st)))
      && (forall k :: k != key && k in p ==> p[k] == Payload(st)[k])
  {
  }

  /** A value edit on a text-kind key is sent as typed. */
  lemma PayloadAfterSetKeyValue(st: State, key: string, value: string)
    requires key in st.inputTypes && st.inputTypes[key] == Text
    ensures var p := Payload(SetKeyValue(st, key, value));
      && key in p && p[key] == Some(value)
      && (forall k :: k != key ==> (k in p <==> k in Payload(st)))
      && (forall k :: k != key && k in p ==> p[k] == Payload(st)[k])
  {
  }

  /** A cleared key is no longer sent; other keys are sent as before. */
  lemma PayloadAfterClearKey(st: State, key: string)
    ensures var p := Payload(ClearKey(st, key));
      && key !in p
      && (forall k :: k != key ==> (k in p <==> k in Payload(st)))
      && (forall k :: k in p ==> p[k] == Payload(st)[k])
  {
  }

  /** The search filter: `key.toLowerCase().includes(term.toLowerCase())`. */
  predicate MatchesSearch(key: string, term: string) {
    Includes(AsciiLower(key), AsciiLower(term))
  }

  /** `filteredKeys`: the listed keys that contain the search term, ignoring
      ASCII case, in list order; an empty term keeps every key. */
  function FilteredKeys(keys: seq<string>, term: string): (r: seq<string>)
    ensures forall k :: k in r <==> k in keys && MatchesSearch(k, term)
    ensures Subseq(r, keys)
    ensures |term| == 0 ==> r == keys
    ensures forall k :: multiset(r)[k] == if MatchesSearch(k, term) then multiset(keys)[k] else 0
  {
    var r := Filter(keys, k => MatchesSearch(k, term));
    assert |term| == 0 ==> r == keys by {
      if |term| == 0 {
        assert forall k :: OccursAt(AsciiLower(k), AsciiLower(term), 0);
        FilterKeepsAll(keys, k => MatchesSearch(k, term));
      }
    }
    r
  }

  /** The `disabled` condition of the submit button. */
  function SubmitDisabled(st: State): (b: bool)
    ensures b <==> st.loading || |st.keys| == 0 || AllWhitespace(st.expression)
  {
    st.loading || |st.keys| == 0 || |Trim(st.expression)| == 0
  }

  /** Submission is possible exactly when nothing is pending, some key is
      listed and the expression has a non-whitespace character. */
  lemma SubmitEnabledIff(st: State)
    ensures !SubmitDisabled(st) <==>
      && !st.loading && |st.keys| > 0
      && exists i :: 0 <= i < |st.expression| && !IsJsWhitespace(st.expression[i])
  {
  }

}
