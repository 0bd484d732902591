/** Key extraction of `parseExpression` (src/App.tsx): the global regular
    expression `get\(['"](.*?)['"]\)` scanned over the expression, each match
    rewritten by `replace(/get\(['"](.*)['"].*\/, '$1')`, and the results
    de-duplicated in first-occurrence order.

    The scan is written out as a character scanner. A match starts at `p`
    when `get(` and a quote start there; the lazy `(.*?)` then stops at the
    FIRST later quote that is followed by `)`, provided no line terminator
    comes before it (a `.` refuses line terminators). After a match the scan
    resumes behind the `)`; when there is none at `p` it moves to `p + 1`. */
module KeyScan {

  import opened Wrappers
  import opened Seqs
  import opened JsStrings

  /** The character class `['"]`. */
  predicate IsQuote(c: char) {
    c == '\'' || c == '"'
  }

  /** `get(` followed by a quote starts at index `p`. */
  predicate OpensAccessor(s: string, p: nat) {
    && p + 5 <= |s|
    && s[p] == 'g' && s[p + 1] == 'e' && s[p + 2] == 't' && s[p + 3] == '('
    && IsQuote(s[p + 4])
  }

  /** A quote followed by `)` starts at index `j`. */
  predicate ClosesAt(s: string, j: nat) {
    j + 1 < |s| && IsQuote(s[j]) && s[j + 1] == ')'
  }

  /** The closing pair at `j` can be reached from `i` by `.` steps. */
  ghost predicate Reaches(s: string, i: nat, j: nat) {
    && i <= j && ClosesAt(s, j)
    && forall k :: i <= k < j ==> !IsLineTerminator(s[k])
  }

  /** `j` is where the lazy `(.*?)` started at `i` stops: the first
      reachable closing pair. */
  ghost predicate FirstClose(s: string, i: nat, j: nat) {
    Reaches(s, i, j) && forall k :: i <= k < j ==> !ClosesAt(s, k)
  }

  /** The regular expression matches at `p`, and its closing quote is at `j`. */
  ghost predicate IsMatch(s: string, p: nat, j: nat) {
    OpensAccessor(s, p) && FirstClose(s, p + 5, j)
  }

  /** `s[p..j + 2]` has the accessor shape: `get(`, a quote, a run without
      line terminators, a quote and `)`; it need not be the lazy match. */
  ghost predicate IsAccessorShape(s: string, p: nat, j: nat) {
    OpensAccessor(s, p) && Reaches(s, p + 5, j)
  }

  /** No match of the regular expression starts in `lo..hi`. */
  ghost predicate NoMatchIn(s: string, lo: nat, hi: nat) {
    forall q, j :: lo <= q < hi ==> !IsMatch(s, q, j)
  }

  /** The lazy `(.*?)['"]\)` tail, tried from index `i`. */
  function FindClose(s: string, i: nat): (r: Option<nat>)
    requires i <= |s|
    ensures r.Some? ==> FirstClose(s, i, r.value)
    ensures r.None? ==> forall j :: !Reaches(s, i, j)
    decreases |s| - i
  {
    if i == |s| then None
    else if ClosesAt(s, i) then Some(i)
    else if IsLineTerminator(s[i]) then None
    else
      assert forall j :: Reaches(s, i, j) ==> Reaches(s, i + 1, j);
      FindClose(s, i + 1)
  }

  /** The match attempt at one start index. */
  function MatchAt(s: string, p: nat): (r: Option<nat>)
    requires p <= |s|
    ensures r.Some? ==> IsMatch(s, p, r.value)
    ensures r.None? ==> forall j :: !IsAccessorShape(s, p, j)
  {
    if OpensAccessor(s, p) then FindClose(s, p + 5) else None
  }

  /** One match: `get(` starts at `start`, the closing quote is at `close`. */
  datatype Match = Match(start: nat, close: nat)

  /** `r` is what a global search for the pattern finds from index `p` on:
      nothing, when no match starts at or after `p`; otherwise the first
      match that starts at or after `p`, followed by what the search finds
      from behind that match's `)`. */
  ghost predicate ScannedFrom(s: string, p: nat, r: seq<Match>)
    decreases |r|
  {
    if |r| == 0 then NoMatchIn(s, p, |s|)
    else
      && p <= r[0].start
      && NoMatchIn(s, p, r[0].start)
      && IsMatch(s, r[0].start, r[0].close)
      && ScannedFrom(s, r[0].close + 2, r[1..])
  }

  /** A match at `p` followed by the search from behind its `)`. */
  lemma ScannedFromMatch(s: string, p: nat, j: nat, rest: seq<Match>)
    requires IsMatch(s, p, j) && ScannedFrom(s, j + 2, rest)
    ensures ScannedFrom(s, p, [Match(p, j)] + rest)
  {
    assert ([Match(p, j)] + rest)[1..] == rest;
  }

  /** No match at `p`: the search from `p` is the search from `p + 1`. */
  lemma ScannedFromSkip(s: string, p: nat, r: seq<Match>)
    requires forall j :: !IsMatch(s, p, j)
    requires ScannedFrom(s, p + 1, r)
    ensures ScannedFrom(s, p, r)
  {
  }

  /** `expr.match(/get\(['"](.*?)['"]\)/g)` from index `p` on. */
  function ScanFrom(s: string, p: nat): (r: seq<Match>)
    requires p <= |s|
    ensures ScannedFrom(s, p, r)
    decreases |s| - p
  {
    if p == |s| then []
    else
      match MatchAt(s, p)
      case Some(j) =>
        var rest := ScanFrom(s, j + 2);
        ScannedFromMatch(s, p, j, rest);
        [Match(p, j)] + rest
      case None =>
        var r := ScanFrom(s, p + 1);
        ScannedFromSkip(s, p, r);
        r
  }

  /** No match starts between the `)` of `r[i]` and the next entry of `r`
      (or the end of the text). */
  ghost predicate GapClear(s: string, r: seq<Match>, i: nat)
    requires i < |r|
  {
    NoMatchIn(s, r[i].close + 2, if i + 1 < |r| then r[i + 1].start else |s|)
  }

  /** What the search description says about its `i`-th entry: a match at
      or after `p`, the next entry behind its `)`, and no match skipped in
      between. */
  lemma {:induction false} ScannedAt(s: string, p: nat, r: seq<Match>, i: nat)
    requires ScannedFrom(s, p, r) && i < |r|
    ensures p <= r[i].start && IsMatch(s, r[i].start, r[i].close)
    ensures i + 1 < |r| ==> r[i].close + 2 <= r[i + 1].start
    ensures GapClear(s, r, i)
    decreases i
  {
    var t := r[1..];
    if i == 0 {
      if |r| > 1 {
        assert t[0] == r[1];
      }
    } else {
      ScannedAt(s, r[0].close + 2, t, i - 1);
      assert t[i - 1] == r[i];
      if i + 1 < |r| {
        assert t[i] == r[i + 1];
      }
    }
  }

  /** The description fixes the search result: two lists that both satisfy
      it from the same index are equal. */
  lemma {:induction false} ScannedFromUnique(s: string, p: nat, r1: seq<Match>, r2: seq<Match>)
    requires ScannedFrom(s, p, r1) && ScannedFrom(s, p, r2)
    ensures r1 == r2
    decreases |r1|
  {
    if |r1| == 0 || |r2| == 0 {
      if |r1| != |r2| {
        assert false;
      }
    } else {
      var m1, m2 := r1[0], r2[0];
      if m1.start < m2.start {
        assert false;
      } else if m2.start < m1.start {
        assert false;
      }
      FirstCloseUnique(s, m1.start + 5, m1.close, m2.close);
      ScannedFromUnique(s, m1.close + 2, r1[1..], r2[1..]);
      SameHeadSameTail(r1, r2);
    }
  }

  /** Sequences agreeing on their first element and on the rest are equal. */
  lemma SameHeadSameTail<T>(a: seq<T>, b: seq<T>)
    requires |a| > 0 && |b| > 0 && a[0] == b[0] && a[1..] == b[1..]
    ensures a == b
  {
    assert a == [a[0]] + a[1..] && b == [b[0]] + b[1..];
  }

  /** Any list that satisfies the description of the global search is the
      scanner's result. */
  lemma ScanFromIsTheSearch(s: string, p: nat, r: seq<Match>)
    requires p <= |s| && ScannedFrom(s, p, r)
    ensures r == ScanFrom(s, p)
  {
    ScannedFromUnique(s, p, r, ScanFrom(s, p));
  }

  /** Every entry of a search result is a match. */
  lemma ScannedAreMatches(s: string, p: nat, r: seq<Match>)
    requires ScannedFrom(s, p, r)
    ensures forall i :: 0 <= i < |r| ==> IsMatch(s, r[i].start, r[i].close)
  {
    forall i | 0 <= i < |r|
      ensures IsMatch(s, r[i].start, r[i].close)
    {
      ScannedAt(s, p, r, i);
    }
  }

  /** All matches in the expression. */
  function Matches(s: string): (r: seq<Match>)
    ensures ScannedFrom(s, 0, r)
    ensures forall i :: 0 <= i < |r| ==> IsMatch(s, r[i].start, r[i].close)
  {
    var r := ScanFrom(s, 0);
    ScannedAreMatches(s, 0, r);
    r
  }

  /** The text a match covers, `get(` through `)`. */
  function MatchText(s: string, m: Match): string
    requires m.start <= m.close + 2 <= |s|
  {
    s[m.start..m.close + 2]
  }

  /** The text between the quotes of a match. */
  function KeyOf(s: string, m: Match): string
    requires m.start + 5 <= m.close <= |s|
  {
    s[m.start + 5..m.close]
  }

  /** Greatest index in `lo..hi` holding a quote. */
  function LastQuote(t: string, lo: nat, hi: nat): (r: Option<nat>)
    requires hi <= |t|
    ensures r.Some? ==> lo <= r.value < hi && IsQuote(t[r.value])
    ensures r.Some? ==> forall k :: r.value < k < hi ==> !IsQuote(t[k])
    ensures r.None? ==> forall k :: lo <= k < hi ==> !IsQuote(t[k])
    decreases hi
  {
    if hi <= lo then None
    else if IsQuote(t[hi - 1]) then Some(hi - 1)
    else LastQuote(t, lo, hi - 1)
  }

  /** `t.replace(/get\(['"](.*)['"].*\/, '$1')` for a text that starts with
      `get(` and a quote and holds no line terminator. The pattern can then
      only match at 0; the greedy `(.*)` runs to the end and backs off to the
      last quote, and the trailing `.*` takes the rest, so the whole text is
      replaced by what lies between the opening and the last quote. Without a
      later quote nothing matches and the text is returned unchanged. */
  function StripMatch(t: string): (r: string)
    requires OpensAccessor(t, 0)
    requires forall i :: 0 <= i < |t| ==> !IsLineTerminator(t[i])
    ensures (forall k :: 5 <= k < |t| ==> !IsQuote(t[k])) ==> r == t
    ensures (exists k :: 5 <= k < |t| && IsQuote(t[k])) ==>
              && 5 + |r| < |t|
              && r == t[5..5 + |r|]
              && IsQuote(t[5 + |r|])
              && (forall k :: 5 + |r| < k < |t| ==> !IsQuote(t[k]))
  {
    match LastQuote(t, 5, |t|)
    case Some(q) => t[5..q]
    case None => t
  }

  /** The rewrite recovers exactly the text between the quotes: the last
      quote of a match text is its closing quote. */
  lemma StripRecoversKey(s: string, m: Match)
    requires IsMatch(s, m.start, m.close)
    ensures OpensAccessor(MatchText(s, m), 0)
    ensures forall i :: 0 <= i < |MatchText(s, m)| ==> !IsLineTerminator(MatchText(s, m)[i])
    ensures StripMatch(MatchText(s, m)) == KeyOf(s, m)
  {
    var t := MatchText(s, m);
    assert forall i :: 0 <= i < |t| ==> t[i] == s[m.start + i];
    assert LastQuote(t, 5, |t|) == Some(|t| - 2);
  }

  /** `matches.map(match => match.replace(...))`. */
  function KeysOf(s: string, ms: seq<Match>): (r: seq<string>)
    requires forall i :: 0 <= i < |ms| ==> IsMatch(s, ms[i].start, ms[i].close)
    ensures |r| == |ms|
  {
    if |ms| == 0 then []
    else
      assert forall i :: 0 <= i < |ms[1..]| ==> IsMatch(s, ms[1..][i].start, ms[1..][i].close);
      StripRecoversKey(s, ms[0]);
      [StripMatch(MatchText(s, ms[0]))] + KeysOf(s, ms[1..])
  }

  /** Each rewritten match is the text between its quotes. */
  lemma {:induction false} KeysOfAreInnerTexts(s: string, ms: seq<Match>)
    requires forall i :: 0 <= i < |ms| ==> IsMatch(s, ms[i].start, ms[i].close)
    ensures forall i :: 0 <= i < |ms| ==> KeysOf(s, ms)[i] == KeyOf(s, ms[i])
  {
    if |ms| > 0 {
      StripRecoversKey(s, ms[0]);
      KeysOfAreInnerTexts(s, ms[1..]);
      var r := KeysOf(s, ms);
      assert forall i :: 1 <= i < |ms| ==> r[i] == KeysOf(s, ms[1..])[i - 1];
    }
  }

  /** The keys of all matches, duplicates included. */
  function RawKeys(s: string): seq<string> {
    KeysOf(s, Matches(s))
  }

  /** A key as the pattern can capture it: no line terminator, and no quote
      immediately followed by `)`. */
  predicate PlainKey(k: string) {
    && (forall i :: 0 <= i < |k| ==> !IsLineTerminator(k[i]))
    && (forall i :: 0 <= i < |k| - 1 ==> !(IsQuote(k[i]) && k[i + 1] == ')'))
  }

  /** `[...new Set(extractedKeys)]`: the keys of the expression. */
  function ExtractKeys(s: string): (r: seq<string>)
    ensures NoDup(r)
    ensures forall k :: k in r <==> k in RawKeys(s)
  {
    Dedup(RawKeys(s))
  }

  /** `get(`, a quote, `k`, a quote and `)` start at index `p`. */
  ghost predicate AccessorAround(s: string, p: nat, k: string) {
    && OpensAccessor(s, p)
    && p + 5 + |k| + 2 <= |s|
    && s[p + 5..p + 5 + |k|] == k
    && ClosesAt(s, p + 5 + |k|)
  }

  /** The lazy tail stops at one place only. */
  lemma FirstCloseUnique(s: string, i: nat, j1: nat, j2: nat)
    requires FirstClose(s, i, j1) && FirstClose(s, i, j2)
    ensures j1 == j2
  {
  }

  /** The key of a match is capturable and sits between the quotes. */
  lemma MatchKeyIsPlain(s: string, p: nat, j: nat)
    requires IsMatch(s, p, j)
    ensures PlainKey(s[p + 5..j])
    ensures AccessorAround(s, p, s[p + 5..j])
  {
    var k := s[p + 5..j];
    forall i | 0 <= i < |k| - 1 ensures !(IsQuote(k[i]) && k[i + 1] == ')') {
      assert k[i] == s[p + 5 + i] && k[i + 1] == s[p + 5 + i + 1];
      assert !ClosesAt(s, p + 5 + i);
    }
  }

  /** Every extracted key is quoted inside some `get(...)` of the expression,
      and has the form the pattern can capture. */
  lemma ExtractedKeyOccurs(s: string, k: string)
    requires k in ExtractKeys(s)
    ensures PlainKey(k)
    ensures exists p: nat :: AccessorAround(s, p, k)
  {
    var ms := Matches(s);
    KeysOfAreInnerTexts(s, ms);
    var raw := RawKeys(s);
    var n :| 0 <= n < |raw| && raw[n] == k;
    var m := ms[n];
    assert IsMatch(s, m.start, m.close);
    assert KeyOf(s, m) == k;
    MatchKeyIsPlain(s, m.start, m.close);
    assert AccessorAround(s, m.start, k);
  }

  /** With no accessor-shaped text the key list is empty, and conversely. */
  lemma NoKeysIffNoAccessor(s: string)
    ensures ExtractKeys(s) == [] <==> forall p, j :: !IsAccessorShape(s, p, j)
  {
    var ms := Matches(s);
    KeysOfAreInnerTexts(s, ms);
    if ExtractKeys(s) == [] {
      assert forall x :: x !in RawKeys(s);
      assert |ms| == 0;
      forall p, j ensures !IsAccessorShape(s, p, j) {
        if IsAccessorShape(s, p, j) {
          var c := MatchAt(s, p);
          assert false;
        }
      }
    } else {
      assert |ms| > 0;
      assert IsAccessorShape(s, ms[0].start, ms[0].close);
    }
  }

  /** A lone accessor with a capturable key yields exactly that key; in
      particular `get('')` yields the empty key. */
  lemma SingleAccessor(open: char, k: string, close: char)
    requires IsQuote(open) && IsQuote(close) && PlainKey(k)
    ensures ExtractKeys("get(" + [open] + k + [close, ')']) == [k]
  {
    var s := "get(" + [open] + k + [close, ')'];
    var j := 5 + |k|;
    assert |s| == j + 2;
    assert forall i :: 0 <= i < |k| ==> s[5 + i] == k[i];
    assert s[j] == close && s[j + 1] == ')';
    assert OpensAccessor(s, 0);
    assert forall m :: 5 <= m < j ==> !ClosesAt(s, m) by {
      forall m | 5 <= m < j ensures !ClosesAt(s, m) {
        if m + 1 < j {
          assert s[m + 1] == k[m - 4];
        }
      }
    }
    assert FirstClose(s, 5, j);
    var c := FindClose(s, 5);
    FirstCloseUnique(s, 5, c.value, j);
    assert ScanFrom(s, j + 2) == [];
    var ms := Matches(s);
    assert ms == [Match(0, j)];
    KeysOfAreInnerTexts(s, ms);
    assert KeyOf(s, ms[0]) == k;
    assert RawKeys(s) == [k];
    var r := ExtractKeys(s);
    assert k in r;
    assert |r| <= 1;
    assert r == [k] by {
      assert r[0] == k;
    }
  }

  /** Walks the match list from index `i` to the match starting at `q`. */
  lemma LocateMatch(s: string, ms: seq<Match>, q: nat, j: nat, i: nat) returns (n: nat)
    requires ms == Matches(s)
    requires IsMatch(s, q, j)
    requires forall n :: 0 <= n < |ms| ==> !(ms[n].start < q < ms[n].close + 2)
    requires i < |ms| && ms[i].start <= q
    ensures n < |ms| && ms[n] == Match(q, j)
    decreases |ms| - i
  {
    ScannedAt(s, 0, ms, i);
    if ms[i].start == q {
      FirstCloseUnique(s, q + 5, ms[i].close, j);
      n := i;
    } else if i + 1 < |ms| && ms[i + 1].start <= q {
      n := LocateMatch(s, ms, q, j, i + 1);
    } else {
      assert false;
    }
  }

  /** Every lazy match that does not start inside an earlier match is found
      by the scan, so its key is extracted. */
  lemma UnoverlappedAccessorYieldsKey(s: string, q: nat, j: nat)
    requires IsMatch(s, q, j)
    requires forall n :: 0 <= n < |Matches(s)| ==>
               !(Matches(s)[n].start < q < Matches(s)[n].close + 2)
    ensures s[q + 5..j] in ExtractKeys(s)
  {
    var ms := Matches(s);
    FirstMatchNoLater(s, q, j);
    var n := LocateMatch(s, ms, q, j, 0);
    KeysOfAreInnerTexts(s, ms);
    var raw := RawKeys(s);
    assert raw[n] == KeyOf(s, Match(q, j));
    assert s[q + 5..j] in raw;
  }

  /** A lazy match anywhere means the scan finds one no later. */
  lemma FirstMatchNoLater(s: string, q: nat, j: nat)
    requires IsMatch(s, q, j)
    ensures |Matches(s)| > 0 && Matches(s)[0].start <= q
  {
    var ms := Matches(s);
  }

  /** The keys appear in the order of their first occurrence among the
      matches. */
  lemma ExtractKeysFirstOccurrenceOrder(s: string)
    ensures forall i, j :: 0 <= i < j < |ExtractKeys(s)| ==>
              FirstIndex(RawKeys(s), ExtractKeys(s)[i]) < FirstIndex(RawKeys(s), ExtractKeys(s)[j])
  {
    DedupFirstOccurrenceOrder(RawKeys(s));
  }

  /** `get('')` references the empty key. */
  lemma EmptyKeyAccessor()
    ensures ExtractKeys("get('')") == [""]
  {
    SingleAccessor('\'', "", '\'');
    assert "get('')" == "get(" + ['\''] + "" + ['\'', ')'];
  }

  /** The last match of `get('a')+get('b')+get('a')`. */
  lemma RepeatedKeyTail(s: string)
    requires s == "get('a')+get('b')+get('a')"
    ensures ScanFrom(s, 17) == [Match(18, 24)]
  {
    assert FindClose(s, 24) == Some(24);
    assert MatchAt(s, 18) == Some(24);
    assert ScanFrom(s, 26) == [];
  }

  /** The last two matches of `get('a')+get('b')+get('a')`. */
  lemma RepeatedKeyMiddle(s: string)
    requires s == "get('a')+get('b')+get('a')"
    ensures ScanFrom(s, 8) == [Match(9, 15), Match(18, 24)]
  {
    RepeatedKeyTail(s);
    assert FindClose(s, 15) == Some(15);
    assert MatchAt(s, 9) == Some(15);
    assert ScanFrom(s, 9) == [Match(9, 15), Match(18, 24)];
  }

  /** The three matches of `get('a')+get('b')+get('a')`. */
  lemma RepeatedKeyMatches(s: string)
    requires s == "get('a')+get('b')+get('a')"
    ensures Matches(s) == [Match(0, 6), Match(9, 15), Match(18, 24)]
  {
    RepeatedKeyMiddle(s);
    assert FindClose(s, 6) == Some(6);
    assert MatchAt(s, 0) == Some(6);
  }

  /** The raw keys of `get('a')+get('b')+get('a')`. */
  lemma RepeatedKeyRaw(s: string)
    requires s == "get('a')+get('b')+get('a')"
    ensures RawKeys(s) == ["a", "b", "a"]
  {
    RepeatedKeyMatches(s);
    KeysOfAreInnerTexts(s, Matches(s));
    assert s[5..6] == "a" && s[14..15] == "b" && s[23..24] == "a";
  }

  /** A repeated key is listed once, at its first place. */
  lemma RepeatedKeyListedOnce()
    ensures ExtractKeys("get('a')+get('b')+get('a')") == ["a", "b"]
  {
    var s := "get('a')+get('b')+get('a')";
    RepeatedKeyRaw(s);
    DedupRepeatedKeys();
    assert ExtractKeys(s) == Dedup(RawKeys(s));
  }

  /** Removing duplicates from the raw keys `a`, `b`, `a`. */
  lemma DedupRepeatedKeys()
    ensures Dedup(["a", "b", "a"]) == ["a", "b"]
  {
    var raw := ["a", "b", "a"];
    assert raw[..2] == ["a", "b"];
    assert raw[..2][..1] == ["a"];
    assert ["a"][..0] == [];
  }

}
