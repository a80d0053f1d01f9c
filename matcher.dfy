/**
 * The case-insensitive, left-to-right, non-overlapping literal scan of
 * `findText` (FindReplacePanel.jsx): `regex.exec` is called repeatedly,
 * each call resuming at the end of the previous match.
 */
module Matcher {
  import opened Options

  /** One entry of the match list: the half-open range [start, end) and the matched text. */
  datatype Match = Match(start: nat, end: nat, text: string)

  /** ASCII case folding, the part of the `i` flag this model covers. */
  function Fold(c: char): char {
    if 'A' <= c <= 'Z' then (c as int - 'A' as int + 'a' as int) as char else c
  }

  /** Two strings are equal up to case. */
  predicate SameIgnoringCase(a: string, b: string) {
    |a| == |b| && forall i :: 0 <= i < |a| ==> Fold(a[i]) == Fold(b[i])
  }

  /** The characters of the keyword from its `j`-th on agree, up to case, with the text from `i + j` on. */
  predicate AgreesFrom(text: string, key: string, i: nat, j: nat)
    requires i + |key| <= |text| && j <= |key|
    decreases |key| - j
  {
    j == |key| || (Fold(text[i + j]) == Fold(key[j]) && AgreesFrom(text, key, i, j + 1))
  }

  /** The keyword occurs, ignoring case, at offset `i` of the text (the regex's character-by-character test). */
  predicate OccursAt(text: string, key: string, i: nat) {
    i + |key| <= |text| && AgreesFrom(text, key, i, 0)
  }

  lemma {:induction false} AgreesFromMeans(text: string, key: string, i: nat, j: nat)
    requires i + |key| <= |text| && j <= |key|
    decreases |key| - j
    ensures AgreesFrom(text, key, i, j) <==> forall l :: j <= l < |key| ==> Fold(text[i + l]) == Fold(key[l])
  {
    if j < |key| {
      AgreesFromMeans(text, key, i, j + 1);
    }
  }

  /** The character-by-character test agrees with comparing the text's slice to the keyword up to case. */
  lemma OccursAtMeans(text: string, key: string, i: nat)
    ensures OccursAt(text, key, i) <==> i + |key| <= |text| && SameIgnoringCase(text[i..i + |key|], key)
  {
    if i + |key| <= |text| {
      AgreesFromMeans(text, key, i, 0);
      var s := text[i..i + |key|];
      assert forall l :: 0 <= l < |key| ==> s[l] == text[i + l];
    }
  }

  /** One `regex.exec` call with `lastIndex == from`: the first occurrence at or after `from`. */
  function NextOccurrence(text: string, key: string, from: nat): (r: Option<nat>)
    decreases |text| - from
    ensures r.Some? ==> from <= r.value && OccursAt(text, key, r.value)
    ensures forall i :: from <= i && (r.None? || i < r.value) ==> !OccursAt(text, key, i)
  {
    if from + |key| > |text| then None
    else if OccursAt(text, key, from) then Some(from)
    else NextOccurrence(text, key, from + 1)
  }

  /** The matches the exec loop collects once `lastIndex` is `from`. */
  function ScanFrom(text: string, key: string, from: nat): seq<Match>
    requires key != []
    decreases |text| - from
  {
    match NextOccurrence(text, key, from)
    case None => []
    case Some(i) => [Match(i, i + |key|, text[i..i + |key|])] + ScanFrom(text, key, i + |key|)
  }

  /** Every entry the scan produces is an occurrence of the keyword, and the list is well formed. */
  lemma {:induction false} ScanShape(text: string, key: string, from: nat)
    requires key != []
    decreases |text| - from
    ensures Shaped(text, key, ScanFrom(text, key, from), from)
  {
    match NextOccurrence(text, key, from)
    case None =>
    case Some(i) =>
      var m, rest := Match(i, i + |key|, text[i..i + |key|]), ScanFrom(text, key, i + |key|);
      ScanShape(text, key, i + |key|);
      PrependShape(text, key, from, m, rest);
      ScanUnfold(text, key, from, i);
  }

  /**
   * A match list over `text` whose ranges start at or after `from`, lie in
   * the text, carry the text they cover, and come in ascending,
   * non-overlapping order.
   */
  predicate WellFormed(text: string, ms: seq<Match>, from: nat) {
    (forall k :: 0 <= k < |ms| ==>
       from <= ms[k].start <= ms[k].end <= |text| && ms[k].text == text[ms[k].start..ms[k].end]) &&
    (forall j, k :: 0 <= j < k < |ms| ==> ms[j].end <= ms[k].start)
  }

  /** A well-formed list from `from` on, each of whose entries is an occurrence of the keyword. */
  predicate Shaped(text: string, key: string, ms: seq<Match>, from: nat) {
    WellFormed(text, ms, from) && forall k :: 0 <= k < |ms| ==> Exact(text, key, ms[k])
  }

  /** An occurrence placed before a well-formed list that starts at its end keeps the list well formed. */
  lemma PrependShape(text: string, key: string, from: nat, m: Match, rest: seq<Match>)
    requires from <= m.start && Exact(text, key, m) && m.text == text[m.start..m.end]
    requires Shaped(text, key, rest, m.end)
    ensures Shaped(text, key, [m] + rest, from)
  {
    var ms := [m] + rest;
    forall k | 0 <= k < |ms|
      ensures from <= ms[k].start <= ms[k].end <= |text| && ms[k].text == text[ms[k].start..ms[k].end]
      ensures Exact(text, key, ms[k])
    {
      if k > 0 { assert ms[k] == rest[k - 1]; }
    }
    forall j, k | 0 <= j < k < |ms| ensures ms[j].end <= ms[k].start {
      assert ms[k] == rest[k - 1];
      if j > 0 { assert ms[j] == rest[j - 1]; }
    }
  }

  /** `m` is an occurrence of the keyword at its start, as long as the keyword. */
  predicate Exact(text: string, key: string, m: Match) {
    m.end == m.start + |key| && OccursAt(text, key, m.start)
  }

  /** Offset `i` lies in the range of `m`. */
  predicate Covers(m: Match, i: nat) {
    m.start <= i < m.end
  }

  /**
   * Completeness: every occurrence at or after `from` starts inside some
   * match of the scan (it is a match itself, or the scan skipped it
   * because it overlaps a match found before it).
   */
  lemma {:induction false} ScanComplete(text: string, key: string, from: nat, i: nat)
    requires key != [] && from <= i && OccursAt(text, key, i)
    decreases |text| - from
    ensures exists k :: 0 <= k < |ScanFrom(text, key, from)| && Covers(ScanFrom(text, key, from)[k], i)
  {
    var next := NextOccurrence(text, key, from);
    if next.None? {
      assert false;
    } else {
      var j := next.value;
      var m, rest := Match(j, j + |key|, text[j..j + |key|]), ScanFrom(text, key, j + |key|);
      ScanUnfold(text, key, from, j);
      if i < j {
        assert false;
      } else if i < j + |key| {
        CoversHead(m, rest, i);
      } else {
        ScanComplete(text, key, j + |key|, i);
        CoversTail(m, rest, i);
      }
    }
  }

  lemma CoversHead(m: Match, rest: seq<Match>, i: nat)
    requires Covers(m, i)
    ensures exists k :: 0 <= k < |[m] + rest| && Covers(([m] + rest)[k], i)
  {
    assert ([m] + rest)[0] == m;
  }

  lemma CoversTail(m: Match, rest: seq<Match>, i: nat)
    requires exists k :: 0 <= k < |rest| && Covers(rest[k], i)
    ensures exists k :: 0 <= k < |[m] + rest| && Covers(([m] + rest)[k], i)
  {
    var k :| 0 <= k < |rest| && Covers(rest[k], i);
    assert ([m] + rest)[k + 1] == rest[k];
  }

  /** The match list `findText` builds for a non-empty keyword. */
  function FindAll(text: string, key: string): (ms: seq<Match>)
    requires key != []
    ensures WellFormed(text, ms, 0)
    ensures forall k :: 0 <= k < |ms| ==>
      ms[k].end == ms[k].start + |key| && OccursAt(text, key, ms[k].start)
    ensures forall j, k :: 0 <= j < k < |ms| ==> ms[j].start < ms[k].start
  {
    ScanShape(text, key, 0);
    ScanFrom(text, key, 0)
  }

  /** Every entry's text is the keyword up to case. */
  lemma MatchesIgnoreCase(text: string, key: string)
    requires key != []
    ensures forall k :: 0 <= k < |FindAll(text, key)| ==> SameIgnoringCase(FindAll(text, key)[k].text, key)
  {
    var ms := FindAll(text, key);
    forall k | 0 <= k < |ms| ensures SameIgnoringCase(ms[k].text, key) {
      OccursAtMeans(text, key, ms[k].start);
    }
  }

  /** Every occurrence of the keyword lies in (and if not skipped, is) an entry of the match list. */
  lemma FindAllComplete(text: string, key: string)
    requires key != []
    ensures forall i: nat :: OccursAt(text, key, i) ==>
      exists k :: 0 <= k < |FindAll(text, key)| && Covers(FindAll(text, key)[k], i)
  {
    forall i: nat | OccursAt(text, key, i)
      ensures exists k :: 0 <= k < |FindAll(text, key)| && Covers(FindAll(text, key)[k], i)
    {
      ScanComplete(text, key, 0, i);
      assert FindAll(text, key) == ScanFrom(text, key, 0);
    }
  }

  /** The scan from `from` is the match `exec` returns there, followed by the scan from that match's end. */
  lemma ScanUnfold(text: string, key: string, from: nat, i: nat)
    requires key != [] && NextOccurrence(text, key, from) == Some(i)
    ensures i + |key| <= |text|
    ensures ScanFrom(text, key, from) == [Match(i, i + |key|, text[i..i + |key|])] + ScanFrom(text, key, i + |key|)
  {
  }

  /** One step of the exec loop: the match `exec` returns moves from the pending scan to the list. */
  lemma ScanStep(text: string, key: string, from: nat, m: Match, ms: seq<Match>)
    requires key != [] && NextOccurrence(text, key, from) == Some(m.start)
    requires m.end == m.start + |key| <= |text| && m.text == text[m.start..m.end]
    requires ms + ScanFrom(text, key, from) == ScanFrom(text, key, 0)
    ensures (ms + [m]) + ScanFrom(text, key, m.end) == ScanFrom(text, key, 0)
  {
    ScanUnfold(text, key, from, m.start);
    AppendAssoc(ms, m, ScanFrom(text, key, m.end));
  }

  lemma AppendAssoc(ms: seq<Match>, m: Match, rest: seq<Match>)
    ensures ms + ([m] + rest) == (ms + [m]) + rest
  {
  }

  /** The `while ((match = regex.exec(text)) !== null)` loop of `findText`. */
  method Scan(text: string, key: string) returns (ms: seq<Match>)
    requires key != []
    ensures ms == FindAll(text, key)
  {
    ms := [];
    var lastIndex: nat := 0;
    while true
      invariant ms + ScanFrom(text, key, lastIndex) == ScanFrom(text, key, 0)
      decreases |text| - lastIndex
    {
      var found := NextOccurrence(text, key, lastIndex);
      if found.None? {
        assert ScanFrom(text, key, lastIndex) == [];
        assert ms + [] == ms;
        return;
      }
      var i := found.value;
      var m := Match(i, i + |key|, text[i..i + |key|]);
      ScanStep(text, key, lastIndex, m, ms);
      ms := ms + [m];
      lastIndex := m.end;
    }
  }
}
