/**
 * The text edits of `replaceCurrent` and `replaceAll`
 * (FindReplacePanel.jsx).
 */
module Replacer {
  import opened Options
  import opened Matcher

  /** `text.substring(0, start) + replaceValue + text.substring(end)`. */
  function Splice(text: string, start: nat, end: nat, rep: string): (r: string)
    requires start <= end <= |text|
    ensures |r| == |text| - (end - start) + |rep|
    ensures r[..start] == text[..start]
    ensures r[start..start + |rep|] == rep
    ensures r[start + |rep|..] == text[end..]
  {
    text[..start] + rep + text[end..]
  }

  /** Splicing the replaced text back over the replacement restores the text. */
  lemma SpliceUndo(text: string, start: nat, end: nat, rep: string)
    requires start <= end <= |text|
    ensures Splice(Splice(text, start, end, rep), start, start + |rep|, text[start..end]) == text
  {
    var once := Splice(text, start, end, rep);
    assert text == text[..start] + text[start..end] + text[end..];
  }

  /**
   * `text.replace(regex, replaceValue)` for the global, case-insensitive
   * literal pattern, once `lastIndex` is `from`: the text up to the next
   * occurrence is kept, the occurrence becomes the replacement, and the
   * search resumes after it.
   */
  function ReplaceFrom(text: string, key: string, rep: string, from: nat): string
    requires key != [] && from <= |text|
    decreases |text| - from
  {
    match NextOccurrence(text, key, from)
    case None => text[from..]
    case Some(i) => text[from..i] + rep + ReplaceFrom(text, key, rep, i + |key|)
  }

  /** One replacement step: the text up to the occurrence `exec` finds, the replacement, then the rest replaced. */
  lemma ReplaceUnfold(text: string, key: string, rep: string, from: nat, i: nat)
    requires key != [] && from <= |text| && NextOccurrence(text, key, from) == Some(i)
    ensures from <= i && i + |key| <= |text|
    ensures ReplaceFrom(text, key, rep, from) == text[from..i] + rep + ReplaceFrom(text, key, rep, i + |key|)
  {
  }

  /** `replaceAll`'s `text.replace(regex, replaceValue)`: every entry of the match list `findText` shows is replaced, and nothing else. */
  function ReplaceEvery(text: string, key: string, rep: string): (r: string)
    requires key != []
    ensures r == Substitute(text, FindAll(text, key), rep, 0)
  {
    ReplaceFromMatches(text, key, rep, 0);
    ReplaceFrom(text, key, rep, 0)
  }

  /**
   * The text from `from` on with every range of the match list `ms`
   * replaced by `rep` and the text between the ranges untouched.
   */
  function Substitute(text: string, ms: seq<Match>, rep: string, from: nat): string
    requires WellFormed(text, ms, from) && from <= |text|
    decreases |ms|
  {
    if ms == [] then text[from..]
    else
      assert WellFormed(text, ms[1..], ms[0].end) by {
        forall k | 0 <= k < |ms| - 1 ensures ms[0].end <= ms[1..][k].start {
          assert ms[1..][k] == ms[k + 1];
        }
      }
      text[from..ms[0].start] + rep + Substitute(text, ms[1..], rep, ms[0].end)
  }

  /** Substituting a non-empty list: the text before the first range, the replacement, then the rest substituted. */
  lemma SubstituteHead(text: string, m: Match, rest: seq<Match>, rep: string, from: nat)
    requires WellFormed(text, [m] + rest, from) && from <= |text|
    ensures from <= m.start <= m.end <= |text| && WellFormed(text, rest, m.end)
    ensures Substitute(text, [m] + rest, rep, from) == text[from..m.start] + rep + Substitute(text, rest, rep, m.end)
  {
    var ms := [m] + rest;
    assert ms[0] == m;
    assert ms[1..] == rest;
  }

  /** The single-pass replacement replaces exactly the matches the scan finds, each once. */
  lemma {:induction false} ReplaceFromMatches(text: string, key: string, rep: string, from: nat)
    requires key != [] && from <= |text|
    decreases |text| - from
    ensures WellFormed(text, ScanFrom(text, key, from), from)
    ensures ReplaceFrom(text, key, rep, from) == Substitute(text, ScanFrom(text, key, from), rep, from)
  {
    ScanShape(text, key, from);
    match NextOccurrence(text, key, from)
    case None =>
      assert ScanFrom(text, key, from) == [];
    case Some(i) =>
      ReplaceFromMatches(text, key, rep, i + |key|);
      ReplaceStep(text, key, rep, from, i);
  }

  /** One occurrence further: if the replacement after it replaces the scan's matches, so does the one before it. */
  lemma ReplaceStep(text: string, key: string, rep: string, from: nat, i: nat)
    requires key != [] && from <= |text| && NextOccurrence(text, key, from) == Some(i)
    requires WellFormed(text, ScanFrom(text, key, from), from)
    requires WellFormed(text, ScanFrom(text, key, i + |key|), i + |key|)
    requires ReplaceFrom(text, key, rep, i + |key|) == Substitute(text, ScanFrom(text, key, i + |key|), rep, i + |key|)
    ensures ReplaceFrom(text, key, rep, from) == Substitute(text, ScanFrom(text, key, from), rep, from)
  {
    var m, rest := Match(i, i + |key|, text[i..i + |key|]), ScanFrom(text, key, i + |key|);
    ScanUnfold(text, key, from, i);
    ReplaceUnfold(text, key, rep, from, i);
    SubstituteHead(text, m, rest, rep, from);
    assert Substitute(text, ScanFrom(text, key, from), rep, from) == Substitute(text, [m] + rest, rep, from);
    assert text[from..m.start] == text[from..i];
    assert Substitute(text, rest, rep, m.end) == ReplaceFrom(text, key, rep, i + |key|);
  }

  /** Each replaced range changes the length by the difference between the replacement and the range. */
  lemma {:induction false} SubstituteLength(text: string, ms: seq<Match>, rep: string, from: nat, width: nat)
    requires WellFormed(text, ms, from) && from <= |text|
    requires forall k :: 0 <= k < |ms| ==> ms[k].end == ms[k].start + width
    decreases |ms|
    ensures |Substitute(text, ms, rep, from)| == |text| - from + |ms| * (|rep| - width)
  {
    if ms != [] {
      SubstituteLength(text, ms[1..], rep, ms[0].end, width);
      assert |ms| * (|rep| - width) == (|ms| - 1) * (|rep| - width) + (|rep| - width);
    }
  }

  /** After `replaceAll`, the text has grown by the replacement's excess once per match. */
  lemma ReplaceEveryLength(text: string, key: string, rep: string)
    requires key != []
    ensures |ReplaceEvery(text, key, rep)| == |text| + |FindAll(text, key)| * (|rep| - |key|)
  {
    SubstituteLength(text, FindAll(text, key), rep, 0, |key|);
  }

  /**
   * When every range is as long as the replacement, substituting leaves
   * the text unchanged exactly when every range already holds the
   * replacement.
   */
  lemma {:induction false} SubstituteUnchanged(text: string, ms: seq<Match>, rep: string, from: nat)
    requires WellFormed(text, ms, from) && from <= |text|
    requires forall k :: 0 <= k < |ms| ==> ms[k].end == ms[k].start + |rep|
    decreases |ms|
    ensures Substitute(text, ms, rep, from) == text[from..] <==> forall k :: 0 <= k < |ms| ==> ms[k].text == rep
  {
    if ms != [] {
      var m, rest := ms[0], ms[1..];
      assert ms == [m] + rest;
      SubstituteHead(text, m, rest, rep, from);
      SubstituteUnchanged(text, rest, rep, m.end);
      SpliceUnchanged(text, from, m.start, m.end, rep, Substitute(text, rest, rep, m.end));
      AllHold(ms, rep);
    }
  }

  /** Writing `rep` over [s, e) and `x` after it reproduces the text exactly when both already stand there. */
  lemma SpliceUnchanged(text: string, from: nat, s: nat, e: nat, rep: string, x: string)
    requires from <= s <= e <= |text| && e - s == |rep|
    ensures text[from..s] + rep + x == text[from..] <==> text[s..e] == rep && x == text[e..]
  {
    assert text[from..] == text[from..s] + text[s..e] + text[e..];
    if text[from..s] + rep + x == text[from..] {
      var whole := text[from..s] + rep + x;
      assert whole[s - from..e - from] == rep;
      assert whole[e - from..] == x;
    }
  }

  /** Every entry holds `rep` exactly when the first one and every later one do. */
  lemma AllHold(ms: seq<Match>, rep: string)
    requires ms != []
    ensures (forall k :: 0 <= k < |ms| ==> ms[k].text == rep) <==>
      ms[0].text == rep && forall k :: 0 <= k < |ms[1..]| ==> ms[1..][k].text == rep
  {
    if ms[0].text == rep && forall k :: 0 <= k < |ms[1..]| ==> ms[1..][k].text == rep {
      forall k | 0 <= k < |ms| ensures ms[k].text == rep {
        if k > 0 { assert ms[k] == ms[1..][k - 1]; }
      }
    }
  }

  /**
   * `replaceAll` with the keyword itself as replacement leaves the text
   * unchanged if and only if every occurrence is already written exactly
   * as the keyword: matching ignores case, the replacement does not.
   */
  lemma ReplaceWithKeyword(text: string, key: string)
    requires key != []
    ensures ReplaceEvery(text, key, key) == text <==>
      forall k :: 0 <= k < |FindAll(text, key)| ==> FindAll(text, key)[k].text == key
  {
    SubstituteUnchanged(text, FindAll(text, key), key, 0);
    assert text[0..] == text;
  }
}
