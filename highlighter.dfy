/**
 * The highlighted display `findText` builds (FindReplacePanel.jsx): the
 * text with every match wrapped in a `<mark id="highlight-k">` element,
 * spliced in descending offset order, and the restyling `switchMatch`
 * applies to those elements. The display is a sequence of pieces, not
 * markup: a plain character, or a mark holding its id, the matched text
 * and whether it carries the active background.
 */
module Highlighter {
  import opened Matcher

  datatype Piece = Char(c: char) | Mark(id: nat, text: string, active: bool)

  /** Unhighlighted text: one piece per character. */
  function Plain(s: string): seq<Piece> {
    seq(|s|, i requires 0 <= i < |s| => Char(s[i]))
  }

  function PieceText(p: Piece): string {
    match p
    case Char(c) => [c]
    case Mark(_, t, _) => t
  }

  /** The `textContent` of a display: its pieces' text, marks unwrapped. */
  function TextContent(d: seq<Piece>): string {
    if d == [] then [] else PieceText(d[0]) + TextContent(d[1..])
  }

  /** The marks of a display, in document order. */
  function Marks(d: seq<Piece>): seq<Piece> {
    if d == [] then [] else (if d[0].Mark? then [d[0]] else []) + Marks(d[1..])
  }

  lemma {:induction false} TextContentAppend(a: seq<Piece>, b: seq<Piece>)
    ensures TextContent(a + b) == TextContent(a) + TextContent(b)
  {
    if a == [] {
      assert a + b == b;
    } else {
      AppendTail(a, b);
      TextContentAppend(a[1..], b);
    }
  }

  lemma {:induction false} MarksAppend(a: seq<Piece>, b: seq<Piece>)
    ensures Marks(a + b) == Marks(a) + Marks(b)
  {
    if a == [] {
      assert a + b == b;
    } else {
      AppendTail(a, b);
      MarksAppend(a[1..], b);
    }
  }

  lemma AppendTail(a: seq<Piece>, b: seq<Piece>)
    requires a != []
    ensures (a + b)[0] == a[0] && (a + b)[1..] == a[1..] + b
  {
  }

  /** Clearing the highlights (`innerHTML = textContent`) keeps the text and drops every mark. */
  lemma {:induction false} PlainText(s: string)
    ensures TextContent(Plain(s)) == s
    ensures Marks(Plain(s)) == []
  {
    if s != [] {
      assert Plain(s)[1..] == Plain(s[1..]);
      PlainText(s[1..]);
    }
  }

  /** Where the plain text after the marks numbered below `k` ends: the next match's start. */
  function NextStart(text: string, ms: seq<Match>, k: nat): nat
    requires k <= |ms|
  {
    if k < |ms| then ms[k].start else |text|
  }

  /**
   * The display from match `k` on, in document order: the mark of match
   * `k`, the untouched text up to the next match, and so on. The mark of
   * match `k` gets id `|ms| - 1 - k`, because ids count the matches in
   * reverse, and no mark is active.
   */
  function From(text: string, ms: seq<Match>, k: nat): seq<Piece>
    requires WellFormed(text, ms, 0) && k <= |ms|
    decreases |ms| - k
  {
    if k == |ms| then []
    else
      [Mark(|ms| - 1 - k, ms[k].text, false)]
      + Plain(text[ms[k].end..NextStart(text, ms, k + 1)])
      + From(text, ms, k + 1)
  }

  /** The highlighted display of `text` for the match list `ms`. */
  function Rendered(text: string, ms: seq<Match>): seq<Piece>
    requires WellFormed(text, ms, 0)
  {
    Plain(text[..NextStart(text, ms, 0)]) + From(text, ms, 0)
  }

  /** The display from match `k` on: that match's mark, the untouched gap up to the next match, then the rest. */
  lemma FromUnfold(text: string, ms: seq<Match>, k: nat)
    requires WellFormed(text, ms, 0) && k < |ms|
    ensures ms[k].start <= ms[k].end <= NextStart(text, ms, k + 1) <= |text|
    ensures ms[k].text == text[ms[k].start..ms[k].end]
    ensures From(text, ms, k) ==
      [Mark(|ms| - 1 - k, ms[k].text, false)] + Plain(text[ms[k].end..NextStart(text, ms, k + 1)]) + From(text, ms, k + 1)
  {
  }

  /** The text under a mark, a plain gap and a rest, in that order. */
  lemma PiecesText(p: Piece, gap: string, rest: seq<Piece>)
    ensures TextContent([p] + Plain(gap) + rest) == PieceText(p) + gap + TextContent(rest)
  {
    TextContentAppend([p] + Plain(gap), rest);
    TextContentAppend([p], Plain(gap));
    PlainText(gap);
    MarkText(p);
  }

  /** The text under the display from match `k` on is the text from that match's start on. */
  lemma {:induction false} FromText(text: string, ms: seq<Match>, k: nat)
    requires WellFormed(text, ms, 0) && k <= |ms|
    decreases |ms| - k
    ensures TextContent(From(text, ms, k)) == text[NextStart(text, ms, k)..]
  {
    if k < |ms| {
      var s, e, next := ms[k].start, ms[k].end, NextStart(text, ms, k + 1);
      FromUnfold(text, ms, k);
      FromText(text, ms, k + 1);
      PiecesText(Mark(|ms| - 1 - k, ms[k].text, false), text[e..next], From(text, ms, k + 1));
      SliceSplit(text, s, e, next);
    }
  }

  lemma MarkText(p: Piece)
    ensures TextContent([p]) == PieceText(p)
  {
    assert [p][1..] == [];
  }

  lemma SliceSplit(t: string, a: nat, b: nat, c: nat)
    requires a <= b <= c <= |t|
    ensures t[a..] == t[a..b] + t[b..c] + t[c..]
  {
  }

  /** The marks of a mark, a plain gap and a rest, in that order. */
  lemma PiecesMarks(p: Piece, gap: string, rest: seq<Piece>)
    requires p.Mark?
    ensures Marks([p] + Plain(gap) + rest) == [p] + Marks(rest)
  {
    MarksAppend([p] + Plain(gap), rest);
    MarksAppend([p], Plain(gap));
    PlainText(gap);
    MarkMarks(p);
  }

  lemma MarkMarks(p: Piece)
    requires p.Mark?
    ensures Marks([p]) == [p]
  {
    assert [p][1..] == [];
  }

  /** The marks for matches `k` onwards, in document order: the mark of match `j` carries id `|ms| - 1 - j`. */
  function MarksFor(ms: seq<Match>, k: nat): seq<Piece>
    requires k <= |ms|
  {
    seq(|ms| - k, i requires 0 <= i < |ms| - k => Mark(|ms| - 1 - (k + i), ms[k + i].text, false))
  }

  lemma MarksForHead(ms: seq<Match>, k: nat)
    requires k < |ms|
    ensures MarksFor(ms, k) == [Mark(|ms| - 1 - k, ms[k].text, false)] + MarksFor(ms, k + 1)
  {
  }

  /** The marks from match `k` on wrap those matches in order, with reversed ids. */
  lemma {:induction false} FromMarks(text: string, ms: seq<Match>, k: nat)
    requires WellFormed(text, ms, 0) && k <= |ms|
    decreases |ms| - k
    ensures Marks(From(text, ms, k)) == MarksFor(ms, k)
  {
    if k < |ms| {
      var mark := Mark(|ms| - 1 - k, ms[k].text, false);
      FromUnfold(text, ms, k);
      FromMarks(text, ms, k + 1);
      PiecesMarks(mark, text[ms[k].end..NextStart(text, ms, k + 1)], From(text, ms, k + 1));
      MarksForHead(ms, k);
    }
  }

  /** No piece of the display from match `k` on is an active mark. */
  lemma {:induction false} FromInactive(text: string, ms: seq<Match>, k: nat)
    requires WellFormed(text, ms, 0) && k <= |ms|
    decreases |ms| - k
    ensures forall i :: 0 <= i < |From(text, ms, k)| && From(text, ms, k)[i].Mark? ==> !From(text, ms, k)[i].active
  {
    if k < |ms| {
      FromInactive(text, ms, k + 1);
      var gap := text[ms[k].end..NextStart(text, ms, k + 1)];
      var rest := From(text, ms, k + 1);
      var d := From(text, ms, k);
      assert d == [Mark(|ms| - 1 - k, ms[k].text, false)] + Plain(gap) + rest;
      forall i | 0 <= i < |d| && d[i].Mark? ensures !d[i].active {
        if i > |gap| {
          assert d[i] == rest[i - 1 - |gap|];
        }
      }
    }
  }

  /** Stripping the marks from the highlighted display gives back the text. */
  lemma RenderedText(text: string, ms: seq<Match>)
    requires WellFormed(text, ms, 0)
    ensures TextContent(Rendered(text, ms)) == text
  {
    var ns := NextStart(text, ms, 0);
    FromText(text, ms, 0);
    PlainText(text[..ns]);
    TextContentAppend(Plain(text[..ns]), From(text, ms, 0));
    SliceJoin(text, ns);
  }

  lemma SliceJoin(t: string, n: nat)
    requires n <= |t|
    ensures t[..n] + t[n..] == t
  {
  }

  /**
   * The marks wrap the matches in document order, the one of match `k`
   * carrying id `|ms| - 1 - k`, and none is active after a search.
   */
  lemma RenderedMarks(text: string, ms: seq<Match>)
    requires WellFormed(text, ms, 0)
    ensures |Marks(Rendered(text, ms))| == |ms|
    ensures forall k :: 0 <= k < |ms| ==> Marks(Rendered(text, ms))[k] == Mark(|ms| - 1 - k, ms[k].text, false)
    ensures forall i :: 0 <= i < |Rendered(text, ms)| && Rendered(text, ms)[i].Mark? ==> !Rendered(text, ms)[i].active
  {
    var head := text[..NextStart(text, ms, 0)];
    FromMarks(text, ms, 0);
    FromInactive(text, ms, 0);
    PlainText(head);
    MarksAppend(Plain(head), From(text, ms, 0));
    var d := Rendered(text, ms);
    forall i | 0 <= i < |d| && d[i].Mark? ensures !d[i].active {
      if i >= |head| {
        assert d[i] == From(text, ms, 0)[i - |head|];
      }
    }
  }

  /** Splicing a mark into a plain prefix: the parts before and after the spliced range stay plain. */
  lemma PlainSlices(s: string, tail: seq<Piece>, a: nat, b: nat)
    requires a <= b <= |s|
    ensures (Plain(s) + tail)[..a] == Plain(s[..a])
    ensures (Plain(s) + tail)[b..] == Plain(s[b..]) + tail
  {
  }

  /**
   * One iteration of the reverse `forEach`: replacing the range of match
   * `k - 1` in the plain prefix by its mark, numbered `id == |ms| - k`,
   * extends the highlighted suffix by one match.
   */
  lemma HighlightStep(text: string, ms: seq<Match>, k: nat, id: nat)
    requires WellFormed(text, ms, 0) && 0 < k <= |ms| && id == |ms| - k
    ensures ms[k - 1].start <= ms[k - 1].end <= NextStart(text, ms, k)
    ensures var html := Plain(text[..NextStart(text, ms, k)]) + From(text, ms, k);
      html[..ms[k - 1].start] + [Mark(id, ms[k - 1].text, false)] + html[ms[k - 1].end..]
      == Plain(text[..NextStart(text, ms, k - 1)]) + From(text, ms, k - 1)
  {
    var ns, m := NextStart(text, ms, k), ms[k - 1];
    FromUnfold(text, ms, k - 1);
    var prefix, rest := text[..ns], From(text, ms, k);
    PlainSlices(prefix, rest, m.start, m.end);
    SliceOfPrefix(text, ns, m.start, m.end);
    var mark := [Mark(id, m.text, false)];
    var gap := Plain(text[m.end..ns]);
    assert Plain(text[..m.start]) + mark + (gap + rest) == Plain(text[..m.start]) + (mark + gap + rest);
  }

  lemma SliceOfPrefix(text: string, n: nat, a: nat, b: nat)
    requires a <= b <= n <= |text|
    ensures text[..n][..a] == text[..a] && text[..n][b..] == text[b..n]
  {
  }

  /**
   * The reverse `forEach` of `findText`: each match, last first, is
   * replaced in the display by a mark whose id is the iteration index.
   */
  method BuildHighlights(text: string, ms: seq<Match>) returns (html: seq<Piece>)
    requires WellFormed(text, ms, 0)
    ensures html == Rendered(text, ms)
  {
    html := Plain(text);
    assert text[..NextStart(text, ms, |ms|)] == text;
    var idx := 0;
    ghost var k := |ms|;
    while idx < |ms|
      invariant 0 <= idx <= |ms| && k == |ms| - idx
      invariant html == Plain(text[..NextStart(text, ms, k)]) + From(text, ms, k)
    {
      var m := ms[|ms| - 1 - idx];
      HighlightStep(text, ms, k, idx);
      html := html[..m.start] + [Mark(idx, m.text, false)] + html[m.end..];
      idx := idx + 1;
      k := k - 1;
    }
  }

  /** `style.background` set on the element with id `highlight-{id}`; other pieces are untouched. */
  function RestylePiece(p: Piece, id: nat, active: bool): Piece {
    if p.Mark? && p.id == id then p.(active := active) else p
  }

  /**
   * `highlightRefs.current[id].style.background = …`: every mark with id
   * `id` gets the requested background, and every other piece is left as
   * it was.
   */
  function Restyle(d: seq<Piece>, id: nat, active: bool): (r: seq<Piece>)
    ensures |r| == |d|
    ensures forall i :: 0 <= i < |d| && d[i].Mark? && d[i].id == id ==> r[i] == Mark(id, d[i].text, active)
    ensures forall i :: 0 <= i < |d| && !(d[i].Mark? && d[i].id == id) ==> r[i] == d[i]
  {
    seq(|d|, i requires 0 <= i < |d| => RestylePiece(d[i], id, active))
  }

  /** A display with every mark given the inactive background. */
  function Unstyled(d: seq<Piece>): seq<Piece> {
    seq(|d|, i requires 0 <= i < |d| => if d[i].Mark? then d[i].(active := false) else d[i])
  }

  /** Restyling keeps the text and the order of the marks; it only sets the styles of those with the id. */
  lemma RestyleKeeps(d: seq<Piece>, id: nat, active: bool)
    ensures TextContent(Restyle(d, id, active)) == TextContent(d)
    ensures Marks(Restyle(d, id, active)) == Restyle(Marks(d), id, active)
    ensures Unstyled(Restyle(d, id, active)) == Unstyled(d)
  {
    RestyleText(d, id, active);
    RestyleMarks(d, id, active);
  }

  lemma RestyleHead(d: seq<Piece>, id: nat, active: bool)
    requires d != []
    ensures Restyle(d, id, active) == [RestylePiece(d[0], id, active)] + Restyle(d[1..], id, active)
  {
  }

  lemma RestyleAppend(a: seq<Piece>, b: seq<Piece>, id: nat, active: bool)
    ensures Restyle(a + b, id, active) == Restyle(a, id, active) + Restyle(b, id, active)
  {
  }

  lemma {:induction false} RestyleText(d: seq<Piece>, id: nat, active: bool)
    ensures TextContent(Restyle(d, id, active)) == TextContent(d)
  {
    if d != [] {
      RestyleHead(d, id, active);
      RestyleText(d[1..], id, active);
      TextContentAppend([RestylePiece(d[0], id, active)], Restyle(d[1..], id, active));
      MarkText(RestylePiece(d[0], id, active));
    }
  }

  lemma {:induction false} RestyleMarks(d: seq<Piece>, id: nat, active: bool)
    ensures Marks(Restyle(d, id, active)) == Restyle(Marks(d), id, active)
  {
    if d != [] {
      var p := RestylePiece(d[0], id, active);
      RestyleHead(d, id, active);
      RestyleMarks(d[1..], id, active);
      MarksAppend([p], Restyle(d[1..], id, active));
      var head := if d[0].Mark? then [d[0]] else [];
      RestyleAppend(head, Marks(d[1..]), id, active);
      if d[0].Mark? { MarkMarks(p); } else { NoMarks(p); }
    }
  }

  lemma NoMarks(p: Piece)
    requires !p.Mark?
    ensures Marks([p]) == []
  {
    assert [p][1..] == [];
  }

  /** A display built by the search has no active mark, so clearing the styles leaves it as it is. */
  lemma RenderedUnstyled(text: string, ms: seq<Match>)
    requires WellFormed(text, ms, 0)
    ensures Unstyled(Rendered(text, ms)) == Rendered(text, ms)
  {
    RenderedMarks(text, ms);
  }

  /**
   * If only marks with id `was` are active, then after deactivating `was`
   * and activating `now` exactly the marks with id `now` are active.
   */
  lemma SwitchStyles(d: seq<Piece>, was: nat, now: nat)
    requires forall i :: 0 <= i < |d| && d[i].Mark? && d[i].active ==> d[i].id == was
    ensures forall i :: 0 <= i < |Restyle(Restyle(d, was, false), now, true)| && Restyle(Restyle(d, was, false), now, true)[i].Mark? ==>
      (Restyle(Restyle(d, was, false), now, true)[i].active <==> Restyle(Restyle(d, was, false), now, true)[i].id == now)
  {
  }

  /**
   * After `switchMatch` activates id `j` on a fresh display, the active
   * mark is the one wrapping match `|ms| - 1 - j`, mirrored from the
   * match the current index names.
   */
  lemma ActiveMarkMirrored(text: string, ms: seq<Match>, j: nat)
    requires WellFormed(text, ms, 0) && j < |ms|
    ensures |Marks(Restyle(Rendered(text, ms), j, true))| == |ms|
    ensures forall k :: 0 <= k < |ms| ==>
      Marks(Restyle(Rendered(text, ms), j, true))[k] == Mark(|ms| - 1 - k, ms[k].text, k == |ms| - 1 - j)
  {
    RenderedMarks(text, ms);
    RestyleKeeps(Rendered(text, ms), j, true);
  }
}
