/**
 * The state of the `useFindReplace` hook (FindReplacePanel.jsx): the
 * searched text, the keyword and replacement, the match list, the current
 * match index and the highlighted display, with the operations the panel
 * calls.
 */
module FindReplace {
  import opened Matcher
  import opened Escaping
  import opened Navigator
  import opened Highlighter
  import opened Replacer

  /** The notifications the panel shows (`message.warning` / `message.success`). */
  datatype Notice =
    | NoMatch                 // no match was found
    | Replaced                // the current match was replaced
    | NothingToReplace        // there is nothing to replace
    | ReplacedAll(count: nat) // `count` matches were replaced

  /**
   * The display a search leaves behind shows the searched text, is the
   * plain text or the highlighted one, and has no active mark.
   */
  lemma SearchDisplay(text: string, ms: seq<Match>, display: seq<Piece>)
    requires WellFormed(text, ms, 0)
    requires display == if ms == [] then Plain(text) else Rendered(text, ms)
    ensures TextContent(display) == text
    ensures display == Plain(text) || (ms != [] && Unstyled(display) == Rendered(text, ms))
    ensures forall i :: 0 <= i < |display| && display[i].Mark? ==> !display[i].active
  {
    if ms == [] {
      PlainText(text);
    } else {
      RenderedText(text, ms);
      RenderedMarks(text, ms);
      RenderedUnstyled(text, ms);
    }
  }

  /**
   * The engine's invariant over its fields: the display shows the content;
   * the index is -1 exactly when the list is empty; a non-empty list is the
   * scan of the content for the keyword; the display is the plain text or
   * the highlighted one for that list, restyled; and an active mark can
   * only be the one whose id is the current index.
   */
  ghost predicate Consistent(content: string, findValue: string, matches: seq<Match>, current: int, display: seq<Piece>) {
    TextContent(display) == content &&
    (matches == [] <==> current == -1) &&
    (matches != [] ==> findValue != [] && matches == FindAll(content, findValue) && 0 <= current < |matches|) &&
    (display == Plain(content) || (matches != [] && Unstyled(display) == Rendered(content, matches))) &&
    (forall i :: 0 <= i < |display| && display[i].Mark? && display[i].active ==> display[i].id == current)
  }

  /** The state a reset leaves behind is consistent whatever the keyword. */
  lemma ResetConsistent(content: string, findValue: string)
    ensures Consistent(content, findValue, [], -1, Plain(content))
  {
    PlainText(content);
  }

  /** The state a search for a non-empty keyword leaves behind is consistent. */
  lemma SearchConsistent(content: string, keyword: string, ms: seq<Match>, current: int, display: seq<Piece>)
    requires keyword != [] && ms == FindAll(content, keyword)
    requires current == if |ms| > 0 then 0 else -1
    requires display == if ms == [] then Plain(content) else Rendered(content, ms)
    ensures Consistent(content, keyword, ms, current, display)
  {
    SearchDisplay(content, ms, display);
  }

  class Engine {
    /** The text of the content container (its `textContent`). */
    var content: string
    var findValue: string
    var replaceValue: string
    var matches: seq<Match>
    /** The current match index; -1 when there is none. */
    var current: int
    /** What the content container shows: the text, possibly with highlight marks. */
    var display: seq<Piece>

    /** The displayed text is the content. */
    ghost predicate Synced()
      reads this
    {
      TextContent(display) == content
    }

    ghost predicate Valid()
      reads this
    {
      Consistent(content, findValue, matches, current, display)
    }

    constructor (text: string)
      ensures Valid()
      ensures content == text && findValue == [] && replaceValue == []
      ensures matches == [] && current == -1 && display == Plain(text)
    {
      content := text;
      findValue := [];
      replaceValue := [];
      matches := [];
      current := -1;
      display := Plain(text);
      PlainText(text);
    }

    /** `clearHighlights`: the container shows its own text again, without marks. */
    method ClearHighlights()
      requires Synced()
      modifies this
      ensures Synced() && display == Plain(content)
      ensures content == old(content) && findValue == old(findValue) && replaceValue == old(replaceValue)
      ensures matches == old(matches) && current == old(current)
      ensures old(Valid()) ==> Valid()
    {
      display := Plain(TextContent(display));
      PlainText(content);
    }

    /** `resetFindState`: no match list, no current match, no highlights. */
    method ResetFindState()
      requires Synced()
      modifies this
      ensures Valid()
      ensures matches == [] && current == -1 && display == Plain(content)
      ensures content == old(content) && findValue == old(findValue) && replaceValue == old(replaceValue)
    {
      current := -1;
      matches := [];
      ClearHighlights();
    }

    /**
     * `findText`: an empty keyword resets the state; otherwise the list is
     * rebuilt by the scan, the index is 0 or -1, every match is highlighted
     * with no mark active, and an empty result is reported.
     */
    method FindText(keyword: string) returns (notes: seq<Notice>)
      requires Synced()
      modifies this
      ensures Synced()
      ensures keyword == findValue ==> Valid()
      ensures content == old(content) && findValue == old(findValue) && replaceValue == old(replaceValue)
      ensures keyword == [] ==> matches == [] && current == -1 && display == Plain(content) && notes == []
      ensures keyword != [] ==>
        matches == FindAll(content, keyword) &&
        current == (if matches == [] then -1 else 0) &&
        display == (if matches == [] then Plain(content) else Rendered(content, matches)) &&
        notes == (if matches == [] then [NoMatch] else [])
    {
      if keyword == [] {
        ResetFindState();
        return [];
      }
      ClearHighlights();
      var text := TextContent(display);
      var pattern := Compile(keyword);
      var found := Scan(text, pattern);
      matches := found;
      current := if |found| > 0 then 0 else -1;
      if |found| > 0 {
        display := BuildHighlights(text, found);
        notes := [];
      } else {
        notes := [NoMatch];
      }
      SearchConsistent(content, keyword, found, current, display);
    }

    /**
     * `switchMatch`: nothing happens on an empty list; otherwise the mark
     * with the old index as id loses the active style, the index steps
     * circularly, and the mark with the new index as id gains it.
     */
    method SwitchMatch(d: Direction)
      requires Valid()
      modifies this
      ensures Valid()
      ensures content == old(content) && findValue == old(findValue) && replaceValue == old(replaceValue)
      ensures matches == old(matches)
      ensures old(matches) == [] ==> current == old(current) && display == old(display)
      ensures old(matches) != [] ==>
        current == Step(old(current), |matches|, d) &&
        display == Restyle(Restyle(old(display), old(current) as nat, false), current as nat, true)
      ensures forall i :: 0 <= i < |display| && display[i].Mark? ==> (display[i].active <==> display[i].id == current)
    {
      if |matches| == 0 {
        return;
      }
      ghost var before := display;
      if current >= 0 {
        RestyleKeeps(display, current as nat, false);
        display := Restyle(display, current as nat, false);
      }
      var newIndex := Step(current, |matches|, d);
      SwitchStyles(before, current as nat, newIndex as nat);
      current := newIndex;
      RestyleKeeps(display, newIndex as nat, true);
      display := Restyle(display, newIndex as nat, true);
    }

    /**
     * `replaceCurrent`: with no current match nothing happens; otherwise
     * the current match's range is replaced in the text, the list is
     * rebuilt from scratch for the keyword and success is reported.
     */
    method ReplaceCurrent() returns (notes: seq<Notice>)
      requires Valid()
      modifies this
      ensures Valid()
      ensures findValue == old(findValue) && replaceValue == old(replaceValue)
      ensures old(current) < 0 || old(matches) == [] ==>
        content == old(content) && matches == old(matches) && current == old(current) &&
        display == old(display) && notes == []
      ensures old(current) >= 0 && old(matches) != [] ==>
        content == Splice(old(content), old(matches)[old(current)].start, old(matches)[old(current)].end, replaceValue) &&
        matches == FindAll(content, findValue) &&
        current == (if matches == [] then -1 else 0) &&
        display == (if matches == [] then Plain(content) else Rendered(content, matches)) &&
        notes == (if matches == [] then [NoMatch] else []) + [Replaced]
    {
      if current < 0 || |matches| == 0 {
        return [];
      }
      var m := matches[current];
      var text := TextContent(display);
      var newText := Splice(text, m.start, m.end, replaceValue);
      content := newText;
      display := Plain(newText);
      PlainText(newText);
      var found := FindText(findValue);
      notes := found + [Replaced];
    }

    /**
     * `replaceAll`: with no keyword or no match it warns and changes
     * nothing; otherwise every occurrence is replaced in one pass, the
     * state is reset and the size of the list shown before is reported.
     */
    method ReplaceAll() returns (notes: seq<Notice>)
      requires Valid()
      modifies this
      ensures Valid()
      ensures findValue == old(findValue) && replaceValue == old(replaceValue)
      ensures old(findValue) == [] || old(matches) == [] ==>
        content == old(content) && matches == old(matches) && current == old(current) &&
        display == old(display) && notes == [NothingToReplace]
      ensures old(findValue) != [] && old(matches) != [] ==>
        content == ReplaceEvery(old(content), findValue, replaceValue) &&
        matches == [] && current == -1 && display == Plain(content) &&
        notes == [ReplacedAll(|FindAll(old(content), findValue)|)]
    {
      if findValue == [] || |matches| == 0 {
        return [NothingToReplace];
      }
      var text := TextContent(display);
      var pattern := Compile(findValue);
      var newText := ReplaceEvery(text, pattern, replaceValue);
      content := newText;
      display := Plain(newText);
      PlainText(newText);
      var count := |matches|;
      ResetFindState();
      notes := [ReplacedAll(count)];
    }

    /**
     * `setFindValue` and the effect that watches the keyword: a changed
     * keyword is searched, or the state reset when it is empty; setting
     * the same keyword again changes nothing.
     */
    method SetFindValue(v: string) returns (notes: seq<Notice>)
      requires Valid()
      modifies this
      ensures Valid()
      ensures findValue == v && content == old(content) && replaceValue == old(replaceValue)
      ensures v == old(findValue) ==>
        matches == old(matches) && current == old(current) && display == old(display) && notes == []
      ensures v != old(findValue) && v == [] ==>
        matches == [] && current == -1 && display == Plain(content) && notes == []
      ensures v != old(findValue) && v != [] ==>
        matches == FindAll(content, v) &&
        current == (if matches == [] then -1 else 0) &&
        display == (if matches == [] then Plain(content) else Rendered(content, matches)) &&
        notes == (if matches == [] then [NoMatch] else [])
    {
      if v == findValue {
        return [];
      }
      findValue := v;
      if v != [] {
        notes := FindText(v);
      } else {
        ResetFindState();
        notes := [];
      }
    }

    /** `setReplaceValue`. */
    method SetReplaceValue(v: string)
      requires Valid()
      modifies this
      ensures Valid()
      ensures replaceValue == v && content == old(content) && findValue == old(findValue)
      ensures matches == old(matches) && current == old(current) && display == old(display)
    {
      replaceValue := v;
    }
  }
}
