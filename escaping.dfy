/**
 * Escaping of the search keyword before it is compiled into a regular
 * expression (FindReplacePanel.jsx, `findText` and `replaceAll`).
 */
module Escaping {
  import opened Options

  /** The characters selected by the class `[.*+?^${}()|[\]\\]`. */
  predicate IsMeta(c: char) {
    c in ".*+?^${}()|[]\\"
  }

  /** Number of metacharacters in `s`. */
  function MetaCount(s: string): nat {
    if s == [] then 0 else (if IsMeta(s[0]) then 1 else 0) + MetaCount(s[1..])
  }

  /** `keyword.replace(/[.*+?^${}()|[\]\\]/g, '\\$&')`: one backslash before each metacharacter. */
  function Escape(s: string): (r: string)
    ensures |r| == |s| + MetaCount(s)
  {
    if s == [] then []
    else (if IsMeta(s[0]) then ['\\', s[0]] else [s[0]]) + Escape(s[1..])
  }

  /**
   * Reads a pattern made only of literal atoms: an ordinary character
   * stands for itself, a backslash followed by a metacharacter stands for
   * that metacharacter. A pattern holding a bare metacharacter, or a
   * backslash before anything else, is not a literal and reads as None.
   */
  function Literal(p: string): Option<string> {
    if p == [] then Some([])
    else if p[0] == '\\' then
      if |p| >= 2 && IsMeta(p[1]) then
        match Literal(p[2..])
        case Some(t) => Some([p[1]] + t)
        case None => None
      else None
    else if IsMeta(p[0]) then None
    else
      match Literal(p[1..])
      case Some(t) => Some([p[0]] + t)
      case None => None
  }

  /** The escaped keyword is a literal pattern that denotes exactly the keyword. */
  lemma {:induction false} EscapeIsLiteral(s: string)
    ensures Literal(Escape(s)) == Some(s)
  {
    if s != [] {
      EscapeIsLiteral(s[1..]);
      var head := if IsMeta(s[0]) then ['\\', s[0]] else [s[0]];
      assert Escape(s) == head + Escape(s[1..]);
      if IsMeta(s[0]) {
        assert Escape(s)[2..] == Escape(s[1..]);
      } else {
        assert Escape(s)[1..] == Escape(s[1..]);
      }
      assert [s[0]] + s[1..] == s;
    }
  }

  /**
   * Conversely, a literal pattern is the escape of what it denotes: every
   * metacharacter carries exactly one backslash and nothing else does.
   */
  lemma {:induction false} LiteralIsEscape(p: string, s: string)
    requires Literal(p) == Some(s)
    ensures p == Escape(s)
  {
    if p != [] {
      if p[0] == '\\' {
        var t := Literal(p[2..]).value;
        LiteralIsEscape(p[2..], t);
        assert s == [p[1]] + t;
        assert s[1..] == t;
        assert p == ['\\', p[1]] + p[2..];
      } else {
        var t := Literal(p[1..]).value;
        LiteralIsEscape(p[1..], t);
        assert s == [p[0]] + t;
        assert s[1..] == t;
        assert p == [p[0]] + p[1..];
      }
    }
  }

  /**
   * `new RegExp(escapedKeyword, 'gi')`: the literal text the compiled
   * pattern searches for, which is the keyword itself.
   */
  function Compile(keyword: string): (literal: string)
    ensures literal == keyword
  {
    EscapeIsLiteral(keyword);
    Literal(Escape(keyword)).value
  }
}
