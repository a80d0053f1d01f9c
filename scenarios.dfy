/** Worked examples of the engine's behaviour on concrete texts. */
module Scenarios {
  import opened Options
  import opened Matcher
  import opened Navigator
  import opened Replacer
  import opened FindReplace

  /** What follows the first word of the sentence. */
  const SentenceTail: string := " is great. react makes UIs."

  /** "React is great. react makes UIs." */
  const Sentence: string := "React" + SentenceTail

  /** The keyword does not start at `i` because its `j`-th character differs there. */
  lemma CharDiffers(text: string, key: string, i: nat, j: nat)
    requires j < |key| && i + j < |text| && Fold(text[i + j]) != Fold(key[j])
    ensures !OccursAt(text, key, i)
  {
    if i + |key| <= |text| {
      AgreesFromMeans(text, key, i, 0);
    }
  }

  /** The scan jumps over a stretch that holds no occurrence. */
  lemma {:induction false} SkipTo(text: string, key: string, from: nat, to: nat)
    requires from <= to
    requires forall i: nat :: from <= i < to ==> !OccursAt(text, key, i)
    decreases (to as int) - (from as int)
    ensures NextOccurrence(text, key, from) == NextOccurrence(text, key, to)
  {
    if from < to {
      SkipTo(text, key, from + 1, to);
    }
  }

  /** No occurrence of "react" starts between the two spellings. */
  lemma NoOccurrenceBetween(i: nat)
    requires 5 <= i < 16
    ensures !OccursAt(Sentence, "react", i)
  {
    var t, k := Sentence, "react";
    if i == 5 {
      assert t[5] == ' ';
      CharDiffers(t, k, 5, 0);
    } else if i == 6 {
      assert t[6] == 'i';
      CharDiffers(t, k, 6, 0);
    } else if i == 7 {
      assert t[7] == 's';
      CharDiffers(t, k, 7, 0);
    } else if i == 8 {
      assert t[8] == ' ';
      CharDiffers(t, k, 8, 0);
    } else if i == 9 {
      assert t[9] == 'g';
      CharDiffers(t, k, 9, 0);
    } else if i == 10 {
      assert t[13] == 't';
      CharDiffers(t, k, 10, 3);
    } else if i == 11 {
      assert t[11] == 'e';
      CharDiffers(t, k, 11, 0);
    } else if i == 12 {
      assert t[12] == 'a';
      CharDiffers(t, k, 12, 0);
    } else if i == 13 {
      assert t[13] == 't';
      CharDiffers(t, k, 13, 0);
    } else if i == 14 {
      assert t[14] == '.';
      CharDiffers(t, k, 14, 0);
    } else if i == 15 {
      assert t[15] == ' ';
      CharDiffers(t, k, 15, 0);
    }
  }

  /** No occurrence of "react" starts after the second spelling. */
  lemma NoOccurrenceAfter(i: nat)
    requires 21 <= i < 28
    ensures !OccursAt(Sentence, "react", i)
  {
    var t, k := Sentence, "react";
    if i == 21 {
      assert t[21] == ' ';
      CharDiffers(t, k, 21, 0);
    } else if i == 22 {
      assert t[22] == 'm';
      CharDiffers(t, k, 22, 0);
    } else if i == 23 {
      assert t[23] == 'a';
      CharDiffers(t, k, 23, 0);
    } else if i == 24 {
      assert t[24] == 'k';
      CharDiffers(t, k, 24, 0);
    } else if i == 25 {
      assert t[25] == 'e';
      CharDiffers(t, k, 25, 0);
    } else if i == 26 {
      assert t[26] == 's';
      CharDiffers(t, k, 26, 0);
    } else if i == 27 {
      assert t[27] == ' ';
      CharDiffers(t, k, 27, 0);
    }
  }

  lemma BothSpellingsOccur()
    ensures OccursAt(Sentence, "react", 0) && OccursAt(Sentence, "react", 16)
    ensures Sentence[0..5] == "React" && Sentence[16..21] == "react"
  {
  }

  /** The scan of `findText` on the sentence: "React" at [0, 5) and "react" at [16, 21). */
  lemma SearchIgnoresCase()
    ensures FindAll(Sentence, "react") == [Match(0, 5, "React"), Match(16, 21, "react")]
  {
    var t, k := Sentence, "react";
    BothSpellingsOccur();
    forall i: nat | 5 <= i < 16 ensures !OccursAt(t, k, i) {
      NoOccurrenceBetween(i);
    }
    SkipTo(t, k, 5, 16);
    forall i: nat | 21 <= i < 28 ensures !OccursAt(t, k, i) {
      NoOccurrenceAfter(i);
    }
    SkipTo(t, k, 21, 28);
    assert NextOccurrence(t, k, 28) == None;
    assert ScanFrom(t, k, 21) == [];
    assert ScanFrom(t, k, 5) == [Match(16, 21, "react")];
    assert ScanFrom(t, k, 0) == [Match(0, 5, "React"), Match(16, 21, "react")];
  }

  const Repeated: string := "react react react"

  lemma RepeatedOccurrences()
    ensures OccursAt(Repeated, "react", 0) && OccursAt(Repeated, "react", 6) && OccursAt(Repeated, "react", 12)
    ensures !OccursAt(Repeated, "react", 5) && !OccursAt(Repeated, "react", 11)
  {
    assert Repeated[5] == ' ' && Repeated[11] == ' ';
    CharDiffers(Repeated, "react", 5, 0);
    CharDiffers(Repeated, "react", 11, 0);
  }

  /** Each `exec` call on the repeated text, from every position the scan resumes at. */
  lemma RepeatedExecs()
    ensures NextOccurrence(Repeated, "react", 0) == Some(0)
    ensures NextOccurrence(Repeated, "react", 5) == Some(6)
    ensures NextOccurrence(Repeated, "react", 11) == Some(12)
    ensures NextOccurrence(Repeated, "react", 17) == None
  {
    RepeatedOccurrences();
  }

  /** The last step of the single pass over the repeated text: " react" becomes " Vue". */
  lemma ReplaceLastOfThree()
    ensures ReplaceFrom(Repeated, "react", "Vue", 11) == " Vue"
  {
    var t, k, v := Repeated, "react", "Vue";
    RepeatedExecs();
    assert ReplaceFrom(t, k, v, 17) == "";
    ReplaceUnfold(t, k, v, 11, 12);
    assert t[11..12] == " ";
  }

  /** The middle step: " react react" becomes " Vue Vue". */
  lemma ReplaceLastTwoOfThree()
    ensures ReplaceFrom(Repeated, "react", "Vue", 5) == " Vue Vue"
  {
    var t, k, v := Repeated, "react", "Vue";
    RepeatedExecs();
    ReplaceLastOfThree();
    ReplaceUnfold(t, k, v, 5, 6);
    assert t[5..6] == " ";
  }

  lemma VueJoin()
    ensures "" + "Vue" + " Vue Vue" == "Vue Vue Vue"
  {
  }

  /** `replaceAll` of "react" by "Vue" on three occurrences: three replacements, nothing else touched. */
  lemma ReplaceThree()
    ensures ReplaceEvery(Repeated, "react", "Vue") == "Vue Vue Vue"
  {
    var t, k, v := Repeated, "react", "Vue";
    RepeatedExecs();
    ReplaceLastTwoOfThree();
    ReplaceUnfold(t, k, v, 0, 0);
    assert t[0..0] == "";
    VueJoin();
  }

  /** The count `replaceAll` reports for the repeated text. */
  lemma RepeatedCount()
    ensures |FindAll(Repeated, "react")| == 3
  {
    var t, k := Repeated, "react";
    RepeatedExecs();
    assert |ScanFrom(t, k, 11)| == 1;
    assert |ScanFrom(t, k, 5)| == 2;
  }

  /** "React.js is great. react makes UIs." */
  const Edited: string := "React.js" + SentenceTail

  /** Replacing a prefix keeps what follows it. */
  lemma SpliceFront(a: string, b: string, rep: string)
    ensures Splice(a + b, 0, |a|, rep) == rep + b
  {
    assert (a + b)[..0] == [];
    assert (a + b)[|a|..] == b;
  }

  /** `replaceCurrent` on the first match of the sentence with "React.js" as replacement. */
  lemma ReplaceFirstOfSentence()
    ensures Splice(Sentence, 0, 5, "React.js") == Edited
  {
    SpliceFront("React", SentenceTail, "React.js");
  }

  /** No occurrence of "react" starts in ".js is g" of the edited sentence. */
  lemma EditedNoOccurrenceBefore(i: nat)
    requires 5 <= i < 12
    ensures !OccursAt(Edited, "react", i)
  {
    var t, k := Edited, "react";
    if i == 5 {
      assert t[5] == '.';
      CharDiffers(t, k, 5, 0);
    } else if i == 6 {
      assert t[6] == 'j';
      CharDiffers(t, k, 6, 0);
    } else if i == 7 {
      assert t[7] == 's';
      CharDiffers(t, k, 7, 0);
    } else if i == 8 {
      assert t[8] == ' ';
      CharDiffers(t, k, 8, 0);
    } else if i == 9 {
      assert t[9] == 'i';
      CharDiffers(t, k, 9, 0);
    } else if i == 10 {
      assert t[10] == 's';
      CharDiffers(t, k, 10, 0);
    } else if i == 11 {
      assert t[11] == ' ';
      CharDiffers(t, k, 11, 0);
    }
  }

  /** No occurrence of "react" starts in "great. " of the edited sentence. */
  lemma EditedNoOccurrenceBetween(i: nat)
    requires 12 <= i < 19
    ensures !OccursAt(Edited, "react", i)
  {
    var t, k := Edited, "react";
    if i == 12 {
      assert t[12] == 'g';
      CharDiffers(t, k, 12, 0);
    } else if i == 13 {
      assert t[16] == 't';
      CharDiffers(t, k, 13, 3);
    } else if i == 14 {
      assert t[14] == 'e';
      CharDiffers(t, k, 14, 0);
    } else if i == 15 {
      assert t[15] == 'a';
      CharDiffers(t, k, 15, 0);
    } else if i == 16 {
      assert t[16] == 't';
      CharDiffers(t, k, 16, 0);
    } else if i == 17 {
      assert t[17] == '.';
      CharDiffers(t, k, 17, 0);
    } else if i == 18 {
      assert t[18] == ' ';
      CharDiffers(t, k, 18, 0);
    }
  }

  /** No occurrence of "react" starts after its second occurrence in the edited sentence. */
  lemma EditedNoOccurrenceAfter(i: nat)
    requires 24 <= i < 31
    ensures !OccursAt(Edited, "react", i)
  {
    var t, k := Edited, "react";
    if i == 24 {
      assert t[24] == ' ';
      CharDiffers(t, k, 24, 0);
    } else if i == 25 {
      assert t[25] == 'm';
      CharDiffers(t, k, 25, 0);
    } else if i == 26 {
      assert t[26] == 'a';
      CharDiffers(t, k, 26, 0);
    } else if i == 27 {
      assert t[27] == 'k';
      CharDiffers(t, k, 27, 0);
    } else if i == 28 {
      assert t[28] == 'e';
      CharDiffers(t, k, 28, 0);
    } else if i == 29 {
      assert t[29] == 's';
      CharDiffers(t, k, 29, 0);
    } else if i == 30 {
      assert t[30] == ' ';
      CharDiffers(t, k, 30, 0);
    }
  }

  lemma EditedOccurrences()
    ensures OccursAt(Edited, "react", 0) && OccursAt(Edited, "react", 19)
    ensures Edited[0..5] == "React" && Edited[19..24] == "react"
  {
    forall j | 0 <= j < 5 ensures Edited[19 + j] == "react"[j] {
      if j == 0 {} else if j == 1 {} else if j == 2 {} else if j == 3 {} else {}
    }
    Spelled(Edited, 19, "react");
    forall j | 0 <= j < 5 ensures Edited[j] == "React"[j] {
      if j == 0 {} else if j == 1 {} else if j == 2 {} else if j == 3 {} else {}
    }
    Spelled(Edited, 0, "React");
  }

  /** The text spells `w` from offset `i` on. */
  lemma Spelled(text: string, i: nat, w: string)
    requires i + |w| <= |text| && forall j :: 0 <= j < |w| ==> text[i + j] == w[j]
    ensures text[i..i + |w|] == w
  {
  }

  /**
   * The re-scan after that replacement: the keyword is matched ignoring
   * case, so the "React" inside the replacement "React.js" is found again
   * besides the shifted "react".
   */
  lemma RescanAfterReplace()
    ensures FindAll(Edited, "react") == [Match(0, 5, "React"), Match(19, 24, "react")]
  {
    var t, k := Edited, "react";
    EditedOccurrences();
    forall i: nat | 5 <= i < 19 ensures !OccursAt(t, k, i) {
      if i < 12 { EditedNoOccurrenceBefore(i); } else { EditedNoOccurrenceBetween(i); }
    }
    SkipTo(t, k, 5, 19);
    forall i: nat | 24 <= i < 31 ensures !OccursAt(t, k, i) {
      EditedNoOccurrenceAfter(i);
    }
    SkipTo(t, k, 24, 31);
    assert NextOccurrence(t, k, 31) == None;
    assert ScanFrom(t, k, 24) == [];
    assert ScanFrom(t, k, 5) == [Match(19, 24, "react")];
  }

  /** No occurrence at all: the list is empty. */
  lemma NoMatchAtAll()
    ensures FindAll("abc", "xyz") == []
  {
    CharDiffers("abc", "xyz", 0, 0);
    assert NextOccurrence("abc", "xyz", 0) == None;
  }

  /** Stepping through the sentence's two matches and wrapping around. */
  lemma NavigateTwoMatches()
    ensures Step(0, 2, Next) == 1 && Step(1, 2, Next) == 0
  {
  }

  /** A session on the panel: search, step forward twice, replace the current match, replace the rest. */
  method PanelSession()
  {
    var e := new Engine(Sentence);
    var notes := e.SetFindValue("react");
    SearchIgnoresCase();
    assert e.matches == [Match(0, 5, "React"), Match(16, 21, "react")];
    assert e.current == 0 && notes == [];
    e.SwitchMatch(Next);
    assert e.current == 1;
    e.SwitchMatch(Next);
    assert e.current == 0;
    e.SetReplaceValue("React.js");
    notes := e.ReplaceCurrent();
    ReplaceFirstOfSentence();
    RescanAfterReplace();
    assert e.content == Edited;
    assert e.matches == [Match(0, 5, "React"), Match(19, 24, "react")];
    assert e.current == 0 && notes == [Replaced];
    notes := e.SetFindValue("");
    assert e.matches == [] && e.current == -1 && notes == [];
    notes := e.ReplaceAll();
    assert notes == [NothingToReplace] && e.content == Edited;
  }

  /** Replacing every occurrence of "react" by "Vue" reports three replacements and clears the list. */
  method ReplaceAllSession()
  {
    var e := new Engine(Repeated);
    var notes := e.SetFindValue("react");
    RepeatedCount();
    assert |e.matches| == 3;
    e.SetReplaceValue("Vue");
    notes := e.ReplaceAll();
    ReplaceThree();
    assert e.content == "Vue Vue Vue";
    assert notes == [ReplacedAll(3)];
    assert e.matches == [] && e.current == -1;
  }
}
