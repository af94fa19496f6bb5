/**
 * addLinebreaks: blank, verbatim and comment lines pass through; every other line is split
 * into its non-comment prefix and comment suffix, the macro rules rewrite the prefix in the
 * order they were registered, the suffix is appended again, and the text is split at the
 * inserted separators into stripped, non-blank lines.
 */
module Breaking {
  import opened Text
  import opened LatexLines
  import opened Grammar
  import opened Failures

  /** The lines made from the pieces of a split, in order: blank pieces are dropped, the
      others stripped; each is a clone of l carrying its piece. */
  function Pieces(l: Line, ps: seq<string>): seq<Line>
  {
    if ps == [] then []
    else
      var last := ps[|ps| - 1];
      Pieces(l, ps[..|ps| - 1]) + (if IsBlank(last) then [] else [CloneWith(l, Strip(last))])
  }

  /** No piece line is blank or has whitespace at either end, and each carries the tags of l. */
  lemma {:induction false} PiecesShape(l: Line, ps: seq<string>)
    ensures |Pieces(l, ps)| <= |ps|
    ensures forall k :: 0 <= k < |Pieces(l, ps)| ==>
      var r := Pieces(l, ps)[k];
      !IsBlank(r.content) && IsStripped(r.content) && r == CloneWith(l, r.content)
  {
    if ps != [] {
      var last := ps[|ps| - 1];
      PiecesShape(l, ps[..|ps| - 1]);
      StripEmptyIffBlank(last);
      StripIsStripped(last);
    }
  }

  /** Whether addLinebreaks leaves the line as it is. */
  predicate PassesThrough(l: Line)
  {
    IsBlank(l.content) || l.protect || l.lineComment
  }

  /** The lines that replace one line, or the failure of the comment split. */
  function BreakLine(rules: seq<Rule>, l: Line): Result<seq<Line>>
  {
    if PassesThrough(l) then Ok([l])
    else
      match CommentSplit(l.content)
      case None => Error(NoCommentSplit(l.content))
      case Some((prefix, comment)) => Ok(Pieces(l, JavaSplit(ApplyRules(rules, prefix) + comment, NEWLINE)))
  }

  /** The whole pass; the first line without a comment split stops it. */
  function AddBreaks(rules: seq<Rule>, ls: seq<Line>): Result<seq<Line>>
  {
    if ls == [] then Ok([])
    else
      match AddBreaks(rules, ls[..|ls| - 1])
      case Error(f) => Error(f)
      case Ok(front) =>
        match BreakLine(rules, ls[|ls| - 1])
        case Error(f) => Error(f)
        case Ok(more) => Ok(front + more)
  }

  /** A line that does not pass through becomes lines that are not blank, stripped and not
      verbatim, carrying the original's math tag and no comment tag. */
  lemma BrokenLinesShape(rules: seq<Rule>, l: Line)
    requires !PassesThrough(l) && BreakLine(rules, l).Ok?
    ensures forall k :: 0 <= k < |BreakLine(rules, l).value| ==>
      var m := BreakLine(rules, l).value[k];
      !IsBlank(m.content) && IsStripped(m.content) && !m.protect && !m.lineComment
      && m.protectSentences == l.protectSentences
  {
    if !PassesThrough(l) {
      var (prefix, comment) := CommentSplit(l.content).value;
      PiecesShape(l, JavaSplit(ApplyRules(rules, prefix) + comment, NEWLINE));
    }
  }

  /** The pass fails exactly when some line that does not pass through has no comment split. */
  lemma {:induction false} AddBreaksFails(rules: seq<Rule>, ls: seq<Line>)
    ensures AddBreaks(rules, ls).Error? <==>
      exists k :: 0 <= k < |ls| && !PassesThrough(ls[k]) && CommentSplit(ls[k].content).None?
  {
    if ls != [] {
      var init := ls[..|ls| - 1];
      AddBreaksFails(rules, init);
      if exists k :: 0 <= k < |init| && !PassesThrough(init[k]) && CommentSplit(init[k].content).None? {
        var k :| 0 <= k < |init| && !PassesThrough(init[k]) && CommentSplit(init[k].content).None?;
        assert ls[k] == init[k];
      }
      if exists k :: 0 <= k < |ls| && !PassesThrough(ls[k]) && CommentSplit(ls[k].content).None? {
        var k :| 0 <= k < |ls| && !PassesThrough(ls[k]) && CommentSplit(ls[k].content).None?;
        if k < |init| {
          assert init[k] == ls[k];
        }
      }
    }
  }

  lemma {:induction false} NonWsWithoutSeparators(s: string)
    ensures NonWs(WithoutSeparators(s)) == NonWs(s)
  {
    if s != [] {
      NonWsWithoutSeparators(s[1..]);
      var h := if s[0] == NEWLINE then [] else [s[0]];
      assert s == [s[0]] + s[1..];
      NonWsAppend([s[0]], s[1..]);
      NonWsAppend(h, WithoutSeparators(s[1..]));
      assert NonWs([s[0]]) == NonWs(h) by {
        assert [s[0]][1..] == [];
        if h != [] { assert h[1..] == []; }
      }
    }
  }

  /** The rules change whitespace only. */
  lemma RulesKeepNonWs(rules: seq<Rule>, s: string)
    ensures NonWs(ApplyRules(rules, s)) == NonWs(s)
  {
    RulesAddSeparatorsOnly(rules, s);
    NonWsWithoutSeparators(ApplyRules(rules, s));
    NonWsWithoutSeparators(s);
  }

  lemma {:induction false} PiecesKeepNonWs(l: Line, ps: seq<string>)
    ensures Letters(Pieces(l, ps)) == NonWsAll(ps)
  {
    if ps != [] {
      var init, last := ps[..|ps| - 1], ps[|ps| - 1];
      PiecesKeepNonWs(l, init);
      InitLast(ps);
      NonWsAllAppend(init, [last]);
      assert NonWsAll([last]) == NonWs(last) + NonWsAll([]);
      var h := if IsBlank(last) then [] else [CloneWith(l, Strip(last))];
      LettersAppend(Pieces(l, init), h);
      NonWsOfBlank(last);
      if h != [] {
        LettersSingle(h[0]);
        StripKeepsNonWs(last);
      } else {
        assert Letters(h) == [];
      }
    }
  }

  /** A line's non-whitespace text survives the pass, in order. */
  lemma BreakLineKeepsLetters(rules: seq<Rule>, l: Line)
    requires BreakLine(rules, l).Ok?
    ensures Letters(BreakLine(rules, l).value) == NonWs(l.content)
  {
    if PassesThrough(l) {
      LettersSingle(l);
    } else {
      var (prefix, comment) := CommentSplit(l.content).value;
      CommentSplitSound(l.content);
      var t := ApplyRules(rules, prefix) + comment;
      PiecesKeepNonWs(l, JavaSplit(t, NEWLINE));
      JavaSplitKeepsNonWs(t, NEWLINE);
      NonWsAppend(ApplyRules(rules, prefix), comment);
      RulesKeepNonWs(rules, prefix);
      NonWsAppend(prefix, comment);
    }
  }

  lemma BreakLineKeepsProtected(rules: seq<Rule>, l: Line)
    requires BreakLine(rules, l).Ok?
    ensures ProtectedText(BreakLine(rules, l).value) == ProtectedText([l])
  {
    var r := BreakLine(rules, l).value;
    if !PassesThrough(l) {
      BrokenLinesShape(rules, l);
      NoProtectedText(r);
      NoProtectedText([l]);
    }
  }

  /** The pass loses no text and leaves verbatim lines as they are. */
  lemma {:induction false} AddBreaksKeepsText(rules: seq<Rule>, ls: seq<Line>)
    requires AddBreaks(rules, ls).Ok?
    ensures Letters(AddBreaks(rules, ls).value) == Letters(ls)
    ensures ProtectedText(AddBreaks(rules, ls).value) == ProtectedText(ls)
  {
    if ls != [] {
      var init, last := ls[..|ls| - 1], ls[|ls| - 1];
      AddBreaksKeepsText(rules, init);
      var front, more := AddBreaks(rules, init).value, BreakLine(rules, last).value;
      BreakLineKeepsLetters(rules, last);
      BreakLineKeepsProtected(rules, last);
      LettersSingle(last);
      InitLast(ls);
      LettersAppend(front, more);
      LettersAppend(init, [last]);
      ProtectedTextAppend(front, more);
      ProtectedTextAppend(init, [last]);
    }
  }

  /** The pass over the first k + 1 lines extends the pass over the first k by line k, and
      an earlier failure stands. */
  lemma AddBreaksSnoc(rules: seq<Rule>, ls: seq<Line>, k: nat)
    requires k < |ls|
    ensures AddBreaks(rules, ls[..k]).Error? ==> AddBreaks(rules, ls[..k + 1]) == AddBreaks(rules, ls[..k])
    ensures AddBreaks(rules, ls[..k]).Ok? && BreakLine(rules, ls[k]).Error? ==>
      AddBreaks(rules, ls[..k + 1]) == Error(BreakLine(rules, ls[k]).failure)
    ensures AddBreaks(rules, ls[..k]).Ok? && BreakLine(rules, ls[k]).Ok? ==>
      AddBreaks(rules, ls[..k + 1]) == Ok(AddBreaks(rules, ls[..k]).value + BreakLine(rules, ls[k]).value)
  {
    assert ls[..k + 1][..k] == ls[..k];
  }

  /** Once the pass fails on a prefix, it fails on the whole document with the same failure. */
  lemma {:induction false} AddBreaksStops(rules: seq<Rule>, ls: seq<Line>, k: nat)
    requires k <= |ls| && AddBreaks(rules, ls[..k]).Error?
    ensures AddBreaks(rules, ls) == AddBreaks(rules, ls[..k])
    decreases |ls| - k
  {
    if k < |ls| {
      AddBreaksSnoc(rules, ls, k);
      AddBreaksStops(rules, ls, k + 1);
    } else {
      assert ls[..k] == ls;
    }
  }

  /** The pass over one more piece of a split. */
  lemma PiecesSnoc(l: Line, ps: seq<string>, j: nat)
    requires j < |ps|
    ensures Pieces(l, ps[..j + 1]) ==
      Pieces(l, ps[..j]) + (if IsBlank(ps[j]) then [] else [CloneWith(l, Strip(ps[j]))])
  {
    assert ps[..j + 1][..j] == ps[..j];
  }
}
