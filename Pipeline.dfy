/**
 * process(): the passes in their fixed order, then removeDuplicateBlanks, then the lines
 * joined into the result text, each followed by the line separator.
 */
module Pipeline {
  import opened Text
  import opened LatexLines
  import opened Grammar
  import opened Failures
  import opened Tagging
  import opened BlankLines
  import opened Merging
  import opened Breaking
  import opened Sentences

  /** The settings read from latexbreak.config: the whole-line patterns of the region markers
      and of the merge guards, the inline-math markers with the sentence-end characters, and
      the two switches. */
  datatype Config = Config(
    beginProtected: string -> bool, endProtected: string -> bool,
    beginProtectSentences: string -> bool, endProtectSentences: string -> bool,
    protectBreakAfter: string -> bool, protectBreakBefore: string -> bool,
    markers: Markers, removeNewlines: bool, breakAfterSentences: bool)

  /** The document as the constructor builds it: one untagged line per input line. */
  function Initial(texts: seq<string>): seq<Line>
  {
    seq(|texts|, k requires 0 <= k < |texts| => Line(texts[k], false, false, false))
  }

  /** removeDuplicateBlanks: on every line, verbatim or not, runs of spaces become one space. */
  function CollapseAll(ls: seq<Line>): (r: seq<Line>)
    ensures |r| == |ls|
    ensures forall k :: 0 <= k < |ls| ==>
      r[k] == ls[k].(content := r[k].content) && NoDoubleSpace(r[k].content)
  {
    seq(|ls|, k requires 0 <= k < |ls| => ls[k].(content := CollapseSpaces(ls[k].content)))
  }

  /** The texts with their space runs collapsed. */
  function CollapseEach(ps: seq<string>): (r: seq<string>)
  {
    if ps == [] then [] else CollapseEach(ps[..|ps| - 1]) + [CollapseSpaces(ps[|ps| - 1])]
  }

  /** The text process() returns: each line followed by the separator. */
  function Render(ls: seq<Line>): string
  {
    if ls == [] then [] else ls[0].content + [NEWLINE] + Render(ls[1..])
  }

  /** Passes 1 to 4: verbatim regions, trim, comment lines and, when newlines are to be
      removed, blank-line de-duplication and merging. */
  function Prepare(cfg: Config, ls: seq<Line>): Result<seq<Line>>
  {
    match TagVerbatim(cfg.beginProtected, cfg.endProtected, ls)
    case Error(f) => Error(f)
    case Ok(v) =>
      var t := TagComments(TrimLines(v));
      Ok(if cfg.removeNewlines
         then RemoveLinebreaks(cfg.protectBreakAfter, cfg.protectBreakBefore, DedupBlankLines(t))
         else t)
  }

  /** Passes 5 to 7: line breaks around macros, block-math regions and, when configured,
      sentence splitting. */
  function Break(cfg: Config, rules: seq<Rule>, ls: seq<Line>): Result<seq<Line>>
  {
    match AddBreaks(rules, ls)
    case Error(f) => Error(f)
    case Ok(b) =>
      match TagMath(cfg.beginProtectSentences, cfg.endProtectSentences, b)
      case Error(f) => Error(f)
      case Ok(w) => Ok(if cfg.breakAfterSentences then SplitSentences(cfg.markers, w) else w)
  }

  /** Passes 8 and 9: trim again, then collapse space runs. */
  function Finish(ls: seq<Line>): seq<Line>
  {
    CollapseAll(TrimLines(ls))
  }

  /** The lines of the result. */
  function Lines(cfg: Config, rules: seq<Rule>, ls: seq<Line>): Result<seq<Line>>
  {
    match Prepare(cfg, ls)
    case Error(f) => Error(f)
    case Ok(p) =>
      match Break(cfg, rules, p)
      case Error(f) => Error(f)
      case Ok(b) => Ok(Finish(b))
  }

  /** process(): the result text, or why the run stopped. */
  function Run(cfg: Config, rules: seq<Rule>, ls: seq<Line>): Result<string>
  {
    match Lines(cfg, rules, ls)
    case Error(f) => Error(f)
    case Ok(out) => Ok(Render(out))
  }

  // ---------------------------------------------------------------------------------------
  // The result text

  lemma {:induction false} RenderSnoc(ls: seq<Line>, l: Line)
    ensures Render(ls + [l]) == Render(ls) + l.content + [NEWLINE]
  {
    ConsShape(ls, [l]);
    if ls != [] {
      RenderSnoc(ls[1..], l);
    }
  }

  /** Splitting the result at the separator gives back the lines, in order, and the empty
      text after the last separator, provided no line holds a separator of its own. */
  lemma {:induction false} RenderSplits(ls: seq<Line>)
    requires forall k :: 0 <= k < |ls| ==> NEWLINE !in ls[k].content
    ensures SplitAll(Render(ls), NEWLINE) == Contents(ls) + [[]]
  {
    if ls != [] {
      RenderSplits(ls[1..]);
      SplitAllPrefix(ls[0].content, Render(ls[1..]), NEWLINE);
      assert Contents(ls) == [ls[0].content] + Contents(ls[1..]);
    }
  }

  // ---------------------------------------------------------------------------------------
  // Final normalisation

  /** After the last two passes no line holds two adjacent spaces and every line that is not
      verbatim is stripped; nothing else about the lines changes. */
  lemma FinishNormalises(ls: seq<Line>)
    ensures |Finish(ls)| == |ls|
    ensures forall k :: 0 <= k < |ls| ==>
      var r := Finish(ls)[k];
      NoDoubleSpace(r.content) && (!r.protect ==> IsStripped(r.content))
      && r.protect == ls[k].protect && r.protectSentences == ls[k].protectSentences
      && r.lineComment == ls[k].lineComment
  {
    var t := TrimLines(ls);
    forall k | 0 <= k < |ls| && !t[k].protect ensures IsStripped(CollapseSpaces(t[k].content)) {
      CollapseKeepsStripped(t[k].content);
    }
  }

  /** Running removeDuplicateBlanks again changes nothing. */
  lemma CollapseAllIdempotent(ls: seq<Line>)
    ensures CollapseAll(CollapseAll(ls)) == CollapseAll(ls)
  {
    var c := CollapseAll(ls);
    forall k | 0 <= k < |ls| ensures CollapseAll(c)[k] == c[k] {
      CollapseOfSpaceFree(c[k].content);
    }
  }

  lemma CollapseAllInit(ls: seq<Line>)
    requires ls != []
    ensures CollapseAll(ls) == CollapseAll(ls[..|ls| - 1]) + [CollapseAll(ls)[|ls| - 1]]
  {
    var c, d := CollapseAll(ls), CollapseAll(ls[..|ls| - 1]);
    assert forall k :: 0 <= k < |d| ==> d[k] == c[k];
  }

  /** Collapsing deletes spaces only, and turns the verbatim texts into their collapsed
      forms. */
  lemma {:induction false} CollapseAllKeepsText(ls: seq<Line>)
    ensures Letters(CollapseAll(ls)) == Letters(ls)
    ensures ProtectedText(CollapseAll(ls)) == CollapseEach(ProtectedText(ls))
  {
    if ls != [] {
      var init, last := ls[..|ls| - 1], ls[|ls| - 1];
      var c := CollapseAll(ls);
      CollapseAllInit(ls);
      CollapseAllKeepsText(init);
      CollapseKeepsNonWs(last.content);
      CollapseEachAppend(ProtectedText(init), if last.protect then [last.content] else []);
    }
  }

  lemma CollapseEachAppend(ps: seq<string>, qs: seq<string>)
    requires |qs| <= 1
    ensures CollapseEach(ps + qs) == CollapseEach(ps) + CollapseEach(qs)
  {
    AppendShape(ps, qs);
    if qs != [] {
      assert qs[..0] == [];
    }
  }

  // ---------------------------------------------------------------------------------------
  // Text through the passes

  /** Two documents whose lines agree in text have the same letters; when they also agree in
      the verbatim tag they have the same verbatim text. */
  lemma {:induction false} SameText(a: seq<Line>, b: seq<Line>)
    requires |a| == |b|
    requires forall k :: 0 <= k < |a| ==> a[k].content == b[k].content
    ensures Letters(a) == Letters(b)
    ensures (forall k :: 0 <= k < |a| ==> a[k].protect == b[k].protect) ==> ProtectedText(a) == ProtectedText(b)
  {
    if a != [] {
      SameText(a[..|a| - 1], b[..|b| - 1]);
    }
  }

  /** Passes 1 to 4 lose no letters, and keep the verbatim text that the first of them
      marks. */
  lemma PrepareKeepsText(cfg: Config, ls: seq<Line>)
    requires Prepare(cfg, ls).Ok?
    ensures Letters(Prepare(cfg, ls).value) == Letters(ls)
    ensures ProtectedText(Prepare(cfg, ls).value)
         == ProtectedText(TagVerbatim(cfg.beginProtected, cfg.endProtected, ls).value)
  {
    var v := TagVerbatim(cfg.beginProtected, cfg.endProtected, ls).value;
    var tr := TrimLines(v);
    var t := TagComments(tr);
    SameText(ls, v);
    TrimKeepsLetters(v);
    TrimKeepsProtected(v);
    SameText(tr, t);
    if cfg.removeNewlines {
      var d := DedupBlankLines(t);
      DedupKeepsText(t);
      MergeKeepsText(cfg.protectBreakAfter, cfg.protectBreakBefore, d, 0);
      MergeKeepsProtected(cfg.protectBreakAfter, cfg.protectBreakBefore, d);
    }
  }

  /** The block-math tags are set only after the merge pass: an input without them reaches
      removeLinebreaks without them. */
  lemma PrepareKeepsNoMathTags(cfg: Config, ls: seq<Line>)
    requires NoMathTags(ls) && Balanced(cfg.beginProtected, cfg.endProtected, ls)
    ensures NoMathTags(DedupBlankLines(TagComments(TrimLines(TagVerbatim(cfg.beginProtected, cfg.endProtected, ls).value))))
  {
    var t := TagComments(TrimLines(TagVerbatim(cfg.beginProtected, cfg.endProtected, ls).value));
    assert NoMathTags(t);
    var d := DedupBlankLines(t);
    DedupFromInput(t, false);
    forall k | 0 <= k < |d|
      ensures !d[k].protectSentences
    {
      assert d[k] in t;
    }
  }

  /** Passes 5 to 7 keep the verbatim text; without sentence splitting they also keep the
      letters. */
  lemma BreakKeepsText(cfg: Config, rules: seq<Rule>, ls: seq<Line>)
    requires Break(cfg, rules, ls).Ok?
    ensures ProtectedText(Break(cfg, rules, ls).value) == ProtectedText(ls)
    ensures !cfg.breakAfterSentences ==> Letters(Break(cfg, rules, ls).value) == Letters(ls)
  {
    var b := AddBreaks(rules, ls).value;
    var w := TagMath(cfg.beginProtectSentences, cfg.endProtectSentences, b).value;
    AddBreaksKeepsText(rules, ls);
    SameText(b, w);
    if cfg.breakAfterSentences {
      SplitKeepsProtected(cfg.markers, w);
    }
  }

  /** End to end: the verbatim lines of the result are the lines of the verbatim regions of
      the input, in order, with their space runs collapsed (removeDuplicateBlanks does not
      skip them). */
  lemma RunKeepsVerbatim(cfg: Config, rules: seq<Rule>, ls: seq<Line>)
    requires Lines(cfg, rules, ls).Ok?
    ensures ProtectedText(Lines(cfg, rules, ls).value)
         == CollapseEach(ProtectedText(TagVerbatim(cfg.beginProtected, cfg.endProtected, ls).value))
  {
    var p := Prepare(cfg, ls).value;
    var b := Break(cfg, rules, p).value;
    PrepareKeepsText(cfg, ls);
    BreakKeepsText(cfg, rules, p);
    TrimKeepsProtected(b);
    CollapseAllKeepsText(TrimLines(b));
  }

  /** End to end, without sentence splitting: the result holds the same non-whitespace
      characters as the input, in the same order. */
  lemma RunKeepsLetters(cfg: Config, rules: seq<Rule>, ls: seq<Line>)
    requires !cfg.breakAfterSentences && Lines(cfg, rules, ls).Ok?
    ensures Letters(Lines(cfg, rules, ls).value) == Letters(ls)
  {
    var p := Prepare(cfg, ls).value;
    var b := Break(cfg, rules, p).value;
    PrepareKeepsText(cfg, ls);
    BreakKeepsText(cfg, rules, p);
    TrimKeepsLetters(b);
    CollapseAllKeepsText(TrimLines(b));
  }

  /** End to end: every line of the result is free of double spaces, and stripped unless it
      is verbatim. */
  lemma RunNormalised(cfg: Config, rules: seq<Rule>, ls: seq<Line>)
    requires Lines(cfg, rules, ls).Ok?
    ensures forall k :: 0 <= k < |Lines(cfg, rules, ls).value| ==>
      var r := Lines(cfg, rules, ls).value[k];
      NoDoubleSpace(r.content) && (!r.protect ==> IsStripped(r.content))
  {
    FinishNormalises(Break(cfg, rules, Prepare(cfg, ls).value).value);
  }

  /** The run stops exactly at an unbalanced verbatim region, a line without a comment split,
      or an unbalanced block-math region, in that order; otherwise it yields the text. */
  lemma RunFails(cfg: Config, rules: seq<Rule>, ls: seq<Line>)
    ensures !Balanced(cfg.beginProtected, cfg.endProtected, ls) ==> Run(cfg, rules, ls) == Error(UnbalancedRegion)
    ensures Run(cfg, rules, ls).Error? <==>
      !Balanced(cfg.beginProtected, cfg.endProtected, ls)
      || AddBreaks(rules, Prepare(cfg, ls).value).Error?
      || !Balanced(cfg.beginProtectSentences, cfg.endProtectSentences, AddBreaks(rules, Prepare(cfg, ls).value).value)
    ensures Prepare(cfg, ls).Ok? ==>
      (AddBreaks(rules, Prepare(cfg, ls).value).Error? <==>
       exists k :: 0 <= k < |Prepare(cfg, ls).value| && !PassesThrough(Prepare(cfg, ls).value[k])
                   && CommentSplit(Prepare(cfg, ls).value[k].content).None?)
  {
    if Prepare(cfg, ls).Ok? {
      AddBreaksFails(rules, Prepare(cfg, ls).value);
    }
  }

  // ---------------------------------------------------------------------------------------
  // Text cut out of a comment

  /** splitSentences also cuts comment lines, and the text after a sentence end is no longer
      behind the %: with '.' as a line end, "% a. \\foo b" passes addLinebreaks untouched as
      a comment, becomes "% a.", "%" and " \\foo b", and the last trim leaves "\\foo b". */
  lemma CommentTailLeavesComment(mk: Markers, rules: seq<Rule>)
    requires mk.lineEnds == {'.'} && forall s :: mk.beginInline(s) <= 0
    ensures var l := Line("% a. \\foo b", false, false, true);
      BreakLine(rules, l) == Ok([l]) && !IsBlank(l.content) &&
      SplitLine(mk, l) == [Line("% a.", false, false, false), Line("%", false, false, false),
                           Line(" \\foo b", false, false, false)] &&
      Strip(" \\foo b") == "\\foo b"
  {
    var l := Line("% a. \\foo b", false, false, true);
    CommentEnds(mk);
    CommentCuts(l);
    assert Emitted(l, [3]) == [Cut(l, 0, 4), CloneWith(l, "%")];
    assert Start([3], 1) == 4;
    assert SplitLine(mk, l) == SplitAt(l, [3]) == Emitted(l, [3]) + [CloneWith(l, l.content[4..])];
  }

  /** The pieces of "% a. \\foo b" cut after the '.'. */
  lemma CommentCuts(l: Line)
    requires l == Line("% a. \\foo b", false, false, true)
    ensures !IsBlank(l.content) && l.content[4..] == " \\foo b" && !IsBlank(l.content[4..])
    ensures Cut(l, 0, 4) == Line("% a.", false, false, false)
    ensures Strip(" \\foo b") == "\\foo b"
  {
    var c := l.content;
    assert !IsBlank(c) by { assert !IsWhitespace(c[0]); }
    assert Strip(c[0..4]) == "% a." by {
      assert c[0..4] == "% a.";
      assert StripLeading("% a.") == "% a." && StripTrailing("% a.") == "% a.";
    }
    assert c[4..] == " \\foo b" && !IsBlank(c[4..]) by { assert !IsWhitespace(c[5]); }
    var t := " \\foo b";
    assert t[1..] == "\\foo b" && StripLeading(t) == "\\foo b";
    assert StripTrailing("\\foo b") == "\\foo b";
  }

  /** In "% a. \\foo b" with '.' as a line end, the one sentence ends at the '.'. */
  lemma CommentEnds(mk: Markers)
    requires mk.lineEnds == {'.'} && forall s :: mk.beginInline(s) <= 0
    ensures Ends(mk, "% a. \\foo b", 0, false) == [3]
  {
    var c := "% a. \\foo b";
    NoEndsAfterPeriod(mk);
    assert Ends(mk, c, 3, false) == [3];
    assert Ends(mk, c, 2, false) == [3];
    assert Ends(mk, c, 1, false) == [3];
  }

  /** No sentence ends after the '.' of "% a. \\foo b". */
  lemma NoEndsAfterPeriod(mk: Markers)
    requires mk.lineEnds == {'.'} && forall s :: mk.beginInline(s) <= 0
    ensures Ends(mk, "% a. \\foo b", 4, false) == []
  {
    var c := "% a. \\foo b";
    assert Ends(mk, c, 10, false) == [];
    assert Ends(mk, c, 9, false) == [];
    assert Ends(mk, c, 8, false) == [];
    assert Ends(mk, c, 7, false) == [];
    assert Ends(mk, c, 6, false) == [];
    assert Ends(mk, c, 5, false) == [];
  }

  /** On a second run the cut-out text is ordinary text: an After rule for foo breaks
      "\\foo b" into "\\foo" and "b". */
  lemma SecondRunBreaksTail()
    ensures BreakLine([Rule("foo", After)], Line("\\foo b", false, false, false))
      == Ok([Line("\\foo", false, false, false), Line("b", false, false, false)])
  {
    var rule := Rule("foo", After);
    var l := Line("\\foo b", false, false, false);
    var w := l.content;
    var ps := ["\\foo", " b"];
    assert !PassesThrough(l) by { assert !IsWhitespace(w[0]); }
    assert CommentSplit(w) == Some((w, [])) by {
      assert forall i :: 0 <= i < |w| ==> w[i] != '%';
    }
    BreakLineOfSplit([rule], l, w, []);
    assert ApplyRules([rule], w) == Rewrite(rule, w) by {
      assert [rule][1..] == [];
    }
    TailRewrite();
    TailSplit();
    assert ApplyRules([rule], w) + [] == "\\foo" + [NEWLINE] + " b";
    TailPieces(l);
  }

  /** A line that does not pass through, with its comment split, becomes the pieces. */
  lemma BreakLineOfSplit(rules: seq<Rule>, l: Line, prefix: string, comment: string)
    requires !PassesThrough(l) && CommentSplit(l.content) == Some((prefix, comment))
    ensures BreakLine(rules, l) == Ok(Pieces(l, JavaSplit(ApplyRules(rules, prefix) + comment, NEWLINE)))
  {
  }

  /** The pieces "\\foo" and " b" become the lines "\\foo" and "b". */
  lemma TailPieces(l: Line)
    requires l == Line("\\foo b", false, false, false)
    ensures Pieces(l, ["\\foo", " b"]) == [Line("\\foo", false, false, false), Line("b", false, false, false)]
  {
    var ps := ["\\foo", " b"];
    StrippedWord("\\foo");
    assert Strip(" b") == "b" by { assert " b"[1..] == "b"; StrippedWord("b"); }
    assert !IsBlank(ps[0]) && !IsBlank(ps[1]) by {
      assert !IsWhitespace(ps[0][0]) && !IsWhitespace(ps[1][1]);
    }
    assert ps[..1] == ["\\foo"] && ["\\foo"][..0] == [];
    assert Pieces(l, ["\\foo"]) == [CloneWith(l, "\\foo")];
  }

  /** The rewritten text splits into the invocation and the rest. */
  lemma TailSplit()
    ensures JavaSplit("\\foo" + [NEWLINE] + " b", NEWLINE) == ["\\foo", " b"]
  {
    var ps := ["\\foo", " b"];
    var t := "\\foo" + [NEWLINE] + " b";
    assert JoinWith(ps, NEWLINE) == t by { assert ps[1..] == [" b"]; }
    assert NEWLINE !in ps[0] by { assert forall i :: 0 <= i < 4 ==> ps[0][i] != NEWLINE; }
    assert NEWLINE !in ps[1] by { assert forall i :: 0 <= i < 2 ==> ps[1][i] != NEWLINE; }
    SplitJoinWith(ps, NEWLINE);
    assert NEWLINE in t by { assert t[4] == NEWLINE; }
  }

  /** A text with no whitespace at either end is its own strip. */
  lemma StrippedWord(s: string)
    requires s != [] && !IsWhitespace(s[0]) && !IsWhitespace(s[|s| - 1])
    ensures Strip(s) == s
  {
    assert StripLeading(s) == s;
  }

  /** The After rule for foo on "\\foo b": a break after the invocation, which has no
      arguments. */
  lemma TailRewrite()
    ensures Rewrite(Rule("foo", After), "\\foo b") == "\\foo" + [NEWLINE] + " b"
  {
    var s := "\\foo b";
    var rule := Rule("foo", After);
    assert GroupEnd(s, 4, '{', '}') == None && GroupEnd(s, 4, '[', ']') == None;
    assert s[1..] == "foo b" && s[1..][..3] == "foo";
    assert MatchAt("foo", s, 0) == Some(Match([], [], 4));
    assert MatchAt("foo", s, 4).None? by { assert s[5] != '\\'; }
    assert MatchAt("foo", s, 5).None?;
    NoMatchCopies(rule, s, 4);
    assert s[4..] == " b";
  }
}
