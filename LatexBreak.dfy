/**
 * The reformatter (LatexBreak.java): the document is a list of line objects that the passes
 * of process() rewrite in place. Each pass is a method proved against the function that
 * specifies it, so that process() as a whole is proved against Pipeline.Run.
 */
module LatexBreaks {
  import opened Text
  import opened LatexLines
  import opened Grammar
  import opened Failures
  import opened Tagging
  import opened BlankLines
  import opened Merging
  import opened Breaking
  import opened Sentences
  import opened Pipeline

  lemma ViewsAppend(a: seq<LatexLine>, b: seq<LatexLine>)
    ensures Views(a + b) == Views(a) + Views(b)
  {
  }

  /** One line of the counter loops of detectVerbatim and detectMath: the begin check, the tag
      while the depth is positive, the end check. */
  method CountLine(line: LatexLine, begin: string -> bool, end: string -> bool, sentences: bool, depth: int) returns (next: int)
    modifies line
    ensures (line.View(), next) == Step(begin, end, sentences, old(line.View()), depth)
  {
    next := depth;
    if line.Matches(begin) {
      next := next + 1;
    }
    if next > 0 {
      if sentences {
        line.protectSentences := true;
      } else {
        line.protect := true;
      }
    }
    if line.Matches(end) {
      next := next - 1;
    }
  }

  /** The inner loop of removeDuplicateBlanks on one line: replaceAll("  ", " ") while the
      content contains a double space. */
  method CollapseLine(line: LatexLine)
    modifies line
    ensures line.View() == old(line.View()).(content := CollapseSpaces(old(line.content)))
  {
    while !NoDoubleSpace(line.content)
      invariant line.View() == old(line.View()).(content := line.content)
      invariant CollapseSpaces(line.content) == CollapseSpaces(old(line.content))
      decreases |line.content|
    {
      CollapseAfterReplace(line.content);
      line.content := ReplaceDoubleSpaces(line.content);
    }
    CollapseOfSpaceFree(line.content);
  }

  /** lines.get(i).append(" ").concat(lines.get(i + 1)).strip(): the line at i takes the
      joined text; no other line changes. */
  method MergeAt(ls: seq<LatexLine>, i: nat)
    requires i + 1 < |ls| && Distinct(ls)
    requires !ls[i].protect && !ls[i + 1].protect && ls[i].protectSentences == ls[i + 1].protectSentences
    modifies ls[i]
    ensures Views(ls) == old(Views(ls))[i := Merged(old(ls[i].View()), old(ls[i + 1].View()))]
  {
    var a := ls[i];
    a.Append(" ");
    a.Concat(ls[i + 1]);
    a.Strip();
  }

  /** The loop over the replacement entries: each rule rewrites the prefix in turn. */
  method ApplyReplacements(rules: seq<Rule>, prefix: string) returns (r: string)
    ensures r == ApplyRules(rules, prefix)
  {
    r := prefix;
    for k := 0 to |rules|
      invariant ApplyRules(rules[k..], r) == ApplyRules(rules, prefix)
    {
      assert rules[k..][1..] == rules[k + 1..];
      r := Rewrite(rules[k], r);
    }
  }

  /** The inner loop of addLinebreaks: the pieces of a split that are not blank, each stripped
      in place, in order. */
  method StripPieces(parts: seq<LatexLine>, ghost l: Line, ghost pieces: seq<string>) returns (kept: seq<LatexLine>)
    requires Distinct(parts) && |parts| == |pieces| && !l.protect
    requires forall m :: 0 <= m < |parts| ==> parts[m].View() == CloneWith(l, pieces[m])
    modifies parts
    ensures Views(kept) == Pieces(l, pieces) && Distinct(kept)
    ensures forall x :: x in kept ==> x in parts
  {
    kept := [];
    for j := 0 to |parts|
      invariant Distinct(kept) && Among(kept, parts[..j])
      invariant Views(kept) == Pieces(l, pieces[..j])
      invariant forall m :: j <= m < |parts| ==> parts[m].View() == CloneWith(l, pieces[m])
    {
      PiecesSnoc(l, pieces, j);
      AmongStep(kept, parts, j);
      var part := parts[j];
      if !part.IsBlank() {
        part.Strip();
        DistinctAppend(kept, [part]);
        ViewsAppend(kept, [part]);
        kept := kept + [part];
      }
    }
    assert pieces[..|parts|] == pieces && parts[..|parts|] == parts;
  }

  /** The body of the loop of addLinebreaks for one line: the line itself when it passes
      through; otherwise its text is rewritten in place and the stripped, non-blank pieces of
      its split are the new lines. */
  method BreakOne(line: LatexLine, rules: seq<Rule>) returns (r: Result<seq<LatexLine>>)
    modifies line
    ensures r.Error? <==> BreakLine(rules, old(line.View())).Error?
    ensures r.Error? ==> r.failure == BreakLine(rules, old(line.View())).failure
    ensures r.Ok? ==> Views(r.value) == BreakLine(rules, old(line.View())).value && Distinct(r.value)
    ensures r.Ok? ==> forall x :: x in r.value ==> fresh(x) || (x == line && PassesThrough(old(line.View())))
  {
    if line.IsBlank() || line.protect || line.lineComment {
      return Ok([line]);
    }
    var split := CommentSplit(line.content);
    if split.None? {
      return Error(NoCommentSplit(line.content));
    }
    var prefix := ApplyReplacements(rules, split.value.0);
    line.content := prefix + split.value.1;
    var parts := line.Split(NEWLINE);
    var kept := StripPieces(parts, old(line.View()), JavaSplit(line.content, NEWLINE));
    r := Ok(kept);
  }

  /** line.clone().substring(begin, end), stripped when asked: a new line, the original
      unchanged. */
  method CutLine(line: LatexLine, begin: nat, end: nat, strip: bool) returns (r: LatexLine)
    requires begin <= end <= |line.content| && !line.protect
    ensures fresh(r)
    ensures r.View() == CloneWith(line.View(), if strip then Strip(line.content[begin..end]) else line.content[begin..end])
  {
    r := line.Clone();
    r.Substring(begin, end);
    if strip {
      r.Strip();
    }
  }

  /** line.clone().setContent("%"): the line put between two sentences. */
  method PercentLine(line: LatexLine) returns (r: LatexLine)
    ensures fresh(r) && r.View() == CloneWith(line.View(), "%")
  {
    r := line.Clone();
    r.SetContent("%");
  }

  /** The two lines splitSentences emits at a sentence end: the sentence from begin up to end,
      stripped, and a "%" line; both new. */
  method EmitSentence(line: LatexLine, begin: nat, end: nat, ghost cut: (int, int) -> Line, ghost pct: Line)
      returns (pair: seq<LatexLine>)
    requires begin <= end <= |line.content| && !line.protect
    requires cut == CutOf(line.View()) && pct == CloneWith(line.View(), "%")
    ensures |pair| == 2 && fresh(pair[0]) && fresh(pair[1]) && Distinct(pair)
    ensures Views(pair) == [cut(begin, end), pct]
  {
    var sentence := CutLine(line, begin, end, true);
    var percent := PercentLine(line);
    pair := [sentence, percent];
  }

  /** The scan of splitSentences over the characters of one line: it keeps track of inline
      math and, at every sentence end outside it, emits the sentence, stripped, and a "%" line.
      Returns the emitted lines and the last sentence end (-1 when there is none). */
  method ScanSentences(line: LatexLine, mk: Markers) returns (r: seq<LatexLine>, lastSentenceEnd: int)
    requires !line.protect
    ensures var bs := Ends(mk, line.content, 0, false);
      Views(r) == Emitted(line.View(), bs) && lastSentenceEnd + 1 == RestFrom(bs)
    ensures Distinct(r) && forall x :: x in r ==> fresh(x)
  {
    ghost var c := line.content;
    ghost var lv := line.View();
    ghost var cut := CutOf(lv);
    ghost var pct := CloneWith(lv, "%");
    var math := false;
    lastSentenceEnd := -1;
    r := [];
    var i: nat := 0;
    while i < line.Length()
      invariant -1 <= lastSentenceEnd < i
      invariant ScanLine(mk, c, cut, pct, i, math, lastSentenceEnd, Views(r)) == ScanLine(mk, c, cut, pct, 0, false, -1, [])
      invariant Distinct(r) && forall x :: x in r ==> fresh(x)
      decreases |c| - i
    {
      var m := Advance(mk, line.content, i, math);
      ScanLineMove(mk, c, cut, pct, i, math, lastSentenceEnd, Views(r));
      if m.end {
        var pair := EmitSentence(line, lastSentenceEnd + 1, i + 1, cut, pct);
        ViewsAppend(r, pair);
        DistinctAppend(r, pair);
        r := r + pair;
        lastSentenceEnd := i;
      }
      math := m.math;
      i := m.next;
    }
    ScanLineEmits(mk, lv);
  }

  /** The body of the loop of splitSentences for one line: the line itself when it is exempt;
      otherwise the scanned sentences, then the rest of the line or, when the rest is blank,
      without the last "%" line. The line is not changed. */
  method SplitOne(line: LatexLine, mk: Markers) returns (r: seq<LatexLine>)
    ensures Views(r) == LinesFor(mk, line.View()) && Distinct(r)
    ensures forall x :: x in r ==> fresh(x) || (x == line && Exempt(line.View()))
    ensures Exempt(line.View()) ==> r == [line]
  {
    if line.protectSentences || line.protect || line.IsBlank() {
      return [line];
    }
    ghost var lv := line.View();
    var lastSentenceEnd;
    r, lastSentenceEnd := ScanSentences(line, mk);
    ghost var bs := Ends(mk, lv.content, 0, false);
    ghost var front := Views(r);
    FitsRest(bs, |lv.content|);
    assert LinesFor(mk, lv) == SplitAt(lv, bs);
    var lastLine := CutLine(line, lastSentenceEnd + 1, line.Length(), false);
    assert lastLine.content == lv.content[Start(bs, |bs|)..];
    if !lastLine.IsBlank() {
      ViewsAppend(r, [lastLine]);
      DistinctAppend(r, [lastLine]);
      r := r + [lastLine];
    } else {
      assert Views(r[..|r| - 1]) == front[..|front| - 1];
      DistinctDropLast(r);
      r := r[..|r| - 1];
    }
  }

  class LatexBreak {
    /** The lines of the document, replaced by each pass that adds or removes lines. */
    var lines: seq<LatexLine>
    /** The macro rules, in the order they were registered. */
    var replacements: seq<Rule>
    const config: Config

    /** No line object occurs twice, so a change to one line changes no other. */
    predicate Valid()
      reads this
    {
      Distinct(lines)
    }

    /** One untagged line per input line; the configuration is given rather than read from a
        file, and no macro rule is registered yet. */
    constructor (config: Config, texts: seq<string>)
      ensures this.config == config && replacements == []
      ensures Valid() && Views(lines) == Initial(texts)
      ensures forall k :: 0 <= k < |lines| ==> fresh(lines[k])
    {
      this.config := config;
      replacements := [];
      var ls: seq<LatexLine> := [];
      for k := 0 to |texts|
        invariant |ls| == k && Distinct(ls)
        invariant forall j :: 0 <= j < k ==> fresh(ls[j]) && ls[j].View() == Line(texts[j], false, false, false)
      {
        var l := new LatexLine(texts[k]);
        ls := ls + [l];
      }
      lines := ls;
    }

    /** Registers a rule that breaks the line before and after each invocation of the macro.
        Patterns have no equality, so every call adds an entry. */
    method BreakAroundMacro(command: string)
      modifies this
      ensures replacements == old(replacements) + [Rule(command, Around)]
      ensures lines == old(lines)
    {
      replacements := replacements + [Rule(command, Around)];
    }

    method BreakAfterMacro(command: string)
      modifies this
      ensures replacements == old(replacements) + [Rule(command, After)]
      ensures lines == old(lines)
    {
      replacements := replacements + [Rule(command, After)];
    }

    method BreakBeforeMacro(command: string)
      modifies this
      ensures replacements == old(replacements) + [Rule(command, Before)]
      ensures lines == old(lines)
    {
      replacements := replacements + [Rule(command, Before)];
    }

    /** The loop shared by detectVerbatim (sentences false) and detectMath (sentences true): a
        depth counter over the begin and end markers, tagging each line while the depth is
        positive; the `assert depth >= 0` stops the run at the first unopened end marker. */
    method DetectRegions(begin: string -> bool, end: string -> bool, sentences: bool) returns (failure: Option<Failure>)
      requires Valid()
      modifies lines
      ensures failure.None? <==> TagRegions(begin, end, sentences, old(Views(lines))).Ok?
      ensures failure.Some? ==> failure.value == UnbalancedRegion
      ensures failure.None? ==> Views(lines) == TagRegions(begin, end, sentences, old(Views(lines))).value
    {
      ghost var orig := Views(lines);
      ghost var done: seq<Line> := [];
      var depth := 0;
      for k := 0 to |lines|
        invariant |done| == k
        invariant Scan(begin, end, sentences, orig, k, depth, done) == Scan(begin, end, sentences, orig, 0, 0, [])
        invariant forall j :: 0 <= j < k ==> lines[j].View() == done[j]
        invariant forall j :: k <= j < |lines| ==> lines[j].View() == orig[j]
      {
        depth := CountLine(lines[k], begin, end, sentences, depth);
        done := done + [lines[k].View()];
        if depth < 0 {
          ScanIsTagging(begin, end, sentences, orig);
          return Some(UnbalancedRegion);
        }
      }
      ScanIsTagging(begin, end, sentences, orig);
      failure := None;
    }

    /** detectVerbatim: tags the lines of the verbatim regions as protected. */
    method DetectVerbatim() returns (failure: Option<Failure>)
      requires Valid()
      modifies lines
      ensures failure.None? <==> Balanced(config.beginProtected, config.endProtected, old(Views(lines)))
      ensures failure.Some? ==> failure.value == UnbalancedRegion
      ensures failure.None? ==>
        Views(lines) == TagVerbatim(config.beginProtected, config.endProtected, old(Views(lines))).value
    {
      failure := DetectRegions(config.beginProtected, config.endProtected, false);
    }

    /** detectMath: tags the lines of the block-math regions as protected from sentence
        splitting. */
    method DetectMath() returns (failure: Option<Failure>)
      requires Valid()
      modifies lines
      ensures failure.None? <==> Balanced(config.beginProtectSentences, config.endProtectSentences, old(Views(lines)))
      ensures failure.Some? ==> failure.value == UnbalancedRegion
      ensures failure.None? ==>
        Views(lines) == TagMath(config.beginProtectSentences, config.endProtectSentences, old(Views(lines))).value
    {
      failure := DetectRegions(config.beginProtectSentences, config.endProtectSentences, true);
    }

    /** trim: strips every line that is not verbatim. */
    method Trim()
      requires Valid()
      modifies lines
      ensures Views(lines) == TrimLines(old(Views(lines)))
    {
      ghost var orig := Views(lines);
      for k := 0 to |lines|
        invariant forall j :: 0 <= j < k ==> lines[j].View() == TrimLines(orig)[j]
        invariant forall j :: k <= j < |lines| ==> lines[j].View() == orig[j]
      {
        if !lines[k].protect {
          lines[k].Strip();
        }
      }
    }

    /** detectComments: tags the lines that start with %. */
    method DetectComments()
      requires Valid()
      modifies lines
      ensures Views(lines) == TagComments(old(Views(lines)))
    {
      ghost var orig := Views(lines);
      for k := 0 to |lines|
        invariant forall j :: 0 <= j < k ==> lines[j].View() == TagComments(orig)[j]
        invariant forall j :: k <= j < |lines| ==> lines[j].View() == orig[j]
      {
        if lines[k].StartsWith("%") {
          lines[k].lineComment := true;
        }
      }
    }

    /** removeDuplicateBlanks: collapses the space runs of every line. */
    method RemoveDuplicateBlanks()
      requires Valid()
      modifies lines
      ensures Views(lines) == CollapseAll(old(Views(lines)))
    {
      ghost var orig := Views(lines);
      for k := 0 to |lines|
        invariant forall j :: 0 <= j < k ==> lines[j].View() == CollapseAll(orig)[j]
        invariant forall j :: k <= j < |lines| ==> lines[j].View() == orig[j]
      {
        CollapseLine(lines[k]);
      }
    }

    /** removeDuplicateBlankLines: of the lines that are not verbatim, a blank line after a
        blank line is removed; the index stays put after a removal. */
    method RemoveDuplicateBlankLines()
      requires Valid()
      modifies this
      ensures Valid() && replacements == old(replacements)
      ensures Among(lines, old(lines))
      ensures Views(lines) == DedupBlankLines(old(Views(lines)))
    {
      ghost var orig := Views(lines);
      ghost var v := orig;
      var lastEmpty := false;
      var i := 0;
      while i < |lines|
        invariant i <= |lines| && Valid() && replacements == old(replacements)
        invariant Among(lines, old(lines))
        invariant v == Views(lines)
        invariant v[..i] + Dedup(v[i..], lastEmpty) == DedupBlankLines(orig)
        decreases |lines| - i
      {
        DedupAdvance(v, i, lastEmpty);
        var line := lines[i];
        if !line.protect {
          if lastEmpty && line.IsBlank() {
            ghost var before := lines;
            DistinctRemove(lines, i, old(lines));
            lines := lines[..i] + lines[i + 1..];
            ViewsRemove(before, i);
            v := v[..i] + v[i + 1..];
          } else {
            lastEmpty := line.IsBlank();
            i := i + 1;
          }
        } else {
          i := i + 1;
        }
      }
      assert v[..i] == v;
    }

    /** removeLinebreaks: while a pair of adjacent lines passes the eight guards, the second is
        appended to the first and removed, and the same position is tried again. Concatenation
        asserts that the two lines carry the same math tag; no line has one yet when the pass
        runs in process(). */
    method RemoveLinebreaks()
      requires Valid() && NoMathTags(Views(lines))
      modifies this, lines
      ensures Valid() && replacements == old(replacements)
      ensures Among(lines, old(lines))
      ensures Views(lines) == Merging.RemoveLinebreaks(config.protectBreakAfter, config.protectBreakBefore, old(Views(lines)))
    {
      ghost var target := Merging.RemoveLinebreaks(config.protectBreakAfter, config.protectBreakBefore, Views(lines));
      ghost var v := Views(lines);
      var ls := lines;
      var i := 0;
      while i + 1 < |ls|
        invariant i <= |ls| && Distinct(ls) && Among(ls, old(lines)) && replacements == old(replacements)
        invariant v == Views(ls) && NoMathTags(v)
        invariant MergeFrom(config.protectBreakAfter, config.protectBreakBefore, v, i) == target
        decreases |ls|, |ls| - i
      {
        MergeAdvance(config.protectBreakAfter, config.protectBreakBefore, v, i);
        var a, b := ls[i], ls[i + 1];
        if !a.IsBlank() && !b.IsBlank()
          && !a.Matches(config.protectBreakAfter) && !b.Matches(config.protectBreakBefore)
          && !a.protect && !b.protect
          && !a.Matches(HasUnescapedComment) && !b.lineComment
        {
          assert ls[i] in old(lines);
          MergeAt(ls, i);
          ghost var w := Views(ls);
          DistinctRemove(ls, i + 1, old(lines));
          ViewsRemove(ls, i + 1);
          ls := ls[..i + 1] + ls[i + 2..];
          v := w[..i + 1] + w[i + 2..];
        } else {
          i := i + 1;
        }
      }
      lines := ls;
    }

    /** addLinebreaks: every line is replaced by the lines BreakOne makes of it; the first line
        without a comment split stops the pass (the RuntimeException). */
    method AddLinebreaks() returns (failure: Option<Failure>)
      requires Valid()
      modifies this, lines
      ensures replacements == old(replacements)
      ensures failure.None? <==> AddBreaks(replacements, old(Views(lines))).Ok?
      ensures failure.Some? ==> AddBreaks(replacements, old(Views(lines))) == Error(failure.value)
      ensures failure.None? ==> Valid() && Views(lines) == AddBreaks(replacements, old(Views(lines))).value
      ensures failure.None? ==> forall x :: x in lines ==> x in old(lines) || fresh(x)
    {
      ghost var orig := Views(lines);
      ghost var done: seq<Line> := [];
      var res: seq<LatexLine> := [];
      for k := 0 to |lines|
        invariant replacements == old(replacements) && lines == old(lines)
        invariant AddBreaks(replacements, orig[..k]) == Ok(done)
        invariant Views(res) == done
        invariant Distinct(res) && forall x :: x in res ==> x in lines || fresh(x)
        invariant forall j :: k <= j < |lines| ==> lines[j] !in res
        invariant forall j :: k <= j < |lines| ==> lines[j].View() == orig[j]
      {
        AddBreaksSnoc(replacements, orig, k);
        var line := lines[k];
        var more := BreakOne(line, replacements);
        if more.Error? {
          AddBreaksStops(replacements, orig, k + 1);
          return Some(more.failure);
        }
        assert forall x :: x in res ==> x !in more.value;
        DistinctAppend(res, more.value);
        ViewsAppend(res, more.value);
        res := res + more.value;
        done := done + Views(more.value);
      }
      assert orig[..|lines|] == orig;
      lines := res;
      failure := None;
    }

    /** splitSentences: every line is replaced by the lines SplitOne makes of it. */
    method SplitSentences()
      requires Valid()
      modifies this
      ensures replacements == old(replacements) && Valid()
      ensures Views(lines) == Sentences.SplitSentences(config.markers, old(Views(lines)))
      ensures forall x :: x in lines ==> x in old(lines) || fresh(x)
    {
      ghost var orig := Views(lines);
      var res: seq<LatexLine> := [];
      for k := 0 to |lines|
        invariant replacements == old(replacements) && lines == old(lines)
        invariant Views(res) == Sentences.SplitSentences(config.markers, orig[..k])
        invariant Distinct(res) && forall x :: x in res ==> x in lines || fresh(x)
        invariant forall j :: k <= j < |lines| ==> lines[j] !in res
      {
        SplitSentencesSnoc(config.markers, orig, k);
        var more := SplitOne(lines[k], config.markers);
        assert forall x :: x in res ==> x !in more;
        DistinctAppend(res, more);
        ViewsAppend(res, more);
        res := res + more;
      }
      assert orig[..|lines|] == orig;
      lines := res;
    }

    /** process(): the passes in their fixed order, stopping at the first failure, then the
        lines joined. The input must not carry block-math tags, which only detectMath sets. */
    method Process() returns (r: Result<string>)
      requires Valid() && NoMathTags(Views(lines))
      modifies this, lines
      ensures replacements == old(replacements)
      ensures r == Run(config, replacements, old(Views(lines)))
    {
      var failure := PrepareLines();
      if failure.Some? {
        return Error(failure.value);
      }
      assert forall i :: 0 <= i < |lines| ==> lines[i] in old(lines);
      failure := BreakLines();
      if failure.Some? {
        return Error(failure.value);
      }
      assert forall i :: 0 <= i < |lines| ==> lines[i] in old(lines) || fresh(lines[i]);
      var text := FinishLines();
      r := Ok(text);
    }

    /** The last part of process(): trim, removeDuplicateBlanks, then the lines joined. */
    method FinishLines() returns (text: string)
      requires Valid()
      modifies lines
      ensures text == Render(Finish(old(Views(lines))))
    {
      Trim();
      RemoveDuplicateBlanks();
      text := Joined();
    }

    /** The first part of process(): detectVerbatim, trim, detectComments and, when newlines
        are to be removed, removeDuplicateBlankLines and removeLinebreaks. */
    method PrepareLines() returns (failure: Option<Failure>)
      requires Valid() && NoMathTags(Views(lines))
      modifies this, lines
      ensures replacements == old(replacements) && Valid()
      ensures failure.None? <==> Prepare(config, old(Views(lines))).Ok?
      ensures failure.Some? ==> Prepare(config, old(Views(lines))) == Error(failure.value)
      ensures failure.None? ==> Views(lines) == Prepare(config, old(Views(lines))).value
      ensures Among(lines, old(lines))
    {
      ghost var v0 := Views(lines);
      failure := DetectVerbatim();
      if failure.Some? {
        return;
      }
      Trim();
      DetectComments();
      if config.removeNewlines {
        PrepareKeepsNoMathTags(config, v0);
        MergeLines();
      }
    }

    /** The part of process() that runs only when newlines are to be removed:
        removeDuplicateBlankLines, then removeLinebreaks. */
    method MergeLines()
      requires Valid() && NoMathTags(DedupBlankLines(Views(lines)))
      modifies this, lines
      ensures Valid() && replacements == old(replacements) && Among(lines, old(lines))
      ensures Views(lines) == Merging.RemoveLinebreaks(config.protectBreakAfter, config.protectBreakBefore,
                                                      DedupBlankLines(old(Views(lines))))
    {
      RemoveDuplicateBlankLines();
      assert forall i :: 0 <= i < |lines| ==> lines[i] in old(lines);
      RemoveLinebreaks();
    }

    /** The middle part of process(): addLinebreaks, detectMath and, when configured,
        splitSentences. */
    method BreakLines() returns (failure: Option<Failure>)
      requires Valid()
      modifies this, lines
      ensures replacements == old(replacements)
      ensures failure.None? <==> Break(config, replacements, old(Views(lines))).Ok?
      ensures failure.Some? ==> Break(config, replacements, old(Views(lines))) == Error(failure.value)
      ensures failure.None? ==> Valid() && Views(lines) == Break(config, replacements, old(Views(lines))).value
      ensures failure.None? ==> forall x :: x in lines ==> x in old(lines) || fresh(x)
    {
      failure := AddLinebreaks();
      if failure.Some? {
        return;
      }
      assert forall i :: 0 <= i < |lines| ==> lines[i] in old(lines) || fresh(lines[i]);
      failure := DetectMath();
      if failure.Some? {
        return;
      }
      if config.breakAfterSentences {
        SplitSentences();
      }
    }

    /** The result text of process(): every line followed by the line separator. */
    method Joined() returns (text: string)
      ensures text == Render(Views(lines))
    {
      text := [];
      for k := 0 to |lines|
        invariant text == Render(Views(lines)[..k])
      {
        RenderSnoc(Views(lines)[..k], lines[k].View());
        assert Views(lines)[..k + 1] == Views(lines)[..k] + [lines[k].View()];
        text := text + lines[k].content + [NEWLINE];
      }
      assert Views(lines)[..|lines|] == Views(lines);
    }
  }
}
