/**
 * splitSentences: every line that is not verbatim, not in block math and not blank is cut
 * after each sentence end (a configured line-end character followed by a space) outside
 * inline math; each sentence becomes a stripped line followed by a "%" line, and the rest of
 * the line follows unless it is blank, in which case the last "%" line is taken back.
 */
module Sentences {
  import opened Text
  import opened LatexLines

  /** The inline-math markers are oracles: the length of the marker match at the start of
      the rest of the line, or -1 when the marker pattern does not match there. */
  datatype Markers = Markers(lineEnds: set<char>, beginInline: string -> int, endInline: string -> int)

  /** One step of the scan at position i (i < |c|): where the scan goes on, whether it is then
      inside inline math, and whether a sentence ends at i. A marker match of length k > 0
      switches the mode and skips k characters; anything else advances by one. */
  datatype Move = Move(next: nat, math: bool, end: bool)

  function Advance(mk: Markers, c: string, i: nat, math: bool): (m: Move)
    requires i < |c|
    ensures i < m.next
    ensures m.end ==> !math && m.next == i + 1 && !m.math && EndAt(mk, c, i)
    ensures !math && mk.beginInline(c[i..]) <= 0 ==> (m.end <==> EndAt(mk, c, i))
  {
    if math then
      var k := mk.endInline(c[i..]);
      if k > 0 then Move(i + k, false, false) else Move(i + 1, true, false)
    else
      var k := mk.beginInline(c[i..]);
      if k > 0 then Move(i + k, true, false)
      else if EndAt(mk, c, i) then Move(i + 1, false, true)
      else Move(i + 1, false, false)
  }

  /** Where sentences end in c, scanning from position i; math says whether the scan is inside
      inline math. */
  function Ends(mk: Markers, c: string, i: nat, math: bool): (bs: seq<nat>)
    ensures Fits(bs, |c|) && (bs != [] ==> i <= bs[0])
    decreases |c| - i
  {
    if i >= |c| then []
    else
      var m := Advance(mk, c, i, math);
      var rest := Ends(mk, c, m.next, m.math);
      if m.end then
        FitsCons(i, rest, |c|);
        [i] + rest
      else rest
  }

  /** A line-end character followed by a space at position j. */
  predicate EndAt(mk: Markers, c: string, j: nat)
  {
    j + 1 < |c| && c[j] in mk.lineEnds && c[j + 1] == ' '
  }

  /** The scan as the loop runs it: the ends found so far are carried along in acc. */
  function ScanEnds(mk: Markers, c: string, i: nat, math: bool, acc: seq<nat>): seq<nat>
    decreases |c| - i
  {
    if i >= |c| then acc
    else
      var m := Advance(mk, c, i, math);
      ScanEnds(mk, c, m.next, m.math, if m.end then acc + [i] else acc)
  }

  /** The loop's scan finds the ends of the reference definition, after those it carries. */
  lemma {:induction false} ScanEndsIsEnds(mk: Markers, c: string, i: nat, math: bool, acc: seq<nat>)
    ensures ScanEnds(mk, c, i, math, acc) == acc + Ends(mk, c, i, math)
    decreases |c| - i
  {
    if i >= |c| {
      assert acc + [] == acc;
    } else {
      var m := Advance(mk, c, i, math);
      if m.end {
        ScanEndsIsEnds(mk, c, m.next, m.math, acc + [i]);
        assert (acc + [i]) + Ends(mk, c, i + 1, false) == acc + ([i] + Ends(mk, c, i + 1, false));
      } else {
        ScanEndsIsEnds(mk, c, m.next, m.math, acc);
      }
    }
  }

  /** Every position the scan reports is a sentence end at or after where it started. */
  lemma {:induction false} EndsAreEnds(mk: Markers, c: string, i: nat, math: bool)
    ensures forall k :: 0 <= k < |Ends(mk, c, i, math)| ==>
      i <= Ends(mk, c, i, math)[k] && EndAt(mk, c, Ends(mk, c, i, math)[k])
    decreases |c| - i
  {
    if i < |c| {
      var m := Advance(mk, c, i, math);
      EndsAreEnds(mk, c, m.next, m.math);
    }
  }

  /** Sentence ends in increasing order, each with room for the space after it in a line of
      length n. */
  predicate Fits(bs: seq<nat>, n: nat)
    decreases |bs|
  {
    bs == [] ||
    (var m := |bs| - 1;
     Fits(bs[..m], n) && bs[m] + 1 < n && (m == 0 || bs[m - 1] < bs[m]))
  }

  lemma {:induction false} FitsCons(x: nat, rest: seq<nat>, n: nat)
    requires Fits(rest, n) && x + 1 < n && (rest == [] || x < rest[0])
    ensures Fits([x] + rest, n)
    decreases |rest|
  {
    if rest != [] {
      var m := |rest| - 1;
      var xs := [x] + rest;
      assert xs[..|xs| - 1] == [x] + rest[..m];
      FitsCons(x, rest[..m], n);
    }
  }

  /** Where sentence k starts: just after the end of sentence k - 1. */
  function Start(bs: seq<nat>, k: nat): (st: nat)
    requires k <= |bs|
  {
    if k == 0 then 0 else bs[k - 1] + 1
  }

  /** Where the text after the sentences ending at bs starts. */
  function RestFrom(bs: seq<nat>): nat
  {
    if bs == [] then 0 else bs[|bs| - 1] + 1
  }

  /** The lines emitted for the sentences ending at bs: each stripped sentence, then "%". */
  function Emitted(l: Line, bs: seq<nat>): (r: seq<Line>)
    ensures |r| == |bs| + |bs|
    decreases |bs|
  {
    if bs == [] then []
    else
      var n := |bs| - 1;
      Emitted(l, bs[..n]) + [Sentence(l, bs), CloneWith(l, "%")]
  }

  /** The lines a line is cut into at the sentence ends bs: the emitted sentences, then the
      rest of the line, or, when the rest is blank, without the last "%" line. */
  function SplitAt(l: Line, bs: seq<nat>): seq<Line>
    requires !IsBlank(l.content) && Fits(bs, |l.content|)
  {
    var front := Emitted(l, bs);
    var rest := l.content[Start(bs, |bs|)..];
    if !IsBlank(rest) then front + [CloneWith(l, rest)] else front[..|front| - 1]
  }

  /** The lines one line is cut into. */
  function SplitLine(mk: Markers, l: Line): seq<Line>
    requires !IsBlank(l.content)
  {
    SplitAt(l, Ends(mk, l.content, 0, false))
  }

  predicate Exempt(l: Line)
  {
    l.protectSentences || l.protect || IsBlank(l.content)
  }

  /** What splitSentences puts in place of one line. */
  function LinesFor(mk: Markers, l: Line): seq<Line>
  {
    if Exempt(l) then [l] else SplitLine(mk, l)
  }

  function SplitSentences(mk: Markers, ls: seq<Line>): seq<Line>
  {
    if ls == [] then [] else SplitSentences(mk, ls[..|ls| - 1]) + LinesFor(mk, ls[|ls| - 1])
  }

  /** A sentence end found after the last one extends the ends found so far. */
  lemma FitsSnoc(bs: seq<nat>, e: nat, n: nat)
    requires Fits(bs, n) && e + 1 < n && (bs == [] || bs[|bs| - 1] < e)
    ensures Fits(bs + [e], n)
  {
    assert (bs + [e])[..|bs|] == bs;
  }

  /** The lines emitted for one more sentence end e: the stripped sentence from the start of
      the sentence to e, and a "%" line. */
  lemma EmittedSnoc(l: Line, bs: seq<nat>, e: nat)
    ensures Emitted(l, bs + [e]) ==
      Emitted(l, bs) + [Cut(l, RestFrom(bs), e + 1), CloneWith(l, "%")]
  {
    assert (bs + [e])[..|bs|] == bs;
  }

  /** The pass over the first k + 1 lines extends the pass over the first k by line k. */
  lemma SplitSentencesSnoc(mk: Markers, ls: seq<Line>, k: nat)
    requires k < |ls|
    ensures SplitSentences(mk, ls[..k + 1]) == SplitSentences(mk, ls[..k]) + LinesFor(mk, ls[k])
  {
    assert ls[..k + 1][..k] == ls[..k];
  }

  /** The lines emitted for the sentences ending at bs, with cut(st, e) the line made of the
      text from st up to e and pct the "%" line. */
  function EmitWith(cut: (int, int) -> Line, pct: Line, bs: seq<nat>): (r: seq<Line>)
    decreases |bs|
  {
    if bs == [] then []
    else
      var n := |bs| - 1;
      EmitWith(cut, pct, bs[..n]) + [cut(RestFrom(bs[..n]), bs[n] + 1), pct]
  }

  /** Cutting a stripped piece out of the line l. */
  function CutOf(l: Line): (int, int) -> Line
  {
    (st: int, e: int) => Cut(l, st, e)
  }

  /** The emitted lines of a line are those emitted with its own cut and "%" line. */
  lemma {:induction false} EmittedIsEmitWith(l: Line, bs: seq<nat>)
    ensures Emitted(l, bs) == EmitWith(CutOf(l), CloneWith(l, "%"), bs)
    decreases |bs|
  {
    if bs != [] {
      var n := |bs| - 1;
      EmittedIsEmitWith(l, bs[..n]);
      assert Start(bs, n) == RestFrom(bs[..n]);
    }
  }

  /** The scan as the loop runs it, emitting lines as it goes: last is where the previous
      sentence ended (-1 before the first) and acc holds the lines emitted so far. */
  function ScanLine(mk: Markers, c: string, cut: (int, int) -> Line, pct: Line, i: nat, math: bool,
                    last: int, acc: seq<Line>): (seq<Line>, int)
    decreases |c| - i
  {
    if i >= |c| then (acc, last)
    else
      var m := Advance(mk, c, i, math);
      if m.end then ScanLine(mk, c, cut, pct, m.next, m.math, i, acc + [cut(last + 1, i + 1), pct])
      else ScanLine(mk, c, cut, pct, m.next, m.math, last, acc)
  }

  /** One step of the loop's scan, as the loop takes it. */
  lemma ScanLineMove(mk: Markers, c: string, cut: (int, int) -> Line, pct: Line, i: nat, math: bool,
                     last: int, acc: seq<Line>)
    requires i < |c|
    ensures var m := Advance(mk, c, i, math);
      ScanLine(mk, c, cut, pct, i, math, last, acc) ==
        if m.end then ScanLine(mk, c, cut, pct, m.next, m.math, i, acc + [cut(last + 1, i + 1), pct])
        else ScanLine(mk, c, cut, pct, m.next, m.math, last, acc)
  {
  }

  /** One step of the loop's scan emits the lines for the sentence end it finds, if any, and
      collects that end. */
  lemma ScanStep(mk: Markers, c: string, cut: (int, int) -> Line, pct: Line, i: nat, math: bool, bs: seq<nat>)
    requires i < |c|
    ensures var m := Advance(mk, c, i, math);
      var bs' := if m.end then bs + [i] else bs;
      ScanLine(mk, c, cut, pct, i, math, RestFrom(bs) - 1, EmitWith(cut, pct, bs)) ==
        ScanLine(mk, c, cut, pct, m.next, m.math, RestFrom(bs') - 1, EmitWith(cut, pct, bs')) &&
      ScanEnds(mk, c, i, math, bs) == ScanEnds(mk, c, m.next, m.math, bs')
  {
    assert (bs + [i])[..|bs|] == bs;
  }

  /** The lines the loop emits are those emitted for the ends its scan collects, and it ends
      with last just before the rest of the line. */
  lemma {:induction false} ScanLineIsEmitted(mk: Markers, c: string, cut: (int, int) -> Line, pct: Line,
                                             i: nat, math: bool, bs: seq<nat>)
    ensures var e := ScanEnds(mk, c, i, math, bs);
      ScanLine(mk, c, cut, pct, i, math, RestFrom(bs) - 1, EmitWith(cut, pct, bs)) == (EmitWith(cut, pct, e), RestFrom(e) - 1)
    decreases |c| - i
  {
    if i < |c| {
      var m := Advance(mk, c, i, math);
      var bs' := if m.end then bs + [i] else bs;
      ScanStep(mk, c, cut, pct, i, math, bs);
      ScanLineIsEmitted(mk, c, cut, pct, m.next, m.math, bs');
    }
  }

  /** The loop's scan of a whole line emits the lines for the sentence ends of the line and
      ends just before the rest of the line. */
  lemma ScanLineEmits(mk: Markers, l: Line)
    ensures var bs := Ends(mk, l.content, 0, false);
      ScanLine(mk, l.content, CutOf(l), CloneWith(l, "%"), 0, false, -1, []) == (Emitted(l, bs), RestFrom(bs) - 1)
  {
    var bs := Ends(mk, l.content, 0, false);
    var cut, pct := CutOf(l), CloneWith(l, "%");
    assert RestFrom([]) - 1 == -1 && EmitWith(cut, pct, []) == [];
    ScanLineIsEmitted(mk, l.content, cut, pct, 0, false, []);
    ScanEndsIsEnds(mk, l.content, 0, false, []);
    assert ScanEnds(mk, l.content, 0, false, []) == bs by { assert [] + bs == bs; }
    EmittedIsEmitWith(l, bs);
  }

  /** The rest of the line after the sentences starts within the line. */
  lemma FitsRest(bs: seq<nat>, n: nat)
    requires Fits(bs, n)
    ensures RestFrom(bs) == Start(bs, |bs|) <= n
  {
  }

  // ---------------------------------------------------------------------------------------

  /** Without inline markers, a sentence ends exactly at each line-end character followed by
      a space. */
  lemma {:induction false} EndsWithoutMarkers(mk: Markers, c: string, i: nat, e: nat)
    requires forall j :: i <= j < |c| ==> mk.beginInline(c[j..]) <= 0
    ensures e in Ends(mk, c, i, false) <==> i <= e && EndAt(mk, c, e)
    decreases |c| - i
  {
    if i < |c| {
      assert mk.beginInline(c[i..]) <= 0;
      EndsWithoutMarkers(mk, c, i + 1, e);
    }
  }

  /** The positions the scan stops at from position i, each with whether the scan is then
      inside inline math. */
  function Visited(mk: Markers, c: string, i: nat, math: bool): (vs: seq<(nat, bool)>)
    ensures forall k :: 0 <= k < |vs| ==> i <= vs[k].0 < |c|
    decreases |c| - i
  {
    if i >= |c| then []
    else
      var m := Advance(mk, c, i, math);
      [(i, math)] + Visited(mk, c, m.next, m.math)
  }

  /** A sentence ends at e exactly when the scan stops at e outside inline math, no begin
      marker matches there, and e holds a line-end character followed by a space. */
  lemma {:induction false} EndsAreVisitedEnds(mk: Markers, c: string, i: nat, math: bool, e: nat)
    ensures e in Ends(mk, c, i, math) <==>
      (e, false) in Visited(mk, c, i, math) && e < |c| && mk.beginInline(c[e..]) <= 0 && EndAt(mk, c, e)
    decreases |c| - i
  {
    if i < |c| {
      var m := Advance(mk, c, i, math);
      var rest := Visited(mk, c, m.next, m.math);
      assert Visited(mk, c, i, math) == [(i, math)] + rest;
      EndsAreVisitedEnds(mk, c, m.next, m.math, e);
      EndsAreEnds(mk, c, m.next, m.math);
      if e == i {
        assert (i, false) !in rest;
        assert i !in Ends(mk, c, m.next, m.math);
      }
    }
  }

  /** Inside inline math nothing ends a sentence until the end marker matches. */
  lemma {:induction false} NoEndsInMath(mk: Markers, c: string, i: nat)
    requires forall j :: i <= j < |c| ==> mk.endInline(c[j..]) <= 0
    ensures Ends(mk, c, i, true) == []
    decreases |c| - i
  {
    if i < |c| {
      NoEndsInMath(mk, c, i + 1);
    }
  }

  /** Every other line of the output, starting with the first: the sentences. */
  function Evens(r: seq<Line>): seq<Line>
    decreases |r|
  {
    if |r| <= 1 then r else [r[0]] + Evens(r[2..])
  }

  /** The other half: the lines between the sentences. */
  function Odds(r: seq<Line>): seq<Line>
    decreases |r|
  {
    if |r| <= 1 then [] else [r[1]] + Odds(r[2..])
  }

  /** A line after an even number of lines is a sentence. */
  lemma {:induction false} EvensOddsSingle(front: seq<Line>, x: Line, m: nat)
    requires |front| == m + m
    ensures Evens(front + [x]) == Evens(front) + [x]
    ensures Odds(front + [x]) == Odds(front)
    decreases m
  {
    FrontShape(front, [x]);
    if m != 0 {
      EvensOddsSingle(front[2..], x, m - 1);
    }
  }

  lemma {:induction false} EvensOddsPair(front: seq<Line>, x: Line, y: Line, m: nat)
    requires |front| == m + m
    ensures Evens(front + [x, y]) == Evens(front) + [x]
    ensures Odds(front + [x, y]) == Odds(front) + [y]
    decreases m
  {
    FrontShape(front, [x, y]);
    if m == 0 {
      assert [x, y][2..] == [];
    } else {
      EvensOddsPair(front[2..], x, y, m - 1);
    }
  }

  /** The stripped sentence that ends at the last end in bs. */
  function Sentence(l: Line, bs: seq<nat>): Line
    requires bs != []
  {
    Cut(l, Start(bs, |bs| - 1), bs[|bs| - 1] + 1)
  }

  /** The stripped copy of the line's text from st up to e (nothing when that is not a
      range of the line). */
  function Cut(l: Line, st: int, e: int): Line
  {
    CloneWith(l, Strip(Span(l.content, st, e)))
  }

  function Span(c: string, st: int, e: int): string
  {
    if 0 <= st <= e <= |c| then c[st..e] else ""
  }

  /** The sentence and the "%" line for the last sentence end. */
  lemma EmittedLast(l: Line, bs: seq<nat>)
    requires Fits(bs, |l.content|) && bs != []
    ensures Evens(Emitted(l, bs)) == Evens(Emitted(l, bs[..|bs| - 1])) + [Sentence(l, bs)]
    ensures Odds(Emitted(l, bs)) == Odds(Emitted(l, bs[..|bs| - 1])) + [CloneWith(l, "%")]
  {
    var n := |bs| - 1;
    var front := Emitted(l, bs[..n]);
    var r := Emitted(l, bs);
    assert r == front + [Sentence(l, bs), CloneWith(l, "%")];
    EvensOddsPair(front, Sentence(l, bs), CloneWith(l, "%"), n);
  }

  /** Between the sentences stand "%" lines, one per sentence end. */
  lemma {:induction false} EmittedOdds(l: Line, bs: seq<nat>)
    requires Fits(bs, |l.content|)
    ensures |Evens(Emitted(l, bs))| == |Odds(Emitted(l, bs))| == |bs|
    ensures forall k :: 0 <= k < |Odds(Emitted(l, bs))| ==> Odds(Emitted(l, bs))[k] == CloneWith(l, "%")
    decreases |bs|
  {
    if bs != [] {
      EmittedOdds(l, bs[..|bs| - 1]);
      EmittedLast(l, bs);
    }
  }

  lemma TileStep(c: string, st: nat, e: nat)
    requires st <= e <= |c|
    ensures NonWs(Strip(c[st..e])) + NonWs(c[e..]) == NonWs(c[st..])
  {
    StripKeepsNonWs(c[st..e]);
    assert c[st..] == c[st..e] + c[e..];
    NonWsAppend(c[st..e], c[e..]);
  }

  /** The letters of the sentences grow by those of the last sentence. */
  lemma LettersLast(l: Line, bs: seq<nat>)
    requires Fits(bs, |l.content|) && bs != []
    ensures Letters(Evens(Emitted(l, bs)))
      == Letters(Evens(Emitted(l, bs[..|bs| - 1]))) + NonWs(Strip(l.content[Start(bs, |bs| - 1)..bs[|bs| - 1] + 1]))
  {
    var sentence := Sentence(l, bs);
    EmittedLast(l, bs);
    LettersAppend(Evens(Emitted(l, bs[..|bs| - 1])), [sentence]);
    LettersSingle(sentence);
  }

  /** One more sentence: if the sentences so far and the rest from st tile c, and the next
      sentence is the stripped text from st to e, then the sentences and the rest from e do. */
  lemma TileLast(done: string, all: string, c: string, st: nat, e: nat)
    requires st <= e <= |c|
    requires done + NonWs(c[st..]) == NonWs(c)
    requires all == done + NonWs(Strip(c[st..e]))
    ensures all + NonWs(c[e..]) == NonWs(c)
  {
    TileStep(c, st, e);
    Regroup(done, NonWs(Strip(c[st..e])), NonWs(c[e..]), NonWs(c[st..]));
  }

  lemma WholeSlice(s: string)
    ensures s[0..] == s
  {
  }


  /** The non-whitespace characters of the sentences of c that end at bs, in order. */
  function SentenceLetters(c: string, bs: seq<nat>): string
    requires Fits(bs, |c|)
    decreases |bs|
  {
    if bs == [] then []
    else
      var n := |bs| - 1;
      SentenceLetters(c, bs[..n]) + NonWs(Strip(c[Start(bs, n)..bs[n] + 1]))
  }

  /** The sentence lines emitted carry exactly those characters. */
  lemma {:induction false} EmittedLetters(l: Line, bs: seq<nat>)
    requires Fits(bs, |l.content|)
    ensures Letters(Evens(Emitted(l, bs))) == SentenceLetters(l.content, bs)
    decreases |bs|
  {
    if bs != [] {
      EmittedLetters(l, bs[..|bs| - 1]);
      LettersLast(l, bs);
    } else {
      assert Emitted(l, bs) == [];
    }
  }

  /** The sentences and the rest of the line after the last sentence end tile the line. */
  lemma {:induction false} SentencesTile(c: string, bs: seq<nat>)
    requires Fits(bs, |c|)
    ensures SentenceLetters(c, bs) + NonWs(c[Start(bs, |bs|)..]) == NonWs(c)
    decreases |bs|
  {
    if bs != [] {
      var init := bs[..|bs| - 1];
      var st, e := Start(bs, |bs| - 1), bs[|bs| - 1] + 1;
      SentencesTile(c, init);
      assert Start(init, |init|) == st;
      TileLast(SentenceLetters(c, init), SentenceLetters(c, bs), c, st, e);
    } else {
      WholeSlice(c);
    }
  }

  /** The cut when the rest of the line is kept. */
  lemma SplitAtRest(l: Line, bs: seq<nat>)
    requires !IsBlank(l.content) && Fits(bs, |l.content|)
    requires !IsBlank(l.content[Start(bs, |bs|)..])
    ensures Letters(Evens(SplitAt(l, bs))) == NonWs(l.content)
    ensures |Evens(SplitAt(l, bs))| == |Odds(SplitAt(l, bs))| + 1
    ensures Odds(SplitAt(l, bs)) == Odds(Emitted(l, bs))
  {
    var front := Emitted(l, bs);
    var r := CloneWith(l, l.content[Start(bs, |bs|)..]);
    SentencesTile(l.content, bs);
    EmittedLetters(l, bs);
    EmittedOdds(l, bs);
    EvensOddsSingle(front, r, |bs|);
    LettersAppend(Evens(front), [r]);
    LettersSingle(r);
  }

  /** The cut when the rest of the line is blank: the last "%" line is taken back. */
  lemma SplitAtNoRest(l: Line, bs: seq<nat>)
    requires !IsBlank(l.content) && Fits(bs, |l.content|)
    requires bs != [] && IsBlank(l.content[Start(bs, |bs|)..])
    ensures Letters(Evens(SplitAt(l, bs))) == NonWs(l.content)
    ensures |Evens(SplitAt(l, bs))| == |Odds(SplitAt(l, bs))| + 1
    ensures Odds(SplitAt(l, bs)) == Odds(Emitted(l, bs[..|bs| - 1]))
  {
    var n := |bs| - 1;
    NonWsOfBlank(l.content[Start(bs, |bs|)..]);
    SentencesTile(l.content, bs);
    EmittedLetters(l, bs);
    EmittedLast(l, bs);
    EmittedOdds(l, bs[..n]);
    var init := Emitted(l, bs[..n]);
    var sentence := Sentence(l, bs);
    assert SplitAt(l, bs) == init + [sentence];
    EvensOddsSingle(init, sentence, n);
    LettersAppend(Evens(init), [sentence]);
    LettersSingle(sentence);
  }

  /** Cutting a line loses no text: the sentence lines hold the line's non-whitespace
      characters in order. Sentences and "%" lines alternate, and a sentence comes first
      and last. */
  lemma SplitAtKeepsText(l: Line, bs: seq<nat>)
    requires !IsBlank(l.content) && Fits(bs, |l.content|)
    ensures Letters(Evens(SplitAt(l, bs))) == NonWs(l.content)
    ensures |Evens(SplitAt(l, bs))| == |Odds(SplitAt(l, bs))| + 1
    ensures forall k :: 0 <= k < |Odds(SplitAt(l, bs))| ==> Odds(SplitAt(l, bs))[k].content == "%"
  {
    WholeSlice(l.content);
    if !IsBlank(l.content[Start(bs, |bs|)..]) {
      SplitAtRest(l, bs);
      EmittedOdds(l, bs);
    } else {
      SplitAtNoRest(l, bs);
      EmittedOdds(l, bs[..|bs| - 1]);
    }
  }

  /** The same for the cut the scan chooses. */
  lemma SplitLineKeepsText(mk: Markers, l: Line)
    requires !IsBlank(l.content)
    ensures Letters(Evens(SplitLine(mk, l))) == NonWs(l.content)
    ensures |Evens(SplitLine(mk, l))| == |Odds(SplitLine(mk, l))| + 1
    ensures forall k :: 0 <= k < |Odds(SplitLine(mk, l))| ==> Odds(SplitLine(mk, l))[k].content == "%"
  {
    SplitAtKeepsText(l, Ends(mk, l.content, 0, false));
  }

  /** A stripped sentence that ends in a character that is not whitespace is not blank. */
  lemma CutNotBlank(l: Line, st: nat, e: nat)
    requires st <= e < |l.content| && !IsWhitespace(l.content[e])
    ensures !IsBlank(Cut(l, st, e + 1).content)
  {
    var s := l.content[st..e + 1];
    assert !IsWhitespace(s[|s| - 1]);
    NonWsOfBlank(s);
    StripKeepsNonWs(s);
    NonWsOfBlank(Strip(s));
  }

  /** When no sentence ends at a whitespace character, no emitted line is blank. */
  lemma {:induction false} EmittedNotBlank(l: Line, bs: seq<nat>)
    requires Fits(bs, |l.content|)
    requires forall k :: 0 <= k < |bs| ==> bs[k] < |l.content| && !IsWhitespace(l.content[bs[k]])
    ensures forall k :: 0 <= k < |Emitted(l, bs)| ==> !IsBlank(Emitted(l, bs)[k].content)
    decreases |bs|
  {
    if bs != [] {
      var n := |bs| - 1;
      EmittedNotBlank(l, bs[..n]);
      CutNotBlank(l, Start(bs, n), bs[n]);
      assert !IsBlank(CloneWith(l, "%").content) by { assert "%"[0] == '%'; }
    }
  }

  /** splitSentences adds no blank line, provided no line-end character is whitespace: each
      sentence ends in its line-end character, and a blank rest takes the last "%" line
      back instead of being emitted. */
  lemma SplitLineNotBlank(mk: Markers, l: Line)
    requires !IsBlank(l.content)
    requires forall ch :: ch in mk.lineEnds ==> !IsWhitespace(ch)
    ensures forall k :: 0 <= k < |SplitLine(mk, l)| ==> !IsBlank(SplitLine(mk, l)[k].content)
  {
    var bs := Ends(mk, l.content, 0, false);
    EndsAreEnds(mk, l.content, 0, false);
    EmittedNotBlank(l, bs);
  }

  /** With a whitespace line-end character a blank line does appear: with ' ' as a line end,
      "a   b" becomes "a", "%", "", "%" and " b". */
  lemma WhitespaceLineEndMakesBlank(mk: Markers)
    requires mk.lineEnds == {' '} && forall s :: mk.beginInline(s) <= 0
    ensures var l := Line("a   b", false, false, false);
      !IsBlank(l.content) &&
      SplitLine(mk, l) == [Line("a", false, false, false), Line("%", false, false, false),
                           Line("", false, false, false), Line("%", false, false, false),
                           Line(" b", false, false, false)]
  {
    var l := Line("a   b", false, false, false);
    SpacedEnds(mk);
    SpacedCuts(l);
    var pct := CloneWith(l, "%");
    assert Emitted(l, [1]) == [Cut(l, 0, 2), pct];
    assert Emitted(l, [1, 2]) == [Cut(l, 0, 2), pct, Cut(l, 2, 3), pct];
    assert Start([1, 2], 2) == 3;
    assert SplitLine(mk, l) == SplitAt(l, [1, 2]) == Emitted(l, [1, 2]) + [CloneWith(l, l.content[3..])];
  }

  /** The pieces of "a   b" cut after its first two spaces. */
  lemma SpacedCuts(l: Line)
    requires l == Line("a   b", false, false, false)
    ensures !IsBlank(l.content) && l.content[3..] == " b" && !IsBlank(" b")
    ensures Cut(l, 0, 2) == Line("a", false, false, false)
    ensures Cut(l, 2, 3) == Line("", false, false, false)
  {
    var c := l.content;
    assert !IsBlank(c) by { assert !IsWhitespace(c[0]); }
    assert !IsBlank(" b") by { assert !IsWhitespace(" b"[1]); }
    assert Strip(c[0..2]) == "a" by {
      assert c[0..2] == "a " && "a "[..1] == "a";
      assert StripLeading("a ") == "a " && StripTrailing("a") == "a";
    }
    assert Strip(c[2..3]) == "" by {
      assert c[2..3] == " " && " "[1..] == [];
    }
  }

  /** In "a   b" with ' ' as a line end, sentences end at the first two spaces. */
  lemma SpacedEnds(mk: Markers)
    requires mk.lineEnds == {' '} && forall s :: mk.beginInline(s) <= 0
    ensures Ends(mk, "a   b", 0, false) == [1, 2]
  {
    var c := "a   b";
    assert Ends(mk, c, 4, false) == [];
    assert Ends(mk, c, 3, false) == [];
    assert Ends(mk, c, 2, false) == [2];
    assert Ends(mk, c, 1, false) == [1, 2];
  }

  /** The cut lines are clones of the original: same protection tags, no comment tag. */
  lemma SplitAtClones(l: Line, bs: seq<nat>)
    requires !IsBlank(l.content) && Fits(bs, |l.content|)
    ensures forall k :: 0 <= k < |SplitAt(l, bs)| ==> SplitAt(l, bs)[k] == CloneWith(l, SplitAt(l, bs)[k].content)
  {
    EmittedClones(l, bs);
  }

  /** The cut lines are clones of the original: same protection tags, no comment tag. */
  lemma {:induction false} EmittedClones(l: Line, bs: seq<nat>)
    requires Fits(bs, |l.content|)
    ensures forall k :: 0 <= k < |Emitted(l, bs)| ==> Emitted(l, bs)[k] == CloneWith(l, Emitted(l, bs)[k].content)
    decreases |bs|
  {
    if bs != [] {
      EmittedClones(l, bs[..|bs| - 1]);
    }
  }

  /** Exempt lines pass through; every other line is replaced by clones of itself, which are
      not verbatim. */
  lemma LinesForKeepProtected(mk: Markers, l: Line)
    ensures ProtectedText(LinesFor(mk, l)) == ProtectedText([l])
  {
    if !Exempt(l) {
      SplitAtClones(l, Ends(mk, l.content, 0, false));
      NoProtectedText(SplitLine(mk, l));
      NoProtectedText([l]);
    }
  }

  /** splitSentences keeps the verbatim text as it was. */
  lemma {:induction false} SplitKeepsProtected(mk: Markers, ls: seq<Line>)
    ensures ProtectedText(SplitSentences(mk, ls)) == ProtectedText(ls)
  {
    if ls != [] {
      var init, last := ls[..|ls| - 1], ls[|ls| - 1];
      var front := SplitSentences(mk, init);
      SplitKeepsProtected(mk, init);
      assert SplitSentences(mk, ls) == front + LinesFor(mk, last);
      ProtectedTextAppend(front, LinesFor(mk, last));
      LinesForKeepProtected(mk, last);
      InitLast(ls);
      ProtectedTextAppend(init, [last]);
    }
  }
}
