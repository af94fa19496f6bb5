/**
 * removeLinebreaks: a soft line break between two lines is removed (the second line is
 * appended to the first after a space, the result stripped, the second line deleted) when
 * none of eight guards objects; after a merge the same position is tried again.
 */
module Merging {
  import opened Text
  import opened LatexLines
  import opened Grammar

  /** The guards for line a at position i and line b at position i + 1: neither is blank or
      verbatim, a does not match protect_break_after and has no unescaped %, b does not match
      protect_break_before and is not a comment line. */
  predicate Mergeable(breakAfter: string -> bool, breakBefore: string -> bool, a: Line, b: Line)
  {
    !IsBlank(a.content) && !IsBlank(b.content)
    && !breakAfter(a.content) && !breakBefore(b.content)
    && !a.protect && !b.protect
    && !HasUnescapedComment(a.content) && !b.lineComment
  }

  /** a.append(" ").concat(b).strip(): a keeps its tags and takes the joined, stripped text. */
  function Merged(a: Line, b: Line): (r: Line)
    ensures r == a.(content := r.content) && IsStripped(r.content)
  {
    StripIsStripped(a.content + " " + b.content);
    a.(content := Strip(a.content + " " + b.content))
  }

  /** The loop from position i on. */
  function MergeFrom(breakAfter: string -> bool, breakBefore: string -> bool, ls: seq<Line>, i: nat): (r: seq<Line>)
    requires i <= |ls|
    ensures |r| <= |ls|
    decreases |ls|, |ls| - i
  {
    if i + 1 >= |ls| then ls
    else if Mergeable(breakAfter, breakBefore, ls[i], ls[i + 1]) then
      MergeFrom(breakAfter, breakBefore, ls[..i] + [Merged(ls[i], ls[i + 1])] + ls[i + 2..], i)
    else MergeFrom(breakAfter, breakBefore, ls, i + 1)
  }

  function RemoveLinebreaks(breakAfter: string -> bool, breakBefore: string -> bool, ls: seq<Line>): seq<Line>
  {
    MergeFrom(breakAfter, breakBefore, ls, 0)
  }

  /** No line is tagged as block math, so any two lines may be concatenated. */
  predicate NoMathTags(ls: seq<Line>)
  {
    forall k :: 0 <= k < |ls| ==> !ls[k].protectSentences
  }

  /** One step of the loop: after a merge at position i the pair is replaced by the merged line
      (the second object is removed from the list, the first updated in place) and the loop
      stays at i; otherwise it moves on. Either way the result of the pass is unchanged and no
      line gains a math tag. */
  lemma MergeAdvance(breakAfter: string -> bool, breakBefore: string -> bool, v: seq<Line>, i: nat)
    requires i + 1 < |v| && NoMathTags(v)
    ensures Mergeable(breakAfter, breakBefore, v[i], v[i + 1]) ==>
      var w := v[i := Merged(v[i], v[i + 1])];
      var u := w[..i + 1] + w[i + 2..];
      MergeFrom(breakAfter, breakBefore, u, i) == MergeFrom(breakAfter, breakBefore, v, i) && NoMathTags(u)
    ensures !Mergeable(breakAfter, breakBefore, v[i], v[i + 1]) ==>
      MergeFrom(breakAfter, breakBefore, v, i + 1) == MergeFrom(breakAfter, breakBefore, v, i)
  {
    var w := v[i := Merged(v[i], v[i + 1])];
    var u := w[..i + 1] + w[i + 2..];
    assert u == v[..i] + [Merged(v[i], v[i + 1])] + v[i + 2..];
  }

  /** Lines no merge ever touches: blank lines and verbatim lines. */
  predicate Barrier(l: Line)
  {
    l.protect || IsBlank(l.content)
  }

  function Barriers(ls: seq<Line>): (r: seq<Line>)
    ensures forall k :: 0 <= k < |r| ==> Barrier(r[k])
  {
    if ls == [] then [] else (if Barrier(ls[0]) then [ls[0]] else []) + Barriers(ls[1..])
  }

  lemma {:induction false} BarriersAppend(a: seq<Line>, b: seq<Line>)
    ensures Barriers(a + b) == Barriers(a) + Barriers(b)
  {
    if a == [] {
      assert a + b == b;
    } else {
      assert (a + b)[1..] == a[1..] + b;
      BarriersAppend(a[1..], b);
    }
  }

  lemma {:induction false} ProtectedTextOfBarriers(ls: seq<Line>)
    ensures ProtectedText(Barriers(ls)) == ProtectedText(ls)
  {
    if ls != [] {
      ProtectedTextOfBarriers(ls[1..]);
      var h := if Barrier(ls[0]) then [ls[0]] else [];
      assert ls == [ls[0]] + ls[1..];
      ProtectedTextAppend(h, Barriers(ls[1..]));
      ProtectedTextAppend([ls[0]], ls[1..]);
      assert ProtectedText([ls[0]]) == ProtectedText([]) + (if ls[0].protect then [ls[0].content] else []);
      assert ProtectedText([]) == [];
    }
  }

  /** Merging loses no text and yields a line that is not blank. */
  lemma MergedLetters(a: Line, b: Line)
    requires !IsBlank(b.content)
    ensures NonWs(Merged(a, b).content) == NonWs(a.content) + NonWs(b.content)
    ensures !IsBlank(Merged(a, b).content)
  {
    var joined := a.content + " " + b.content;
    StripKeepsNonWs(joined);
    NonWsJoinSpace(a.content, b.content);
    NonWsOfBlank(b.content);
    NonWsOfBlank(Strip(joined));
  }

  lemma BarriersSplice(pre: seq<Line>, mid: seq<Line>, post: seq<Line>)
    requires Barriers(mid) == []
    ensures Barriers(pre + mid + post) == Barriers(pre) + Barriers(post)
  {
    var front := pre + mid;
    BarriersAppend(front, post);
    BarriersAppend(pre, mid);
    assert Barriers(front) == Barriers(pre) + [];
  }

  lemma {:induction false} NoBarriers(ls: seq<Line>)
    requires forall k :: 0 <= k < |ls| ==> !Barrier(ls[k])
    ensures Barriers(ls) == []
  {
    if ls != [] {
      NoBarriers(ls[1..]);
    }
  }

  /** One merge step at position i keeps the barrier lines. */
  lemma MergeStepBarriers(ls: seq<Line>, i: nat)
    requires i + 1 < |ls|
    requires !Barrier(ls[i]) && !Barrier(ls[i + 1])
    ensures Barriers(ls[..i] + [Merged(ls[i], ls[i + 1])] + ls[i + 2..]) == Barriers(ls)
  {
    var a, b := ls[i], ls[i + 1];
    var pre, post := ls[..i], ls[i + 2..];
    SpliceShape(ls, i);
    MergedLetters(a, b);
    NoBarriers([Merged(a, b)]);
    NoBarriers([a, b]);
    BarriersSplice(pre, [Merged(a, b)], post);
    BarriersSplice(pre, [a, b], post);
  }

  /** A sequence is the part before position i, the pair at i, and the part after. */
  lemma SpliceShape(ls: seq<Line>, i: nat)
    requires i + 1 < |ls|
    ensures ls == ls[..i] + [ls[i], ls[i + 1]] + ls[i + 2..]
  {
  }

  lemma LettersSplice(pre: seq<Line>, mid: seq<Line>, post: seq<Line>)
    ensures Letters(pre + mid + post) == Letters(pre) + Letters(mid) + Letters(post)
  {
    LettersAppend(pre + mid, post);
    LettersAppend(pre, mid);
  }

  /** The merged line holds the letters of the pair it replaces. */
  lemma MergedPairLetters(a: Line, b: Line)
    requires !IsBlank(b.content)
    ensures Letters([Merged(a, b)]) == Letters([a, b])
  {
    MergedLetters(a, b);
    LettersSingle(Merged(a, b));
    LettersAppend([a], [b]);
    LettersSingle(a);
    LettersSingle(b);
    assert [a] + [b] == [a, b];
  }

  /** One merge step at position i keeps the text. */
  lemma MergeStepLetters(ls: seq<Line>, i: nat)
    requires i + 1 < |ls|
    requires !Barrier(ls[i]) && !Barrier(ls[i + 1])
    ensures Letters(ls[..i] + [Merged(ls[i], ls[i + 1])] + ls[i + 2..]) == Letters(ls)
  {
    var a, b := ls[i], ls[i + 1];
    var pre, post := ls[..i], ls[i + 2..];
    SpliceShape(ls, i);
    MergedPairLetters(a, b);
    LettersSplice(pre, [Merged(a, b)], post);
    LettersSplice(pre, [a, b], post);
  }

  /** Blank and verbatim lines are neither changed nor removed, and no text is lost: the
      non-whitespace characters of the document stay the same, in order. */
  lemma {:induction false} MergeKeepsText(breakAfter: string -> bool, breakBefore: string -> bool, ls: seq<Line>, i: nat)
    requires i <= |ls|
    ensures Barriers(MergeFrom(breakAfter, breakBefore, ls, i)) == Barriers(ls)
    ensures Letters(MergeFrom(breakAfter, breakBefore, ls, i)) == Letters(ls)
    decreases |ls|, |ls| - i
  {
    if i + 1 < |ls| {
      if Mergeable(breakAfter, breakBefore, ls[i], ls[i + 1]) {
        MergeStepBarriers(ls, i);
        MergeStepLetters(ls, i);
        MergeKeepsText(breakAfter, breakBefore, ls[..i] + [Merged(ls[i], ls[i + 1])] + ls[i + 2..], i);
      } else {
        MergeKeepsText(breakAfter, breakBefore, ls, i + 1);
      }
    }
  }

  /** In particular the verbatim text is untouched. */
  lemma MergeKeepsProtected(breakAfter: string -> bool, breakBefore: string -> bool, ls: seq<Line>)
    ensures ProtectedText(RemoveLinebreaks(breakAfter, breakBefore, ls)) == ProtectedText(ls)
  {
    MergeKeepsText(breakAfter, breakBefore, ls, 0);
    ProtectedTextOfBarriers(ls);
    ProtectedTextOfBarriers(RemoveLinebreaks(breakAfter, breakBefore, ls));
  }

  /** Where no two adjacent lines pass the guards, nothing changes. */
  lemma {:induction false} NothingMergeable(breakAfter: string -> bool, breakBefore: string -> bool, ls: seq<Line>, i: nat)
    requires i <= |ls|
    requires forall k :: i <= k < |ls| - 1 ==> !Mergeable(breakAfter, breakBefore, ls[k], ls[k + 1])
    ensures MergeFrom(breakAfter, breakBefore, ls, i) == ls
    decreases |ls| - i
  {
    if i + 1 < |ls| {
      NothingMergeable(breakAfter, breakBefore, ls, i + 1);
    }
  }

  lemma MergedExample()
    ensures Merged(Line("a", false, false, false), Line("b", false, false, false)) == Line("a b", false, false, false)
  {
    assert "a" + " " + "b" == "a b";
    assert IsStripped("a b") by {
      assert !IsWhitespace('a') && !IsWhitespace('b');
    }
    StrippedIsFixed("a b");
  }

  /** A paragraph written over two lines becomes one line. */
  lemma ParagraphJoined()
    ensures RemoveLinebreaks(s => false, s => false,
      [Line("a", false, false, false), Line("b", false, false, false)])
      == [Line("a b", false, false, false)]
  {
    var no: string -> bool := s => false;
    var ls := [Line("a", false, false, false), Line("b", false, false, false)];
    assert !HasUnescapedComment("a") by {
      assert "a"[0] != '%';
    }
    assert !IsBlank("a") && !IsBlank("b") by {
      assert !IsWhitespace("a"[0]) && !IsWhitespace("b"[0]);
    }
    assert Mergeable(no, no, ls[0], ls[1]);
    MergedExample();
    var ls1 := [Line("a b", false, false, false)];
    assert ls[..0] + [Merged(ls[0], ls[1])] + ls[2..] == ls1;
  }

  /** A line that ends in a comment keeps its line break: merging would comment out the
      next line. */
  lemma CommentStopsMerge()
    ensures RemoveLinebreaks(s => false, s => false,
      [Line("a % note", false, false, false), Line("b", false, false, false)])
      == [Line("a % note", false, false, false), Line("b", false, false, false)]
  {
    var w := "a % note";
    assert w[2] == '%' && w[1] != '\\' && NoTerminator(w[3..]) && NoTerminator(w[..1]);
    assert HasUnescapedComment(w);
  }
}
