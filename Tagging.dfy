/** How a run of the pipeline can stop before producing text. */
module Failures {
  /** A region closed more often than it was opened (the `assert depth >= 0` of detectVerbatim
      and detectMath), or a line that the comment split does not match (the RuntimeException
      of addLinebreaks). */
  datatype Failure = UnbalancedRegion | NoCommentSplit(content: string)

  datatype Result<T> = Ok(value: T) | Error(failure: Failure)
}

/**
 * The passes that only set tags or trim: detectVerbatim and detectMath (depth counters over
 * begin and end markers), trim, and detectComments.
 */
module Tagging {
  import opened Text
  import opened LatexLines
  import opened Failures

  /** How many of the first k lines the marker accepts (the marker is a whole-line match). */
  function Count(marker: string -> bool, ls: seq<Line>, k: nat): (n: nat)
    requires k <= |ls|
    ensures n <= k
  {
    if k == 0 then 0 else Count(marker, ls, k - 1) + (if marker(ls[k - 1].content) then 1 else 0)
  }

  /** The depth after each line, begin-count minus end-count, never goes negative. */
  predicate Balanced(begin: string -> bool, end: string -> bool, ls: seq<Line>)
  {
    forall k :: 0 < k <= |ls| ==> Count(end, ls, k) <= Count(begin, ls, k)
  }

  /** Line k lies in a region: the depth after its own begin check and before its own end check
      is positive. */
  predicate Inside(begin: string -> bool, end: string -> bool, ls: seq<Line>, k: nat)
    requires k < |ls|
  {
    Count(end, ls, k) < Count(begin, ls, k + 1)
  }

  /** detectVerbatim: lines inside a verbatim region are tagged protected; an unbalanced end
      marker stops the run. */
  function TagVerbatim(begin: string -> bool, end: string -> bool, ls: seq<Line>): (r: Result<seq<Line>>)
    ensures r.Ok? <==> Balanced(begin, end, ls)
    ensures r.Error? ==> r.failure == UnbalancedRegion
    ensures r.Ok? ==> |r.value| == |ls|
    ensures r.Ok? ==> forall k :: 0 <= k < |ls| ==>
      r.value[k].content == ls[k].content && r.value[k].protectSentences == ls[k].protectSentences
      && r.value[k].lineComment == ls[k].lineComment
      && (r.value[k].protect <==> ls[k].protect || Inside(begin, end, ls, k))
  {
    if Balanced(begin, end, ls) then
      Ok(seq(|ls|, k requires 0 <= k < |ls| =>
        ls[k].(protect := ls[k].protect || Inside(begin, end, ls, k))))
    else Error(UnbalancedRegion)
  }

  /** detectMath: lines inside a block-math region are tagged as protected from sentence
      splitting; an unbalanced end marker stops the run. */
  function TagMath(begin: string -> bool, end: string -> bool, ls: seq<Line>): (r: Result<seq<Line>>)
    ensures r.Ok? <==> Balanced(begin, end, ls)
    ensures r.Error? ==> r.failure == UnbalancedRegion
    ensures r.Ok? ==> |r.value| == |ls|
    ensures r.Ok? ==> forall k :: 0 <= k < |ls| ==>
      r.value[k].content == ls[k].content && r.value[k].protect == ls[k].protect
      && r.value[k].lineComment == ls[k].lineComment
      && (r.value[k].protectSentences <==> ls[k].protectSentences || Inside(begin, end, ls, k))
  {
    if Balanced(begin, end, ls) then
      Ok(seq(|ls|, k requires 0 <= k < |ls| =>
        ls[k].(protectSentences := ls[k].protectSentences || Inside(begin, end, ls, k))))
    else Error(UnbalancedRegion)
  }

  /** Sets the tag that detectVerbatim (sentences false) or detectMath (sentences true) sets. */
  function Mark(l: Line, sentences: bool): Line
  {
    if sentences then l.(protectSentences := true) else l.(protect := true)
  }

  /** One line of the depth counter of detectVerbatim and detectMath: the begin check, the tag
      while the depth is positive, then the end check. Gives the line as tagged and the depth
      after it. */
  function Step(begin: string -> bool, end: string -> bool, sentences: bool, l: Line, depth: int): (Line, int)
  {
    var up := if begin(l.content) then depth + 1 else depth;
    (if up > 0 then Mark(l, sentences) else l, if end(l.content) then up - 1 else up)
  }

  /** The counter run over the lines from k on, with the lines before k already tagged as
      done; a negative depth (the failing `assert depth >= 0`) stops the run. */
  function Scan(begin: string -> bool, end: string -> bool, sentences: bool, ls: seq<Line>, k: nat, depth: int, done: seq<Line>): Result<seq<Line>>
    requires k <= |ls|
    decreases |ls| - k
  {
    if k == |ls| then Ok(done)
    else
      var step := Step(begin, end, sentences, ls[k], depth);
      if step.1 < 0 then Error(UnbalancedRegion)
      else Scan(begin, end, sentences, ls, k + 1, step.1, done + [step.0])
  }

  /** The region tagging as a whole: verbatim regions, or block-math regions. */
  function TagRegions(begin: string -> bool, end: string -> bool, sentences: bool, ls: seq<Line>): Result<seq<Line>>
  {
    if sentences then TagMath(begin, end, ls) else TagVerbatim(begin, end, ls)
  }

  /** With the counter at the begin count minus the end count, one step tags line k exactly
      when it is inside a region and leaves the counter in the same relation after line k. */
  lemma StepCounts(begin: string -> bool, end: string -> bool, sentences: bool, ls: seq<Line>, k: nat)
    requires k < |ls|
    ensures Step(begin, end, sentences, ls[k], Count(begin, ls, k) - Count(end, ls, k))
      == (if Inside(begin, end, ls, k) then Mark(ls[k], sentences) else ls[k],
          Count(begin, ls, k + 1) - Count(end, ls, k + 1))
  {
  }

  /** The first k lines, each tagged exactly when it is inside a region. */
  function Tagged(begin: string -> bool, end: string -> bool, sentences: bool, ls: seq<Line>, k: nat): (r: seq<Line>)
    requires k <= |ls|
    ensures |r| == k
  {
    if k == 0 then []
    else
      var l := ls[k - 1];
      Tagged(begin, end, sentences, ls, k - 1) + [if Inside(begin, end, ls, k - 1) then Mark(l, sentences) else l]
  }

  lemma {:induction false} TaggedAt(begin: string -> bool, end: string -> bool, sentences: bool, ls: seq<Line>, k: nat, j: nat)
    requires j < k <= |ls|
    ensures Tagged(begin, end, sentences, ls, k)[j] == if Inside(begin, end, ls, j) then Mark(ls[j], sentences) else ls[j]
  {
    if j < k - 1 {
      TaggedAt(begin, end, sentences, ls, k - 1, j);
    }
  }

  /** On balanced input, the region tagging tags each line exactly when it is inside a region. */
  lemma TagRegionsIs(begin: string -> bool, end: string -> bool, sentences: bool, ls: seq<Line>)
    requires Balanced(begin, end, ls)
    ensures TagRegions(begin, end, sentences, ls) == Ok(Tagged(begin, end, sentences, ls, |ls|))
  {
    var r := TagRegions(begin, end, sentences, ls).value;
    var t := Tagged(begin, end, sentences, ls, |ls|);
    forall j | 0 <= j < |ls|
      ensures r[j] == t[j]
    {
      TaggedAt(begin, end, sentences, ls, |ls|, j);
      if sentences {
        assert r[j] == ls[j].(protectSentences := ls[j].protectSentences || Inside(begin, end, ls, j));
      } else {
        assert r[j] == ls[j].(protect := ls[j].protect || Inside(begin, end, ls, j));
      }
    }
    assert r == t;
  }

  /** No prefix of up to k lines closes more regions than it opens. */
  predicate BalancedUpTo(begin: string -> bool, end: string -> bool, ls: seq<Line>, k: nat)
    requires k <= |ls|
  {
    k == 0 || (BalancedUpTo(begin, end, ls, k - 1) && Count(end, ls, k) <= Count(begin, ls, k))
  }

  lemma {:induction false} BalancedUpToAll(begin: string -> bool, end: string -> bool, ls: seq<Line>, k: nat)
    requires k <= |ls|
    ensures BalancedUpTo(begin, end, ls, k) ==> forall j :: 0 < j <= k ==> Count(end, ls, j) <= Count(begin, ls, j)
    ensures (forall j :: 0 < j <= k ==> Count(end, ls, j) <= Count(begin, ls, j)) ==> BalancedUpTo(begin, end, ls, k)
  {
    if k > 0 {
      BalancedUpToAll(begin, end, ls, k - 1);
      if !BalancedUpTo(begin, end, ls, k) && Count(end, ls, k) <= Count(begin, ls, k) {
        var j :| 0 < j <= k - 1 && Count(end, ls, j) > Count(begin, ls, j);
      }
    }
  }

  /** A balanced prefix has balanced prefixes. */
  lemma {:induction false} BalancedUpToPrefix(begin: string -> bool, end: string -> bool, ls: seq<Line>, j: nat, k: nat)
    requires j <= k <= |ls| && BalancedUpTo(begin, end, ls, k)
    ensures BalancedUpTo(begin, end, ls, j)
    decreases k
  {
    if j < k {
      BalancedUpToPrefix(begin, end, ls, j, k - 1);
    }
  }

  /** From line k on, with the counter equal to the begin count minus the end count so far and
      the earlier lines tagged, the scan tags every line inside a region, or fails when some
      prefix closes more regions than it opens. */
  lemma {:induction false} ScanFrom(begin: string -> bool, end: string -> bool, sentences: bool, ls: seq<Line>, k: nat)
    requires k <= |ls| && BalancedUpTo(begin, end, ls, k)
    ensures Scan(begin, end, sentences, ls, k, Count(begin, ls, k) - Count(end, ls, k), Tagged(begin, end, sentences, ls, k))
      == if BalancedUpTo(begin, end, ls, |ls|) then Ok(Tagged(begin, end, sentences, ls, |ls|)) else Error(UnbalancedRegion)
    decreases |ls| - k
  {
    if k < |ls| {
      StepCounts(begin, end, sentences, ls, k);
      if Count(end, ls, k + 1) > Count(begin, ls, k + 1) {
        if BalancedUpTo(begin, end, ls, |ls|) {
          BalancedUpToPrefix(begin, end, ls, k + 1, |ls|);
        }
      } else {
        ScanFrom(begin, end, sentences, ls, k + 1);
      }
    }
  }

  /** The scan from the first line, in terms of the balance of every prefix. */
  lemma ScanFromStart(begin: string -> bool, end: string -> bool, sentences: bool, ls: seq<Line>)
    ensures Scan(begin, end, sentences, ls, 0, 0, [])
      == if BalancedUpTo(begin, end, ls, |ls|) then Ok(Tagged(begin, end, sentences, ls, |ls|)) else Error(UnbalancedRegion)
  {
    assert Count(begin, ls, 0) - Count(end, ls, 0) == 0 && Tagged(begin, end, sentences, ls, 0) == [];
    ScanFrom(begin, end, sentences, ls, 0);
  }

  /** The counter of detectVerbatim and detectMath computes the region tagging: it fails
      exactly on unbalanced input and otherwise tags exactly the lines inside a region. */
  lemma ScanIsTagging(begin: string -> bool, end: string -> bool, sentences: bool, ls: seq<Line>)
    ensures Scan(begin, end, sentences, ls, 0, 0, []) == TagRegions(begin, end, sentences, ls)
  {
    ScanFromStart(begin, end, sentences, ls);
    BalancedUpToAll(begin, end, ls, |ls|);
    if Balanced(begin, end, ls) {
      TagRegionsIs(begin, end, sentences, ls);
    }
  }


  /** On balanced input both the line with the begin marker and the line with the end
      marker belong to the region. */
  lemma MarkerLinesInside(begin: string -> bool, end: string -> bool, ls: seq<Line>, k: nat)
    requires Balanced(begin, end, ls) && k < |ls|
    requires begin(ls[k].content) || end(ls[k].content)
    ensures Inside(begin, end, ls, k)
  {
    if k > 0 {
      assert Count(end, ls, k) <= Count(begin, ls, k);
    }
    assert Count(end, ls, k + 1) <= Count(begin, ls, k + 1);
  }

  /** Between regions (depth zero before the line) a line with neither marker is not tagged. */
  lemma OutsideBetweenRegions(begin: string -> bool, end: string -> bool, ls: seq<Line>, k: nat)
    requires k < |ls| && Count(begin, ls, k) == Count(end, ls, k)
    requires !begin(ls[k].content)
    ensures !Inside(begin, end, ls, k)
  {
  }

  /** The depth counter stays nonnegative exactly while no prefix has closed more regions
      than it opened; the first line to close an unopened region is where the run stops. */
  lemma {:induction false} UnbalancedAtFirstExcessEnd(begin: string -> bool, end: string -> bool, ls: seq<Line>, k: nat)
    requires k < |ls|
    requires Count(end, ls, k) == Count(begin, ls, k)
    requires end(ls[k].content) && !begin(ls[k].content)
    ensures !Balanced(begin, end, ls)
  {
    assert Count(end, ls, k + 1) > Count(begin, ls, k + 1);
  }

  /** trim: every line that is not verbatim loses its leading and trailing whitespace. */
  function TrimLines(ls: seq<Line>): (r: seq<Line>)
    ensures |r| == |ls|
    ensures forall k :: 0 <= k < |ls| && ls[k].protect ==> r[k] == ls[k]
    ensures forall k :: 0 <= k < |ls| && !ls[k].protect ==>
      IsStripped(r[k].content) && r[k] == ls[k].(content := r[k].content)
  {
    AllStripped();
    seq(|ls|, k requires 0 <= k < |ls| =>
      if ls[k].protect then ls[k] else ls[k].(content := Strip(ls[k].content)))
  }

  /** Trimming twice is trimming once. */
  lemma TrimIdempotent(ls: seq<Line>)
    ensures TrimLines(TrimLines(ls)) == TrimLines(ls)
  {
    var t := TrimLines(ls);
    forall k | 0 <= k < |ls| ensures TrimLines(t)[k] == t[k] {
      if !t[k].protect {
        StrippedIsFixed(t[k].content);
      }
    }
  }

  lemma TrimInit(ls: seq<Line>)
    requires ls != []
    ensures TrimLines(ls) == TrimLines(ls[..|ls| - 1]) + [TrimLines(ls)[|ls| - 1]]
  {
    var t := TrimLines(ls);
    var u := TrimLines(ls[..|ls| - 1]);
    assert forall k :: 0 <= k < |u| ==> u[k] == t[k];
  }

  /** Trimming deletes whitespace only. */
  lemma {:induction false} TrimKeepsLetters(ls: seq<Line>)
    ensures Letters(TrimLines(ls)) == Letters(ls)
  {
    if ls != [] {
      var init, last := ls[..|ls| - 1], ls[|ls| - 1];
      var t := TrimLines(ls);
      TrimInit(ls);
      TrimKeepsLetters(init);
      InitLast(ls);
      LettersAppend(init, [last]);
      LettersAppend(TrimLines(init), [t[|ls| - 1]]);
      StripKeepsNonWs(last.content);
      LettersSingle(last);
      LettersSingle(t[|ls| - 1]);
    }
  }

  /** Trimming leaves verbatim text alone. */
  lemma {:induction false} TrimKeepsProtected(ls: seq<Line>)
    ensures ProtectedText(TrimLines(ls)) == ProtectedText(ls)
  {
    if ls != [] {
      var init := ls[..|ls| - 1];
      var t := TrimLines(ls);
      TrimInit(ls);
      TrimKeepsProtected(init);
      assert t[..|ls| - 1] == TrimLines(init);
    }
  }

  /** detectComments: a line whose text starts with % is tagged as a comment line; the tag
      is never cleared and nothing else changes. */
  function TagComments(ls: seq<Line>): (r: seq<Line>)
    ensures |r| == |ls|
    ensures forall k :: 0 <= k < |ls| ==>
      r[k] == ls[k].(lineComment := r[k].lineComment)
      && (r[k].lineComment <==> ls[k].lineComment || (ls[k].content != [] && ls[k].content[0] == '%'))
  {
    seq(|ls|, k requires 0 <= k < |ls| =>
      ls[k].(lineComment := ls[k].lineComment || "%" <= ls[k].content))
  }
}
