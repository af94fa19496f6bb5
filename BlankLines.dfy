/**
 * removeDuplicateBlankLines: among the lines that are not verbatim, a blank line directly
 * after another blank line is removed. Verbatim lines are skipped without resetting the
 * "previous line was blank" flag.
 */
module BlankLines {
  import opened Text
  import opened LatexLines

  predicate Blank(l: Line)
  {
    IsBlank(l.content)
  }

  /** The pass from the current line on; lastEmpty says whether the last non-verbatim line kept
      was blank. */
  function Dedup(ls: seq<Line>, lastEmpty: bool): (r: seq<Line>)
    ensures |r| <= |ls|
  {
    if ls == [] then []
    else if ls[0].protect then [ls[0]] + Dedup(ls[1..], lastEmpty)
    else if lastEmpty && Blank(ls[0]) then Dedup(ls[1..], lastEmpty)
    else [ls[0]] + Dedup(ls[1..], Blank(ls[0]))
  }

  function DedupBlankLines(ls: seq<Line>): seq<Line>
  {
    Dedup(ls, false)
  }

  /** The lines that are not verbatim. */
  function Unprotected(ls: seq<Line>): (r: seq<Line>)
    ensures forall k :: 0 <= k < |r| ==> !r[k].protect
  {
    if ls == [] then [] else (if ls[0].protect then [] else [ls[0]]) + Unprotected(ls[1..])
  }

  /** Everything except the blank lines that are not verbatim. */
  function Essential(ls: seq<Line>): (r: seq<Line>)
    ensures forall k :: 0 <= k < |r| ==> r[k].protect || !Blank(r[k])
  {
    if ls == [] then [] else (if ls[0].protect || !Blank(ls[0]) then [ls[0]] else []) + Essential(ls[1..])
  }

  /** Reference definition: of two adjacent blank lines the second is dropped, until no two
      adjacent lines are blank. */
  function Squeeze(xs: seq<Line>): (r: seq<Line>)
    ensures |r| <= |xs| && (r == [] <==> xs == [])
    ensures r != [] ==> r[0] == xs[0]
    decreases |xs|
  {
    if |xs| < 2 then xs
    else if Blank(xs[0]) && Blank(xs[1]) then Squeeze([xs[0]] + xs[2..])
    else [xs[0]] + Squeeze(xs[1..])
  }

  /** The pass removes only blank lines that are not verbatim: all other lines stay, in order. */
  lemma {:induction false} DedupKeepsEssential(ls: seq<Line>, lastEmpty: bool)
    ensures Essential(Dedup(ls, lastEmpty)) == Essential(ls)
  {
    if ls != [] {
      var r := Dedup(ls, lastEmpty);
      if ls[0].protect {
        DedupKeepsEssential(ls[1..], lastEmpty);
        assert r[1..] == Dedup(ls[1..], lastEmpty);
      } else if lastEmpty && Blank(ls[0]) {
        DedupKeepsEssential(ls[1..], lastEmpty);
      } else {
        DedupKeepsEssential(ls[1..], Blank(ls[0]));
        assert r[1..] == Dedup(ls[1..], Blank(ls[0]));
      }
    }
  }

  lemma SqueezeCons(x: seq<Line>, ys: seq<Line>)
    requires |x| == 1 && !Blank(x[0])
    ensures Squeeze(x + ys) == x + Squeeze(ys)
  {
    if ys != [] {
      assert (x + ys)[1..] == ys;
    }
  }

  lemma UnprotectedCons(x: Line, ys: seq<Line>)
    ensures Unprotected([x] + ys) == (if x.protect then [] else [x]) + Unprotected(ys)
  {
    assert ([x] + ys)[1..] == ys;
  }

  /** Among the lines that are not verbatim, the pass does what the reference squeeze does;
      with a blank line b kept before, b belongs to the run. */
  lemma {:induction false} DedupIsSqueeze(ls: seq<Line>, lastEmpty: bool, b: Line)
    requires lastEmpty ==> Blank(b) && !b.protect
    ensures lastEmpty ==> [b] + Unprotected(Dedup(ls, lastEmpty)) == Squeeze([b] + Unprotected(ls))
    ensures !lastEmpty ==> Unprotected(Dedup(ls, lastEmpty)) == Squeeze(Unprotected(ls))
  {
    if ls == [] {
      assert [b] + [] == [b];
    } else {
      var x, rest := ls[0], ls[1..];
      var ur := Unprotected(rest);
      assert ls == [x] + rest;
      UnprotectedCons(x, rest);
      if x.protect {
        DedupIsSqueeze(rest, lastEmpty, b);
        assert Dedup(ls, lastEmpty) == [x] + Dedup(rest, lastEmpty);
        UnprotectedCons(x, Dedup(rest, lastEmpty));
        assert Unprotected(ls) == ur;
        assert Unprotected(Dedup(ls, lastEmpty)) == Unprotected(Dedup(rest, lastEmpty));
      } else if lastEmpty && Blank(x) {
        DedupIsSqueeze(rest, lastEmpty, b);
        var xs := [b] + ([x] + ur);
        assert xs[0] == b && xs[1] == x && xs[2..] == ur;
      } else {
        var d := Dedup(rest, Blank(x));
        assert Dedup(ls, lastEmpty) == [x] + d;
        UnprotectedCons(x, d);
        DedupIsSqueeze(rest, Blank(x), x);
        if lastEmpty {
          var xs := [b] + ([x] + ur);
          assert xs[0] == b && xs[1] == x && xs[1..] == [x] + ur;
          SqueezeCons([x], ur);
          assert Squeeze(xs) == [b] + Squeeze([x] + ur);
        } else if !Blank(x) {
          SqueezeCons([x], ur);
        }
      }
    }
  }

  /** removeDuplicateBlankLines squeezes the runs of blank lines among the non-verbatim lines. */
  lemma DedupBlankLinesSqueezes(ls: seq<Line>)
    ensures Unprotected(DedupBlankLines(ls)) == Squeeze(Unprotected(ls))
  {
    DedupIsSqueeze(ls, false, Line([], false, false, false));
  }

  /** After squeezing no two adjacent lines are blank. */
  lemma {:induction false} SqueezeNoAdjacentBlanks(xs: seq<Line>)
    ensures forall k :: 0 <= k < |Squeeze(xs)| - 1 ==> !(Blank(Squeeze(xs)[k]) && Blank(Squeeze(xs)[k + 1]))
    decreases |xs|
  {
    if |xs| >= 2 {
      if Blank(xs[0]) && Blank(xs[1]) {
        SqueezeNoAdjacentBlanks([xs[0]] + xs[2..]);
      } else {
        SqueezeNoAdjacentBlanks(xs[1..]);
        var r := Squeeze(xs);
        assert r[1..] == Squeeze(xs[1..]);
      }
    }
  }

  /** Squeezing keeps every line that is not blank. */
  lemma {:induction false} SqueezeKeepsNonBlank(xs: seq<Line>)
    requires forall k :: 0 <= k < |xs| ==> !xs[k].protect
    ensures Essential(Squeeze(xs)) == Essential(xs)
    decreases |xs|
  {
    if |xs| >= 2 {
      if Blank(xs[0]) && Blank(xs[1]) {
        SqueezeKeepsNonBlank([xs[0]] + xs[2..]);
        assert ([xs[0]] + xs[2..])[1..] == xs[2..];
        assert xs[1..][1..] == xs[2..];
      } else {
        SqueezeKeepsNonBlank(xs[1..]);
        assert ([xs[0]] + Squeeze(xs[1..]))[1..] == Squeeze(xs[1..]);
      }
    }
  }

  /** A line that is not blank separates runs of blank lines: the lines up to it and those
      after it are squeezed independently. */
  lemma {:induction false} SqueezeSplits(pre: seq<Line>, post: seq<Line>)
    requires pre != [] && !Blank(pre[|pre| - 1])
    ensures Squeeze(pre + post) == Squeeze(pre) + Squeeze(post)
    decreases |pre|, 1
  {
    if |pre| == 1 {
      SqueezeCons(pre, post);
    } else if Blank(pre[0]) && Blank(pre[1]) {
      SqueezeSplitsDrop(pre, post);
    } else {
      SqueezeKeepStep(pre, post);
      SqueezeSplitsKeep(pre, post);
    }
  }

  lemma {:induction false} SqueezeSplitsDrop(pre: seq<Line>, post: seq<Line>)
    requires |pre| >= 2 && Blank(pre[0]) && Blank(pre[1]) && !Blank(pre[|pre| - 1])
    ensures Squeeze(pre + post) == Squeeze(pre) + Squeeze(post)
    decreases |pre|, 0
  {
    assert |pre| > 2;
    var shorter := SqueezeDropStep(pre, post);
    SqueezeSplits(shorter, post);
  }

  lemma {:induction false} SqueezeSplitsKeep(pre: seq<Line>, post: seq<Line>)
    requires |pre| >= 2 && !Blank(pre[|pre| - 1])
    requires Squeeze(pre + post) == [pre[0]] + Squeeze(pre[1..] + post)
    requires Squeeze(pre) == [pre[0]] + Squeeze(pre[1..])
    ensures Squeeze(pre + post) == Squeeze(pre) + Squeeze(post)
    decreases |pre|, 0
  {
    var tail := pre[1..];
    assert tail[|tail| - 1] == pre[|pre| - 1];
    SqueezeSplits(tail, post);
    var x, y := Squeeze(tail), Squeeze(post);
    assert [pre[0]] + (x + y) == ([pre[0]] + x) + y;
  }

  /** Two blank lines in front: the second goes, whatever follows. */
  lemma SqueezeDropStep(pre: seq<Line>, post: seq<Line>) returns (shorter: seq<Line>)
    requires |pre| >= 2 && Blank(pre[0]) && Blank(pre[1])
    ensures shorter == [pre[0]] + pre[2..] && |shorter| == |pre| - 1
    ensures |pre| > 2 ==> shorter[|shorter| - 1] == pre[|pre| - 1]
    ensures Squeeze(pre + post) == Squeeze(shorter + post) && Squeeze(pre) == Squeeze(shorter)
  {
    shorter := [pre[0]] + pre[2..];
    assert (pre + post)[2..] == pre[2..] + post;
    assert [pre[0]] + (pre[2..] + post) == shorter + post;
  }

  /** No two blank lines in front: the first line stays, whatever follows. */
  lemma SqueezeKeepStep(pre: seq<Line>, post: seq<Line>)
    requires |pre| >= 2 && !(Blank(pre[0]) && Blank(pre[1]))
    ensures Squeeze(pre + post) == [pre[0]] + Squeeze(pre[1..] + post)
    ensures Squeeze(pre) == [pre[0]] + Squeeze(pre[1..])
  {
    assert (pre + post)[1..] == pre[1..] + post;
  }

  /** The first line of every run of blank lines survives the squeeze, at its place: after
      the squeezed lines in front of it. */
  lemma SqueezeKeepsFirstBlank(xs: seq<Line>, k: nat)
    requires k < |xs| && (k == 0 || !Blank(xs[k - 1]))
    ensures |Squeeze(xs[..k])| < |Squeeze(xs)| && Squeeze(xs)[|Squeeze(xs[..k])|] == xs[k]
  {
    if k == 0 {
      assert xs[..0] == [];
    } else {
      assert xs == xs[..k] + xs[k..];
      SqueezeSplits(xs[..k], xs[k..]);
      assert Squeeze(xs[k..])[0] == xs[k];
      assert Squeeze(xs)[|Squeeze(xs[..k])|] == xs[k];
    }
  }

  /** Without two adjacent blank lines there is nothing to squeeze. */
  lemma {:induction false} SqueezeFixed(xs: seq<Line>)
    requires forall k :: 0 <= k < |xs| - 1 ==> !(Blank(xs[k]) && Blank(xs[k + 1]))
    ensures Squeeze(xs) == xs
    decreases |xs|
  {
    if |xs| >= 2 {
      assert !(Blank(xs[0]) && Blank(xs[1]));
      var ys := xs[1..];
      forall k | 0 <= k < |ys| - 1 ensures !(Blank(ys[k]) && Blank(ys[k + 1])) {
        assert ys[k] == xs[k + 1] && ys[k + 1] == xs[k + 2];
      }
      SqueezeFixed(ys);
      assert [xs[0]] + xs[1..] == xs;
    }
  }

  /** A verbatim block between two blank lines does not save the second blank line. */
  lemma ProtectedBlockDoesNotSeparate()
    ensures DedupBlankLines([Line([], false, false, false), Line("x", true, false, false), Line([], false, false, false)])
         == [Line([], false, false, false), Line("x", true, false, false)]
  {
    var b, p := Line([], false, false, false), Line("x", true, false, false);
    var ls := [b, p, b];
    assert ls[1..] == [p, b] && ls[1..][1..] == [b] && [b][1..] == [];
    assert Dedup([b], true) == [];
  }

  /** Dropping blank lines that are not verbatim loses no text and no verbatim line. */
  lemma {:induction false} EssentialKeepsText(ls: seq<Line>)
    ensures Letters(Essential(ls)) == Letters(ls)
    ensures ProtectedText(Essential(ls)) == ProtectedText(ls)
  {
    if ls != [] {
      var x, rest := ls[0], ls[1..];
      EssentialKeepsText(rest);
      assert ls == [x] + rest;
      var h := if x.protect || !Blank(x) then [x] else [];
      assert Essential(ls) == h + Essential(rest);
      LettersAppend(h, Essential(rest));
      LettersAppend([x], rest);
      ProtectedTextAppend(h, Essential(rest));
      ProtectedTextAppend([x], rest);
      LettersSingle(x);
      NonWsOfBlank(x.content);
      assert Letters([]) == [];
      assert ProtectedText([x]) == ProtectedText([]) + (if x.protect then [x.content] else []);
    }
  }

  /** removeDuplicateBlankLines loses no text and keeps verbatim lines as they were. */
  lemma DedupKeepsText(ls: seq<Line>)
    ensures Letters(DedupBlankLines(ls)) == Letters(ls)
    ensures ProtectedText(DedupBlankLines(ls)) == ProtectedText(ls)
  {
    DedupKeepsEssential(ls, false);
    EssentialKeepsText(ls);
    EssentialKeepsText(DedupBlankLines(ls));
  }

  /** One step of the loop over positions: a kept line moves into the finished prefix, a
      removed line leaves the sequence, and the result of the pass stays the same. */
  lemma DedupAdvance(v: seq<Line>, i: nat, lastEmpty: bool)
    requires i < |v|
    ensures v[i].protect ==>
      v[..i + 1] + Dedup(v[i + 1..], lastEmpty) == v[..i] + Dedup(v[i..], lastEmpty)
    ensures !v[i].protect && !(lastEmpty && Blank(v[i])) ==>
      v[..i + 1] + Dedup(v[i + 1..], Blank(v[i])) == v[..i] + Dedup(v[i..], lastEmpty)
    ensures !v[i].protect && lastEmpty && Blank(v[i]) ==>
      var w := v[..i] + v[i + 1..];
      w[..i] + Dedup(w[i..], lastEmpty) == v[..i] + Dedup(v[i..], lastEmpty)
  {
    DropSplit(v, i, i);
    assert v[i..][1..] == v[i + 1..];
    PrefixStep(v, i);
    var w := v[..i] + v[i + 1..];
    assert w[..i] == v[..i] && w[i..] == v[i + 1..];
  }

  /** Every line of the result is a line of the input. */
  lemma {:induction false} DedupFromInput(ls: seq<Line>, lastEmpty: bool)
    ensures forall l :: l in Dedup(ls, lastEmpty) ==> l in ls
  {
    if ls != [] {
      DedupFromInput(ls[1..], lastEmpty);
      DedupFromInput(ls[1..], Blank(ls[0]));
      assert ls == [ls[0]] + ls[1..];
    }
  }
}
