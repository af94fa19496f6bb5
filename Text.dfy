/**
 * The parts of java.lang.String that the line-rewriting pipeline relies on:
 * whitespace classification (Character.isWhitespace), strip, isBlank,
 * split on the line separator, and replaceAll("  ", " ").
 */
module Text {

  /** The line separator. The Java code reads System.lineSeparator(); the model fixes it to '\n'. */
  const NEWLINE: char := '\n'

  /** A non-empty sequence is its front followed by its last element. */
  lemma InitLast<T>(s: seq<T>)
    requires s != []
    ensures s == s[..|s| - 1] + [s[|s| - 1]]
  {
  }

  /** A prefix grows by the next element. */
  lemma PrefixStep<T>(s: seq<T>, k: nat)
    requires k < |s|
    ensures s[..k] + [s[k]] == s[..k + 1]
  {
  }

  /** Dropping the last element of a + b drops the last element of b. */
  lemma AppendShape<T>(a: seq<T>, b: seq<T>)
    ensures b == [] ==> a + b == a
    ensures b != [] ==> (a + b)[..|a + b| - 1] == a + b[..|b| - 1] && (a + b)[|a + b| - 1] == b[|b| - 1]
  {
  }

  /** The first two elements of a + b come from a when a has them. */
  lemma FrontShape<T>(a: seq<T>, b: seq<T>)
    ensures a == [] ==> a + b == b
    ensures |a| >= 2 ==> (a + b)[0] == a[0] && (a + b)[1] == a[1] && (a + b)[2..] == a[2..] + b
  {
  }

  /** The tail of s from p is cut at e into two parts. */
  lemma DropSplit<T>(s: seq<T>, p: nat, e: nat)
    requires p <= e <= |s|
    ensures s[p..] == s[p..e] + s[e..]
    ensures p < |s| ==> s[p..] == [s[p]] + s[p + 1..]
  {
  }

  /** a + b starts with the head of a when a is not empty. */
  lemma ConsShape<T>(a: seq<T>, b: seq<T>)
    ensures a == [] ==> a + b == b
    ensures a != [] ==> (a + b)[0] == a[0] && (a + b)[1..] == a[1..] + b
  {
  }

  /** Regrouping a concatenation of three parts. */
  lemma Regroup<T>(x: seq<T>, y: seq<T>, z: seq<T>, w: seq<T>)
    requires y + z == w
    ensures (x + y) + z == x + w
  {
  }

  /** Character.isWhitespace: the Unicode space separators except the no-break spaces,
      the ASCII controls TAB, LF, VT, FF, CR and FS, GS, RS, US, and the line and
      paragraph separators. */
  predicate IsWhitespace(c: char)
  {
    c == ' ' || ('\t' <= c <= '\r') || ('\U{1C}' <= c <= '\U{1F}')
    || c == '\U{1680}' || ('\U{2000}' <= c <= '\U{2006}') || ('\U{2008}' <= c <= '\U{200A}')
    || c == '\U{2028}' || c == '\U{2029}' || c == '\U{205F}' || c == '\U{3000}'
  }

  /** The characters that the regular-expression dot does not match. */
  predicate IsLineTerminator(c: char)
  {
    c == '\n' || c == '\r' || c == '\U{85}' || c == '\U{2028}' || c == '\U{2029}'
  }

  predicate NoTerminator(s: string)
  {
    forall i :: 0 <= i < |s| ==> !IsLineTerminator(s[i])
  }

  /** String.isBlank: empty or whitespace only. */
  predicate IsBlank(s: string)
  {
    forall i :: 0 <= i < |s| ==> IsWhitespace(s[i])
  }

  /** Neither a leading nor a trailing whitespace character. */
  predicate IsStripped(s: string)
  {
    s == [] || (!IsWhitespace(s[0]) && !IsWhitespace(s[|s| - 1]))
  }

  function StripLeading(s: string): (r: string)
    ensures |r| <= |s|
  {
    if s != [] && IsWhitespace(s[0]) then StripLeading(s[1..]) else s
  }

  function StripTrailing(s: string): (r: string)
    ensures |r| <= |s|
  {
    if s != [] && IsWhitespace(s[|s| - 1]) then StripTrailing(s[..|s| - 1]) else s
  }

  lemma {:induction false} StripLeadingShape(s: string)
    ensures StripLeading(s) == s[|s| - |StripLeading(s)|..]
    ensures StripLeading(s) == [] || !IsWhitespace(StripLeading(s)[0])
    ensures IsBlank(s[..|s| - |StripLeading(s)|])
  {
    if s != [] && IsWhitespace(s[0]) {
      StripLeadingShape(s[1..]);
      var n := |s| - |StripLeading(s)|;
      assert s[..n] == [s[0]] + s[1..][..n - 1];
    }
  }

  lemma {:induction false} StripTrailingShape(s: string)
    ensures StripTrailing(s) == s[..|StripTrailing(s)|]
    ensures StripTrailing(s) == [] || !IsWhitespace(StripTrailing(s)[|StripTrailing(s)| - 1])
    ensures IsBlank(s[|StripTrailing(s)|..])
  {
    if s != [] && IsWhitespace(s[|s| - 1]) {
      var r := StripTrailing(s[..|s| - 1]);
      StripTrailingShape(s[..|s| - 1]);
      assert s[|r|..] == s[..|s| - 1][|r|..] + [s[|s| - 1]];
    }
  }

  /** Where the stripped text starts in the original. */
  function StripStart(s: string): nat
  {
    |s| - |StripLeading(s)|
  }

  /** String.strip: the text between the leading and the trailing whitespace. */
  function Strip(s: string): (r: string)
    ensures |r| <= |s|
  {
    StripTrailing(StripLeading(s))
  }

  /** strip() leaves no whitespace at either end. */
  lemma StripIsStripped(s: string)
    ensures IsStripped(Strip(s))
  {
    var lead := StripLeading(s);
    StripLeadingShape(s);
    StripTrailingShape(lead);
  }

  /** The same for every text at once. */
  lemma AllStripped()
    ensures forall s :: IsStripped(Strip(s))
  {
    forall s {
      StripIsStripped(s);
    }
  }

  /** strip() keeps a slice of the text and drops only whitespace on either side. */
  lemma StripSlice(s: string)
    ensures StripStart(s) + |Strip(s)| <= |s| && Strip(s) == s[StripStart(s)..StripStart(s) + |Strip(s)|]
    ensures IsBlank(s[..StripStart(s)]) && IsBlank(s[StripStart(s) + |Strip(s)|..])
  {
    var lead := StripLeading(s);
    StripLeadingShape(s);
    StripTrailingShape(lead);
    assert lead == s[StripStart(s)..];
  }

  lemma StrippedIsFixed(s: string)
    requires IsStripped(s)
    ensures Strip(s) == s
  {
    if s != [] {
      assert StripLeading(s) == s;
    }
  }

  /** strip() is idempotent. */
  lemma StripIdempotent(s: string)
    ensures Strip(Strip(s)) == Strip(s)
  {
    StripIsStripped(s);
    StrippedIsFixed(Strip(s));
  }

  lemma {:induction false} StripLeadingOfBlank(s: string)
    requires IsBlank(s)
    ensures StripLeading(s) == []
  {
    if s != [] {
      assert IsBlank(s[1..]) by {
        forall i | 0 <= i < |s| - 1 ensures IsWhitespace(s[1..][i]) {
          assert s[1..][i] == s[i + 1];
        }
      }
      StripLeadingOfBlank(s[1..]);
    }
  }

  /** strip() leaves nothing exactly when isBlank() holds. */
  lemma StripEmptyIffBlank(s: string)
    ensures Strip(s) == [] <==> IsBlank(s)
  {
    var a := StripStart(s);
    StripSlice(s);
    StripLeadingShape(s);
    if Strip(s) == [] {
      assert s == s[..a] + s[a..];
      assert StripLeading(s) == [];
      forall i | 0 <= i < |s| ensures IsWhitespace(s[i]) {
        assert s[i] == s[..a][i];
      }
    }
    if IsBlank(s) {
      StripLeadingOfBlank(s);
    }
  }

  /** The non-whitespace characters of a string, in order. */
  function NonWs(s: string): (r: string)
    ensures |r| <= |s|
    ensures forall i :: 0 <= i < |r| ==> !IsWhitespace(r[i])
  {
    if s == [] then [] else (if IsWhitespace(s[0]) then [] else [s[0]]) + NonWs(s[1..])
  }

  lemma {:induction false} NonWsAppend(a: string, b: string)
    ensures NonWs(a + b) == NonWs(a) + NonWs(b)
  {
    ConsShape(a, b);
    if a != [] {
      NonWsAppend(a[1..], b);
      var h := if IsWhitespace(a[0]) then [] else [a[0]];
      Regroup(h, NonWs(a[1..]), NonWs(b), NonWs(a[1..] + b));
    }
  }

  lemma {:induction false} NonWsOfBlank(s: string)
    ensures IsBlank(s) <==> NonWs(s) == []
  {
    if s != [] {
      NonWsOfBlank(s[1..]);
      assert IsBlank(s) <==> IsWhitespace(s[0]) && IsBlank(s[1..]) by {
        forall i | 0 <= i < |s| - 1 ensures s[1..][i] == s[i + 1] { }
      }
      if IsWhitespace(s[0]) {
        assert NonWs(s) == NonWs(s[1..]);
      } else {
        assert NonWs(s)[0] == s[0];
      }
    }
  }

  /** strip() removes whitespace only. */
  lemma StripKeepsNonWs(s: string)
    ensures NonWs(Strip(s)) == NonWs(s)
  {
    var a := StripStart(s);
    var r := Strip(s);
    StripSlice(s);
    var p, q := s[..a], s[a + |r|..];
    assert IsBlank(p) && IsBlank(q);
    assert s == p + r + q;
    NonWsAppend(p + r, q);
    NonWsAppend(p, r);
    NonWsOfBlank(p);
    NonWsOfBlank(q);
  }

  /** The non-whitespace characters of a list of strings, in order. */
  function NonWsAll(ps: seq<string>): string
  {
    if ps == [] then [] else NonWs(ps[0]) + NonWsAll(ps[1..])
  }

  lemma {:induction false} NonWsAllAppend(ps: seq<string>, qs: seq<string>)
    ensures NonWsAll(ps + qs) == NonWsAll(ps) + NonWsAll(qs)
  {
    if ps != [] {
      assert (ps + qs)[0] == ps[0];
      assert (ps + qs)[1..] == ps[1..] + qs;
      NonWsAllAppend(ps[1..], qs);
      assert NonWsAll(ps + qs) == NonWs(ps[0]) + (NonWsAll(ps[1..]) + NonWsAll(qs));
    } else {
      assert ps + qs == qs;
    }
  }

  /** Every piece between separators, empty pieces included (one more piece than separators). */
  function SplitAll(s: string, sep: char): (r: seq<string>)
    ensures |r| >= 1
    ensures forall k :: 0 <= k < |r| ==> sep !in r[k]
  {
    if s == [] then [[]]
    else if s[0] == sep then [[]] + SplitAll(s[1..], sep)
    else
      var t := SplitAll(s[1..], sep);
      [[s[0]] + t[0]] + t[1..]
  }

  /** Pieces glued back together with the separator between them. */
  function JoinWith(ps: seq<string>, sep: char): string
    requires |ps| >= 1
  {
    if |ps| == 1 then ps[0] else ps[0] + [sep] + JoinWith(ps[1..], sep)
  }

  /** Splitting and joining again gives the original text. */
  lemma {:induction false} JoinSplitAll(s: string, sep: char)
    ensures JoinWith(SplitAll(s, sep), sep) == s
  {
    if s != [] {
      JoinSplitAll(s[1..], sep);
      var t := SplitAll(s[1..], sep);
      if s[0] != sep {
        var r := [[s[0]] + t[0]] + t[1..];
        if |t| > 1 {
          assert r[1..] == t[1..];
          assert JoinWith(r, sep) == [s[0]] + JoinWith(t, sep);
        }
        assert [s[0]] + s[1..] == s;
      } else {
        assert ([[]] + t)[1..] == t;
        assert [sep] + s[1..] == s;
      }
    }
  }

  lemma {:induction false} SplitAllPrefix(a: string, b: string, sep: char)
    requires sep !in a
    ensures SplitAll(a + [sep] + b, sep) == [a] + SplitAll(b, sep)
  {
    if a != [] {
      assert sep !in a[1..] by {
        forall i | 0 <= i < |a| - 1 ensures a[1..][i] != sep { assert a[1..][i] == a[i + 1]; }
      }
      var w := a + [sep] + b;
      assert w[0] == a[0] && w[0] != sep;
      assert w[1..] == a[1..] + [sep] + b;
      SplitAllPrefix(a[1..], b, sep);
      var t := SplitAll(w[1..], sep);
      assert t[0] == a[1..] && t[1..] == SplitAll(b, sep);
      assert [a[0]] + a[1..] == a;
    } else {
      assert (a + [sep] + b)[1..] == b;
    }
  }

  lemma {:induction false} SplitAllNoSep(a: string, sep: char)
    requires sep !in a
    ensures SplitAll(a, sep) == [a]
  {
    if a != [] {
      assert sep !in a[1..] by {
        forall i | 0 <= i < |a| - 1 ensures a[1..][i] != sep { assert a[1..][i] == a[i + 1]; }
      }
      SplitAllNoSep(a[1..], sep);
      assert [a[0]] + a[1..] == a;
    }
  }

  /** Joining pieces that hold no separator and splitting again gives the pieces back. */
  lemma {:induction false} SplitJoinWith(ps: seq<string>, sep: char)
    requires |ps| >= 1
    requires forall k :: 0 <= k < |ps| ==> sep !in ps[k]
    ensures SplitAll(JoinWith(ps, sep), sep) == ps
  {
    if |ps| == 1 {
      SplitAllNoSep(ps[0], sep);
    } else {
      SplitJoinWith(ps[1..], sep);
      SplitAllPrefix(ps[0], JoinWith(ps[1..], sep), sep);
    }
  }

  function DropTrailingEmpty(ps: seq<string>): (r: seq<string>)
    ensures |r| <= |ps| && r == ps[..|r|]
    ensures r == [] || r[|r| - 1] != []
    ensures forall k :: |r| <= k < |ps| ==> ps[k] == []
  {
    if ps != [] && ps[|ps| - 1] == [] then DropTrailingEmpty(ps[..|ps| - 1]) else ps
  }

  /** String.split with a one-character pattern: the whole text when the separator does not
      occur; otherwise every piece, with the trailing empty pieces removed. */
  function JavaSplit(s: string, sep: char): (r: seq<string>)
    ensures forall k :: 0 <= k < |r| ==> sep !in r[k]
  {
    if sep !in s then [s] else DropTrailingEmpty(SplitAll(s, sep))
  }

  lemma {:induction false} NonWsAllSplitAll(s: string, sep: char)
    requires IsWhitespace(sep)
    ensures NonWsAll(SplitAll(s, sep)) == NonWs(s)
  {
    if s != [] {
      NonWsAllSplitAll(s[1..], sep);
      if s[0] != sep {
        var t := SplitAll(s[1..], sep);
        assert ([[s[0]] + t[0]] + t[1..])[1..] == t[1..];
        NonWsAppend([s[0]], t[0]);
        assert [s[0]] + s[1..] == s;
        NonWsAppend([s[0]], s[1..]);
      } else {
        assert ([[]] + SplitAll(s[1..], sep))[1..] == SplitAll(s[1..], sep);
      }
    }
  }

  lemma {:induction false} NonWsAllDropEmpty(ps: seq<string>)
    ensures NonWsAll(DropTrailingEmpty(ps)) == NonWsAll(ps)
  {
    if ps != [] && ps[|ps| - 1] == [] {
      NonWsAllDropEmpty(ps[..|ps| - 1]);
      assert ps == ps[..|ps| - 1] + [[]];
      NonWsAllAppend(ps[..|ps| - 1], [[]]);
    }
  }

  /** Splitting on a whitespace separator loses no non-whitespace character. */
  lemma JavaSplitKeepsNonWs(s: string, sep: char)
    requires IsWhitespace(sep)
    ensures NonWsAll(JavaSplit(s, sep)) == NonWs(s)
  {
    if sep in s {
      NonWsAllDropEmpty(SplitAll(s, sep));
      NonWsAllSplitAll(s, sep);
    }
  }

  /** No two adjacent spaces (the negation of contains("  ")). */
  predicate NoDoubleSpace(s: string)
  {
    forall i :: 0 <= i < |s| - 1 ==> !(s[i] == ' ' && s[i + 1] == ' ')
  }

  lemma NoDoubleSpaceCons(c: char, t: string)
    ensures NoDoubleSpace([c] + t) <==> NoDoubleSpace(t) && !(c == ' ' && t != [] && t[0] == ' ')
  {
    var s := [c] + t;
    forall i | 1 <= i < |s| ensures s[i] == t[i - 1] { }
    if NoDoubleSpace(t) && !(c == ' ' && t != [] && t[0] == ' ') {
      forall i | 0 <= i < |s| - 1 ensures !(s[i] == ' ' && s[i + 1] == ' ') {
        if i > 0 { assert s[i] == t[i - 1] && s[i + 1] == t[i]; }
      }
    }
    if NoDoubleSpace(s) {
      forall i | 0 <= i < |t| - 1 ensures !(t[i] == ' ' && t[i + 1] == ' ') {
        assert s[i + 1] == t[i] && s[i + 2] == t[i + 1];
      }
      if t != [] {
        assert !(s[0] == ' ' && s[1] == ' ');
      }
    }
  }

  /** One pass of replaceAll("  ", " "): every non-overlapping pair of spaces, left to right,
      becomes one space. */
  function ReplaceDoubleSpaces(s: string): (r: string)
    ensures |r| <= |s|
    ensures !NoDoubleSpace(s) ==> |r| < |s|
  {
    if |s| >= 2 && s[0] == ' ' && s[1] == ' ' then [' '] + ReplaceDoubleSpaces(s[2..])
    else if s == [] then []
    else
      NoDoubleSpaceCons(s[0], s[1..]);
      assert [s[0]] + s[1..] == s;
      [s[0]] + ReplaceDoubleSpaces(s[1..])
  }

  /** Reference definition: every run of two or more spaces becomes a single space. */
  function CollapseSpaces(s: string): (r: string)
    ensures |r| <= |s|
    ensures (r == []) == (s == [])
    ensures r != [] ==> r[0] == s[0] && r[|r| - 1] == s[|s| - 1]
    ensures NoDoubleSpace(r)
  {
    if |s| >= 2 && s[0] == ' ' && s[1] == ' ' then CollapseSpaces(s[1..])
    else if s == [] then []
    else
      var t := CollapseSpaces(s[1..]);
      NoDoubleSpaceCons(s[0], t);
      [s[0]] + t
  }

  lemma CollapseCons(c: char, t: string)
    ensures CollapseSpaces([c] + t) ==
      if c == ' ' && t != [] && t[0] == ' ' then CollapseSpaces(t) else [c] + CollapseSpaces(t)
  {
    assert ([c] + t)[1..] == t;
  }

  lemma ReplaceCons(c: char, t: string)
    ensures ReplaceDoubleSpaces([c] + t) ==
      if c == ' ' && t != [] && t[0] == ' ' then [' '] + ReplaceDoubleSpaces(t[1..]) else [c] + ReplaceDoubleSpaces(t)
  {
    assert ([c] + t)[1..] == t;
    if t != [] { assert ([c] + t)[2..] == t[1..]; }
  }

  lemma {:induction false} CollapseOfSpaceFree(s: string)
    requires NoDoubleSpace(s)
    ensures CollapseSpaces(s) == s
  {
    if s != [] {
      assert s == [s[0]] + s[1..];
      NoDoubleSpaceCons(s[0], s[1..]);
      CollapseOfSpaceFree(s[1..]);
      CollapseCons(s[0], s[1..]);
    }
  }

  /** A leading space survives collapsing unless the collapsed rest already starts with one. */
  lemma CollapseSpaceCons(x: string)
    ensures CollapseSpaces([' '] + x) ==
      var y := CollapseSpaces(x); if y != [] && y[0] == ' ' then y else [' '] + y
  {
    CollapseCons(' ', x);
  }

  /** One replaceAll("  ", " ") pass does not change the collapsed form, so repeating it
      until no double space remains yields the reference collapse of space runs. */
  lemma {:induction false} CollapseAfterReplace(t: string)
    ensures CollapseSpaces(ReplaceDoubleSpaces(t)) == CollapseSpaces(t)
  {
    if t != [] {
      var c, u := t[0], t[1..];
      assert t == [c] + u;
      ReplaceCons(c, u);
      CollapseCons(c, u);
      if c == ' ' && u != [] && u[0] == ' ' {
        var v := u[1..];
        assert u == [' '] + v;
        CollapseAfterReplace(v);
        CollapseSpaceCons(ReplaceDoubleSpaces(v));
        CollapseSpaceCons(v);
      } else {
        CollapseAfterReplace(u);
        var ru := ReplaceDoubleSpaces(u);
        CollapseCons(c, ru);
        if c == ' ' {
          CollapseSpaceCons(ru);
          CollapseSpaceCons(u);
        }
      }
    }
  }

  /** Collapsing space runs is idempotent. */
  lemma CollapseIdempotent(s: string)
    ensures CollapseSpaces(CollapseSpaces(s)) == CollapseSpaces(s)
  {
    CollapseOfSpaceFree(CollapseSpaces(s));
  }

  /** Collapsing space runs only deletes characters: each one it keeps occurs in the input. */
  lemma {:induction false} CollapseKeepsChars(s: string)
    ensures forall i :: 0 <= i < |CollapseSpaces(s)| ==> CollapseSpaces(s)[i] in s
  {
    if s != [] {
      CollapseKeepsChars(s[1..]);
      assert s == [s[0]] + s[1..];
      CollapseCons(s[0], s[1..]);
    }
  }

  /** Collapsing space runs keeps a stripped string stripped. */
  lemma CollapseKeepsStripped(s: string)
    requires IsStripped(s)
    ensures IsStripped(CollapseSpaces(s))
  {
  }

  /** Collapsing space runs deletes spaces only. */
  lemma {:induction false} CollapseKeepsNonWs(s: string)
    ensures NonWs(CollapseSpaces(s)) == NonWs(s)
  {
    if s != [] {
      CollapseKeepsNonWs(s[1..]);
      CollapseCons(s[0], s[1..]);
      assert s == [s[0]] + s[1..];
      NonWsAppend([s[0]], s[1..]);
      NonWsAppend([s[0]], CollapseSpaces(s[1..]));
    }
  }

  lemma NonWsJoinSpace(a: string, b: string)
    ensures NonWs(a + " " + b) == NonWs(a) + NonWs(b)
  {
    var sp := " ";
    assert NonWs(sp) == [] by {
      assert IsBlank(sp);
      NonWsOfBlank(sp);
    }
    NonWsAppend(a + sp, b);
    NonWsAppend(a, sp);
  }
}
