/**
 * The fixed patterns of LatexBreak.java, as scanners: the bracketed macro arguments
 * (`curly`, `squared`, `args`), the backslash lead-in (`noSlash`), the macro rewrite rules
 * with their replacement templates (breakAroundMacro, breakAfterMacro, breakBeforeMacro
 * applied by Matcher.replaceAll), the comment split (`commentSplit`) and the
 * "contains an unescaped %" test (`partialComment`).
 */
module Grammar {
  import opened Text

  datatype Option<T> = None | Some(value: T)

  /** Where a rule puts line separators around a macro invocation. */
  datatype Mode = Around | After | Before

  /** One replacement: a literal macro name (without its backslash) and the break mode. */
  datatype Rule = Rule(name: string, mode: Mode)

  // ---------------------------------------------------------------------------------------
  // Bracketed arguments

  /** Net nesting: opening minus closing brackets of one kind. */
  function Nesting(t: string, open: char, close: char): int
  {
    if t == [] then 0
    else Nesting(t[..|t| - 1], open, close)
         + (if t[|t| - 1] == open then 1 else if t[|t| - 1] == close then -1 else 0)
  }

  /** A balanced group of one bracket kind: it opens, every proper prefix is still open,
      and the whole is closed. Brackets of the other kind are ordinary characters. */
  ghost predicate BalancedGroup(t: string, open: char, close: char)
  {
    |t| >= 2 && t[0] == open && t[|t| - 1] == close && Nesting(t, open, close) == 0
    && forall k :: 1 <= k < |t| ==> Nesting(t[..k], open, close) > 0
  }

  /** Scans the inside of a group: j is the next position, depth the number of brackets
      still open. Yields the position after the bracket that closes the group. */
  function CloseFrom(s: string, j: nat, depth: nat, open: char, close: char): (r: Option<nat>)
    requires 1 <= depth && j <= |s|
    ensures r.Some? ==> j < r.value <= |s|
    decreases |s| - j
  {
    if j == |s| then None
    else if s[j] == open then CloseFrom(s, j + 1, depth + 1, open, close)
    else if s[j] == close then (if depth == 1 then Some(j + 1) else CloseFrom(s, j + 1, depth - 1, open, close))
    else CloseFrom(s, j + 1, depth, open, close)
  }

  /** The recursive `curly` / `squared` pattern at position q: where the group ends, if one starts there. */
  function GroupEnd(s: string, q: nat, open: char, close: char): (r: Option<nat>)
    requires q <= |s|
    ensures r.Some? ==> q < r.value <= |s|
  {
    if q < |s| && s[q] == open then CloseFrom(s, q + 1, 1, open, close) else None
  }

  /** The `args` pattern at position q: the longest run of `{...}` or `[...]` groups, a
      curly group tried first. */
  function ArgsEnd(s: string, q: nat): (e: nat)
    requires q <= |s|
    ensures q <= e <= |s|
    decreases |s| - q
  {
    match GroupEnd(s, q, '{', '}')
    case Some(e) => ArgsEnd(s, e)
    case None =>
      match GroupEnd(s, q, '[', ']')
      case Some(e) => ArgsEnd(s, e)
      case None => q
  }

  lemma NestingSnoc(t: string, c: char, open: char, close: char)
    ensures Nesting(t + [c], open, close)
      == Nesting(t, open, close) + (if c == open then 1 else if c == close then -1 else 0)
  {
    assert (t + [c])[..|t|] == t;
  }

  lemma {:induction false} CloseFromSound(s: string, q: nat, j: nat, depth: nat, open: char, close: char)
    requires q < j <= |s| && s[q] == open && 1 <= depth && open != close
    requires Nesting(s[q..j], open, close) == depth
    requires forall k :: q < k <= j ==> Nesting(s[q..k], open, close) > 0
    ensures CloseFrom(s, j, depth, open, close).Some? ==>
      BalancedGroup(s[q..CloseFrom(s, j, depth, open, close).value], open, close)
    decreases |s| - j
  {
    if j < |s| {
      assert s[q..j + 1] == s[q..j] + [s[j]];
      NestingSnoc(s[q..j], s[j], open, close);
      if s[j] == close && depth == 1 {
        var t := s[q..j + 1];
        forall k | 1 <= k < |t| ensures Nesting(t[..k], open, close) > 0 {
          assert t[..k] == s[q..q + k];
        }
      } else {
        var d := if s[j] == open then depth + 1 else if s[j] == close then depth - 1 else depth;
        CloseFromSound(s, q, j + 1, d, open, close);
      }
    }
  }

  lemma {:induction false} CloseFromComplete(s: string, q: nat, j: nat, e: nat, depth: nat, open: char, close: char)
    requires q < j < e <= |s| && 1 <= depth && open != close
    requires BalancedGroup(s[q..e], open, close)
    requires Nesting(s[q..j], open, close) == depth
    ensures CloseFrom(s, j, depth, open, close) == Some(e)
    decreases e - j
  {
    var t := s[q..e];
    assert s[q..j + 1] == s[q..j] + [s[j]];
    NestingSnoc(s[q..j], s[j], open, close);
    if j + 1 == e {
      assert t[|t| - 1] == s[j];
      assert t == s[q..j + 1];
    } else {
      assert t[..j + 1 - q] == s[q..j + 1];
      var d := if s[j] == open then depth + 1 else if s[j] == close then depth - 1 else depth;
      CloseFromComplete(s, q, j + 1, e, d, open, close);
    }
  }

  /** The group scanner finds exactly the balanced group: what it returns is balanced, and a
      balanced group starting at q is what it returns. */
  lemma GroupEndIsBalanced(s: string, q: nat, e: nat, open: char, close: char)
    requires q < e <= |s| && open != close
    ensures GroupEnd(s, q, open, close) == Some(e) <==> BalancedGroup(s[q..e], open, close)
  {
    if q < |s| && s[q] == open {
      assert s[q..q + 1] == [open];
      assert s[q..q + 1][..0] == [];
      NestingSnoc([], open, open, close);
      assert Nesting(s[q..q + 1], open, close) == 1;
      CloseFromSound(s, q, q + 1, 1, open, close);
      if BalancedGroup(s[q..e], open, close) {
        assert e > q + 1;
        CloseFromComplete(s, q, q + 1, e, 1, open, close);
      }
    }
  }

  /** A run of balanced groups, each of one bracket kind. */
  ghost predicate GroupRun(t: string)
    decreases |t|
  {
    t == [] ||
    exists k :: 2 <= k <= |t| && (BalancedGroup(t[..k], '{', '}') || BalancedGroup(t[..k], '[', ']'))
                && GroupRun(t[k..])
  }

  /** A balanced group followed by a run is a run. */
  lemma RunCons(s: string, q: nat, g: nat, e: nat)
    requires q < g <= e <= |s|
    requires BalancedGroup(s[q..g], '{', '}') || BalancedGroup(s[q..g], '[', ']')
    requires GroupRun(s[g..e])
    ensures GroupRun(s[q..e])
  {
    var t := s[q..e];
    assert t[..g - q] == s[q..g] && t[g - q..] == s[g..e];
  }

  /** The captured `args` are a run of balanced groups, and no further group follows them. */
  lemma {:induction false} ArgsAreGroups(s: string, q: nat)
    requires q <= |s|
    ensures GroupRun(s[q..ArgsEnd(s, q)])
    ensures GroupEnd(s, ArgsEnd(s, q), '{', '}').None? && GroupEnd(s, ArgsEnd(s, q), '[', ']').None?
    decreases |s| - q
  {
    match GroupEnd(s, q, '{', '}')
    case Some(g) =>
      GroupEndIsBalanced(s, q, g, '{', '}');
      ArgsAreGroups(s, g);
      RunCons(s, q, g, ArgsEnd(s, q));
    case None =>
      match GroupEnd(s, q, '[', ']')
      case Some(g) =>
        GroupEndIsBalanced(s, q, g, '[', ']');
        ArgsAreGroups(s, g);
        RunCons(s, q, g, ArgsEnd(s, q));
      case None =>
        assert s[q..q] == [];
  }

  // ---------------------------------------------------------------------------------------
  // Macro rules

  /** A successful match of a rule's pattern: the `noslash` lead-in (one character that is not
      a backslash, or nothing at the start of the text), the captured `args`, and where the
      match ends. */
  datatype Match = Match(lead: string, args: string, end: nat)

  /** The pattern noSlash + "\\" + name + args tried at position st. */
  function MatchAt(name: string, s: string, st: nat): (r: Option<Match>)
    requires st <= |s|
    ensures r.Some? ==> st < r.value.end <= |s|
    ensures r.Some? ==> s[st..r.value.end] == r.value.lead + ['\\'] + name + r.value.args
    ensures r.Some? ==> (r.value.lead == [] <==> st == 0 && s[0] == '\\')
  {
    if st < |s| && s[st] != '\\' then
      if st + 1 < |s| && s[st + 1] == '\\' && name <= s[st + 2..] then
        var a := st + 2 + |name|;
        var e := ArgsEnd(s, a);
        MatchSlice(s, st, [s[st]], name, e);
        Some(Match([s[st]], s[a..e], e))
      else None
    else if st == 0 && st < |s| && name <= s[1..] then
      var a := 1 + |name|;
      var e := ArgsEnd(s, a);
      MatchSlice(s, 0, [], name, e);
      Some(Match([], s[a..e], e))
    else None
  }

  /** The matched text is the lead-in, the backslash, the name and the arguments. */
  lemma MatchSlice(s: string, st: nat, lead: string, name: string, e: nat)
    requires st + |lead| < |s| && s[st..st + |lead|] == lead && s[st + |lead|] == '\\'
    requires name <= s[st + |lead| + 1..]
    requires st + |lead| + 1 + |name| <= e <= |s|
    ensures s[st..e] == lead + ['\\'] + name + s[st + |lead| + 1 + |name|..e]
  {
    var b := st + |lead|;
    var a := b + 1 + |name|;
    assert s[b + 1..a] == name;
    assert s[st..e] == s[st..b] + [s[b]] + s[b + 1..a] + s[a..e];
  }

  /** The replacement template of a rule: the lead-in, the backslash, the macro name and its
      arguments, with a line separator before (Before, Around) and after (After, Around). */
  function Replacement(rule: Rule, m: Match): string
  {
    m.lead + (if rule.mode != After then [NEWLINE] else []) + ['\\'] + rule.name + m.args
    + (if rule.mode != Before then [NEWLINE] else [])
  }

  /** Matcher.replaceAll for one rule, the scan resumed at position p. */
  function RewriteFrom(rule: Rule, s: string, p: nat): string
    requires p <= |s|
    decreases |s| - p
  {
    if p == |s| then []
    else
      match MatchAt(rule.name, s, p)
      case Some(m) => Replacement(rule, m) + RewriteFrom(rule, s, m.end)
      case None => [s[p]] + RewriteFrom(rule, s, p + 1)
  }

  function Rewrite(rule: Rule, s: string): string
  {
    RewriteFrom(rule, s, 0)
  }

  /** The rules applied one after the other, in the order they were registered. */
  function ApplyRules(rules: seq<Rule>, s: string): string
  {
    if rules == [] then s else ApplyRules(rules[1..], Rewrite(rules[0], s))
  }

  lemma {:induction false} NoMatchCopies(rule: Rule, s: string, p: nat)
    requires p <= |s|
    requires forall i :: p <= i < |s| ==> MatchAt(rule.name, s, i).None?
    ensures RewriteFrom(rule, s, p) == s[p..]
    decreases |s| - p
  {
    if p < |s| {
      NoMatchCopies(rule, s, p + 1);
      assert s[p..] == [s[p]] + s[p + 1..];
    }
  }

  /** A rule has no guard after the name: the rule for `part` fires inside `\\partial`. */
  lemma RuleFiresInsideLongerName()
    ensures Rewrite(Rule("part", Around), "\\partial") == [NEWLINE] + "\\part" + [NEWLINE] + "ial"
  {
    var s := "\\partial";
    assert MatchAt("part", s, 0) == Some(Match([], [], 5));
    assert RewriteFrom(Rule("part", Around), s, 8) == [];
    assert MatchAt("part", s, 7).None?;
    assert MatchAt("part", s, 6).None?;
    assert MatchAt("part", s, 5).None?;
    assert RewriteFrom(Rule("part", Around), s, 5) == "ial";
  }

  /** In x\\foo{a]b}[c]y the arguments are {a]b} and [c]: the ] inside the curly group does not
      close anything. */
  lemma MixedArgs()
    ensures ArgsEnd("x\\foo{a]b}[c]y", 5) == 13
  {
    var s := "x\\foo{a]b}[c]y";
    assert GroupEnd(s, 5, '{', '}') == Some(10);
    assert GroupEnd(s, 10, '{', '}') == None;
    assert GroupEnd(s, 10, '[', ']') == Some(13);
    assert GroupEnd(s, 13, '{', '}') == None;
    assert GroupEnd(s, 13, '[', ']') == None;
  }

  lemma MixedMatch()
    ensures MatchAt("foo", "x\\foo{a]b}[c]y", 0) == Some(Match("x", "{a]b}[c]", 13))
  {
    var s := "x\\foo{a]b}[c]y";
    MixedArgs();
    assert s[2..] == "foo{a]b}[c]y" && s[5..13] == "{a]b}[c]";
  }

  /** Brackets of the other kind inside a group are ordinary text. */
  lemma ArgumentsKeepMixedBrackets()
    ensures Rewrite(Rule("foo", After), "x\\foo{a]b}[c]y") == "x\\foo{a]b}[c]" + [NEWLINE] + "y"
  {
    var s := "x\\foo{a]b}[c]y";
    var rule := Rule("foo", After);
    MixedMatch();
    assert MatchAt("foo", s, 13).None?;
    assert RewriteFrom(rule, s, 13) == "y";
    assert Rewrite(rule, s) == Replacement(rule, Match("x", "{a]b}[c]", 13)) + "y";
  }

  /** A macro after an escaped backslash (a LaTeX line break) is left alone. */
  lemma EscapedBackslashNotMatched()
    ensures Rewrite(Rule("foo", Around), "\\\\foo") == "\\\\foo"
  {
    var s := "\\\\foo";
    assert s[1..][..3] == "\\fo" != "foo";
    assert MatchAt("foo", s, 0).None?;
    assert MatchAt("foo", s, 1).None?;
    assert MatchAt("foo", s, 2).None?;
    assert MatchAt("foo", s, 3).None?;
    assert MatchAt("foo", s, 4).None?;
    assert RewriteFrom(Rule("foo", Around), s, 2) == "foo";
  }

  /** The first invocation of \\foo{a}\\foo{b}: its arguments end where the second starts. */
  lemma FirstOfAdjacent()
    ensures MatchAt("foo", "\\foo{a}\\foo{b}", 0) == Some(Match([], "{a}", 7))
  {
    var s := "\\foo{a}\\foo{b}";
    assert GroupEnd(s, 4, '{', '}') == Some(7);
    assert GroupEnd(s, 7, '{', '}') == None && GroupEnd(s, 7, '[', ']') == None;
    assert s[1..] == "foo{a}\\foo{b}" && s[4..7] == "{a}";
  }

  /** No match starts after the first invocation of \\foo{a}\\foo{b}. */
  lemma NoneAfterAdjacent()
    ensures forall p | 7 <= p < 14 :: MatchAt("foo", "\\foo{a}\\foo{b}", p).None?
  {
    var s := "\\foo{a}\\foo{b}";
    forall p | 7 <= p < |s| ensures MatchAt("foo", s, p).None? {
      if p == 7 {
        assert s[7] == '\\';
      } else if p + 1 < |s| {
        assert s[p + 1] != '\\';
      }
    }
  }

  /** The lead-in character is consumed by a match, so a second invocation directly after
      the arguments of a first one is not rewritten. */
  lemma AdjacentInvocationSkipped()
    ensures Rewrite(Rule("foo", Before), "\\foo{a}\\foo{b}") == [NEWLINE] + "\\foo{a}\\foo{b}"
  {
    var s := "\\foo{a}\\foo{b}";
    var rule := Rule("foo", Before);
    FirstOfAdjacent();
    NoneAfterAdjacent();
    NoMatchCopies(rule, s, 7);
    assert Rewrite(rule, s) == Replacement(rule, Match([], "{a}", 7)) + s[7..];
    assert Replacement(rule, Match([], "{a}", 7)) == [NEWLINE] + "\\foo{a}";
    assert s[7..] == "\\foo{b}";
  }

  /** The text with every line separator deleted. */
  function WithoutSeparators(s: string): (r: string)
    ensures NEWLINE !in r
  {
    if s == [] then [] else (if s[0] == NEWLINE then [] else [s[0]]) + WithoutSeparators(s[1..])
  }

  lemma {:induction false} WithoutSeparatorsAppend(a: string, b: string)
    ensures WithoutSeparators(a + b) == WithoutSeparators(a) + WithoutSeparators(b)
  {
    ConsShape(a, b);
    if a != [] {
      WithoutSeparatorsAppend(a[1..], b);
      var h := if a[0] == NEWLINE then [] else [a[0]];
      Regroup(h, WithoutSeparators(a[1..]), WithoutSeparators(b), WithoutSeparators(a[1..] + b));
    }
  }

  lemma WithoutSeparatorsInsert(a: string, x: string, b: string, y: string)
    requires WithoutSeparators(x) == [] && WithoutSeparators(y) == []
    ensures WithoutSeparators(a + x + b + y) == WithoutSeparators(a + b)
  {
    WithoutSeparatorsAppend(a + x + b, y);
    WithoutSeparatorsAppend(a + x, b);
    WithoutSeparatorsAppend(a, x);
    WithoutSeparatorsAppend(a, b);
  }

  lemma SeparatorOnly(x: string)
    requires x == [] || x == [NEWLINE]
    ensures WithoutSeparators(x) == []
  {
    if x != [] {
      assert x[1..] == [];
    }
  }

  /** The template only adds separators to the matched text. */
  lemma ReplacementAddsSeparatorsOnly(rule: Rule, m: Match)
    ensures WithoutSeparators(Replacement(rule, m))
         == WithoutSeparators(m.lead + ['\\'] + rule.name + m.args)
  {
    var before: string := if rule.mode != After then [NEWLINE] else [];
    var after: string := if rule.mode != Before then [NEWLINE] else [];
    var body := ['\\'] + rule.name + m.args;
    assert Replacement(rule, m) == m.lead + before + body + after;
    assert m.lead + ['\\'] + rule.name + m.args == m.lead + body;
    SeparatorOnly(before);
    SeparatorOnly(after);
    WithoutSeparatorsInsert(m.lead, before, body, after);
  }

  /** A match replaced by its template, followed by a rest that only adds separators. */
  lemma MatchStep(rule: Rule, s: string, p: nat, m: Match, rest: string)
    requires p <= m.end <= |s|
    requires s[p..m.end] == m.lead + ['\\'] + rule.name + m.args
    requires WithoutSeparators(rest) == WithoutSeparators(s[m.end..])
    ensures WithoutSeparators(Replacement(rule, m) + rest) == WithoutSeparators(s[p..])
  {
    ReplacementAddsSeparatorsOnly(rule, m);
    WithoutSeparatorsAppend(Replacement(rule, m), rest);
    DropSplit(s, p, m.end);
    WithoutSeparatorsAppend(s[p..m.end], s[m.end..]);
  }

  /** A character copied, followed by a rest that only adds separators. */
  lemma CopyStep(s: string, p: nat, rest: string)
    requires p < |s|
    requires WithoutSeparators(rest) == WithoutSeparators(s[p + 1..])
    ensures WithoutSeparators([s[p]] + rest) == WithoutSeparators(s[p..])
  {
    WithoutSeparatorsAppend([s[p]], rest);
    DropSplit(s, p, p);
    WithoutSeparatorsAppend([s[p]], s[p + 1..]);
  }

  lemma {:induction false} RewriteFromAddsSeparatorsOnly(rule: Rule, s: string, p: nat)
    requires p <= |s|
    ensures WithoutSeparators(RewriteFrom(rule, s, p)) == WithoutSeparators(s[p..])
    decreases |s| - p
  {
    if p < |s| {
      var r := MatchAt(rule.name, s, p);
      if r.Some? {
        RewriteFromAddsSeparatorsOnly(rule, s, r.value.end);
        MatchStep(rule, s, p, r.value, RewriteFrom(rule, s, r.value.end));
      } else {
        RewriteFromAddsSeparatorsOnly(rule, s, p + 1);
        CopyStep(s, p, RewriteFrom(rule, s, p + 1));
      }
    }
  }

  /** Deleting the separators that the rules inserted gives back the original text: every
      template re-emits the lead-in, the backslash, the name and the arguments unchanged. */
  lemma {:induction false} RulesAddSeparatorsOnly(rules: seq<Rule>, s: string)
    ensures WithoutSeparators(ApplyRules(rules, s)) == WithoutSeparators(s)
  {
    if rules != [] {
      RewriteFromAddsSeparatorsOnly(rules[0], s, 0);
      assert s[0..] == s;
      RulesAddSeparatorsOnly(rules[1..], Rewrite(rules[0], s));
    }
  }

  /** With nothing to delete, the round trip is exact. */
  lemma {:induction false} NoSeparatorsFixed(s: string)
    requires NEWLINE !in s
    ensures WithoutSeparators(s) == s
  {
    if s != [] {
      assert s[1..] == s[1..] && NEWLINE !in s[1..] by {
        forall i | 0 <= i < |s| - 1 ensures s[1..][i] != NEWLINE { assert s[1..][i] == s[i + 1]; }
      }
      NoSeparatorsFixed(s[1..]);
      assert [s[0]] + s[1..] == s;
    }
  }

  // ---------------------------------------------------------------------------------------
  // Comments

  /** A % that starts a comment: at the start of the text or not after a backslash. */
  predicate RealPercent(w: string, k: nat)
    requires k < |w|
  {
    w[k] == '%' && (k == 0 || w[k - 1] != '\\')
  }

  function FirstRealPercent(w: string, j: nat): (k: nat)
    requires j <= |w|
    ensures j <= k <= |w|
    ensures k < |w| ==> RealPercent(w, k)
    ensures forall i :: j <= i < k ==> !RealPercent(w, i)
    decreases |w| - j
  {
    if j == |w| then j else if RealPercent(w, j) then j else FirstRealPercent(w, j + 1)
  }

  /** The `commentSplit` pattern matched against a whole line: the non-comment prefix and
      the comment suffix, or None where the pattern does not match. */
  function CommentSplit(w: string): Option<(string, string)>
  {
    var k := FirstRealPercent(w, 0);
    if k == |w| then Some((w, []))
    else if k > 0 && w[k - 1] != '%' && NoTerminator(w[k + 1..]) then Some((w[..k], w[k..]))
    else None
  }

  /** Every % directly follows a backslash: the language of `([^%]*(\\%)?)*`. */
  predicate EscapedOnly(t: string)
  {
    forall j :: 0 <= j < |t| && t[j] == '%' ==> j > 0 && t[j - 1] == '\\'
  }

  /** Reference definition of a match of `commentSplit`: the prefix is `([^%]*(\\%)?)*`
      followed by the end of the text or by a character that is neither % nor a backslash,
      and the suffix is empty or a % followed by characters other than line terminators. */
  predicate IsCommentSplit(w: string, p: string, c: string)
  {
    p + c == w
    && ((EscapedOnly(p) && c == [])
        || (p != [] && EscapedOnly(p[..|p| - 1]) && p[|p| - 1] != '%' && p[|p| - 1] != '\\'))
    && (c == [] || (c[0] == '%' && NoTerminator(c[1..])))
  }

  /** What the scanner returns is a match of the pattern. */
  lemma CommentSplitSound(w: string)
    requires CommentSplit(w).Some?
    ensures IsCommentSplit(w, CommentSplit(w).value.0, CommentSplit(w).value.1)
  {
    var k := FirstRealPercent(w, 0);
    if k == |w| {
      assert w + [] == w;
      forall j | 0 <= j < |w| && w[j] == '%' ensures j > 0 && w[j - 1] == '\\' {
        assert !RealPercent(w, j);
      }
    } else {
      var p, c := w[..k], w[k..];
      assert c[1..] == w[k + 1..];
      assert p + c == w;
      var t := w[..k - 1];
      assert p[..|p| - 1] == t;
      forall j | 0 <= j < |t| && t[j] == '%' ensures j > 0 && t[j - 1] == '\\' {
        assert !RealPercent(w, j);
      }
    }
  }

  /** Every match of the pattern is the one the scanner returns: the match is unique, and the
      scanner fails only where the pattern cannot match. */
  lemma CommentSplitComplete(w: string, p: string, c: string)
    requires IsCommentSplit(w, p, c)
    ensures CommentSplit(w) == Some((p, c))
  {
    var k := FirstRealPercent(w, 0);
    var m := |p|;
    assert w[..m] == p && w[m..] == c;
    forall i | 0 <= i < |w| && i < m && w[i] == '%' ensures !RealPercent(w, i) {
      if !EscapedOnly(p) {
        assert i < m - 1 && p[..m - 1][i] == '%';
      }
    }
    if c == [] {
      assert p == w;
      assert k == |w|;
    } else {
      assert RealPercent(w, m);
      assert k == m;
    }
  }

  /** An escaped percent directly followed by a real one has no split. */
  lemma EscapedThenRealHasNoSplit()
    ensures CommentSplit("\\%%") == None
  {
    assert FirstRealPercent("\\%%", 0) == 2;
  }

  /** An escaped percent stays in the text; the first real one starts the comment. */
  lemma EscapedPercentIsText()
    ensures CommentSplit("a \\% b % c") == Some(("a \\% b ", "% c"))
  {
    var w := "a \\% b % c";
    assert !RealPercent(w, 3);
    assert FirstRealPercent(w, 0) == 7;
    assert w[..7] == "a \\% b " && w[7..] == "% c";
  }

  /** The `partialComment` pattern `.*(^|[^\\])%.*`, matched against the whole line. */
  predicate HasUnescapedComment(w: string)
  {
    exists j :: 0 <= j < |w| && w[j] == '%' && NoTerminator(w[j + 1..])
                && (j == 0 || (w[j - 1] != '\\' && NoTerminator(w[..j - 1])))
  }

  /** On a line without line terminators, partialComment holds exactly when the line has a
      real comment marker. */
  lemma UnescapedCommentIffRealPercent(w: string)
    requires NoTerminator(w)
    ensures HasUnescapedComment(w) <==> FirstRealPercent(w, 0) < |w|
  {
    var k := FirstRealPercent(w, 0);
    if k < |w| {
      var after := w[k + 1..];
      forall i | 0 <= i < |after| ensures !IsLineTerminator(after[i]) {
        assert after[i] == w[k + 1 + i];
      }
      if k > 0 {
        var before := w[..k - 1];
        forall i | 0 <= i < |before| ensures !IsLineTerminator(before[i]) {
          assert before[i] == w[i];
        }
      }
    }
    if HasUnescapedComment(w) {
      var j :| 0 <= j < |w| && w[j] == '%' && NoTerminator(w[j + 1..])
               && (j == 0 || (w[j - 1] != '\\' && NoTerminator(w[..j - 1])));
      assert RealPercent(w, j);
    }
  }
}
