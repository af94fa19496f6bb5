/**
 * One line of the document (LatexLine.java): its text and three tags, updated in place by
 * the passes of the pipeline. `Line` is the value of such an object at one moment; the
 * specifications of the passes are stated over sequences of these values.
 */
module LatexLines {
  import opened Text

  /** The state of a line object: text, verbatim tag, block-math tag, comment-line tag. */
  datatype Line = Line(content: string, protect: bool, protectSentences: bool, lineComment: bool)

  /** What clone() followed by a change of text yields: both protection tags are copied,
      the comment-line tag is not. */
  function CloneWith(l: Line, s: string): (r: Line)
    ensures r.content == s && !r.lineComment
    ensures r.protect == l.protect && r.protectSentences == l.protectSentences
  {
    Line(s, l.protect, l.protectSentences, false)
  }

  class LatexLine {
    var content: string
    var protectSentences: bool
    var protect: bool
    var lineComment: bool

    function View(): Line
      reads this
    {
      Line(content, protect, protectSentences, lineComment)
    }

    /** A new line carries the given text and no tag. */
    constructor (content: string)
      ensures View() == Line(content, false, false, false)
    {
      this.content := content;
      protectSentences := false;
      protect := false;
      lineComment := false;
    }

    /** Removes leading and trailing whitespace; never called on a verbatim line. */
    method Strip()
      requires !protect
      modifies this
      ensures View() == old(View()).(content := Text.Strip(old(content)))
    {
      content := Text.Strip(content);
    }

    predicate IsBlank()
      reads this
    {
      Text.IsBlank(content)
    }

    predicate EndsWith(s: string)
      reads this
    {
      |s| <= |content| && content[|content| - |s|..] == s
    }

    predicate StartsWith(s: string)
      reads this
    {
      s <= content
    }

    /** Whole-text match against a configured pattern, given as a predicate on the text. */
    predicate Matches(pattern: string -> bool)
      reads this
    {
      pattern(content)
    }

    method Append(s: string)
      requires !protect
      modifies this
      ensures View() == old(View()).(content := old(content) + s)
    {
      content := content + s;
    }

    /** Appends the text of another line, which is left as it was (unless it is this line). */
    method Concat(that: LatexLine)
      requires protectSentences == that.protectSentences
      requires !protect && !that.protect
      modifies this
      ensures View() == old(View()).(content := old(content) + old(that.content))
    {
      content := content + that.content;
    }

    method Clone() returns (r: LatexLine)
      ensures fresh(r)
      ensures r.View() == CloneWith(View(), content)
    {
      r := new LatexLine(content);
      r.protectSentences := protectSentences;
      r.protect := protect;
    }

    /** One new line per piece of String.split, in order, each a clone carrying its piece;
        this line is unchanged. */
    method Split(sep: char) returns (r: seq<LatexLine>)
      requires !protect
      ensures |r| == |JavaSplit(content, sep)|
      ensures forall k :: 0 <= k < |r| ==> fresh(r[k])
      ensures forall k :: 0 <= k < |r| ==> r[k].View() == CloneWith(View(), JavaSplit(content, sep)[k])
      ensures Distinct(r)
    {
      var pieces := JavaSplit(content, sep);
      r := [];
      for k := 0 to |pieces|
        invariant |r| == k
        invariant forall j :: 0 <= j < k ==> fresh(r[j])
        invariant forall j :: 0 <= j < k ==> r[j].View() == CloneWith(View(), pieces[j])
        invariant Distinct(r)
      {
        var l := Clone();
        l.content := pieces[k];
        r := r + [l];
      }
    }

    function ToString(): string
      reads this
    {
      content
    }

    function Length(): nat
      reads this
    {
      |content|
    }

    function CharAt(i: nat): char
      requires i < |content|
      reads this
    {
      content[i]
    }

    /** Keeps the text from begin (inclusive) to end (exclusive); the tags stay. */
    method Substring(begin: nat, end: nat)
      requires begin <= end <= |content|
      modifies this
      ensures View() == old(View()).(content := old(content)[begin..end])
    {
      content := content[begin..end];
    }

    method SetContent(s: string)
      modifies this
      ensures View() == old(View()).(content := s)
    {
      content := s;
    }
  }

  /** No line object occurs twice in the document. */
  predicate Distinct(ls: seq<LatexLine>)
  {
    forall i, j :: 0 <= i < j < |ls| ==> ls[i] != ls[j]
  }

  /** The values of a sequence of line objects. */
  ghost function Views(ls: seq<LatexLine>): (r: seq<Line>)
    reads ls
    ensures |r| == |ls|
    ensures forall i :: 0 <= i < |ls| ==> r[i] == ls[i].View()
  {
    seq(|ls|, i requires 0 <= i < |ls| reads ls => ls[i].View())
  }

  /** Removing the object at position i removes its value at position i. */
  lemma ViewsRemove(ls: seq<LatexLine>, i: nat)
    requires i < |ls|
    ensures Views(ls[..i] + ls[i + 1..]) == Views(ls)[..i] + Views(ls)[i + 1..]
  {
  }

  lemma DistinctAppend(a: seq<LatexLine>, b: seq<LatexLine>)
    requires Distinct(a) && Distinct(b) && forall x :: x in a ==> x !in b
    ensures Distinct(a + b)
  {
    forall i, j | 0 <= i < j < |a + b|
      ensures (a + b)[i] != (a + b)[j]
    {
      if j >= |a| && i < |a| {
        assert (a + b)[i] in a && (a + b)[j] in b;
      }
    }
  }

  /** Every object of ls is one of pool. */
  predicate Among(ls: seq<LatexLine>, pool: seq<LatexLine>)
  {
    forall x :: x in ls ==> x in pool
  }

  /** Walking through pool: the next object is not among those taken from the part before it. */
  lemma AmongStep(kept: seq<LatexLine>, pool: seq<LatexLine>, j: nat)
    requires j < |pool| && Distinct(pool) && Among(kept, pool[..j])
    ensures pool[j] !in kept
    ensures Among(kept, pool[..j + 1]) && Among(kept + [pool[j]], pool[..j + 1])
  {
  }

  lemma DistinctRemove(ls: seq<LatexLine>, i: nat, pool: seq<LatexLine>)
    requires i < |ls| && Distinct(ls) && Among(ls, pool)
    ensures Distinct(ls[..i] + ls[i + 1..]) && Among(ls[..i] + ls[i + 1..], pool)
  {
  }

  lemma DistinctDropLast(ls: seq<LatexLine>)
    requires ls != [] && Distinct(ls)
    ensures Distinct(ls[..|ls| - 1]) && Among(ls[..|ls| - 1], ls)
  {
  }

  function Contents(ls: seq<Line>): (r: seq<string>)
    ensures |r| == |ls|
    ensures forall i :: 0 <= i < |ls| ==> r[i] == ls[i].content
  {
    seq(|ls|, i requires 0 <= i < |ls| => ls[i].content)
  }

  /** The texts of the verbatim lines, in order. */
  function ProtectedText(ls: seq<Line>): seq<string>
  {
    if ls == [] then []
    else ProtectedText(ls[..|ls| - 1]) + (if ls[|ls| - 1].protect then [ls[|ls| - 1].content] else [])
  }

  lemma {:induction false} ProtectedTextAppend(a: seq<Line>, b: seq<Line>)
    ensures ProtectedText(a + b) == ProtectedText(a) + ProtectedText(b)
    decreases |b|
  {
    AppendShape(a, b);
    if b != [] {
      ProtectedTextAppend(a, b[..|b| - 1]);
    }
  }

  /** The non-whitespace characters of all lines, in order. */
  function Letters(ls: seq<Line>): string
  {
    if ls == [] then [] else Letters(ls[..|ls| - 1]) + NonWs(ls[|ls| - 1].content)
  }

  lemma {:induction false} LettersAppend(a: seq<Line>, b: seq<Line>)
    ensures Letters(a + b) == Letters(a) + Letters(b)
    decreases |b|
  {
    AppendShape(a, b);
    if b != [] {
      LettersAppend(a, b[..|b| - 1]);
    }
  }

  lemma LettersSingle(l: Line)
    ensures Letters([l]) == NonWs(l.content)
  {
    assert [l][..0] == [];
  }

  lemma {:induction false} NoProtectedText(ls: seq<Line>)
    requires forall k :: 0 <= k < |ls| ==> !ls[k].protect
    ensures ProtectedText(ls) == []
  {
    if ls != [] {
      NoProtectedText(ls[..|ls| - 1]);
    }
  }
}
