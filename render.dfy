/** The string transformation of `renderMarkdown` (public/chat.js): each
    fenced span "```…```" becomes a `<pre><code>` block holding its trimmed
    interior, then the text is cut at blank lines and every piece that does
    not mention `<pre>` is wrapped in `<p>…</p>`. */
module Render {
  import opened JsStrings

  const Fence: string := "```"
  const ParagraphBreak: string := "\n\n"
  const PreTag: string := "<pre>"
  const CodeOpen: string := "<pre><code>"
  const CodeClose: string := "</code></pre>"

  /** The replacement for one fenced span with interior `x`. */
  function CodeBlock(x: string): string {
    CodeOpen + Trim(x) + CodeClose
  }

  /** `text.replace(/```([\s\S]*?)```/g, …)`. The leftmost fence opens a
      span and the first fence after it closes it; when that opening fence
      has no closing one, no later fence can have one either, so the rest
      of the text is left as it is. */
  function ReplaceFences(s: string): string
    decreases |s|
  {
    if |s| < |Fence| then s
    else if s[..|Fence|] == Fence then
      match IndexOf(s[|Fence|..], Fence)
      case None => s
      case Some(j) => CodeBlock(s[|Fence|..|Fence| + j]) + ReplaceFences(s[|Fence| + j + |Fence|..])
    else [s[0]] + ReplaceFences(s[1..])
  }

  function WrapParagraph(p: string): string {
    if Contains(p, PreTag) then p else "<p>" + p + "</p>"
  }

  /** `parts.map(WrapParagraph).join("")` */
  function WrapAll(parts: seq<string>): string
    decreases |parts|
  {
    if parts == [] then "" else WrapParagraph(parts[0]) + WrapAll(parts[1..])
  }

  /** The HTML `renderMarkdown` assigns to the element. */
  function RenderMarkdown(text: string): string {
    WrapAll(Split(ReplaceFences(text), ParagraphBreak))
  }

  // ---------------------------------------------------------------------

  /** Occurrences that lie inside a prefix are occurrences in the prefix. */
  lemma OccursInPrefix(s: string, p: string, t: string, i: int)
    requires p <= s && 0 <= i && i + |t| <= |p|
    ensures Occurs(s, t, i) <==> Occurs(p, t, i)
  {
    assert s[i..i + |t|] == p[i..i + |t|];
  }

  /** With `a + "``"` free of fences, the first fence of `a + (Fence + r)`
      is the one after `a`. */
  lemma FirstFenceAfter(a: string, r: string, i: int)
    requires !Contains(a + "``", Fence) && 0 <= i < |a|
    ensures !Occurs(a + (Fence + r), Fence, i)
  {
    assert a + "``" <= a + (Fence + r);
    if i + |Fence| <= |a| + 2 {
      OccursInPrefix(a + (Fence + r), a + "``", Fence, i);
    }
  }

  lemma FenceFreeTail(a: string)
    requires |a| > 0 && !Contains(a + "``", Fence)
    ensures !Contains(a[1..] + "``", Fence)
  {
    assert (a + "``")[1..] == a[1..] + "``";
    forall i | 0 <= i <= |a[1..] + "``"| ensures !Occurs(a[1..] + "``", Fence, i) {
      OccursTail(a + "``", Fence, i + 1);
    }
  }

  /** Text without fences is left as it is. */
  lemma {:induction false} ReplaceFencesIdentity(s: string)
    requires !Contains(s, Fence)
    ensures ReplaceFences(s) == s
    decreases |s|
  {
    assert !Occurs(s, Fence, 0);
    if |s| >= |Fence| {
      assert !Contains(s[1..], Fence) by {
        forall i | 0 <= i <= |s[1..]| ensures !Occurs(s[1..], Fence, i) {
          OccursTail(s, Fence, i + 1);
        }
      }
      ReplaceFencesIdentity(s[1..]);
      assert [s[0]] + s[1..] == s;
    }
  }

  /** The first fenced span is replaced by its code block: `a` and `x` are
      the text before the span and its interior, chosen so that the fences
      shown are the first opening and the first closing one. */
  lemma {:induction false} ReplaceFencesSpan(a: string, x: string, b: string)
    requires !Contains(a + "``", Fence) && !Contains(x + "``", Fence)
    ensures ReplaceFences(a + (Fence + (x + (Fence + b)))) == a + (CodeBlock(x) + ReplaceFences(b))
    decreases |a|
  {
    if a == [] {
      ReplaceFencesOpening(x, b);
      assert a + (Fence + (x + (Fence + b))) == Fence + (x + (Fence + b));
      assert a + (CodeBlock(x) + ReplaceFences(b)) == CodeBlock(x) + ReplaceFences(b);
    } else {
      FenceFreeTail(a);
      ReplaceFencesSpan(a[1..], x, b);
      ReplaceFencesBefore(a, x + (Fence + b), CodeBlock(x) + ReplaceFences(b));
    }
  }

  /** Text before the first fence is copied as it is. */
  lemma ReplaceFencesBefore(a: string, r: string, out: string)
    requires a != [] && !Contains(a + "``", Fence)
    requires ReplaceFences(a[1..] + (Fence + r)) == a[1..] + out
    ensures ReplaceFences(a + (Fence + r)) == a + out
  {
    ReplaceFencesFirstChar(a, r);
    ConsTail(a, out);
  }

  lemma ConsTail(a: string, out: string)
    requires a != []
    ensures [a[0]] + (a[1..] + out) == a + out
  {
    assert [a[0]] + a[1..] == a;
  }

  lemma ReplaceFencesFirstChar(a: string, r: string)
    requires a != [] && !Contains(a + "``", Fence)
    ensures ReplaceFences(a + (Fence + r)) == [a[0]] + ReplaceFences(a[1..] + (Fence + r))
  {
    var s := a + (Fence + r);
    FirstFenceAfter(a, r, 0);
    ReplaceFencesPlainStep(s);
    assert s[0] == a[0];
    assert s[1..] == a[1..] + (Fence + r);
  }

  lemma ReplaceFencesPlainStep(s: string)
    requires |s| >= |Fence| && !Occurs(s, Fence, 0)
    ensures ReplaceFences(s) == [s[0]] + ReplaceFences(s[1..])
  {
  }

  lemma ReplaceFencesOpening(x: string, b: string)
    requires !Contains(x + "``", Fence)
    ensures ReplaceFences(Fence + (x + (Fence + b))) == CodeBlock(x) + ReplaceFences(b)
  {
    var s := Fence + (x + (Fence + b));
    assert s[..|Fence|] == Fence;
    assert s[|Fence|..] == x + (Fence + b);
    FirstClosingFence(x, b);
    assert s[|Fence|..|Fence| + |x|] == x;
    assert s[|Fence| + |x| + |Fence|..] == b;
  }

  lemma FirstClosingFence(x: string, b: string)
    requires !Contains(x + "``", Fence)
    ensures IndexOf(x + (Fence + b), Fence) == Some(|x|)
  {
    FenceFirstAt(x, b);
    IndexOfFirst(x + (Fence + b), Fence, |x|);
  }

  /** In `x + (Fence + b)` the first fence starts right after `x`. */
  lemma FenceFirstAt(x: string, b: string)
    requires !Contains(x + "``", Fence)
    ensures Occurs(x + (Fence + b), Fence, |x|)
    ensures forall i :: 0 <= i < |x| ==> !Occurs(x + (Fence + b), Fence, i)
  {
    var s := x + (Fence + b);
    assert s[|x|..|x| + |Fence|] == Fence;
    forall i | 0 <= i < |x| ensures !Occurs(s, Fence, i) {
      FirstFenceAfter(x, b, i);
    }
  }

  /** An opening fence without a closing one is kept, with all after it. */
  lemma {:induction false} ReplaceFencesUnclosed(a: string, x: string)
    requires !Contains(a + "``", Fence) && !Contains(x, Fence)
    ensures ReplaceFences(a + (Fence + x)) == a + (Fence + x)
    decreases |a|
  {
    var s := a + (Fence + x);
    if a == [] {
      assert s == Fence + x;
      assert s[..|Fence|] == Fence;
      assert s[|Fence|..] == x;
      IndexOfSpec(x, Fence);
    } else {
      FenceFreeTail(a);
      ReplaceFencesUnclosed(a[1..], x);
      ReplaceFencesBefore(a, x, Fence + x);
    }
  }

  /** No blank line appears across the joints of `p + t + q` when `p` and
      `q` hold no line break. */
  lemma NoBreakAcross(p: string, t: string, q: string)
    requires '\n' !in p && '\n' !in q
    requires !Contains(t, ParagraphBreak)
    ensures !Contains(p + t + q, ParagraphBreak)
  {
    var s := p + t + q;
    forall i | 0 <= i <= |s| ensures !Occurs(s, ParagraphBreak, i) {
      if i + 2 <= |s| {
        if i < |p| {
          assert s[i] == p[i] && p[i] in p;
        } else if i + 1 >= |p| + |t| {
          assert s[i + 1] == q[i + 1 - |p| - |t|] && q[i + 1 - |p| - |t|] in q;
        } else {
          assert s[i..i + 2] == t[i - |p|..i - |p| + 2];
          assert !Occurs(t, ParagraphBreak, i - |p|);
        }
        assert s[i..i + 2][0] == s[i] && s[i..i + 2][1] == s[i + 1];
      }
    }
  }

  /** Plain text of one paragraph comes out wrapped in `<p>`. */
  lemma RenderPlain(s: string)
    requires !Contains(s, Fence) && !Contains(s, ParagraphBreak) && !Contains(s, PreTag)
    ensures RenderMarkdown(s) == "<p>" + s + "</p>"
  {
    ReplaceFencesIdentity(s);
    SplitNone(s, ParagraphBreak);
    assert WrapParagraph(s) == "<p>" + s + "</p>";
    assert WrapAll([s]) == WrapParagraph(s) + WrapAll([]) by {
      assert [s][1..] == [];
    }
  }

  /** A text that is one fenced span comes out as one code block, not
      wrapped in `<p>`, as long as the code holds no blank line. */
  lemma RenderCodeBlock(x: string)
    requires !Contains(x + "``", Fence) && !Contains(Trim(x), ParagraphBreak)
    ensures RenderMarkdown(Fence + (x + Fence)) == CodeBlock(x)
  {
    OneSpanReplaced(x);
    CodeBlockOneParagraph(x);
    CodeBlockHasPre(x);
    WrapOne(CodeBlock(x));
  }

  lemma OneSpanReplaced(x: string)
    requires !Contains(x + "``", Fence)
    ensures ReplaceFences(Fence + (x + Fence)) == CodeBlock(x)
  {
    assert Fence + "" == Fence;
    ReplaceFencesOpening(x, "");
    assert CodeBlock(x) + "" == CodeBlock(x);
  }

  lemma CodeBlockOneParagraph(x: string)
    requires !Contains(Trim(x), ParagraphBreak)
    ensures Split(CodeBlock(x), ParagraphBreak) == [CodeBlock(x)]
  {
    NoBreakAcross(CodeOpen, Trim(x), CodeClose);
    SplitNone(CodeBlock(x), ParagraphBreak);
  }

  lemma CodeBlockHasPre(x: string)
    ensures Contains(CodeBlock(x), PreTag)
  {
    var c := CodeBlock(x);
    assert c[..|PreTag|] == CodeOpen[..|PreTag|];
    assert Occurs(c, PreTag, 0);
  }

  lemma WrapOne(p: string)
    ensures WrapAll([p]) == WrapParagraph(p)
  {
    var parts: seq<string> := [p];
    assert parts[1..] == [];
  }

  /** Two plain paragraphs separated by a blank line are wrapped one by
      one. The first may not end in a line break, which would move the
      blank line one character earlier. */
  lemma RenderTwoParagraphs(p: string, q: string)
    requires !Contains(p + ParagraphBreak + q, Fence)
    requires !Contains(p + "\n", ParagraphBreak) && !Contains(q, ParagraphBreak)
    requires !Contains(p, PreTag) && !Contains(q, PreTag)
    ensures RenderMarkdown(p + ParagraphBreak + q) == "<p>" + p + "</p>" + ("<p>" + q + "</p>")
  {
    ReplaceFencesIdentity(p + ParagraphBreak + q);
    TwoPieces(p, q);
    WrapTwo(p, q);
  }

  lemma TwoPieces(p: string, q: string)
    requires !Contains(p + "\n", ParagraphBreak) && !Contains(q, ParagraphBreak)
    ensures Split(p + ParagraphBreak + q, ParagraphBreak) == [p, q]
  {
    assert ParagraphBreak[..|ParagraphBreak| - 1] == "\n";
    SplitAtFirst(p, ParagraphBreak, q);
    SplitNone(q, ParagraphBreak);
    assert p + ParagraphBreak + q == p + (ParagraphBreak + q);
  }

  lemma WrapTwo(p: string, q: string)
    ensures WrapAll([p, q]) == WrapParagraph(p) + WrapParagraph(q)
  {
    var parts: seq<string> := [p, q];
    assert parts[1..] == [q];
    WrapOne(q);
  }

  /** Wrapping works piece by piece. */
  lemma {:induction false} WrapAllAppend(a: seq<string>, b: seq<string>)
    ensures WrapAll(a + b) == WrapAll(a) + WrapAll(b)
    decreases |a|
  {
    if a == [] {
      assert a + b == b;
    } else {
      assert (a + b)[1..] == a[1..] + b;
      WrapAllAppend(a[1..], b);
    }
  }

  /** A line break-free text holds no blank line. */
  lemma NoBreakWithoutNewline(s: string)
    requires '\n' !in s
    ensures !Contains(s, ParagraphBreak)
  {
    forall i | 0 <= i <= |s| ensures !Occurs(s, ParagraphBreak, i) {
      if i + 2 <= |s| {
        assert s[i..i + 2][0] == s[i] && s[i] in s;
      }
    }
  }

  /** A blank line inside a code block is cut like any other: the part of
      the block after it is wrapped in `<p>`, closing tags and all. */
  lemma BlankLineInCodeBlock(a: string, b: string)
    requires a != [] && b != [] && !IsSpace(a[0]) && !IsSpace(b[|b| - 1])
    requires '`' !in a && '`' !in b && '\n' !in a && '\n' !in b && '<' !in b
    ensures RenderMarkdown(Fence + (a + ParagraphBreak + b + Fence))
      == CodeOpen + a + ("<p>" + (b + CodeClose) + "</p>")
  {
    var x := a + ParagraphBreak + b;
    TickFree(a, b);
    OneSpanReplaced(x);
    BlockAsPieces(a, b);
    BlankLinePieces(a, b);
    WrapTwo(CodeOpen + a, b + CodeClose);
    OpenHasPre(a);
    ClosingTagsHoldNoPre(b);
  }

  lemma BlockAsPieces(a: string, b: string)
    requires a != [] && b != [] && !IsSpace(a[0]) && !IsSpace(b[|b| - 1])
    ensures CodeBlock(a + ParagraphBreak + b) == CodeOpen + a + ParagraphBreak + (b + CodeClose)
  {
    var x := a + ParagraphBreak + b;
    assert x[0] == a[0] && x[|x| - 1] == b[|b| - 1];
    TrimTrimmed(x);
  }

  lemma OpenHasPre(a: string)
    ensures Contains(CodeOpen + a, PreTag)
  {
    var p := CodeOpen + a;
    assert p[..|PreTag|] == PreTag;
    assert Occurs(p, PreTag, 0);
  }

  lemma TickFree(a: string, b: string)
    requires '`' !in a && '`' !in b
    ensures !Contains(a + ParagraphBreak + b + "``", Fence)
  {
    var s := a + ParagraphBreak + b + "``";
    forall i | 0 <= i <= |s| ensures !Occurs(s, Fence, i) {
      if i + 3 <= |s| {
        assert s[i..i + 3][0] == s[i] && s[i..i + 3][1] == s[i + 1];
        if i < |a| {
          assert s[i] == a[i];
        } else if i < |a| + 2 {
          assert s[i] == '\n';
        } else {
          assert i < |a| + 2 + |b|;
          assert s[i] == b[i - |a| - 2];
        }
      }
    }
  }

  lemma BlankLinePieces(a: string, b: string)
    requires '\n' !in a && '\n' !in b
    ensures Split(CodeOpen + a + ParagraphBreak + (b + CodeClose), ParagraphBreak) == [CodeOpen + a, b + CodeClose]
  {
    var p, q := CodeOpen + a, b + CodeClose;
    assert '\n' !in p && '\n' !in q;
    NoBreakAcross(p, "\n", "");
    assert p + "\n" + "" == p + "\n";
    NoBreakWithoutNewline(q);
    TwoPieces(p, q);
  }

  lemma ClosingTagsHoldNoPre(b: string)
    requires '<' !in b
    ensures !Contains(b + CodeClose, PreTag)
  {
    var q := b + CodeClose;
    forall i | 0 <= i <= |q| ensures !Occurs(q, PreTag, i) {
      if i + 5 <= |q| {
        assert q[i..i + 5][0] == q[i] && q[i..i + 5][1] == q[i + 1];
        if i < |b| {
          assert q[i] == b[i];
        } else {
          assert q[i + 1] == CodeClose[i + 1 - |b|];
        }
      }
    }
  }
}
