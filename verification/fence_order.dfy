/** The order of the two code rules of Dot::markdownToHtml. Fenced code runs last, six steps
    after inline code; none of those steps puts two backticks side by side, so the fenced-code
    rule never finds a fence. */
module FenceOrder {
  import opened Text
  import opened Markdown

  /** Two texts without backtick pairs joined where at least one side is not a backtick. */
  lemma TickJoin(x: string, y: string)
    requires NoTickPair(x) && NoTickPair(y)
    requires x == [] || y == [] || x[|x| - 1] != '`' || y[0] != '`'
    ensures NoTickPair(x + y)
  {
    var z := x + y;
    forall i | 0 <= i < |z| - 1 && z[i] == '`' ensures z[i + 1] != '`' {
      if i + 1 < |x| {
        assert z[i] == x[i] && z[i + 1] == x[i + 1];
      } else if i >= |x| {
        assert z[i] == y[i - |x|] && z[i + 1] == y[i + 1 - |x|];
      } else {
        assert z[i] == x[|x| - 1] && z[i + 1] == y[0];
      }
    }
  }

  lemma TickSlice(s: string, i: nat, j: nat)
    requires NoTickPair(s) && i <= j <= |s|
    ensures NoTickPair(s[i..j])
  {
    var t := s[i..j];
    forall k | 0 <= k < |t| - 1 ensures !(t[k] == '`' && t[k + 1] == '`') {
      assert t[k] == s[i + k] && t[k + 1] == s[i + k + 1];
    }
  }

  /** A text without backticks between a captured text and another. */
  lemma TickAround(x: string, m: string, y: string)
    requires NoTickPair(x) && NoTickPair(y) && m != [] && '`' !in m
    ensures NoTickPair(x + m + y)
  {
    TickJoin(x, m);
    assert (x + m)[|x + m| - 1] == m[|m| - 1];
    TickJoin(x + m, y);
  }

  /** The rules that run between inline code and fenced code: their replacements hold no
      backtick and begin and end with some other character. */
  predicate KeepsTickPairsOut(pat: Pattern) {
    match pat
    case Bracket(_, pre, mid, post) => pre != [] && mid != [] && post != [] && '`' !in pre + mid + post
    case Bullet => true
    case Numbered => true
    case _ => false
  }

  /** Such a replacement has no backtick pair and neither starts nor ends with a backtick. */
  lemma HitOutTickFree(s: string, bol: bool, pat: Pattern, h: Piece)
    requires ValidPattern(pat) && KeepsTickPairsOut(pat) && NoTickPair(s) && HitAt(s, bol, pat) == Some(h)
    ensures NoTickPair(h.out) && h.out != [] && h.out[0] != '`' && h.out[|h.out| - 1] != '`'
  {
    match pat
    case Bracket(o, pre, mid, post) =>
      BracketOutTickFree(s, h, o, pre, mid, post);
    case Bullet =>
      ItemOutTickFree(s, h, false);
    case Numbered =>
      ItemOutTickFree(s, h, true);
  }

  lemma BracketOutTickFree(s: string, h: Piece, o: string, pre: string, mid: string, post: string)
    requires h.Hit? && StartsWith(s, h.src) && BracketRule(h, o, pre, mid, post) && NoTickPair(s)
    requires pre != [] && mid != [] && post != [] && '`' !in pre + mid + post
    ensures NoTickPair(h.out) && h.out != [] && h.out[0] != '`' && h.out[|h.out| - 1] != '`'
  {
    var g1, g2 := h.parts[0], h.parts[1];
    assert h.src == o + g1 + ("](" + g2 + ")");
    MiddleOf(s, o, g1, "](" + g2 + ")");
    assert h.src == (o + g1 + "](") + g2 + ")";
    MiddleOf(s, o + g1 + "](", g2, ")");
    TickSlice(s, |o|, |o| + |g1|);
    TickSlice(s, |o| + |g1| + 2, |o| + |g1| + 2 + |g2|);
    assert '`' !in pre && '`' !in mid && '`' !in post;
    TickAround(g2, mid, g1);
    var inner := g2 + mid + g1;
    TickAround([], pre, inner);
    TickAround(pre + inner, post, []);
    assert h.out == pre + inner + post + [];
    assert h.out[0] == pre[0];
  }

  lemma ItemOutTickFree(s: string, h: Piece, numbered: bool)
    requires h.Hit? && StartsWith(s, h.src) && ListRule(h, numbered) && NoTickPair(s)
    ensures NoTickPair(h.out) && h.out != [] && h.out[0] != '`' && h.out[|h.out| - 1] != '`'
  {
    var ps := h.parts;
    assert h.src == ps[0] + ps[1] + ps[2] + ps[3] + [];
    MiddleOf(s, ps[0] + ps[1] + ps[2], ps[3], []);
    TickSlice(s, |ps[0]| + |ps[1]| + |ps[2]|, |h.src|);
    TickAround([], "<li>", ps[3]);
    TickAround([] + "<li>" + ps[3], "</li>", []);
    assert h.out == [] + "<li>" + ps[3] + "</li>" + [];
  }

  /** A rewrite by such a rule keeps backtick pairs out, and its output starts with a
      backtick only where its input does. */
  lemma {:induction false} ScanKeepsTickPairsOut(s: string, bol: bool, pat: Pattern)
    requires ValidPattern(pat) && KeepsTickPairsOut(pat) && NoTickPair(s)
    ensures NoTickPair(Render(Scan(s, bol, pat)))
    ensures s != [] && s[0] != '`' ==> Render(Scan(s, bol, pat)) != [] && Render(Scan(s, bol, pat))[0] != '`'
    decreases |s|
  {
    if s != [] {
      var ps := Scan(s, bol, pat);
      ScanStep(s, bol, pat);
      var n := Width(ps[0]);
      TickSlice(s, n, |s|);
      ScanKeepsTickPairsOut(s[n..], ps[0] == Lit('\n'), pat);
      var r := Render(ps[1..]);
      assert Render(ps) == (if ps[0].Lit? then [ps[0].c] else ps[0].out) + r;
      if ps[0].Hit? {
        HitOutTickFree(s, bol, pat, ps[0]);
        TickJoin(ps[0].out, r);
      } else {
        if |s| > 1 {
          assert s[1..][0] == s[1];
        }
        TickJoin([s[0]], r);
      }
    }
  }

  /** The list wrap adds tags without backticks and cuts the text only into slices. */
  lemma WrapListKeepsTickPairsOut(s: string, open: string, close: string)
    requires NoTickPair(s) && open != [] && close != [] && '`' !in open + close
    ensures NoTickPair(WrapList(s, open, close))
  {
    match ListSpan(s)
    case None =>
    case Some((p, e)) =>
      assert '`' !in open && '`' !in close;
      TickSlice(s, 0, p);
      TickSlice(s, p, e);
      TickSlice(s, e, |s|);
      assert s[0..p] == s[..p] && s[e..|s|] == s[e..];
      TickAround(s[..p], open, s[p..e]);
      TickAround(s[..p] + open + s[p..e], close, s[e..]);
  }

  /** The six steps between inline code and fenced code in the source's order. */
  const BetweenCodeSteps: seq<Step> := [
    Replace(Link), Replace(Image),
    Replace(Bullet), WrapItems("<ul>", "</ul>"), Replace(Numbered), WrapItems("<ol>", "</ol>")]

  predicate StepKeepsTickPairsOut(st: Step) {
    match st
    case Replace(pat) => KeepsTickPairsOut(pat)
    case WrapItems(open, close) => open != [] && close != [] && '`' !in open + close
  }

  lemma BetweenCodeStepsKeepTickPairsOut()
    ensures forall k :: 0 <= k < |BetweenCodeSteps| ==> StepKeepsTickPairsOut(BetweenCodeSteps[k])
  {
  }

  lemma {:induction false} RunKeepsTickPairsOut(s: string, steps: seq<Step>)
    requires ValidSteps(steps) && NoTickPair(s)
    requires forall k :: 0 <= k < |steps| ==> StepKeepsTickPairsOut(steps[k])
    ensures NoTickPair(Run(s, steps))
    decreases |steps|
  {
    if steps != [] {
      match steps[0] {
        case Replace(pat) => ScanKeepsTickPairsOut(s, true, pat);
        case WrapItems(open, close) => WrapListKeepsTickPairsOut(s, open, close);
      }
      RunKeepsTickPairsOut(RunStep(s, steps[0]), steps[1..]);
    }
  }

  /** After inline code and steps that keep backtick pairs out, the fenced-code rule finds
      nothing to match. */
  lemma FenceIdleAfterInlineCode(x: string, steps: seq<Step>)
    requires ValidSteps(steps) && forall k :: 0 <= k < |steps| ==> StepKeepsTickPairsOut(steps[k])
    ensures var y := Run(Apply(x, InlineCode), steps); Apply(y, Fence) == y
  {
    InlineCodeNoTickPair(x, true);
    RunKeepsTickPairsOut(Apply(x, InlineCode), steps);
    FenceIdle(Run(Apply(x, InlineCode), steps));
  }

  /** A text without two backticks side by side holds no fence. */
  lemma FenceIdle(y: string)
    requires NoTickPair(y)
    ensures Apply(y, Fence) == y
  {
    NoTickPairNoFence(y);
    ApplyWithoutNeedle(y, Fence);
  }

  /** Running some steps, then inline code, then some more. */
  lemma RunThroughInlineCode(s: string, a: seq<Step>, b: seq<Step>)
    requires ValidSteps(a) && ValidSteps(b)
    ensures ValidSteps(a + [Replace(InlineCode)] + b)
    ensures Run(s, a + [Replace(InlineCode)] + b) == Run(Apply(Run(s, a), InlineCode), b)
  {
    var c := [Replace(InlineCode)];
    RunAppend(s, a, c);
    RunAppend(s, a + c, b);
    var x := Run(s, a);
    assert Run(x, c) == Run(Apply(x, InlineCode), []);
  }

  /** In the source's order the fenced-code step never changes anything: inline code leaves
      no two backticks side by side, the six steps after it keep it so, and a fence needs
      three. */
  lemma AsWrittenFenceIsIdle(s: string)
    ensures ValidSteps(AsWrittenSteps[..12])
    ensures Run(s, AsWrittenSteps) == Run(s, AsWrittenSteps[..12])
  {
    var a, c := AsWrittenSteps[..5], AsWrittenSteps[..12];
    assert c == a + [Replace(InlineCode)] + BetweenCodeSteps;
    assert AsWrittenSteps == c + [Replace(Fence)];
    RunThroughInlineCode(s, a, BetweenCodeSteps);
    RunAppend(s, c, [Replace(Fence)]);
    var y := Run(s, c);
    BetweenCodeStepsKeepTickPairsOut();
    FenceIdleAfterInlineCode(Run(s, a), BetweenCodeSteps);
    assert Run(y, [Replace(Fence)]) == Run(Apply(y, Fence), []);
  }
}
