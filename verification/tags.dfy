/** What markdownToHtml's output may contain in the way of markup: every `<` in it begins
    one of the finitely many tag strings the rewrites write. htmlspecialchars leaves no `<`
    at all, every rewrite only inserts these tags or moves text without cutting one, and
    the paragraph split cuts only at line feeds. */
module Tags {
  import opened Text
  import Escape
  import Paragraphs

  /** The elements markdownToHtml writes. */
  const Names: set<string> := {"h1", "h2", "h3", "h4", "h5", "h6", "strong", "em", "code", "a", "li", "ul", "ol", "pre", "p"}

  /** The link and image openings, up to the quote their attribute value follows. */
  const LinkOpen: string := "<a href=\""
  const ImageOpen: string := "<img src=\""

  /** A tag string: the opening or closing tag of one of the elements, or one of the two
      openings with an attribute. */
  ghost predicate IsTag(t: string) {
    (exists n :: n in Names && (t == "<" + n + ">" || t == "</" + n + ">")) || t == LinkOpen || t == ImageOpen
  }

  /** The characters a tag string holds after its `<`. */
  predicate InnerTagChar(c: char) {
    c == '>' || c == '/' || c == '"' || c == '=' || c == ' ' || 'a' <= c <= 'z' || '0' <= c <= '9'
  }

  ghost predicate TagAt(s: string, i: nat)
    requires i <= |s|
  {
    exists t :: IsTag(t) && StartsWith(s[i..], t)
  }

  /** Every `<` in `s` begins a tag string. */
  ghost predicate Safe(s: string) {
    forall i :: 0 <= i < |s| && s[i] == '<' ==> TagAt(s, i)
  }

  /** A place where no tag string of `s` can be cut: the end, a character no tag holds after
      its `<`, or the start of a run of trim characters that lasts to the end. */
  predicate Boundary(s: string, j: nat) {
    j <= |s| && (j == |s| || !InnerTagChar(s[j]) || forall k :: j <= k < |s| ==> IsTrimmable(s[k]))
  }

  lemma NameShape(n: string)
    requires n in Names
    ensures n != [] && forall c :: c in n ==> 'a' <= c <= 'z' || '0' <= c <= '9'
  {
  }

  /** A tag string is `<`, then characters that are neither `<` nor line feeds, and it ends
      with `>` or with the quote of an attribute. */
  lemma TagShape(t: string)
    requires IsTag(t)
    ensures |t| >= 3 && t[0] == '<' && (t[|t| - 1] == '>' || t[|t| - 1] == '"')
    ensures forall m :: 1 <= m < |t| ==> InnerTagChar(t[m])
  {
    if t == LinkOpen || t == ImageOpen {
      AttributeOpenShape(t);
    } else {
      var n :| n in Names && (t == "<" + n + ">" || t == "</" + n + ">");
      NameShape(n);
      NamedTagShape(n, if t == "<" + n + ">" then "<" else "</");
    }
  }

  lemma AttributeOpenShape(t: string)
    requires t == LinkOpen || t == ImageOpen
    ensures |t| >= 3 && t[0] == '<' && t[|t| - 1] == '"'
    ensures forall m :: 1 <= m < |t| ==> InnerTagChar(t[m])
  {
  }

  lemma NamedTagShape(n: string, o: string)
    requires n != [] && forall c :: c in n ==> 'a' <= c <= 'z' || '0' <= c <= '9'
    requires o == "<" || o == "</"
    ensures var t := o + n + ">";
            |t| >= 3 && t[0] == '<' && t[|t| - 1] == '>' &&
            forall m :: 1 <= m < |t| ==> InnerTagChar(t[m])
  {
    var t := o + n + ">";
    forall m | 1 <= m < |t| ensures InnerTagChar(t[m]) {
      if |o| <= m < |o| + |n| {
        assert t[m] == n[m - |o|];
        assert n[m - |o|] in n;
      }
    }
  }

  lemma TagIsSafe(t: string)
    requires IsTag(t)
    ensures Safe(t)
  {
    TagShape(t);
    assert t[0..] == t;
    assert TagAt(t, 0);
  }

  lemma NamedTagsAreSafe(n: string)
    requires n in Names
    ensures Safe("<" + n + ">") && Safe("</" + n + ">")
  {
    TagIsSafe("<" + n + ">");
    TagIsSafe("</" + n + ">");
  }

  lemma ElementTagsAreSafe(n: string, open: string, close: string)
    requires n in Names && open == "<" + n + ">" && close == "</" + n + ">"
    ensures Safe(open) && Safe(close)
  {
    NamedTagsAreSafe(n);
  }

  lemma AttributeOpensAreSafe()
    ensures Safe(LinkOpen) && Safe(ImageOpen)
  {
    TagIsSafe(LinkOpen);
    TagIsSafe(ImageOpen);
  }

  lemma ParagraphTagsAreSafe()
    ensures Safe("<p>") && Safe("</p>")
  {
    NamedTagsAreSafe("p");
    assert "<" + "p" + ">" == "<p>";
    assert "</" + "p" + ">" == "</p>";
  }

  lemma SafeCons(c: char, r: string)
    requires c != '<' && Safe(r)
    ensures Safe([c] + r)
  {
    SafeAppend([c], r);
  }

  lemma NoAngleIsSafe(s: string)
    requires '<' !in s
    ensures Safe(s)
  {
  }

  lemma StartsWithLonger(s: string, t: string, u: string)
    requires StartsWith(s, t)
    ensures StartsWith(s + u, t)
  {
    assert (s + u)[..|t|] == s[..|t|];
  }

  /** Joining two safe texts cuts no tag string. */
  lemma SafeAppend(a: string, b: string)
    requires Safe(a) && Safe(b)
    ensures Safe(a + b)
  {
    forall i | 0 <= i < |a + b| && (a + b)[i] == '<' ensures TagAt(a + b, i) {
      if i < |a| {
        assert a[i] == '<';
        var t :| IsTag(t) && StartsWith(a[i..], t);
        StartsWithLonger(a[i..], t, b);
        assert (a + b)[i..] == a[i..] + b;
      } else {
        assert b[i - |a|] == '<';
        var t :| IsTag(t) && StartsWith(b[i - |a|..], t);
        assert (a + b)[i..] == b[i - |a|..];
      }
    }
  }

  lemma SafeAppend3(a: string, b: string, c: string)
    requires Safe(a) && Safe(b) && Safe(c)
    ensures Safe(a + b + c)
  {
    SafeAppend(a, b);
    SafeAppend(a + b, c);
  }

  /** What follows a position of a safe text is safe. */
  lemma SafeSuffix(s: string, j: nat)
    requires j <= |s| && Safe(s)
    ensures Safe(s[j..])
  {
    forall i | 0 <= i < |s| - j && s[j..][i] == '<' ensures TagAt(s[j..], i) {
      assert s[j + i] == '<';
      assert s[j..][i..] == s[j + i..];
    }
  }

  /** A tag string that begins before a boundary ends before it. */
  lemma TagBeforeBoundary(s: string, j: nat, i: nat, t: string)
    requires Boundary(s, j) && i < j && IsTag(t) && StartsWith(s[i..], t)
    ensures i + |t| <= j
  {
    TagShape(t);
    forall m | i < m < i + |t| ensures InnerTagChar(s[m]) {
      assert s[m] == s[i..][..|t|][m - i];
    }
    assert s[i + |t| - 1] == s[i..][..|t|][|t| - 1];
  }

  /** What comes before a boundary of a safe text is safe. */
  lemma SafePrefix(s: string, j: nat)
    requires Boundary(s, j) && Safe(s)
    ensures Safe(s[..j])
  {
    forall i | 0 <= i < j && s[..j][i] == '<' ensures TagAt(s[..j], i) {
      assert s[i] == '<';
      var t :| IsTag(t) && StartsWith(s[i..], t);
      TagBeforeBoundary(s, j, i, t);
      assert s[..j][i..][..|t|] == s[i..][..|t|];
    }
  }

  /** The text between two positions, the second a boundary, of a safe text is safe. */
  lemma SafeSlice(s: string, i: nat, j: nat)
    requires i <= j && Boundary(s, j) && Safe(s)
    ensures Safe(s[i..j])
  {
    SafePrefix(s, j);
    SafeSuffix(s[..j], i);
    assert s[..j][i..] == s[i..j];
  }

  /** The tag string a `<` at the start of a safe text begins. */
  lemma TagStartingAt(s: string) returns (t: string)
    requires Safe(s) && s != [] && s[0] == '<'
    ensures IsTag(t) && StartsWith(s[1..], t[1..])
    ensures forall m :: 0 <= m < |t[1..]| ==> InnerTagChar(t[1..][m])
  {
    assert TagAt(s, 0);
    t :| IsTag(t) && StartsWith(s[0..], t);
    TagShape(t);
    assert s[0..] == s;
    assert s[1..][..|t| - 1] == s[..|t|][1..];
  }

  /** A `<` followed by the rest of a tag string, then safe text, is safe. */
  lemma SafeOpenAngle(t: string, r: string)
    requires IsTag(t) && StartsWith(r, t[1..]) && Safe(r)
    ensures Safe(['<'] + r)
  {
    TagShape(t);
    var s := ['<'] + r;
    forall i | 0 <= i < |s| && s[i] == '<' ensures TagAt(s, i) {
      if i == 0 {
        assert s[0..][..|t|] == t by {
          assert s[..|t|] == ['<'] + r[..|t| - 1];
          assert t == [t[0]] + t[1..];
        }
      } else {
        assert r[i - 1] == '<';
        var u :| IsTag(u) && StartsWith(r[i - 1..], u);
        assert s[i..] == r[i - 1..];
      }
    }
  }

  /** htmlspecialchars leaves no `<`, so its output is safe. */
  lemma EscapedIsSafe(s: string)
    ensures Safe(Escape.HtmlSpecialChars(s))
  {
    var e := Escape.HtmlSpecialChars(s);
    Escape.EscapeIsEscaped(s);
    forall i | 0 <= i < |e| ensures e[i] != '<' {
      assert Escape.Escaped(e);
    }
  }

  /** trim() cuts no tag string: a tag string ends with `>` or a quote. */
  lemma SafeTrim(s: string)
    requires Safe(s)
    ensures Safe(Trim(s))
  {
    var l := LeadingTrim(s);
    var r := Trim(s);
    SafeSuffix(s, l);
    TrimBoundary(s);
    SafePrefix(s[l..], |r|);
    assert s[l..][..|r|] == r;
  }

  lemma TrimBoundary(s: string)
    ensures LeadingTrim(s) + |Trim(s)| <= |s| && Boundary(s[LeadingTrim(s)..], |Trim(s)|)
  {
    var l := LeadingTrim(s);
    var x := s[l..];
    forall k | |Trim(s)| <= k < |x| ensures IsTrimmable(x[k]) {
      assert x[k] == s[l + k];
    }
  }

  /** The first piece of the paragraph split ends at a line feed or at the end. */
  lemma {:induction false} FirstPieceEnds(s: string)
    ensures var p := Paragraphs.SplitBlank(s)[0];
            |p| <= |s| && p == s[..|p|] && (|p| == |s| || s[|p|] == '\n')
    decreases |s|
  {
    Paragraphs.SplitHeadIsPrefix(s);
    if s != [] {
      match Paragraphs.SeparatorAt(s)
      case Some(e) =>
      case None =>
        FirstPieceEnds(s[1..]);
        var rest := Paragraphs.SplitBlank(s[1..]);
        assert Paragraphs.SplitBlank(s)[0] == [s[0]] + rest[0];
        if |rest[0]| < |s| - 1 {
          assert s[1 + |rest[0]|] == s[1..][|rest[0]|];
        }
    }
  }

  /** preg_split on blank lines cuts no tag string: every piece of a safe text is safe. */
  lemma {:induction false} SafePieces(s: string)
    requires Safe(s)
    ensures forall k :: 0 <= k < |Paragraphs.SplitBlank(s)| ==> Safe(Paragraphs.SplitBlank(s)[k])
    decreases |s|
  {
    if s != [] {
      var ps := Paragraphs.SplitBlank(s);
      match Paragraphs.SeparatorAt(s)
      case Some(e) =>
        SafeSuffix(s, e);
        SafePieces(s[e..]);
        assert ps == [[]] + Paragraphs.SplitBlank(s[e..]);
        assert Safe(ps[0]);
      case None =>
        SafeSuffix(s, 1);
        SafePieces(s[1..]);
        var rest := Paragraphs.SplitBlank(s[1..]);
        assert ps == [[s[0]] + rest[0]] + rest[1..];
        FirstPieceEnds(s);
        assert Boundary(s, |ps[0]|);
        SafePrefix(s, |ps[0]|);
        forall k | 1 <= k < |ps| ensures Safe(ps[k]) {
          assert ps[k] == rest[k];
        }
    }
  }

  /** Wrapping safe pieces as paragraphs keeps them safe. */
  lemma {:induction false} SafeWrapPieces(ps: seq<string>)
    requires |ps| >= 1 && forall k :: 0 <= k < |ps| ==> Safe(ps[k])
    ensures Safe(Paragraphs.WrapPieces(ps))
    decreases |ps|
  {
    ParagraphTagsAreSafe();
    SafeAppend3("<p>", ps[0], "</p>");
    if |ps| > 1 {
      SafeWrapPieces(ps[1..]);
      NoAngleIsSafe("\n");
      SafeAppend("<p>" + ps[0] + "</p>", "\n");
      SafeAppend("<p>" + ps[0] + "</p>" + "\n", Paragraphs.WrapPieces(ps[1..]));
      assert "<p>" + ps[0] + "</p>\n" + Paragraphs.WrapPieces(ps[1..]) ==
             "<p>" + ps[0] + "</p>" + "\n" + Paragraphs.WrapPieces(ps[1..]);
    }
  }

  /** The paragraph step keeps a safe text safe. */
  lemma SafeParagraphs(s: string)
    requires Safe(s)
    ensures Safe(Paragraphs.ToParagraphs(s))
  {
    SafeTrim(s);
    SafePieces(Trim(s));
    SafeWrapPieces(Paragraphs.SplitBlank(Trim(s)));
  }
}
