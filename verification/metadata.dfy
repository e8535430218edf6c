/** Dot::extractArticleData: first-match rules over the raw Markdown for the headline,
    summary, author, date and image, each with a fixed default, and the converted HTML. */
module Metadata {
  import opened Text
  import Markdown

  datatype ArticleData = ArticleData(
    headline: string, summary: string, author: string, date: string, image: string, content: string)

  /** The keys of the article data, as extractArticleData names them. */
  const HeadlineKey: string := "headline"
  const SummaryKey: string := "summary"
  const AuthorKey: string := "author"
  const DateKey: string := "date"
  const ImageKey: string := "image"
  const ContentKey: string := "content"

  /** The placeholders renderTemplate receives, in the order the fields are filled. */
  function Placeholders(d: ArticleData): (ps: seq<(string, string)>)
    ensures |ps| == 6
  {
    [(HeadlineKey, d.headline), (SummaryKey, d.summary), (AuthorKey, d.author),
     (DateKey, d.date), (ImageKey, d.image), (ContentKey, d.content)]
  }

  /** A line starting with "# " begins at `p`. */
  predicate HeadingLineAt(s: string, p: nat) {
    p <= |s| && LineStart(s, p) && StartsWith(s[p..], "# ")
  }

  /** The first position from `i` on where a "# " line begins. */
  function FirstHeadingLine(s: string, i: nat): (r: Option<nat>)
    requires i <= |s|
    ensures r.Some? ==> i <= r.value && r.value + 2 <= |s| && HeadingLineAt(s, r.value)
    ensures r.Some? ==> forall p :: i <= p < r.value ==> !HeadingLineAt(s, p)
    ensures r.None? ==> forall p :: i <= p ==> !HeadingLineAt(s, p)
    decreases |s| - i
  {
    if HeadingLineAt(s, i) then Some(i)
    else if i == |s| then None
    else FirstHeadingLine(s, i + 1)
  }

  /** `/^# (.*?)$/m`: the rest of the first "# " line, not trimmed; "Untitled" without one. */
  function Headline(s: string): (r: string)
    ensures (forall p :: !HeadingLineAt(s, p)) ==> r == "Untitled"
    ensures forall p: nat :: HeadingLineAt(s, p) && (forall q :: 0 <= q < p ==> !HeadingLineAt(s, q)) ==>
              r == LineAt(s, p + 2)
  {
    match FirstHeadingLine(s, 0)
    case Some(p) => LineAt(s, p + 2)
    case None => "Untitled"
  }

  /** Where the lazy group of `(.*?)(\n\n|$)` may stop: before a blank line, at the end,
      or before a final line feed. */
  predicate SummaryStop(t: string, j: nat) {
    j <= |t| && (StartsWith(t[j..], "\n\n") || j == |t| || (j == |t| - 1 && t[j] == '\n'))
  }

  function SummaryEnd(t: string, j: nat): (r: nat)
    requires j <= |t|
    ensures j <= r <= |t| && SummaryStop(t, r)
    ensures forall k :: j <= k < r ==> !SummaryStop(t, k)
    decreases |t| - j
  {
    if SummaryStop(t, j) then j else SummaryEnd(t, j + 1)
  }

  lemma AbsentFromSlice(s: string, a: nat, b: nat, p: string)
    requires a <= b <= |s| && !Occurs(s, p)
    ensures !Occurs(s[a..b], p)
  {
    forall i | 0 <= i <= b - a - |p| ensures !StartsWith(s[a..b][i..], p) {
      var j := a + i;
      assert 0 <= j <= |s| - |p|;
      assert !StartsWith(s[j..], p);
      assert s[a..b][i..][..|p|] == s[j..][..|p|];
    }
  }

  /** `/\n\n(.*?)(\n\n|$)/s`: the text after the first blank line up to the next one,
      trimmed; "" when there is no blank line. */
  function Summary(s: string): (r: string)
    ensures !Occurs(s, "\n\n") ==> r == ""
    ensures !Occurs(r, "\n\n")
    ensures r != [] ==> !IsTrimmable(r[0]) && !IsTrimmable(r[|r| - 1])
  {
    match FindClose(s, "\n\n", true)
    case None => ""
    case Some(p) =>
      var t := s[p + 2..];
      var e := SummaryEnd(t, 0);
      TrimmedSummaryHasNoBlankLine(t, e);
      Trim(t[..e])
  }

  /** The trimmed text up to the first stop holds no blank line. */
  lemma TrimmedSummaryHasNoBlankLine(t: string, e: nat)
    requires e == SummaryEnd(t, 0)
    ensures !Occurs(Trim(t[..e]), "\n\n")
  {
    SummaryHasNoBlankLine(t, e);
    var r := Trim(t[..e]);
    var a := LeadingTrim(t[..e]);
    AbsentFromSlice(t[..e], a, a + |r|, "\n\n");
  }

  /** The summary read off the subject: with the first blank line at `p` and the first place
      `e` after it where the lazy group may stop, it is the trimmed text in between. */
  lemma SummaryOf(s: string, p: nat, e: nat)
    requires p + 2 <= e <= |s| && StartsWith(s[p..], "\n\n")
    requires forall q :: 0 <= q < p ==> !StartsWith(s[q..], "\n\n")
    requires SummaryStop(s, e) && forall k :: p + 2 <= k < e ==> !SummaryStop(s, k)
    ensures Summary(s) == Trim(s[p + 2..e])
  {
    FindCloseAt(s, "\n\n", true, p);
    var t := s[p + 2..];
    forall k | 0 <= k <= e - p - 2 ensures SummaryStop(t, k) == SummaryStop(s, p + 2 + k) {
      assert t[k..] == s[p + 2 + k..];
    }
    var r := SummaryEnd(t, 0);
    assert SummaryStop(t, e - p - 2);
    assert r <= e - p - 2;
    assert SummaryStop(s, p + 2 + r);
    assert t[..r] == s[p + 2..e];
  }

  lemma SummaryHasNoBlankLine(t: string, e: nat)
    requires e <= |t| && forall k :: 0 <= k < e ==> !SummaryStop(t, k)
    ensures !Occurs(t[..e], "\n\n")
  {
    forall i | 0 <= i <= e - 2 ensures !StartsWith(t[..e][i..], "\n\n") {
      assert !SummaryStop(t, i);
      assert t[..e][i..][..2] == t[i..][..2];
    }
  }

  /** The end of the line that starts at `p`: its line feed, or the end of `s`. */
  function LineEnd(s: string, p: nat): (n: nat)
    requires p <= |s|
    ensures p <= n <= |s| && (n == |s| || s[n] == '\n')
    ensures forall k :: p <= k < n ==> s[k] != '\n'
  {
    p + LineLen(s[p..])
  }

  /** `^# .*?\nby (.*?), (.*?)$` under /m tried at the "# " line starting at `p`: the next
      line must begin with "by "; the author runs to the first ", " of that line and the
      date is the rest of it. */
  function ByLineAt(s: string, p: nat): (r: Option<(string, string)>)
    requires HeadingLineAt(s, p)
    ensures r.Some? ==> (LineEnd(s, p) < |s| &&
                         LineAt(s, LineEnd(s, p) + 1) == "by " + r.value.0 + ", " + r.value.1)
    ensures r.Some? ==> forall k :: 0 <= k < |r.value.0| ==> !StartsWith((r.value.0 + ", ")[k..], ", ")
    ensures (LineEnd(s, p) == |s| || !StartsWith(s[LineEnd(s, p) + 1..], "by ")) ==> r.None?
  {
    var n := LineEnd(s, p);
    if n < |s| then ByLineFrom(s, n + 1) else None
  }

  /** `by (.*?), (.*?)$` at the line starting at `m`. */
  function ByLineFrom(s: string, m: nat): (r: Option<(string, string)>)
    requires m <= |s|
    ensures r.Some? ==> LineAt(s, m) == "by " + r.value.0 + ", " + r.value.1
    ensures r.Some? ==> forall k :: 0 <= k < |r.value.0| ==> !StartsWith((r.value.0 + ", ")[k..], ", ")
    ensures !StartsWith(s[m..], "by ") ==> r.None?
  {
    if StartsWith(s[m..], "by ") then
      var t := s[m + 3..];
      match FindClose(t, ", ", false)
      case Some(c) =>
        ByLineParts(s, m, c);
        Some((t[..c], LineAt(t, c + 2)))
      case None => None
    else None
  }

  lemma ByLineParts(s: string, m: nat, c: nat)
    requires m + 3 <= |s| && StartsWith(s[m..], "by ")
    requires FindClose(s[m + 3..], ", ", false) == Some(c)
    ensures var t := s[m + 3..];
            c + 2 <= |t| &&
            LineAt(s, m) == "by " + t[..c] + ", " + LineAt(t, c + 2) &&
            forall k :: 0 <= k < c ==> !StartsWith((t[..c] + ", ")[k..], ", ")
  {
    var t := s[m + 3..];
    ByLineText(s, m, c);
    Shortest(t, c);
  }

  lemma ByLineText(s: string, m: nat, c: nat)
    requires m + 3 <= |s| && StartsWith(s[m..], "by ")
    requires FindClose(s[m + 3..], ", ", false) == Some(c)
    ensures c + 5 <= |s| - m
    ensures LineAt(s, m) == "by " + s[m + 3..][..c] + ", " + LineAt(s[m + 3..], c + 2)
  {
    var t := s[m + 3..];
    var d := LineAt(t, c + 2);
    assert t[c..][..2] == ", ";
    assert t[c + 2..][..|d|] == d;
    LineFromParts(s, m, t[..c], d);
  }

  /** The line at `m` read off its parts "by ", the author, ", " and the date. */
  lemma LineFromParts(s: string, m: nat, a: string, d: string)
    requires m + 3 <= |s| && s[m..][..3] == "by "
    requires |a| + 2 + |d| <= |s| - m - 3
    requires s[m + 3..][..|a|] == a && '\n' !in a
    requires s[m + 3..][|a|..][..2] == ", "
    requires s[m + 3..][|a| + 2..][..|d|] == d && '\n' !in d
    requires m + 5 + |a| + |d| == |s| || s[m + 5 + |a| + |d|] == '\n'
    ensures LineAt(s, m) == "by " + a + ", " + d
  {
    var line := "by " + a + ", " + d;
    var n := |line|;
    forall k | 0 <= k < n ensures s[m..][k] == line[k] {
      if k < 3 {
        assert s[m..][k] == s[m..][..3][k];
      } else if k < 3 + |a| {
        assert s[m..][k] == s[m + 3..][..|a|][k - 3];
      } else if k < 5 + |a| {
        assert s[m..][k] == s[m + 3..][|a|..][..2][k - 3 - |a|];
      } else {
        assert s[m..][k] == s[m + 3..][|a| + 2..][..|d|][k - 5 - |a|];
      }
    }
    assert s[m..][..n] == line;
    LineIs(s, m, line);
  }

  /** The author group is the shortest: no ", " starts inside it. */
  lemma Shortest(t: string, c: nat)
    requires FindClose(t, ", ", false) == Some(c)
    ensures forall k :: 0 <= k < c ==> !StartsWith((t[..c] + ", ")[k..], ", ")
  {
    forall k | 0 <= k < c ensures !StartsWith((t[..c] + ", ")[k..], ", ") {
      assert !StartsWith(t[k..], ", ");
      assert (t[..c] + ", ")[k..][..2] == t[k..][..2];
    }
  }

  /** A line-feed-free prefix `line` of `s[m..]` that ends at a line feed or at the end is
      the line at `m`. */
  lemma LineIs(s: string, m: nat, line: string)
    requires m + |line| <= |s| && s[m..][..|line|] == line && '\n' !in line
    requires m + |line| == |s| || s[m + |line|] == '\n'
    ensures LineAt(s, m) == line
  {
    forall k | 0 <= k < |line| ensures s[m..][k] != '\n' {
      assert s[m..][k] == line[k];
    }
  }

  /** A "# " line at `p` directly followed by a by-line. */
  predicate HasByLine(s: string, p: nat) {
    HeadingLineAt(s, p) && ByLineAt(s, p).Some?
  }

  /** The first "# " line from `i` on whose next line is a by-line. */
  function FirstByLine(s: string, i: nat): (r: Option<nat>)
    requires i <= |s|
    ensures r.Some? ==> i <= r.value && HasByLine(s, r.value)
    decreases |s| - i
  {
    if HasByLine(s, i) then Some(i)
    else if i == |s| then None
    else FirstByLine(s, i + 1)
  }

  /** FirstByLine finds the first such line: none starts between `i` and the one it
      returns, and there is none from `i` on when it returns nothing. */
  lemma {:induction false} FirstByLineIsFirst(s: string, i: nat)
    requires i <= |s|
    ensures FirstByLine(s, i).Some? ==> forall p :: i <= p < FirstByLine(s, i).value ==> !HasByLine(s, p)
    ensures FirstByLine(s, i).None? ==> forall p :: i <= p <= |s| ==> !HasByLine(s, p)
    decreases |s| - i
  {
    var r := FirstByLine(s, i);
    if HasByLine(s, i) {
      assert r == Some(i);
    } else if i == |s| {
      assert r == None;
    } else {
      FirstByLineIsFirst(s, i + 1);
      assert r == FirstByLine(s, i + 1);
    }
  }

  /** `/!\[.*?\]\((.*?)\)/` can match at `p`. */
  predicate ImageAt(s: string, p: nat) {
    p + 2 <= |s| && StartsWith(s[p..], "![") && Markdown.BracketTail(s[p + 2..]).Some?
  }

  function FirstImage(s: string, i: nat): (r: Option<nat>)
    requires i <= |s|
    ensures r.Some? ==> i <= r.value && ImageAt(s, r.value)
    ensures r.Some? ==> forall p :: i <= p < r.value ==> !ImageAt(s, p)
    ensures r.None? ==> forall p :: i <= p ==> !ImageAt(s, p)
    decreases |s| - i
  {
    if ImageAt(s, i) then Some(i)
    else if i == |s| then None
    else FirstImage(s, i + 1)
  }

  /** The URL of the first image, "" when there is none. */
  function ImageUrl(s: string): (r: string)
    ensures !Occurs(s, "![") ==> r == ""
    ensures '\n' !in r && ')' !in r
  {
    match FirstImage(s, 0)
    case Some(p) =>
      assert p <= |s| - 2 && StartsWith(s[p..], "![");
      var tail := Markdown.BracketTail(s[p + 2..]);
      tail.value.1
    case None => ""
  }

  /** The image URL read off the subject: when the first place an image matches is `p`,
      holding `![alt](url)` with the lazy groups' stops, the URL is `url`. */
  lemma ImageUrlOf(s: string, p: nat, alt: string, url: string)
    requires p + 2 <= |s| && StartsWith(s[p..], "![") && StartsWith(s[p + 2..], alt + "](" + url + ")")
    requires '\n' !in alt && '\n' !in url && ')' !in url
    requires forall k :: 0 <= k < |alt| ==> !Markdown.CloseAt(alt + "](", k, "](")
    requires forall q :: 0 <= q < p ==> !ImageAt(s, q)
    ensures ImageUrl(s) == url
  {
    Markdown.BracketTailIs(s[p + 2..], alt, url);
    assert ImageAt(s, p);
    FirstImageIs(s, p);
  }

  lemma FirstImageIs(s: string, p: nat)
    requires p <= |s| && ImageAt(s, p) && forall q :: 0 <= q < p ==> !ImageAt(s, q)
    ensures FirstImage(s, 0) == Some(p)
  {
    var r := FirstImage(s, 0);
    assert r.Some? && r.value <= p;
    assert ImageAt(s, r.value);
  }

  /** extractArticleData: the fields with their defaults and the converted content. */
  function ExtractArticleData(md: string): (d: ArticleData)
    ensures (forall p :: !HeadingLineAt(md, p)) ==>
              d.headline == "Untitled" && d.author == "Unknown Author" && d.date == "Unknown Date"
    ensures (forall p :: !HasByLine(md, p)) ==> d.author == "Unknown Author" && d.date == "Unknown Date"
    ensures !Occurs(md, "\n\n") ==> d.summary == ""
    ensures !Occurs(md, "![") ==> d.image == ""
    ensures StartsWith(d.content, "<p>") && EndsWith(d.content, "</p>")
    ensures d.content == Markdown.ToHtmlAsWritten(md)
  {
    var byLine := match FirstByLine(md, 0)
      case Some(p) => ByLineAt(md, p)
      case None => None;
    ArticleData(
      Headline(md),
      Summary(md),
      if byLine.Some? then Trim(byLine.value.0) else "Unknown Author",
      if byLine.Some? then Trim(byLine.value.1) else "Unknown Date",
      ImageUrl(md),
      Markdown.ToHtmlAsWritten(md))
  }
}
