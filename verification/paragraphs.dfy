/** The last step of Dot::markdownToHtml: trim the text, split it with
    `preg_split('/\n\s*\n/', ...)` and wrap every piece as `<p>piece</p>`, joined by "\n". */
module Paragraphs {
  import opened Text

  /** A blank line: line feeds at `i` and `j` with nothing but `\s` characters between them. */
  predicate BlankLineAt(s: string, i: int, j: int) {
    0 <= i < j < |s| && s[i] == '\n' && s[j] == '\n' && forall k :: i < k < j ==> IsSpace(s[k])
  }

  ghost predicate HasBlankLine(s: string) {
    exists i, j :: BlankLineAt(s, i, j)
  }

  /** The last line feed among the first `n` characters of `t`. */
  function LastNewline(t: string, n: nat): (r: Option<nat>)
    requires n <= |t|
    ensures r.Some? ==> r.value < n && t[r.value] == '\n' && forall k :: r.value < k < n ==> t[k] != '\n'
    ensures r.None? ==> forall k :: 0 <= k < n ==> t[k] != '\n'
  {
    if n == 0 then None
    else if t[n - 1] == '\n' then Some(n - 1)
    else LastNewline(t, n - 1)
  }

  /** `\n\s*\n` tried at the start of `s`: the greedy `\s*` gives characters back until the
      last line feed of the whitespace run. Yields the length of the separator. */
  function SeparatorAt(s: string): (r: Option<nat>)
    ensures r.Some? ==> 2 <= r.value <= |s| && s[0] == '\n' && s[r.value - 1] == '\n' && AllSpace(s[..r.value])
    ensures r.Some? ==> r.value == |s| || s[r.value] != '\n'
    ensures r.Some? ==> forall j :: BlankLineAt(s, 0, j) ==> j < r.value
    ensures r.None? <==> forall j :: !BlankLineAt(s, 0, j)
  {
    if s == [] || s[0] != '\n' then None
    else
      var w := SpaceRun(s[1..]);
      match LastNewline(s[1..], w)
      case Some(t) =>
        SeparatorFound(s, w, t);
        Some(t + 2)
      case None =>
        SeparatorAbsent(s, w);
        None
  }

  lemma SeparatorFound(s: string, w: nat, t: nat)
    requires s != [] && s[0] == '\n' && w == SpaceRun(s[1..]) && LastNewline(s[1..], w) == Some(t)
    ensures BlankLineAt(s, 0, t + 1) && t + 2 <= |s| && s[t + 1] == '\n' && AllSpace(s[..t + 2])
    ensures t + 2 == |s| || s[t + 2] != '\n'
    ensures forall j :: BlankLineAt(s, 0, j) ==> j <= t + 1
  {
    forall j | BlankLineAt(s, 0, j) ensures j <= t + 1 {
      assert s[1..][j - 1] == s[j];
    }
    assert s[t + 1] == s[1..][t];
    assert s[..t + 2] == [s[0]] + s[1..][..t + 1];
    if t + 2 < |s| {
      assert s[t + 2] == s[1..][t + 1];
    }
  }

  lemma SeparatorAbsent(s: string, w: nat)
    requires s != [] && w == SpaceRun(s[1..]) && LastNewline(s[1..], w).None?
    ensures forall j :: !BlankLineAt(s, 0, j)
  {
    forall j | 0 < j < |s| ensures !BlankLineAt(s, 0, j) {
      if j - 1 < w {
        assert s[j] == s[1..][j - 1];
      } else {
        assert s[w + 1] == s[1..][w];
      }
    }
  }

  /** preg_split on `\n\s*\n`: the pieces between the leftmost non-overlapping separators. */
  function SplitBlank(s: string): (r: seq<string>)
    ensures |r| >= 1
    decreases |s|
  {
    if s == [] then [[]]
    else
      match SeparatorAt(s)
      case Some(e) => [[]] + SplitBlank(s[e..])
      case None =>
        var rest := SplitBlank(s[1..]);
        [[s[0]] + rest[0]] + rest[1..]
  }

  /** The separators SplitBlank cut out, in order. */
  function Separators(s: string): (r: seq<string>)
    decreases |s|
  {
    if s == [] then []
    else
      match SeparatorAt(s)
      case Some(e) => [s[..e]] + Separators(s[e..])
      case None => Separators(s[1..])
  }

  function Interleave(pieces: seq<string>, seps: seq<string>): string
    requires |pieces| == |seps| + 1
  {
    if seps == [] then pieces[0] else pieces[0] + seps[0] + Interleave(pieces[1..], seps[1..])
  }

  lemma InterleaveConsHead(c: char, pieces: seq<string>, seps: seq<string>)
    requires |pieces| == |seps| + 1
    ensures Interleave([[c] + pieces[0]] + pieces[1..], seps) == [c] + Interleave(pieces, seps)
  {
    var ps := [[c] + pieces[0]] + pieces[1..];
    assert ps[1..] == pieces[1..];
  }

  lemma InterleaveConsSep(sep: string, pieces: seq<string>, seps: seq<string>)
    requires |pieces| == |seps| + 1
    ensures Interleave([[]] + pieces, [sep] + seps) == sep + Interleave(pieces, seps)
  {
    var ps, ss := [[]] + pieces, [sep] + seps;
    assert ps[0] == [] && ss[0] == sep;
    assert ps[1..] == pieces && ss[1..] == seps;
    assert Interleave(ps, ss) == ps[0] + ss[0] + Interleave(pieces, seps);
    assert ps[0] + ss[0] == sep;
  }

  /** Nothing is lost: the pieces, with the separators put back between them, are the text. */
  lemma {:induction false} SplitRejoin(s: string)
    ensures |SplitBlank(s)| == |Separators(s)| + 1
    ensures Interleave(SplitBlank(s), Separators(s)) == s
    decreases |s|
  {
    if s != [] {
      match SeparatorAt(s)
      case Some(e) =>
        var t := s[e..];
        SplitRejoin(t);
        InterleaveConsSep(s[..e], SplitBlank(t), Separators(t));
        assert s == s[..e] + t;
      case None =>
        var t := s[1..];
        SplitRejoin(t);
        InterleaveConsHead(s[0], SplitBlank(t), Separators(t));
        assert s == [s[0]] + t;
    }
  }

  /** What the pattern `\n\s*\n` can match: `\s` characters starting and ending with a line feed. */
  predicate IsSeparator(sep: string) {
    |sep| >= 2 && sep[0] == '\n' && sep[|sep| - 1] == '\n' && AllSpace(sep)
  }

  /** Every separator the split cut out is a blank-line run. */
  lemma {:induction false} SeparatorsAreBlank(s: string)
    ensures forall sep | sep in Separators(s) :: IsSeparator(sep)
    decreases |s|
  {
    if s != [] {
      match SeparatorAt(s)
      case Some(e) =>
        SeparatorsAreBlank(s[e..]);
        assert IsSeparator(s[..e]);
      case None =>
        SeparatorsAreBlank(s[1..]);
    }
  }

  lemma SplitHeadIsPrefix(s: string)
    ensures |SplitBlank(s)[0]| <= |s| && SplitBlank(s)[0] == s[..|SplitBlank(s)[0]|]
    decreases |s|
  {
    if s != [] && SeparatorAt(s).None? {
      SplitHeadIsPrefix(s[1..]);
    }
  }

  /** A blank line in `[c] + t` either starts at 0 or lies in `t`. */
  lemma BlankLineCons(c: char, t: string, i: int, j: int)
    ensures BlankLineAt([c] + t, i, j) && i > 0 ==> BlankLineAt(t, i - 1, j - 1)
  {
    if BlankLineAt([c] + t, i, j) && i > 0 {
      forall k | i - 1 < k < j - 1 ensures IsSpace(t[k]) {
        assert t[k] == ([c] + t)[k + 1];
      }
    }
  }

  /** A blank line in a prefix is a blank line of the whole text. */
  lemma BlankLineInPrefix(h: string, s: string, i: int, j: int)
    requires |h| <= |s| && h == s[..|h|]
    ensures BlankLineAt(h, i, j) ==> BlankLineAt(s, i, j)
  {
    assert forall k :: 0 <= k < |h| ==> h[k] == s[k];
  }

  /** No piece contains a blank line: the split cut at every one. */
  lemma {:induction false} PiecesHaveNoBlankLine(s: string)
    ensures forall k :: 0 <= k < |SplitBlank(s)| ==> !HasBlankLine(SplitBlank(s)[k])
    decreases |s|
  {
    if s != [] {
      match SeparatorAt(s)
      case Some(e) =>
        PiecesHaveNoBlankLine(s[e..]);
        var ps := [[]] + SplitBlank(s[e..]);
        assert forall k :: 1 <= k < |ps| ==> ps[k] == SplitBlank(s[e..])[k - 1];
        assert !HasBlankLine([]);
      case None =>
        PiecesHaveNoBlankLine(s[1..]);
        var rest := SplitBlank(s[1..]);
        var head := [s[0]] + rest[0];
        SplitHeadIsPrefix(s[1..]);
        assert !HasBlankLine(rest[0]);
        assert head == s[..|head|];
        forall i, j ensures !BlankLineAt(head, i, j) {
          BlankLineCons(s[0], rest[0], i, j);
          BlankLineInPrefix(head, s, i, j);
        }
        var ps := [head] + rest[1..];
        assert forall k :: 1 <= k < |ps| ==> ps[k] == rest[k];
    }
  }

  /** On text that does not start with a separator and does not end with a line feed,
      no piece is empty. */
  lemma {:induction false} PiecesNonEmpty(s: string)
    requires s != [] && SeparatorAt(s).None? && s[|s| - 1] != '\n'
    ensures forall k :: 0 <= k < |SplitBlank(s)| ==> SplitBlank(s)[k] != []
    decreases |s|
  {
    assert SeparatorAt(s).None?;
    var rest := SplitBlank(s[1..]);
    if |s| > 1 {
      match SeparatorAt(s[1..])
      case Some(e) =>
        var t := s[1..][e..];
        assert t != [] && t[0] != '\n';
        assert SeparatorAt(t).None?;
        PiecesNonEmpty(t);
        assert forall k :: 1 <= k < |rest| ==> rest[k] == SplitBlank(t)[k - 1];
      case None =>
        PiecesNonEmpty(s[1..]);
    }
  }

  /** `implode("\n", array_map(fn($p) => "<p>{$p}</p>", $pieces))`. */
  function WrapPieces(ps: seq<string>): (r: string)
    requires |ps| >= 1
    ensures StartsWith(r, "<p>") && EndsWith(r, "</p>")
  {
    if |ps| == 1 then "<p>" + ps[0] + "</p>"
    else
      var rest := WrapPieces(ps[1..]);
      var r := "<p>" + ps[0] + "</p>\n" + rest;
      assert r[..3] == "<p>";
      assert r[|r| - 4..] == rest[|rest| - 4..];
      r
  }

  /** After trimming, a non-blank text splits into non-empty pieces only. */
  lemma TrimmedPiecesNonEmpty(s: string)
    requires Trim(s) != []
    ensures forall k :: 0 <= k < |SplitBlank(Trim(s))| ==> SplitBlank(Trim(s))[k] != []
  {
    var t := Trim(s);
    assert t[0] != '\n' && t[|t| - 1] != '\n';
    PiecesNonEmpty(t);
  }

  /** The paragraph step: trim, split at blank lines, wrap each piece. */
  function ToParagraphs(s: string): (r: string)
    ensures StartsWith(r, "<p>") && EndsWith(r, "</p>")
    ensures Trim(s) == [] ==> r == "<p></p>"
  {
    WrapPieces(SplitBlank(Trim(s)))
  }
}
