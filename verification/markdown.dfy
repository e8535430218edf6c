/** Dot::markdownToHtml: a fixed chain of whole-string rewrites. Every `preg_replace` step
    is one Pattern; Scan splits the subject, left to right as PCRE does, into literal
    characters and matches, and the step's output renders each match by its replacement. */
module Markdown {
  import opened Text
  import Escape
  import Paragraphs
  import Tags

  /** The regular expressions of markdownToHtml, each with its replacement. */
  datatype Pattern =
      /** `/open(.*?)close/` (with /s when dotAll) replaced by `before$1after`. */
    | Pair(open: string, close: string, dotAll: bool, before: string, after: string)
      /** `/open(.*?)\]\((.*?)\)/` replaced by `pre$2mid$1post`. */
    | Bracket(open: string, pre: string, mid: string, post: string)
      /** `/^(#{1,6})\s*(.+)$/m` replaced by `<hN>$2</hN>`, N the number of `#`. */
    | Heading
      /** `/^\s*[-*]\s+(.+)$/m` replaced by `<li>$1</li>`. */
    | Bullet
      /** `/^\s*\d+\.\s+(.+)$/m` replaced by `<li>$1</li>`. */
    | Numbered

  predicate ValidPattern(pat: Pattern) {
    (pat.Pair? || pat.Bracket?) ==> pat.open != []
  }

  const BoldStars := Pair("**", "**", false, "<strong>", "</strong>")
  const BoldUnderscores := Pair("__", "__", false, "<strong>", "</strong>")
  const ItalicStar := Pair("*", "*", false, "<em>", "</em>")
  const ItalicUnderscore := Pair("_", "_", false, "<em>", "</em>")
  const InlineCode := Pair("`", "`", false, "<code>", "</code>")
  const Link := Bracket("[", "<a href=\"", "\">", "</a>")
  const Image := Bracket("![", "<img src=\"", "\" alt=\"", "\">")
  const Fence := Pair("```", "```", true, "<pre><code>", "</code></pre>")

  /** A piece of the subject: a character no match covers, or a match (`src`), its
      replacement (`out`) and the parts `src` decomposes into. */
  datatype Piece = Lit(c: char) | Hit(src: string, out: string, parts: seq<string>)

  function Render(ps: seq<Piece>): string {
    if ps == [] then [] else (if ps[0].Lit? then [ps[0].c] else ps[0].out) + Render(ps[1..])
  }

  function Source(ps: seq<Piece>): string {
    if ps == [] then [] else (if ps[0].Lit? then [ps[0].c] else ps[0].src) + Source(ps[1..])
  }

  predicate NoHits(ps: seq<Piece>) {
    forall i :: 0 <= i < |ps| ==> ps[i].Lit?
  }

  function LevelDigit(n: nat): char
    requires 1 <= n <= 6
  {
    "0123456"[n]
  }

  function HeadingHtml(level: nat, text: string): string
    requires 1 <= level <= 6
  {
    "<h" + [LevelDigit(level)] + ">" + text + "</h" + [LevelDigit(level)] + ">"
  }

  /** `c` starts at position `k` of `t`. */
  predicate CloseAt(t: string, k: nat, c: string) {
    k <= |t| && StartsWith(t[k..], c)
  }

  /** A match of `/o(.*?)c/`: the group crosses no line feed (unless /s) and no earlier
      position of the group already starts `c` (the lazy group is the shortest). */
  ghost predicate PairRule(h: Piece, o: string, c: string, dotAll: bool, b: string, a: string)
    requires h.Hit?
  {
    var ps := h.parts;
    |ps| == 1 && h.src == o + ps[0] + c && h.out == b + ps[0] + a &&
    (!dotAll ==> '\n' !in ps[0]) &&
    (forall k :: 0 <= k < |ps[0]| ==> !CloseAt(ps[0] + c, k, c))
  }

  /** A match of `/o(.*?)\]\((.*?)\)/`: neither group crosses a line feed, the first lazy
      group stops at the first `](` and the second at the first `)`. */
  ghost predicate BracketRule(h: Piece, o: string, pre: string, mid: string, post: string)
    requires h.Hit?
  {
    var ps := h.parts;
    |ps| == 2 && h.src == o + ps[0] + "](" + ps[1] + ")" && h.out == pre + ps[1] + mid + ps[0] + post &&
    '\n' !in ps[0] && '\n' !in ps[1] &&
    (forall k :: 0 <= k < |ps[0]| ==> !CloseAt(ps[0] + "](", k, "](")) && ')' !in ps[1]
  }

  /** `#{1,6}`, then spaces, then a non-empty rest of line; N in `<hN>` is the number of `#`. */
  ghost predicate HeadingRule(h: Piece)
    requires h.Hit?
  {
    var ps := h.parts;
    |ps| == 3 && h.src == ps[0] + ps[1] + ps[2] &&
    1 <= |ps[0]| <= 6 && (forall k :: 0 <= k < |ps[0]| ==> ps[0][k] == '#') &&
    AllSpace(ps[1]) && ps[2] != [] && '\n' !in ps[2] &&
    h.out == HeadingHtml(|ps[0]|, ps[2])
  }

  predicate IsMarker(m: string, numbered: bool) {
    if numbered then
      |m| >= 2 && m[|m| - 1] == '.' && forall k :: 0 <= k < |m| - 1 ==> IsDigit(m[k])
    else m == "-" || m == "*"
  }

  /** Indentation, a marker, at least one space, then a non-empty rest of line. */
  ghost predicate ListRule(h: Piece, numbered: bool)
    requires h.Hit?
  {
    var ps := h.parts;
    |ps| == 4 && h.src == ps[0] + ps[1] + ps[2] + ps[3] &&
    AllSpace(ps[0]) && IsMarker(ps[1], numbered) && ps[2] != [] && AllSpace(ps[2]) &&
    ps[3] != [] && '\n' !in ps[3] && h.out == "<li>" + ps[3] + "</li>"
  }

  /** What a match of `pat` looks like and what it is replaced by. */
  ghost predicate Rule(pat: Pattern, h: Piece)
    requires h.Hit?
  {
    match pat
    case Pair(o, c, dotAll, b, a) => PairRule(h, o, c, dotAll, b, a)
    case Bracket(o, pre, mid, post) => BracketRule(h, o, pre, mid, post)
    case Heading => HeadingRule(h)
    case Bullet => ListRule(h, false)
    case Numbered => ListRule(h, true)
  }

  /** The largest `j` in [lo, hi) with `t[j]` not a line feed. */
  function LastNonNewline(t: string, lo: nat, hi: nat): (r: Option<nat>)
    requires lo <= hi <= |t|
    ensures r.Some? ==> lo <= r.value < hi && t[r.value] != '\n' && forall k :: r.value < k < hi ==> t[k] == '\n'
    ensures r.None? ==> forall k :: lo <= k < hi ==> t[k] == '\n'
    decreases hi - lo
  {
    if hi == lo then None
    else if t[hi - 1] != '\n' then Some(hi - 1)
    else LastNonNewline(t, lo, hi - 1)
  }

  /** `.+` can start after the first `a` characters of `t`, all of them `\s`, when `a` is at
      least `min`: one way `\s{min,}(.+)$` can split `t`. */
  predicate SpaceSplit(t: string, min: nat, a: nat) {
    min <= a < |t| && AllSpace(t[..a]) && t[a] != '\n'
  }

  /** `\s{min,}(.+)$` under /m at the start of `t`, with PCRE's backtracking: the greedy
      `\s` run first, then shorter runs until `.+` finds a character that is not a line feed.
      Yields where the captured `.+` starts and ends. */
  function SpacesThenText(t: string, min: nat): (r: Option<(nat, nat)>)
    ensures r.Some? ==> min <= r.value.0 < r.value.1 <= |t|
    ensures r.Some? ==> AllSpace(t[..r.value.0]) && '\n' !in t[r.value.0..r.value.1]
    ensures r.Some? ==> r.value.1 == |t| || t[r.value.1] == '\n'
    ensures r.Some? ==> SpaceSplit(t, min, r.value.0) && r.value.1 == r.value.0 + LineLen(t[r.value.0..])
    ensures r.Some? ==> forall a: nat :: SpaceSplit(t, min, a) ==> a <= r.value.0
    ensures r.None? ==> forall a: nat :: !SpaceSplit(t, min, a)
  {
    var k := SpaceRun(t);
    if k < min then
      NoSplitPastRun(t, min, k);
      None
    else if k < |t| then
      SplitAtRun(t, min, k);
      Some((k, k + LineLen(t[k..])))
    else
      match LastNonNewline(t, min, k)
      case Some(j) =>
        SplitAtLast(t, min, j);
        Some((j, j + 1))
      case None => None
  }

  /** The greedy run stops before a character `.+` can take: that is the split. */
  lemma SplitAtRun(t: string, min: nat, k: nat)
    requires min <= k < |t| && !IsSpace(t[k]) && forall i :: 0 <= i < k ==> IsSpace(t[i])
    ensures SpaceSplit(t, min, k) && forall a: nat :: SpaceSplit(t, min, a) ==> a <= k
    ensures var n := LineLen(t[k..]);
            k < k + n <= |t| && '\n' !in t[k..k + n] && (k + n == |t| || t[k + n] == '\n')
  {
    var n := LineLen(t[k..]);
    assert t[k..][0] == t[k];
    assert t[k..k + n] == t[k..][..n];
    assert AllSpace(t[..k]) by {
      forall i | 0 <= i < k ensures IsSpace(t[..k][i]) { assert t[..k][i] == t[i]; }
    }
    NoSplitPastRun(t, k + 1, k);
  }

  /** When only `\s` is left, `.+` takes the last character that is not a line feed. */
  lemma SplitAtLast(t: string, min: nat, j: nat)
    requires min <= j < |t| && t[j] != '\n' && forall i :: 0 <= i < |t| ==> IsSpace(t[i])
    requires forall i :: j < i < |t| ==> t[i] == '\n'
    ensures SpaceSplit(t, min, j) && forall a: nat :: SpaceSplit(t, min, a) ==> a <= j
    ensures LineLen(t[j..]) == 1 && '\n' !in t[j..j + 1] && (j + 1 == |t| || t[j + 1] == '\n')
  {
    assert t[j..j + 1] == [t[j]];
    LineLenOne(t[j..]);
    assert AllSpace(t[..j]) by {
      forall i | 0 <= i < j ensures IsSpace(t[..j][i]) { assert t[..j][i] == t[i]; }
    }
  }

  /** No split can reach past a character that is not `\s`. */
  lemma NoSplitPastRun(t: string, min: nat, k: nat)
    requires k < min && (k < |t| ==> !IsSpace(t[k]))
    ensures forall a: nat :: !SpaceSplit(t, min, a)
  {
    forall a: nat | min <= a < |t|
      ensures !AllSpace(t[..a])
    {
      assert t[..a][k] == t[k];
    }
  }

  /** A line of one character. */
  lemma LineLenOne(u: string)
    requires u != [] && u[0] != '\n' && (|u| == 1 || u[1] == '\n')
    ensures LineLen(u) == 1
  {
    assert LineLen(u) == 1 + LineLen(u[1..]);
  }

  function HashRun(s: string): (n: nat)
    ensures n <= |s|
    ensures forall k :: 0 <= k < n ==> s[k] == '#'
    ensures n < |s| ==> s[n] != '#'
  {
    if s != [] && s[0] == '#' then 1 + HashRun(s[1..]) else 0
  }

  /** One way `^(#{1,6})\s*(.+)$` can match at the start of `s`: `h` characters `#`, then
      `a` characters `\s`, then the text. */
  predicate HeadingSplit(s: string, h: nat, a: nat) {
    1 <= h <= 6 && h <= |s| && (forall k :: 0 <= k < h ==> s[k] == '#') && SpaceSplit(s[h..], 0, a)
  }

  /** The match of that split: the text runs to the end of its line. */
  function HeadingPiece(s: string, h: nat, a: nat): Piece
    requires 1 <= h <= 6 && h + a < |s|
  {
    var e := h + a + LineLen(s[h + a..]);
    Hit(s[..e], HeadingHtml(h, s[h + a..e]), [s[..h], s[h..h + a], s[h + a..e]])
  }

  /** The heading rule tried at a line start. PCRE tries the most `#` first and, for each,
      the longest `\s*`; when the greedy `#{1,6}` leaves nothing but line feeds after it,
      it gives one `#` back and captures it as the text. */
  function HeadingAt(s: string): (r: Option<Piece>)
    ensures r.Some? ==> r.value.Hit? && r.value.src != [] && StartsWith(s, r.value.src) && HeadingRule(r.value)
    ensures r.Some? ==> |r.value.src| == |s| || s[|r.value.src|] == '\n'
  {
    var h := HashTake(s);
    if h == 0 then None
    else
      match SpacesThenText(s[h..], 0)
      case Some((a, _)) =>
        HeadingHit(s, h, a);
        Some(HeadingPiece(s, h, a))
      case None =>
        if h > 1 then
          HeadingHit(s, h - 1, 0);
          Some(HeadingPiece(s, h - 1, 0))
        else None
  }

  /** The match of a split satisfies the heading rule and ends at the end of its line. */
  lemma HeadingHit(s: string, h: nat, a: nat)
    requires HeadingSplit(s, h, a)
    ensures var p := HeadingPiece(s, h, a);
            p.src != [] && StartsWith(s, p.src) && HeadingRule(p) && (|p.src| == |s| || s[|p.src|] == '\n')
  {
    var e := h + a + LineLen(s[h + a..]);
    HeadingReads(s, h, a, e);
    assert s[..e] == s[..h] + s[h..h + a] + s[h + a..e];
  }

  /** The gap and the text of a heading split, stated on slices of `s`. */
  lemma HeadingReads(s: string, h: nat, a: nat, e: nat)
    requires HeadingSplit(s, h, a) && e == h + a + LineLen(s[h + a..])
    ensures h + a < e <= |s| && AllSpace(s[h..h + a]) && '\n' !in s[h + a..e]
    ensures e == |s| || s[e] == '\n'
  {
    assert s[h..][a] == s[h + a];
    assert s[h..][..a] == s[h..h + a];
    assert s[h + a..e] == s[h + a..][..LineLen(s[h + a..])];
  }

  /** The number of `#` PCRE's greedy `#{1,6}` takes. */
  function HashTake(s: string): (n: nat)
    ensures n <= 6 && n <= |s| && forall k :: 0 <= k < n ==> s[k] == '#'
    ensures n == 6 || n == |s| || s[n] != '#'
  {
    var n := HashRun(s);
    if n < 6 then n else 6
  }

  /** A `#` prefix of `s` lies within HashRun(s). */
  lemma {:induction false} HashRunCovers(s: string, h: nat)
    requires h <= |s| && forall k :: 0 <= k < h ==> s[k] == '#'
    ensures h <= HashRun(s)
    decreases h
  {
    if h > 0 {
      assert s[0] == '#';
      HashRunCovers(s[1..], h - 1);
    }
  }

  /** Completeness: at a line start where the heading pattern can match, HeadingAt returns
      the split PCRE prefers, the most `#` and then the longest `\s*`. */
  lemma HeadingAtBest(s: string, h: nat, a: nat)
    requires HeadingSplit(s, h, a)
    requires forall h2: nat, a2: nat :: HeadingSplit(s, h2, a2) ==> h2 < h || (h2 == h && a2 <= a)
    ensures HeadingAt(s) == Some(HeadingPiece(s, h, a))
  {
    HashRunCovers(s, h);
    if SpacesThenText(s[HashTake(s)..], 0).Some? {
      HeadingBestWithText(s, h, a);
    } else {
      HeadingBestGivenBack(s, h, a);
    }
  }

  /** HeadingAtBest when the greedy `#` run is followed by text. */
  lemma HeadingBestWithText(s: string, h: nat, a: nat)
    requires HeadingSplit(s, h, a) && h <= HashRun(s)
    requires forall h2: nat, a2: nat :: HeadingSplit(s, h2, a2) ==> h2 < h || (h2 == h && a2 <= a)
    requires SpacesThenText(s[HashTake(s)..], 0).Some?
    ensures HeadingAt(s) == Some(HeadingPiece(s, h, a))
  {
    var h0 := HashTake(s);
    var a0 := SpacesThenText(s[h0..], 0).value.0;
    assert HeadingSplit(s, h0, a0);
    assert h == h0 && a == a0;
  }

  /** HeadingAtBest when the greedy `#` run is followed by no text, so one `#` is given back. */
  lemma HeadingBestGivenBack(s: string, h: nat, a: nat)
    requires HeadingSplit(s, h, a) && h <= HashRun(s)
    requires forall h2: nat, a2: nat :: HeadingSplit(s, h2, a2) ==> h2 < h || (h2 == h && a2 <= a)
    requires SpacesThenText(s[HashTake(s)..], 0).None?
    ensures HeadingAt(s) == Some(HeadingPiece(s, h, a))
  {
    var h0 := HashTake(s);
    assert HeadingSplit(s, h0 - 1, 0) by { assert s[h0 - 1..][0] == s[h0 - 1]; }
    assert h == h0 - 1 && a == 0 by { assert s[h..][0] == '#'; }
  }

  /** Completeness: wherever the heading pattern can match, HeadingAt finds a match. */
  lemma HeadingAtSome(s: string, h: nat, a: nat)
    requires HeadingSplit(s, h, a)
    ensures HeadingAt(s).Some?
  {
    var h0 := HashTake(s);
    HashRunCovers(s, h);
    if h < h0 {
      assert s[h0 - 1] == '#';
    }
  }

  /** Length of the list marker at the start of `t` (`[-*]`, or `\d+\.`), 0 if there is none. */
  function MarkerLen(t: string, numbered: bool): (m: nat)
    ensures m <= |t|
    ensures m > 0 ==> IsMarker(t[..m], numbered)
  {
    if numbered then
      var d := DigitRun(t);
      if d > 0 && d < |t| && t[d] == '.' then d + 1 else 0
    else if t != [] && (t[0] == '-' || t[0] == '*') then
      assert t[..1] == [t[0]];
      1
    else 0
  }

  /** A list-item rule tried at a line start: `^\s*` marker `\s+(.+)$`. The `\s+` gap is the
      longest one PCRE's backtracking can settle on. */
  function ListItemAt(s: string, numbered: bool): (r: Option<Piece>)
    ensures r.Some? ==> r.value.Hit? && r.value.src != [] && StartsWith(s, r.value.src) && ListRule(r.value, numbered)
    ensures r.Some? ==> |r.value.src| == |s| || s[|r.value.src|] == '\n'
    ensures r.Some? ==> LongestGap(s, numbered, r.value)
  {
    var k := SpaceRun(s);
    var m := MarkerLen(s[k..], numbered);
    if m == 0 then None
    else
      match SpacesThenText(s[k + m..], 1)
      case Some((a, b)) =>
        ListItemFound(s, numbered, k, m, a, b);
        ItemGapLongest(s, numbered, k, m, a, b, s[k + m..]);
        Some(ItemPiece(s, k, k + m, a, b))
      case None => None
  }

  /** The piece ListItemAt returns when the gap and the item text are `a` and `b` after the
      marker. */
  lemma ListItemFound(s: string, numbered: bool, k: nat, m: nat, a: nat, b: nat)
    requires k == SpaceRun(s) && k + m <= |s| && m > 0 && m == MarkerLen(s[k..], numbered)
    requires SpacesThenText(s[k + m..], 1) == Some((a, b))
    ensures ItemPiece(s, k, k + m, a, b).Hit? && ItemPiece(s, k, k + m, a, b).src != []
    ensures StartsWith(s, ItemPiece(s, k, k + m, a, b).src) && ListRule(ItemPiece(s, k, k + m, a, b), numbered)
    ensures |ItemPiece(s, k, k + m, a, b).src| == |s| || s[|ItemPiece(s, k, k + m, a, b).src|] == '\n'
  {
    assert AllSpace(s[..k]);
    ListHit(s, numbered, k, m, a, b);
    ListHitFrame(s, k, m, a, b);
  }

  lemma ItemGapLongest(s: string, numbered: bool, k: nat, m: nat, a: nat, b: nat, t: string)
    requires k + m <= |s| && a <= b <= |s| - k - m && t == s[k + m..]
    requires forall a2: nat :: SpaceSplit(t, 1, a2) ==> a2 <= a
    ensures LongestGap(s, numbered, ItemPiece(s, k, k + m, a, b))
  {
    var h := ItemPiece(s, k, k + m, a, b);
    assert |h.parts[0]| == k && |h.parts[1]| == m && |h.parts[2]| == a;
  }

  /** No list match with the same indentation and marker has a longer `\s+` gap than `h`. */
  ghost predicate LongestGap(s: string, numbered: bool, h: Piece)
    requires h.Hit? && |h.parts| == 4
  {
    forall a: nat :: ListSplit(s, numbered, |h.parts[0]|, |h.parts[1]|, a) ==> a <= |h.parts[2]|
  }

  /** The match `s[..i + b]` with indentation `s[..k]`, marker `s[k..i]`, gap `s[i..i + a]`
      and item text `s[i + a..i + b]`. */
  function ItemPiece(s: string, k: nat, i: nat, a: nat, b: nat): (h: Piece)
    requires k <= i && a <= b && i + b <= |s|
  {
    Hit(s[..i + b], "<li>" + s[i + a..i + b] + "</li>", [s[..k], s[k..i], s[i..i + a], s[i + a..i + b]])
  }

  /** One way `^\s*[-*]\s+(.+)$` (or `^\s*\d+\.\s+(.+)$`) can match at the start of `s`:
      `k` characters of indentation, a marker of `m` characters, then `a` characters `\s`. */
  predicate ListSplit(s: string, numbered: bool, k: nat, m: nat, a: nat) {
    k + m <= |s| && AllSpace(s[..k]) && IsMarker(s[k..k + m], numbered) && SpaceSplit(s[k + m..], 1, a)
  }

  /** The indentation and the marker of a list match are forced: the whole `\s` run and the
      whole marker. */
  lemma ListIndentMarker(s: string, numbered: bool, k: nat, m: nat, a: nat)
    requires ListSplit(s, numbered, k, m, a)
    ensures k == SpaceRun(s) && m == MarkerLen(s[k..], numbered)
  {
    var x := s[k..k + m];
    assert s[k] == x[0];
    SpaceRunCovers(s, k);
    var t := s[k..];
    assert t[..m] == x by {
      forall j | 0 <= j < m ensures t[..m][j] == x[j] {
        assert t[j] == s[k + j];
      }
    }
    if numbered {
      NumberedMarkerLen(t, m);
    }
  }

  /** A `\s` prefix of `s` lies within SpaceRun(s). */
  lemma {:induction false} SpaceRunCovers(s: string, k: nat)
    requires k <= |s| && AllSpace(s[..k])
    ensures k <= SpaceRun(s)
    decreases k
  {
    if k > 0 {
      assert s[0] == s[..k][0];
      assert s[1..][..k - 1] == s[..k][1..];
      SpaceRunCovers(s[1..], k - 1);
    }
  }

  lemma NumberedMarkerLen(t: string, m: nat)
    requires m <= |t| && IsMarker(t[..m], true)
    ensures MarkerLen(t, true) == m
  {
    var d := DigitRun(t);
    assert t[m - 1] == t[..m][m - 1];
    forall j | 0 <= j < m - 1 ensures IsDigit(t[j]) {
      assert t[j] == t[..m][j];
    }
    assert d >= m - 1;
  }

  /** Completeness: wherever the list pattern can match, ListItemAt finds a match. */
  lemma ListItemAtSome(s: string, numbered: bool, k: nat, m: nat, a: nat)
    requires ListSplit(s, numbered, k, m, a)
    ensures ListItemAt(s, numbered).Some?
  {
    ListIndentMarker(s, numbered, k, m, a);
    assert s[k + m..] == s[k..][m..];
  }

  lemma ListHit(s: string, numbered: bool, k: nat, m: nat, a: nat, b: nat)
    requires k + m <= |s| && AllSpace(s[..k]) && IsMarker(s[k..][..m], numbered)
    requires 1 <= a < b <= |s| - k - m
    requires AllSpace(s[k + m..][..a]) && '\n' !in s[k + m..][a..b]
    requires b == |s| - k - m || s[k + m..][b] == '\n'
    ensures ListRule(ItemPiece(s, k, k + m, a, b), numbered)
  {
    var i := k + m;
    SliceOfSlice(s, k, 0, m);
    SliceOfSlice(s, i, 0, a);
    SliceOfSlice(s, i, a, b);
    Cut4(s, k, i, i + a, i + b);
    ListRuleOf(s, k, i, a, b, numbered);
  }

  /** The list piece is a non-empty prefix of the subject that ends at a line end. */
  lemma ListHitFrame(s: string, k: nat, m: nat, a: nat, b: nat)
    requires 1 <= a < b <= |s| - k - m
    requires b == |s| - k - m || s[k + m..][b] == '\n'
    ensures ItemPiece(s, k, k + m, a, b).src != [] && StartsWith(s, ItemPiece(s, k, k + m, a, b).src)
    ensures |ItemPiece(s, k, k + m, a, b).src| == |s| || s[|ItemPiece(s, k, k + m, a, b).src|] == '\n'
  {
    var e := k + m + b;
    assert ItemPiece(s, k, k + m, a, b).src == s[..e];
    assert s[..e][..e] == s[..e];
    if e < |s| {
      assert s[k + m..][b] == s[e];
    }
  }

  lemma SliceOfSlice(s: string, x: nat, y: nat, z: nat)
    requires x + z <= |s| && y <= z
    ensures s[x..][y..z] == s[x + y..x + z]
  {
  }

  lemma ListRuleOf(s: string, k: nat, i: nat, a: nat, b: nat, numbered: bool)
    requires k <= i && a <= b && i + b <= |s|
    requires s[..i + b] == s[..k] + s[k..i] + s[i..i + a] + s[i + a..i + b]
    requires AllSpace(s[..k]) && IsMarker(s[k..i], numbered) && a > 0 && AllSpace(s[i..i + a])
    requires a < b && '\n' !in s[i + a..i + b]
    ensures ListRule(ItemPiece(s, k, i, a, b), numbered)
  {
    var h := ItemPiece(s, k, i, a, b);
    assert h.parts[2] != [] && h.parts[3] != [];
  }

  lemma Cut4(s: string, k: nat, i: nat, j: nat, e: nat)
    requires k <= i <= j <= e <= |s|
    ensures s[..e] == s[..k] + s[k..i] + s[i..j] + s[j..e]
  {
    SliceSplit(s, 0, i, e);
    SliceSplit(s, 0, k, i);
    SliceSplit(s, i, j, e);
    assert s[..e] == s[0..e] && s[..i] == s[0..i] && s[..k] == s[0..k];
  }

  lemma SliceSplit(s: string, i: nat, j: nat, e: nat)
    requires i <= j <= e <= |s|
    ensures s[i..e] == s[i..j] + s[j..e]
  {
    forall m | 0 <= m < e - i ensures s[i..e][m] == (s[i..j] + s[j..e])[m] {
      if m < j - i {
        assert s[i..e][m] == s[i + m] == s[i..j][m];
      } else {
        assert s[i..e][m] == s[i + m] == s[j..e][m - (j - i)];
      }
    }
  }

  /** `(.*?)\]\((.*?)\)` at the start of `t`: the two lazy groups. */
  function BracketTail(t: string): (r: Option<(string, string)>)
    ensures r.Some? ==> StartsWith(t, r.value.0 + "](" + r.value.1 + ")")
    ensures r.Some? ==> '\n' !in r.value.0 && '\n' !in r.value.1 && ')' !in r.value.1
    ensures r.Some? ==> forall k :: 0 <= k < |r.value.0| ==> !CloseAt(r.value.0 + "](", k, "](")
  {
    match FindClose(t, "](", false)
    case None => None
    case Some(a) =>
      LazyGroup(t, "](", a);
      var u := t[a + 2..];
      match FindClose(u, ")", false)
      case None => None
      case Some(b) =>
        assert t[..a + 2 + b + 1] == t[..a] + "](" + u[..b] + ")";
        forall k | 0 <= k < b ensures u[..b][k] != ')' {
          assert !StartsWith(u[k..], ")");
          assert u[k..][..1] == [u[k]];
        }
        Some((t[..a], u[..b]))
  }

  /** The text before the first occurrence of `c` holds no earlier occurrence of `c`, even
      one that would run into `c` itself. */
  lemma LazyGroup(t: string, c: string, j: nat)
    requires j + |c| <= |t| && StartsWith(t[j..], c)
    requires forall k :: 0 <= k < j ==> !StartsWith(t[k..], c)
    ensures forall k :: 0 <= k < j ==> !CloseAt(t[..j] + c, k, c)
  {
    assert t[..j] + c == t[..j + |c|];
    forall k | 0 <= k < j ensures !CloseAt(t[..j] + c, k, c) {
      assert (t[..j] + c)[k..][..|c|] == t[k..][..|c|];
    }
  }

  /** Completeness of BracketTail: the lazy groups of `g1](g2)` are found. */
  lemma BracketTailIs(t: string, g1: string, g2: string)
    requires StartsWith(t, g1 + "](" + g2 + ")")
    requires '\n' !in g1 && '\n' !in g2 && ')' !in g2
    requires forall k :: 0 <= k < |g1| ==> !CloseAt(g1 + "](", k, "](")
    ensures BracketTail(t) == Some((g1, g2))
  {
    var n := |g1|;
    var w := g1 + "](" + g2 + ")";
    assert w == (g1 + "](") + (g2 + ")");
    PrefixAgrees(t, w, g1 + "](");
    forall k | 0 <= k < n ensures !StartsWith(t[k..], "](") {
      assert !CloseAt(g1 + "](", k, "](");
      SameStart(t, g1 + "](", k, "](");
    }
    SameStart(t, g1 + "](", n, "](");
    assert (g1 + "](")[n..] == "](";
    assert t[..n] == (g1 + "](")[..n] == g1;
    FindCloseAt(t, "](", false, n);
    var u := t[n + 2..];
    assert u[..|g2| + 1] == g2 + ")" by {
      assert t[..|w|] == w;
      assert u[..|g2| + 1] == t[..|w|][n + 2..];
      assert w[n + 2..] == g2 + ")";
    }
    assert u[..|g2|] == g2;
    assert u[|g2|..][..1] == ")" by { assert u[|g2|] == (g2 + ")")[|g2|]; }
    forall k | 0 <= k < |g2| ensures !StartsWith(u[k..], ")") {
      assert u[k..][..1] == [g2[k]] by { assert u[k] == u[..|g2|][k]; }
    }
    FindCloseAt(u, ")", false, |g2|);
  }

  /** A prefix of a prefix of `t` is a prefix of `t`. */
  lemma PrefixAgrees(t: string, w: string, v: string)
    requires StartsWith(t, w) && StartsWith(w, v)
    ensures StartsWith(t, v)
  {
    assert t[..|v|] == t[..|w|][..|v|];
  }

  /** Within a prefix `w` of `t`, `c` starts at `k` in `w` exactly when it does in `t`. */
  lemma SameStart(t: string, w: string, k: nat, c: string)
    requires StartsWith(t, w) && k + |c| <= |w|
    ensures StartsWith(t[k..], c) == StartsWith(w[k..], c)
  {
    assert t[k..][..|c|] == t[..|w|][k..][..|c|];
  }

  /** Completeness of PairAt: a lazy `o g c` at the start of `s` is the match. */
  lemma PairAtIs(s: string, o: string, c: string, dotAll: bool, b: string, a: string, g: string)
    requires o != [] && StartsWith(s, o + g + c)
    requires dotAll || '\n' !in g
    requires forall k :: 0 <= k < |g| ==> !CloseAt(g + c, k, c)
    ensures PairAt(s, o, c, dotAll, b, a) == Some(Hit(o + g + c, b + g + a, [g]))
  {
    var t := s[|o|..];
    assert StartsWith(t, g + c) by {
      assert s[..|o + g + c|] == o + g + c;
      assert t[..|g + c|] == s[..|o + g + c|][|o|..];
      assert (o + g + c)[|o|..] == g + c;
    }
    PrefixAgrees(s, o + g + c, o);
    forall k | 0 <= k < |g| ensures !StartsWith(t[k..], c) {
      assert !CloseAt(g + c, k, c);
      SameStart(t, g + c, k, c);
    }
    SameStart(t, g + c, |g|, c);
    assert (g + c)[|g|..] == c;
    assert t[..|g|] == (g + c)[..|g|] == g;
    FindCloseAt(t, c, dotAll, |g|);
    assert s[|o|..|o| + |g|] == g;
  }

  /** Completeness of BracketAt: a lazy `o g1](g2)` at the start of `s` is the match. */
  lemma BracketAtIs(s: string, o: string, pre: string, mid: string, post: string, g1: string, g2: string)
    requires StartsWith(s, o + g1 + "](" + g2 + ")")
    requires '\n' !in g1 && '\n' !in g2 && ')' !in g2
    requires forall k :: 0 <= k < |g1| ==> !CloseAt(g1 + "](", k, "](")
    ensures BracketAt(s, o, pre, mid, post) == Some(Hit(o + g1 + "](" + g2 + ")", pre + g2 + mid + g1 + post, [g1, g2]))
  {
    assert s[..|o|] == o;
    assert s[|o|..][..|g1 + "](" + g2 + ")"|] == g1 + "](" + g2 + ")";
    BracketTailIs(s[|o|..], g1, g2);
  }

  /** Completeness of HitAt for the inline patterns: a match of the rule at the start of `s`
      is the one HitAt returns; the lazy groups leave no other. */
  lemma HitAtInline(s: string, bol: bool, pat: Pattern, h: Piece)
    requires ValidPattern(pat) && (pat.Pair? || pat.Bracket?)
    requires h.Hit? && Rule(pat, h) && StartsWith(s, h.src)
    ensures HitAt(s, bol, pat) == Some(h)
  {
    var ps := h.parts;
    if pat.Pair? {
      assert ps == [ps[0]];
      PairAtIs(s, pat.open, pat.close, pat.dotAll, pat.before, pat.after, ps[0]);
    } else {
      assert ps == [ps[0], ps[1]];
      BracketAtIs(s, pat.open, pat.pre, pat.mid, pat.post, ps[0], ps[1]);
    }
  }

  /** Completeness of HitAt for the line patterns: at a line start where a match of the rule
      begins, HitAt finds one. */
  lemma HitAtLine(s: string, pat: Pattern, h: Piece)
    requires pat.Heading? || pat.Bullet? || pat.Numbered?
    requires h.Hit? && Rule(pat, h) && StartsWith(s, h.src)
    ensures HitAt(s, true, pat).Some?
  {
    if pat.Heading? {
      HeadingRuleSplit(s, h);
    } else {
      ListRuleSplit(s, h, pat.Numbered?);
    }
  }

  lemma HeadingRuleSplit(s: string, h: Piece)
    requires h.Hit? && HeadingRule(h) && StartsWith(s, h.src)
    ensures HeadingAt(s).Some?
  {
    var ps := h.parts;
    var n := |ps[0]|;
    var a := |ps[1]|;
    Prefix3(s, ps[0], ps[1], ps[2]);
    forall k | 0 <= k < n ensures s[k] == '#' {
      assert s[k] == s[..n][k];
    }
    assert s[n..][..a] == s[n..n + a];
    assert s[n..][a] == ps[2][0];
    assert SpaceSplit(s[n..], 0, a);
    HeadingAtSome(s, n, a);
  }

  lemma ListRuleSplit(s: string, h: Piece, numbered: bool)
    requires h.Hit? && ListRule(h, numbered) && StartsWith(s, h.src)
    ensures ListItemAt(s, numbered).Some?
  {
    var ps := h.parts;
    var k := |ps[0]|;
    var m := |ps[1]|;
    var a := |ps[2]|;
    assert h.src == (ps[0] + ps[1]) + ps[2] + ps[3];
    Prefix3(s, ps[0] + ps[1], ps[2], ps[3]);
    PrefixAgrees(s, (ps[0] + ps[1]) + ps[2] + ps[3], ps[0] + ps[1]);
    Prefix3(s, ps[0], ps[1], []);
    assert s[k + m..][..a] == s[k + m..k + m + a];
    assert s[k + m..][a] == ps[3][0];
    assert ListSplit(s, numbered, k, m, a);
    ListItemAtSome(s, numbered, k, m, a);
  }

  /** The three consecutive parts of a prefix `x + y + z` of `s`. */
  lemma Prefix3(s: string, x: string, y: string, z: string)
    requires StartsWith(s, x + y + z)
    ensures s[..|x|] == x && s[|x|..|x| + |y|] == y && s[|x| + |y|..|x| + |y| + |z|] == z
  {
    var w := x + y + z;
    assert s[..|w|] == w;
    assert s[..|x|] == w[..|x|];
    assert s[|x|..|x| + |y|] == w[|x|..|x| + |y|];
    assert s[|x| + |y|..|x| + |y| + |z|] == w[|x| + |y|..];
  }

  lemma PairHit(s: string, o: string, c: string, dotAll: bool, j: nat)
    requires StartsWith(s, o)
    requires j + |c| <= |s[|o|..]| && StartsWith(s[|o|..][j..], c)
    requires forall k :: 0 <= k < j ==> !StartsWith(s[|o|..][k..], c)
    ensures var g := s[|o|..|o| + j];
            StartsWith(s, o + g + c) && forall k :: 0 <= k < |g| ==> !CloseAt(g + c, k, c)
  {
    var t := s[|o|..];
    var g := s[|o|..|o| + j];
    assert g == t[..j];
    assert s[..|o| + j + |c|] == o + g + c;
    forall k | 0 <= k < |g| ensures !CloseAt(g + c, k, c) {
      assert (g + c)[k..][..|c|] == t[k..][..|c|];
    }
  }

  /** `/o(.*?)c/` tried at the start of `s`. */
  function PairAt(s: string, o: string, c: string, dotAll: bool, b: string, a: string): (r: Option<Piece>)
    requires o != []
    ensures r.Some? ==> r.value.Hit? && r.value.src != [] && StartsWith(s, r.value.src)
    ensures r.Some? ==> PairRule(r.value, o, c, dotAll, b, a)
  {
    if StartsWith(s, o) then
      match FindClose(s[|o|..], c, dotAll)
      case Some(j) =>
        PairHit(s, o, c, dotAll, j);
        Some(Hit(o + s[|o|..|o| + j] + c, b + s[|o|..|o| + j] + a, [s[|o|..|o| + j]]))
      case None => None
    else None
  }

  /** `/o(.*?)\]\((.*?)\)/` tried at the start of `s`. */
  function BracketAt(s: string, o: string, pre: string, mid: string, post: string): (r: Option<Piece>)
    ensures r.Some? ==> r.value.Hit? && r.value.src != [] && StartsWith(s, r.value.src)
    ensures r.Some? ==> BracketRule(r.value, o, pre, mid, post)
  {
    if StartsWith(s, o) then
      match BracketTail(s[|o|..])
      case Some((g1, g2)) =>
        var n := |o| + |g1| + |g2| + 3;
        assert s[..n] == o + g1 + "](" + g2 + ")";
        Some(Hit(o + g1 + "](" + g2 + ")", pre + g2 + mid + g1 + post, [g1, g2]))
      case None => None
    else None
  }

  /** The match of `pat` that starts at the beginning of `s`, if any; `bol` says whether
      `s` begins a line of the whole subject. */
  function HitAt(s: string, bol: bool, pat: Pattern): (r: Option<Piece>)
    requires ValidPattern(pat)
    ensures r.Some? ==> r.value.Hit? && r.value.src != [] && StartsWith(s, r.value.src) && Rule(pat, r.value)
    ensures r.Some? && (pat.Heading? || pat.Bullet? || pat.Numbered?) ==>
              bol && (|r.value.src| == |s| || s[|r.value.src|] == '\n')
  {
    match pat
    case Pair(o, c, dotAll, b, a) => PairAt(s, o, c, dotAll, b, a)
    case Bracket(o, pre, mid, post) => BracketAt(s, o, pre, mid, post)
    case Heading => if bol then HeadingAt(s) else None
    case Bullet => if bol then ListItemAt(s, false) else None
    case Numbered => if bol then ListItemAt(s, true) else None
  }

  /** preg_replace's left-to-right scan: at each position try the pattern; on a match
      emit it and continue after it, otherwise keep one character and move on. */
  function Scan(s: string, bol: bool, pat: Pattern): (ps: seq<Piece>)
    requires ValidPattern(pat)
    ensures Source(ps) == s
    ensures forall i :: 0 <= i < |ps| && ps[i].Hit? ==> Rule(pat, ps[i])
    decreases |s|
  {
    if s == [] then []
    else
      match HitAt(s, bol, pat)
      case Some(h) =>
        var rest := Scan(s[|h.src|..], false, pat);
        HitsFollowCons(pat, h, rest);
        assert s == h.src + s[|h.src|..];
        [h] + rest
      case None =>
        var rest := Scan(s[1..], s[0] == '\n', pat);
        HitsFollowCons(pat, Lit(s[0]), rest);
        [Lit(s[0])] + rest
  }

  /** Putting a piece that follows the rule (or is a literal) in front of pieces whose hits
      follow it keeps every hit following it, and reads the piece's text first. */
  lemma HitsFollowCons(pat: Pattern, p: Piece, rest: seq<Piece>)
    requires p.Hit? ==> Rule(pat, p)
    requires forall i :: 0 <= i < |rest| && rest[i].Hit? ==> Rule(pat, rest[i])
    ensures forall i :: 0 <= i < |[p] + rest| && ([p] + rest)[i].Hit? ==> Rule(pat, ([p] + rest)[i])
    ensures Source([p] + rest) == (if p.Lit? then [p.c] else p.src) + Source(rest)
  {
    assert ([p] + rest)[1..] == rest;
    forall i | 1 <= i < |[p] + rest| ensures ([p] + rest)[i] == rest[i - 1] { }
  }

  /** Where the `i`-th piece starts in the subject. */
  function Offset(ps: seq<Piece>, i: nat): nat
    requires i <= |ps|
  {
    |Source(ps[..i])|
  }

  /** Whether Scan tried the `i`-th piece at a line start: at the start of the subject, or
      right after a line feed it kept. */
  predicate BolAt(ps: seq<Piece>, bol: bool, i: nat)
    requires i < |ps|
  {
    if i == 0 then bol else ps[i - 1] == Lit('\n')
  }

  /** How much of the subject a piece covers. */
  function Width(p: Piece): nat {
    if p.Lit? then 1 else |p.src|
  }

  /** One step of Scan: the first piece is what the pattern yields at the start (or the first
      character when it yields nothing), and the rest is the scan of what follows. */
  lemma ScanStep(s: string, bol: bool, pat: Pattern)
    requires ValidPattern(pat) && s != []
    ensures var ps := Scan(s, bol, pat);
            ps != [] && Width(ps[0]) <= |s| && (ps[0].Lit? ==> ps[0] == Lit(s[0])) &&
            ps[1..] == Scan(s[Width(ps[0])..], ps[0] == Lit('\n'), pat) &&
            HitAt(s, bol, pat) == (if ps[0].Hit? then Some(ps[0]) else None)
  {
    var ps := Scan(s, bol, pat);
    match HitAt(s, bol, pat)
    case Some(h) =>
      assert ps == [h] + Scan(s[|h.src|..], false, pat);
    case None =>
      assert ps == [Lit(s[0])] + Scan(s[1..], s[0] == '\n', pat);
  }

  /** The scan after the first piece is the scan of the rest of the subject. */
  lemma ScanTail(s: string, bol: bool, pat: Pattern)
    requires ValidPattern(pat) && Scan(s, bol, pat) != []
    ensures var ps := Scan(s, bol, pat);
            Width(ps[0]) <= |s| && ps[1..] == Scan(s[Width(ps[0])..], ps[0] == Lit('\n'), pat)
  {
    ScanStep(s, bol, pat);
  }

  /** Scan takes matches leftmost-first: every match it emits is what the pattern yields at
      that position, and at every character it keeps literally the pattern yields nothing. */
  lemma ScanLeftmost(s: string, bol: bool, pat: Pattern)
    requires ValidPattern(pat)
    ensures var ps := Scan(s, bol, pat);
            forall i :: 0 <= i < |ps| ==>
              (Offset(ps, i) < |s| &&
               HitAt(s[Offset(ps, i)..], BolAt(ps, bol, i), pat) == (if ps[i].Hit? then Some(ps[i]) else None))
  {
    var ps := Scan(s, bol, pat);
    forall i | 0 <= i < |ps|
      ensures Offset(ps, i) < |s|
      ensures HitAt(s[Offset(ps, i)..], BolAt(ps, bol, i), pat) == (if ps[i].Hit? then Some(ps[i]) else None)
    {
      ScanSuffix(s, bol, pat, i);
      var t := s[Offset(ps, i)..];
      assert t != [];
      ScanStep(t, BolAt(ps, bol, i), pat);
    }
  }

  /** Scanning resumes cleanly at every piece boundary: the scan of the subject from where
      piece `i` starts, in the line state there, is the rest of the scan. */
  lemma {:induction false} ScanSuffix(s: string, bol: bool, pat: Pattern, i: nat)
    requires ValidPattern(pat) && i < |Scan(s, bol, pat)|
    ensures var ps := Scan(s, bol, pat);
            Offset(ps, i) <= |s| && Scan(s[Offset(ps, i)..], BolAt(ps, bol, i), pat) == ps[i..]
    decreases i
  {
    var ps := Scan(s, bol, pat);
    if i == 0 {
      assert ps[..0] == [];
      assert s[Offset(ps, 0)..] == s;
      assert ps[0..] == ps;
    } else {
      ScanTail(s, bol, pat);
      var s1, b1, ps1 := s[Width(ps[0])..], ps[0] == Lit('\n'), ps[1..];
      ScanSuffix(s1, b1, pat, i - 1);
      ShiftedPiece(s, bol, ps, i);
      var t, t1 := s[Offset(ps, i)..], s1[Offset(ps1, i - 1)..];
      assert t == t1 && BolAt(ps, bol, i) == BolAt(ps1, b1, i - 1);
      assert ps[i..] == ps1[i - 1..];
      assert Scan(t1, BolAt(ps1, b1, i - 1), pat) == ps1[i - 1..];
    }
  }

  /** Position `i > 0` of a scan is position `i - 1` of the scan after the first piece. */
  lemma ShiftedPiece(s: string, bol: bool, ps: seq<Piece>, i: nat)
    requires 1 <= i < |ps| && Width(ps[0]) <= |s|
    requires Offset(ps[1..], i - 1) <= |s| - Width(ps[0])
    ensures Offset(ps, i) <= |s|
    ensures s[Offset(ps, i)..] == s[Width(ps[0])..][Offset(ps[1..], i - 1)..]
    ensures BolAt(ps, bol, i) == BolAt(ps[1..], ps[0] == Lit('\n'), i - 1)
    ensures ps[i] == ps[1..][i - 1]
  {
    OffsetCons(ps, i);
  }

  lemma OffsetCons(ps: seq<Piece>, i: nat)
    requires 1 <= i <= |ps|
    ensures Offset(ps, i) == Width(ps[0]) + Offset(ps[1..], i - 1)
  {
    assert ps[..i][0] == ps[0];
    assert ps[..i][1..] == ps[1..][..i - 1];
  }

  /** One `preg_replace` step over the whole subject. */
  function Apply(s: string, pat: Pattern): string
    requires ValidPattern(pat)
  {
    Render(Scan(s, true, pat))
  }

  function RenderNoHits(ps: seq<Piece>): (r: string)
    requires NoHits(ps)
    ensures r == Render(ps) && r == Source(ps)
  {
    if ps == [] then [] else
      assert NoHits(ps[1..]);
      [ps[0].c] + RenderNoHits(ps[1..])
  }

  /** Strings every match of `pat` contains at least one of. */
  function Needles(pat: Pattern): set<string>
  {
    match pat
    case Pair(o, _, _, _, _) => {o}
    case Bracket(o, _, _, _) => {o}
    case Heading => {"#"}
    case Bullet => {"-", "*"}
    case Numbered => {"."}
  }

  lemma OccursAt(s: string, p: string, i: nat)
    requires i + |p| <= |s| && s[i..i + |p|] == p
    ensures Occurs(s, p)
  {
    assert StartsWith(s[i..], p);
  }

  /** A match of `pat` contains one of its needles. */
  lemma RuleHasNeedle(pat: Pattern, h: Piece)
    requires h.Hit? && Rule(pat, h)
    ensures exists n :: n in Needles(pat) && Occurs(h.src, n)
  {
    match pat
    case Pair(o, c, dotAll, b, a) =>
      OccursAt(h.src, o, 0);
      assert o in Needles(pat);
    case Bracket(o, pre, mid, post) =>
      OccursAt(h.src, o, 0);
      assert o in Needles(pat);
    case Heading =>
      HeadingHasHash(h);
      assert "#" in Needles(pat);
    case Bullet =>
      BulletHasMarker(h);
      assert h.parts[1] in Needles(pat);
    case Numbered =>
      NumberedHasDot(h);
      assert "." in Needles(pat);
  }

  lemma HeadingHasHash(h: Piece)
    requires h.Hit? && HeadingRule(h)
    ensures Occurs(h.src, "#")
  {
    assert h.src[0..1] == "#";
    OccursAt(h.src, "#", 0);
  }

  lemma BulletHasMarker(h: Piece)
    requires h.Hit? && ListRule(h, false)
    ensures Occurs(h.src, h.parts[1]) && (h.parts[1] == "-" || h.parts[1] == "*")
  {
    var ps := h.parts;
    assert h.src[|ps[0]|..|ps[0]| + 1] == ps[1];
    OccursAt(h.src, ps[1], |ps[0]|);
  }

  lemma NumberedHasDot(h: Piece)
    requires h.Hit? && ListRule(h, true)
    ensures Occurs(h.src, ".")
  {
    var ps := h.parts;
    var i := |ps[0]| + |ps[1]| - 1;
    assert h.src[i] == ps[1][|ps[1]| - 1];
    assert h.src[i..i + 1] == ".";
    OccursAt(h.src, ".", i);
  }

  lemma OccursInPrefix(s: string, t: string, n: string)
    requires StartsWith(s, t) && Occurs(t, n)
    ensures Occurs(s, n)
  {
    var i :| 0 <= i <= |t| - |n| && StartsWith(t[i..], n);
    forall k | 0 <= k < |n| ensures s[i + k] == n[k] {
      assert s[i + k] == s[..|t|][i + k];
      assert n[k] == t[i..][..|n|][k];
    }
    assert s[i..i + |n|] == n;
    OccursAt(s, n, i);
  }

  /** A step whose pattern finds none of its needles in the subject changes nothing. */
  lemma {:induction false} ScanWithoutNeedle(s: string, bol: bool, pat: Pattern)
    requires ValidPattern(pat)
    requires forall n | n in Needles(pat) :: !Occurs(s, n)
    ensures NoHits(Scan(s, bol, pat))
    decreases |s|
  {
    if s != [] {
      match HitAt(s, bol, pat)
      case Some(h) =>
        RuleHasNeedle(pat, h);
        var n :| n in Needles(pat) && Occurs(h.src, n);
        OccursInPrefix(s, h.src, n);
        assert false;
      case None =>
        forall n | n in Needles(pat) ensures !Occurs(s[1..], n) {
          OccursStep(s, n);
        }
        ScanWithoutNeedle(s[1..], s[0] == '\n', pat);
        var ps := Scan(s, bol, pat);
        assert ps[1..] == Scan(s[1..], s[0] == '\n', pat);
    }
  }

  lemma ApplyWithoutNeedle(s: string, pat: Pattern)
    requires ValidPattern(pat)
    requires forall n | n in Needles(pat) :: !Occurs(s, n)
    ensures Apply(s, pat) == s
  {
    ScanWithoutNeedle(s, true, pat);
    var r := RenderNoHits(Scan(s, true, pat));
  }

  /** `/(<li>.*<\/li>)/s`: from the first `<li>` to the last `</li>` that ends after it.
      Yields the start and the end of the match. */
  function ListSpan(s: string): (r: Option<(nat, nat)>)
    ensures r.Some? ==> var (p, e) := r.value;
              p + 9 <= e <= |s| && CloseAt(s, p, "<li>") && CloseAt(s, e - 5, "</li>") &&
              (forall k :: 0 <= k < p ==> !CloseAt(s, k, "<li>")) &&
              (forall k :: e - 5 < k <= |s| ==> !CloseAt(s, k, "</li>"))
    ensures r.None? ==> forall p, q :: CloseAt(s, p, "<li>") && CloseAt(s, q, "</li>") ==> q < p + 4
  {
    match FindClose(s, "<li>", true)
    case None => None
    case Some(p) =>
      match FindLast(s, "</li>")
      case None => None
      case Some(q) => if q >= p + 4 then Some((p, q + 5)) else None
  }

  /** The list wrap: the whole span from the first item to the last is put between
      `open` and `close`; there is at most one such span. */
  function WrapList(s: string, open: string, close: string): (r: string)
    ensures !Occurs(s, "<li>") ==> r == s
  {
    match ListSpan(s)
    case None => s
    case Some((p, e)) => s[..p] + open + s[p..e] + close + s[e..]
  }

  /** One rewrite of markdownToHtml: a `preg_replace` of a pattern, or the list wrap
      `/(<li>.*<\/li>)/s` replaced by `open$1close`. */
  datatype Step = Replace(pat: Pattern) | WrapItems(open: string, close: string)

  predicate ValidStep(st: Step) {
    st.Replace? ==> ValidPattern(st.pat)
  }

  predicate ValidSteps(steps: seq<Step>) {
    forall k :: 0 <= k < |steps| ==> ValidStep(steps[k])
  }

  function RunStep(s: string, st: Step): string
    requires ValidStep(st)
  {
    match st
    case Replace(pat) => Apply(s, pat)
    case WrapItems(open, close) => WrapList(s, open, close)
  }

  /** The steps one after another, each on the output of the one before. */
  function Run(s: string, steps: seq<Step>): string
    requires ValidSteps(steps)
    decreases |steps|
  {
    if steps == [] then s else Run(RunStep(s, steps[0]), steps[1..])
  }

  /** The rewrites of markdownToHtml between htmlspecialchars and the paragraph split, in
      the source's order. */
  const AsWrittenSteps: seq<Step> := [
    Replace(Heading), Replace(BoldStars), Replace(BoldUnderscores), Replace(ItalicStar), Replace(ItalicUnderscore),
    Replace(InlineCode), Replace(Link), Replace(Image),
    Replace(Bullet), WrapItems("<ul>", "</ul>"), Replace(Numbered), WrapItems("<ol>", "</ol>"),
    Replace(Fence)]

  /** The same rewrites with fenced code before inline code and images before links. */
  const CorrectedSteps: seq<Step> := [
    Replace(Heading), Replace(BoldStars), Replace(BoldUnderscores), Replace(ItalicStar), Replace(ItalicUnderscore),
    Replace(Fence), Replace(InlineCode), Replace(Image), Replace(Link),
    Replace(Bullet), WrapItems("<ul>", "</ul>"), Replace(Numbered), WrapItems("<ol>", "</ol>")]

  /** markdownToHtml with its steps in the source's order. */
  function ToHtmlAsWritten(md: string): (r: string)
    ensures StartsWith(r, "<p>") && EndsWith(r, "</p>")
  {
    Paragraphs.ToParagraphs(Run(Escape.HtmlSpecialChars(md), AsWrittenSteps))
  }

  /** markdownToHtml with fenced code before inline code and images before links. */
  function ToHtml(md: string): (r: string)
    ensures StartsWith(r, "<p>") && EndsWith(r, "</p>")
  {
    Paragraphs.ToParagraphs(Run(Escape.HtmlSpecialChars(md), CorrectedSteps))
  }

  /** Running `a` then `b` is running `a + b`. */
  lemma {:induction false} RunAppend(s: string, a: seq<Step>, b: seq<Step>)
    requires ValidSteps(a) && ValidSteps(b)
    ensures ValidSteps(a + b) && Run(s, a + b) == Run(Run(s, a), b)
    decreases |a|
  {
    assert ValidSteps(a + b);
    if a == [] {
      assert a + b == b;
    } else {
      assert (a + b)[1..] == a[1..] + b;
      assert ValidSteps(a[1..]);
      RunAppend(RunStep(s, a[0]), a[1..], b);
    }
  }

  /** A step whose pattern matches the whole subject at once outputs that match's replacement. */
  lemma ScanWholeHit(x: string, bol: bool, pat: Pattern, h: Piece)
    requires ValidPattern(pat) && HitAt(x, bol, pat) == Some(h) && h.src == x
    ensures Render(Scan(x, bol, pat)) == h.out
  {
    assert x[|h.src|..] == [];
    assert Scan(x, bol, pat) == [h] + Scan([], false, pat);
    assert [h][1..] == [];
    assert Render([h]) == h.out + Render([]);
  }

  /** Where the pattern does not match, the step keeps the first character and goes on. */
  lemma ScanKeepsFirst(x: string, bol: bool, pat: Pattern)
    requires ValidPattern(pat) && x != [] && HitAt(x, bol, pat).None?
    ensures Render(Scan(x, bol, pat)) == [x[0]] + Render(Scan(x[1..], x[0] == '\n', pat))
  {
    var ps := Scan(x, bol, pat);
    assert ps[1..] == Scan(x[1..], x[0] == '\n', pat);
  }

  /** Text in which none of the characters the rewrite rules look for occurs. */
  const MarkupChars := "&<>\"'#*_`[-."

  predicate NoMarkup(md: string) {
    forall k :: 0 <= k < |md| ==> md[k] !in MarkupChars
  }

  /** A step that can only match where a markup character occurs. */
  predicate NeedsMarkup(st: Step) {
    match st
    case Replace(Pair(o, _, _, _, _)) => o != [] && o[|o| - 1] in MarkupChars
    case Replace(Bracket(o, _, _, _)) => o != [] && o[|o| - 1] in MarkupChars
    case Replace(_) => true
    case WrapItems(_, _) => true
  }

  /** Such a step leaves text without markup characters unchanged. */
  lemma StepWithoutMarkup(s: string, st: Step)
    requires NoMarkup(s) && ValidStep(st) && NeedsMarkup(st)
    ensures RunStep(s, st) == s
  {
    match st
    case Replace(pat) =>
      match pat {
      case Pair(o, _, _, _, _) =>
        assert o[|o| - 1] !in s;
        AbsentChar(s, o, |o| - 1);
        ApplyWithoutNeedle(s, pat);
      case Bracket(o, _, _, _) =>
        assert o[|o| - 1] !in s;
        AbsentChar(s, o, |o| - 1);
        ApplyWithoutNeedle(s, pat);
      case Heading =>
        assert '#' !in s;
        AbsentChar(s, "#", 0);
        ApplyWithoutNeedle(s, pat);
      case Bullet =>
        assert '-' !in s && '*' !in s;
        AbsentChar(s, "-", 0);
        AbsentChar(s, "*", 0);
        ApplyWithoutNeedle(s, pat);
      case Numbered =>
        assert '.' !in s;
        AbsentChar(s, ".", 0);
        ApplyWithoutNeedle(s, pat);
      }
    case WrapItems(open, close) =>
      assert '<' !in s;
      AbsentChar(s, "<li>", 0);
  }

  /** Steps that each need a markup character leave text without any unchanged. */
  lemma {:induction false} RunWithoutMarkup(s: string, steps: seq<Step>)
    requires NoMarkup(s) && ValidSteps(steps)
    requires forall k :: 0 <= k < |steps| ==> NeedsMarkup(steps[k])
    ensures Run(s, steps) == s
    decreases |steps|
  {
    if steps != [] {
      StepWithoutMarkup(s, steps[0]);
      assert ValidSteps(steps[1..]);
      RunWithoutMarkup(s, steps[1..]);
    }
  }

  /** Text without markup characters only gets its paragraphs wrapped, in either order
      of the steps. */
  lemma PlainTextOnlyParagraphs(md: string)
    requires NoMarkup(md)
    ensures ToHtml(md) == Paragraphs.ToParagraphs(md)
    ensures ToHtmlAsWritten(md) == Paragraphs.ToParagraphs(md)
  {
    forall k | 0 <= k < |md| ensures !Escape.IsSpecial(md[k]) {
      assert md[k] !in MarkupChars;
    }
    Escape.EscapePlain(md);
    StepListsNeedMarkup();
    RunWithoutMarkup(md, AsWrittenSteps);
    RunWithoutMarkup(md, CorrectedSteps);
  }

  /** Every step of either list needs a markup character to match. */
  lemma StepListsNeedMarkup()
    ensures forall k :: 0 <= k < |AsWrittenSteps| ==> NeedsMarkup(AsWrittenSteps[k])
    ensures forall k :: 0 <= k < |CorrectedSteps| ==> NeedsMarkup(CorrectedSteps[k])
  {
  }

  /** No `[`, `]`, `(`, `)` or line feed: a link text or URL the bracket rules capture whole. */
  predicate PlainLabel(t: string) {
    '[' !in t && ']' !in t && '(' !in t && ')' !in t && '\n' !in t
  }

  lemma BracketTailOf(a: string, u: string)
    requires PlainLabel(a) && PlainLabel(u)
    ensures BracketTail(a + "](" + u + ")") == Some((a, u))
  {
    var t := a + "](" + u + ")";
    assert t == a + "](" + (u + ")");
    FindCloseAfter(a, "](", u + ")");
    assert t[..|a|] == a;
    var w := t[|a| + 2..];
    assert w == u + ")" + [];
    FindCloseAfter(u, ")", []);
    assert w[..|u|] == u;
  }

  /** A closing text whose first character does not occur in the line-feed-free `x` is
      found right after `x`. */
  lemma FindCloseAfter(x: string, c: string, rest: string)
    requires c != [] && c[0] !in x && '\n' !in x
    ensures FindClose(x + c + rest, c, false) == Some(|x|)
  {
    var t := x + c + rest;
    forall k | 0 <= k < |x| ensures !StartsWith(t[k..], c) {
      assert t[k..][0] == x[k];
    }
    assert t[..|x|] == x;
    assert t[|x|..][..|c|] == c;
    FindCloseAt(t, c, false, |x|);
  }

  /** What the link rule makes of `[text](url)`. */
  function LinkHtml(text: string, url: string): string {
    "<a href=\"" + url + "\">" + text + "</a>"
  }

  /** What the image rule makes of `![alt](url)`. */
  function ImageHtml(alt: string, url: string): string {
    "<img src=\"" + url + "\" alt=\"" + alt + "\">"
  }

  /** The image syntax `![a](u)`. */
  function ImageSyntax(a: string, u: string): string {
    "![" + a + "](" + u + ")"
  }

  /** As written, the link rule runs first and takes the image syntax apart: what is left
      is a `!` before a link, and the image rule no longer finds anything. */
  lemma LinkBeforeImage(a: string, u: string)
    requires PlainLabel(a) && PlainLabel(u)
    ensures Apply(Apply(ImageSyntax(a, u), Link), Image) == "!" + LinkHtml(a, u)
  {
    var y := "!" + LinkHtml(a, u);
    LinkStepOnImage(a, u);
    LinkHtmlNoImage(a, u);
    ApplyWithoutNeedle(y, Image);
  }

  /** A link made from plain labels, even after a `!`, holds no `![`. */
  lemma LinkHtmlNoImage(a: string, u: string)
    requires PlainLabel(a) && PlainLabel(u)
    ensures !Occurs("!" + LinkHtml(a, u), "![")
  {
    var y := "!" + LinkHtml(a, u);
    assert '[' !in y by {
      assert '[' !in "!" && '[' !in "<a href=\"" && '[' !in "\">" && '[' !in "</a>";
    }
    AbsentChar(y, "![", 1);
  }

  lemma LinkStepOnImage(a: string, u: string)
    requires PlainLabel(a) && PlainLabel(u)
    ensures Apply(ImageSyntax(a, u), Link) == "!" + LinkHtml(a, u)
  {
    var x := ImageSyntax(a, u);
    var t := x[1..];
    assert t == "[" + a + "](" + u + ")";
    assert t[1..] == a + "](" + u + ")";
    BracketTailOf(a, u);
    var h := Hit(t, LinkHtml(a, u), [a, u]);
    assert HitAt(t, false, Link) == Some(h);
    ScanWholeHit(t, false, Link, h);
    NoOpenNoHit(x, true, Link);
    ScanKeepsFirst(x, true, Link);
    assert Apply(x, Link) == "!" + h.out;
  }

  lemma NoOpenNoHit(x: string, bol: bool, pat: Pattern)
    requires (pat.Pair? || pat.Bracket?) && ValidPattern(pat)
    requires x != [] && x[0] != pat.open[0]
    ensures HitAt(x, bol, pat).None?
  {
    assert !StartsWith(x, pat.open);
  }

  /** The image rule matches the whole of `![a](u)`. */
  lemma ImageHitOf(a: string, u: string)
    requires PlainLabel(a) && PlainLabel(u)
    ensures HitAt(ImageSyntax(a, u), true, Image) == Some(Hit(ImageSyntax(a, u), ImageHtml(a, u), [a, u]))
  {
    var x := ImageSyntax(a, u);
    assert x[..2] == "![";
    assert x[2..] == a + "](" + u + ")";
    BracketTailOf(a, u);
  }

  lemma ImageHtmlNoBracket(a: string, u: string)
    requires PlainLabel(a) && PlainLabel(u)
    ensures '[' !in ImageHtml(a, u)
  {
    assert '[' !in "<img src=\"" && '[' !in "\" alt=\"" && '[' !in "\">";
  }

  /** With images before links, the image syntax becomes an image. */
  lemma ImageBeforeLink(a: string, u: string)
    requires PlainLabel(a) && PlainLabel(u)
    ensures Apply(Apply(ImageSyntax(a, u), Image), Link) == ImageHtml(a, u)
  {
    var x := ImageSyntax(a, u);
    ImageHitOf(a, u);
    ScanWholeHit(x, true, Image, Hit(x, ImageHtml(a, u), [a, u]));
    var y := ImageHtml(a, u);
    ImageHtmlNoBracket(a, u);
    AbsentChar(y, "[", 0);
    ApplyWithoutNeedle(y, Link);
  }

  /** No two backticks side by side. */
  predicate NoTickPair(t: string) {
    forall i :: 0 <= i < |t| - 1 ==> !(t[i] == '`' && t[i + 1] == '`')
  }

  lemma TickFreeAppend(x: string, y: string)
    requires '`' !in x && NoTickPair(y)
    ensures NoTickPair(x + y)
  {
    var z := x + y;
    forall i | 0 <= i < |z| - 1 && z[i] == '`' ensures z[i + 1] != '`' {
      if i >= |x| {
        assert z[i] == y[i - |x|] && z[i + 1] == y[i + 1 - |x|];
      }
    }
  }

  lemma TickThenOther(y: string)
    requires NoTickPair(y) && (y == [] || y[0] != '`')
    ensures NoTickPair("`" + y)
  {
    var z := "`" + y;
    forall i | 1 <= i < |z| - 1 ensures !(z[i] == '`' && z[i + 1] == '`') {
      assert z[i] == y[i - 1] && z[i + 1] == y[i];
    }
  }

  /** Where the pattern matches, the step outputs the replacement and goes on after the match. */
  lemma ScanHitStep(x: string, bol: bool, pat: Pattern, h: Piece)
    requires ValidPattern(pat) && HitAt(x, bol, pat) == Some(h)
    ensures Render(Scan(x, bol, pat)) == h.out + Render(Scan(x[|h.src|..], false, pat))
  {
    var ps := Scan(x, bol, pat);
    assert ps[1..] == Scan(x[|h.src|..], false, pat);
  }

  /** An inline-code match starts with a backtick and its replacement holds none. */
  lemma CodeHitTickFree(h: Piece)
    requires h.Hit? && Rule(InlineCode, h)
    ensures h.src[0] == '`' && '`' !in h.out
  {
    var g := h.parts[0];
    forall k | 0 <= k < |g| ensures g[k] != '`' {
      assert !CloseAt(g + "`", k, "`");
      assert (g + "`")[k..][..1] == [g[k]];
    }
  }

  /** A backtick the inline-code rule leaves standing is not followed by another. */
  lemma LoneTick(s: string, bol: bool)
    requires |s| > 1 && s[0] == '`' && HitAt(s, bol, InlineCode).None?
    ensures s[1] != '`'
  {
    assert s[..1] == "`";
    assert FindClose(s[1..], "`", false).None?;
    assert s[1..][..1] == [s[1]];
  }

  /** The output of the inline-code step never has two backticks side by side: a match's
      code holds no backtick, and a backtick left standing has no partner on its line. */
  lemma {:induction false} InlineCodeNoTickPair(s: string, bol: bool)
    ensures NoTickPair(Render(Scan(s, bol, InlineCode)))
    ensures s != [] && s[0] != '`' ==>
              (Render(Scan(s, bol, InlineCode)) != [] && Render(Scan(s, bol, InlineCode))[0] == s[0])
    decreases |s|
  {
    if s != [] {
      match HitAt(s, bol, InlineCode)
      case Some(h) =>
        var rest := s[|h.src|..];
        InlineCodeNoTickPair(rest, false);
        ScanHitStep(s, bol, InlineCode, h);
        CodeHitTickFree(h);
        assert s[0] == s[..|h.src|][0];
        TickFreeAppend(h.out, Render(Scan(rest, false, InlineCode)));
      case None =>
        InlineCodeNoTickPair(s[1..], s[0] == '\n');
        ScanKeepsFirst(s, bol, InlineCode);
        var r := Render(Scan(s[1..], s[0] == '\n', InlineCode));
        if s[0] == '`' {
          if |s| > 1 {
            LoneTick(s, bol);
          }
          TickThenOther(r);
        } else {
          TickFreeAppend([s[0]], r);
        }
    }
  }

  lemma NoTickPairNoFence(y: string)
    requires NoTickPair(y)
    ensures !Occurs(y, "```")
  {
    forall i | 0 <= i <= |y| - 3 ensures !StartsWith(y[i..], "```") {
      assert y[i..][0] == y[i] && y[i..][1] == y[i + 1];
    }
  }

  /** As written, inline code runs before fenced code and leaves no three backticks in a
      row, so the fenced-code rule never changes anything. */
  lemma InlineCodeBeforeFence(s: string)
    ensures Apply(Apply(s, InlineCode), Fence) == Apply(s, InlineCode)
  {
    var y := Apply(s, InlineCode);
    InlineCodeNoTickPair(s, true);
    NoTickPairNoFence(y);
    ApplyWithoutNeedle(y, Fence);
  }

  /** A fenced block whose body has no backtick. */
  function FenceSyntax(c: string): string {
    "```" + c + "```"
  }

  /** The fenced-code rule matches the whole of a fenced block without backticks inside. */
  lemma FenceHitOf(c: string)
    requires '`' !in c
    ensures HitAt(FenceSyntax(c), true, Fence) == Some(Hit(FenceSyntax(c), "<pre><code>" + c + "</code></pre>", [c]))
  {
    var x := FenceSyntax(c);
    var t := x[3..];
    assert x[..3] == "```";
    assert t == c + "```";
    forall k | 0 <= k < |c| ensures !StartsWith(t[k..], "```") {
      assert t[k] == c[k];
    }
    FindCloseAt(t, "```", true, |c|);
    assert t[..|c|] == c;
  }

  /** With fenced code before inline code, a fenced block becomes a preformatted block. */
  lemma FenceBeforeInlineCode(c: string)
    requires '`' !in c
    ensures Apply(Apply(FenceSyntax(c), Fence), InlineCode) == "<pre><code>" + c + "</code></pre>"
  {
    var x := FenceSyntax(c);
    var y := "<pre><code>" + c + "</code></pre>";
    FenceHitOf(c);
    ScanWholeHit(x, true, Fence, Hit(x, y, [c]));
    assert '`' !in "<pre><code>" && '`' !in "</code></pre>";
    AbsentChar(y, "`", 0);
    ApplyWithoutNeedle(y, InlineCode);
  }

  /* Markup safety: every `<` of the output begins one of the tag strings. */

  /** A pattern whose opening and closing texts start with a character no tag string holds
      after its `<`, and whose replacement texts are safe. */
  ghost predicate SafePattern(pat: Pattern) {
    match pat
    case Pair(o, c, _, b, a) =>
      o != [] && c != [] && !Tags.InnerTagChar(o[0]) && !Tags.InnerTagChar(c[0]) && Tags.Safe(b) && Tags.Safe(a)
    case Bracket(o, pre, mid, post) =>
      o != [] && !Tags.InnerTagChar(o[0]) && Tags.Safe(pre) && Tags.Safe(mid) && Tags.Safe(post)
    case _ => true
  }

  ghost predicate SafeStep(st: Step) {
    match st
    case Replace(pat) => SafePattern(pat)
    case WrapItems(open, close) => Tags.Safe(open) && Tags.Safe(close)
  }

  /** A match of a pair or bracket rule starts with the rule's opening text. */
  lemma HitStartsWithOpen(s: string, bol: bool, pat: Pattern)
    requires ValidPattern(pat) && (pat.Pair? || pat.Bracket?) && HitAt(s, bol, pat).Some?
    ensures s != [] && s[0] == pat.open[0]
  {
    var h := HitAt(s, bol, pat).value;
    assert h.src[..|pat.open|] == pat.open;
    assert s[..|h.src|][0] == h.src[0];
  }

  /** The rest of a tag string after its `<` is never where a match starts, so the scan
      copies it unchanged. */
  lemma {:induction false} ScanKeepsTagRest(s: string, w: string, pat: Pattern)
    requires ValidPattern(pat) && SafePattern(pat) && StartsWith(s, w)
    requires forall m :: 0 <= m < |w| ==> Tags.InnerTagChar(w[m])
    ensures StartsWith(Render(Scan(s, false, pat)), w)
    decreases |w|
  {
    if w != [] {
      assert s[0] == w[0] && s[1..][..|w| - 1] == w[1..];
      ScanInsideTag(s, pat);
      ScanKeepsTagRest(s[1..], w[1..], pat);
      ConsPrefix(s[0], Render(Scan(s[1..], false, pat)), w);
    }
  }

  lemma ConsPrefix(c: char, r: string, w: string)
    requires w != [] && w[0] == c && StartsWith(r, w[1..])
    ensures StartsWith([c] + r, w)
  {
    assert ([c] + r)[..|w|] == [c] + r[..|w| - 1];
    assert w == [w[0]] + w[1..];
  }

  /** At a character a tag string holds after its `<`, the scan keeps the character. */
  lemma ScanInsideTag(s: string, pat: Pattern)
    requires ValidPattern(pat) && SafePattern(pat) && s != [] && Tags.InnerTagChar(s[0])
    ensures Render(Scan(s, false, pat)) == [s[0]] + Render(Scan(s[1..], false, pat))
  {
    var ps := Scan(s, false, pat);
    NoHitInsideTag(s, pat);
    ScanStep(s, false, pat);
    assert ps[1..] == Scan(s[1..], false, pat);
    assert Render(ps) == [s[0]] + Render(ps[1..]);
  }

  /** No match starts at a character a tag string holds after its `<`: the pair and bracket
      rules open with other characters, and the line rules need a line start. */
  lemma NoHitInsideTag(s: string, pat: Pattern)
    requires ValidPattern(pat) && SafePattern(pat) && s != [] && Tags.InnerTagChar(s[0])
    ensures HitAt(s, false, pat).None?
  {
    if (pat.Pair? || pat.Bracket?) && HitAt(s, false, pat).Some? {
      HitStartsWithOpen(s, false, pat);
    }
  }

  /** The replacement of a match of a safe pattern in a safe text is safe: the captured text
      ends where the closing text or the line ends, and no tag string reaches across that. */
  lemma HitOutSafe(s: string, bol: bool, pat: Pattern, h: Piece)
    requires ValidPattern(pat) && SafePattern(pat) && Tags.Safe(s) && HitAt(s, bol, pat) == Some(h)
    ensures Tags.Safe(h.out)
  {
    match pat
    case Pair(o, c, _, b, a) =>
      PairOutSafe(s, h, o, c, b, a);
    case Bracket(o, pre, mid, post) =>
      BracketOutSafe(s, h, o, pre, mid, post);
    case Heading =>
      HeadingOutSafe(s, h);
    case Bullet =>
      ItemOutSafe(s, h, false);
    case Numbered =>
      ItemOutSafe(s, h, true);
  }

  /** Where the middle part of a prefix `a + b + c` of `s` lies. */
  lemma MiddleOf(s: string, a: string, b: string, c: string)
    requires StartsWith(s, a + b + c)
    ensures |a| + |b| + |c| <= |s| && s[|a|..|a| + |b|] == b
    ensures c != [] ==> s[|a| + |b|] == c[0]
  {
    var x := a + b + c;
    assert s[..|x|] == x;
    assert s[|a|..|a| + |b|] == x[|a|..|a| + |b|];
    if c != [] {
      assert s[|a| + |b|] == x[|a| + |b|];
    }
  }

  /** Text of a safe subject captured up to a boundary is safe. */
  lemma CapturedSafe(s: string, i: nat, j: nat)
    requires i <= j && Tags.Boundary(s, j) && Tags.Safe(s)
    ensures Tags.Safe(s[i..j])
  {
    Tags.SafeSlice(s, i, j);
  }

  lemma PairOutSafe(s: string, h: Piece, o: string, c: string, b: string, a: string)
    requires h.Hit? && StartsWith(s, h.src) && Tags.Safe(s) && |h.parts| == 1
    requires h.src == o + h.parts[0] + c && h.out == b + h.parts[0] + a
    requires c != [] && !Tags.InnerTagChar(c[0]) && Tags.Safe(b) && Tags.Safe(a)
    ensures Tags.Safe(h.out)
  {
    var g := h.parts[0];
    MiddleOf(s, o, g, c);
    CapturedSafe(s, |o|, |o| + |g|);
    Tags.SafeAppend3(b, g, a);
  }

  lemma BracketOutSafe(s: string, h: Piece, o: string, pre: string, mid: string, post: string)
    requires h.Hit? && StartsWith(s, h.src) && BracketRule(h, o, pre, mid, post) && Tags.Safe(s)
    requires Tags.Safe(pre) && Tags.Safe(mid) && Tags.Safe(post)
    ensures Tags.Safe(h.out)
  {
    var g1, g2 := h.parts[0], h.parts[1];
    assert h.src == o + g1 + ("](" + g2 + ")");
    MiddleOf(s, o, g1, "](" + g2 + ")");
    assert h.src == (o + g1 + "](") + g2 + ")";
    MiddleOf(s, o + g1 + "](", g2, ")");
    CapturedSafe(s, |o|, |o| + |g1|);
    CapturedSafe(s, |o| + |g1| + 2, |o| + |g1| + 2 + |g2|);
    Tags.SafeAppend3(pre, g2, mid);
    Tags.SafeAppend3(pre + g2 + mid, g1, post);
  }

  lemma HeadingTagsSafe(level: nat)
    requires 1 <= level <= 6
    ensures Tags.Safe("<h" + [LevelDigit(level)] + ">") && Tags.Safe("</h" + [LevelDigit(level)] + ">")
  {
    var n := "h" + [LevelDigit(level)];
    assert n in Tags.Names by {
      if level == 1 { assert n == "h1"; }
      else if level == 2 { assert n == "h2"; }
      else if level == 3 { assert n == "h3"; }
      else if level == 4 { assert n == "h4"; }
      else if level == 5 { assert n == "h5"; }
      else { assert n == "h6"; }
    }
    Tags.NamedTagsAreSafe(n);
    assert "<" + n + ">" == "<h" + [LevelDigit(level)] + ">";
    assert "</" + n + ">" == "</h" + [LevelDigit(level)] + ">";
  }

  lemma HeadingOutSafe(s: string, h: Piece)
    requires h.Hit? && StartsWith(s, h.src) && HeadingRule(h) && Tags.Safe(s)
    requires |h.src| == |s| || s[|h.src|] == '\n'
    ensures Tags.Safe(h.out)
  {
    var ps := h.parts;
    var level := |ps[0]|;
    MiddleOf(s, ps[0] + ps[1], ps[2], []);
    assert h.src == ps[0] + ps[1] + ps[2] + [];
    CapturedSafe(s, |ps[0]| + |ps[1]|, |h.src|);
    HeadingTagsSafe(level);
    var d := [LevelDigit(level)];
    Tags.SafeAppend3("<h" + d + ">", ps[2], "</h" + d + ">");
    assert HeadingHtml(level, ps[2]) == ("<h" + d + ">") + ps[2] + ("</h" + d + ">");
  }

  lemma ItemTagsSafe()
    ensures Tags.Safe("<li>") && Tags.Safe("</li>")
  {
    Tags.NamedTagsAreSafe("li");
    assert "<" + "li" + ">" == "<li>";
    assert "</" + "li" + ">" == "</li>";
  }

  lemma ItemOutSafe(s: string, h: Piece, numbered: bool)
    requires h.Hit? && StartsWith(s, h.src) && ListRule(h, numbered) && Tags.Safe(s)
    requires |h.src| == |s| || s[|h.src|] == '\n'
    ensures Tags.Safe(h.out)
  {
    var ps := h.parts;
    assert h.src == ps[0] + ps[1] + ps[2] + ps[3] + [];
    MiddleOf(s, ps[0] + ps[1] + ps[2], ps[3], []);
    CapturedSafe(s, |ps[0]| + |ps[1]| + |ps[2]|, |h.src|);
    ItemTagsSafe();
    Tags.SafeAppend3("<li>", ps[3], "</li>");
  }

  /** One `preg_replace` of a safe pattern keeps a safe text safe. */
  lemma {:induction false} ScanSafe(s: string, bol: bool, pat: Pattern)
    requires ValidPattern(pat) && SafePattern(pat) && Tags.Safe(s)
    ensures Tags.Safe(Render(Scan(s, bol, pat)))
    decreases |s|
  {
    if s != [] {
      var ps := Scan(s, bol, pat);
      ScanStep(s, bol, pat);
      var n := Width(ps[0]);
      Tags.SafeSuffix(s, n);
      ScanSafe(s[n..], ps[0] == Lit('\n'), pat);
      var r := Render(ps[1..]);
      assert Render(ps) == (if ps[0].Lit? then [ps[0].c] else ps[0].out) + r;
      if ps[0].Hit? {
        HitOutSafe(s, bol, pat, ps[0]);
        Tags.SafeAppend(ps[0].out, r);
      } else if s[0] == '<' {
        OpenAngleSafe(s, pat);
      } else {
        Tags.SafeCons(s[0], r);
      }
    }
  }

  /** A `<` the scan keeps is followed, in the output too, by the rest of its tag string. */
  lemma OpenAngleSafe(s: string, pat: Pattern)
    requires ValidPattern(pat) && SafePattern(pat) && Tags.Safe(s) && s != [] && s[0] == '<'
    requires Tags.Safe(Render(Scan(s[1..], false, pat)))
    ensures Tags.Safe([s[0]] + Render(Scan(s[1..], false, pat)))
  {
    var t := Tags.TagStartingAt(s);
    ScanKeepsTagRest(s[1..], t[1..], pat);
    Tags.SafeOpenAngle(t, Render(Scan(s[1..], false, pat)));
  }

  lemma ApplySafe(s: string, pat: Pattern)
    requires ValidPattern(pat) && SafePattern(pat) && Tags.Safe(s)
    ensures Tags.Safe(Apply(s, pat))
  {
    ScanSafe(s, true, pat);
  }

  /** The list wrap puts safe tags at a `<li>` and right after a `</li>`: it cuts no tag. */
  lemma WrapListSafe(s: string, open: string, close: string)
    requires Tags.Safe(s) && Tags.Safe(open) && Tags.Safe(close)
    ensures Tags.Safe(WrapList(s, open, close))
  {
    match ListSpan(s)
    case None =>
    case Some((p, e)) =>
      SpanPartsSafe(s, p, e);
      Tags.SafeAppend3(s[..p], open, s[p..e]);
      Tags.SafeAppend3(s[..p] + open + s[p..e], close, s[e..]);
  }

  /** Before the first `<li>`, the span up to the end of the last `</li>`, and what follows
      are each safe. */
  lemma SpanPartsSafe(s: string, p: nat, e: nat)
    requires Tags.Safe(s) && p + 9 <= e <= |s| && CloseAt(s, p, "<li>") && CloseAt(s, e - 5, "</li>")
    ensures Tags.Safe(s[..p]) && Tags.Safe(s[p..e]) && Tags.Safe(s[e..])
  {
    assert s[p] == s[p..][..4][0];
    Tags.SafePrefix(s, p);
    ClosedPrefixSafe(s, e);
    Tags.SafeSuffix(s[..e], p);
    assert s[..e][p..] == s[p..e];
    Tags.SafeSuffix(s, e);
  }

  /** The text up to the end of a `</li>` is safe. */
  lemma ClosedPrefixSafe(s: string, e: nat)
    requires Tags.Safe(s) && 5 <= e <= |s| && CloseAt(s, e - 5, "</li>")
    ensures Tags.Safe(s[..e])
  {
    var x := s[..e - 5];
    var y := s[e - 5..e];
    assert y == s[e - 5..][..5];
    assert s[e - 5] == y[0];
    Tags.SafePrefix(s, e - 5);
    ItemTagsSafe();
    assert s[..e] == x + y;
    Tags.SafeAppend(x, y);
  }

  /** The replacement texts of the rules, the tags written in them and the list wraps. */
  lemma ReplacementsAreSafe()
    ensures Tags.Safe("<strong>") && Tags.Safe("</strong>") && Tags.Safe("<em>") && Tags.Safe("</em>")
    ensures Tags.Safe("<code>") && Tags.Safe("</code>") && Tags.Safe("<pre><code>") && Tags.Safe("</code></pre>")
    ensures Tags.Safe("<a href=\"") && Tags.Safe("\">") && Tags.Safe("</a>")
    ensures Tags.Safe("<img src=\"") && Tags.Safe("\" alt=\"")
    ensures Tags.Safe("<ul>") && Tags.Safe("</ul>") && Tags.Safe("<ol>") && Tags.Safe("</ol>")
  {
    Tags.ElementTagsAreSafe("strong", "<strong>", "</strong>");
    Tags.ElementTagsAreSafe("em", "<em>", "</em>");
    Tags.ElementTagsAreSafe("code", "<code>", "</code>");
    Tags.ElementTagsAreSafe("pre", "<pre>", "</pre>");
    Tags.SafeAppend("<pre>", "<code>");
    Tags.SafeAppend("</code>", "</pre>");
    assert "<pre>" + "<code>" == "<pre><code>" && "</code>" + "</pre>" == "</code></pre>";
    Tags.AttributeOpensAreSafe();
    Tags.NoAngleIsSafe("\">");
    Tags.ElementTagsAreSafe("a", "<a>", "</a>");
    Tags.NoAngleIsSafe("\" alt=\"");
    Tags.ElementTagsAreSafe("ul", "<ul>", "</ul>");
    Tags.ElementTagsAreSafe("ol", "<ol>", "</ol>");
  }

  /** Every step of either list keeps a safe text safe. */
  lemma StepListsAreSafe()
    ensures forall k :: 0 <= k < |AsWrittenSteps| ==> SafeStep(AsWrittenSteps[k])
    ensures forall k :: 0 <= k < |CorrectedSteps| ==> SafeStep(CorrectedSteps[k])
  {
    ReplacementsAreSafe();
  }

  lemma {:induction false} RunSafe(s: string, steps: seq<Step>)
    requires ValidSteps(steps) && (forall k :: 0 <= k < |steps| ==> SafeStep(steps[k])) && Tags.Safe(s)
    ensures Tags.Safe(Run(s, steps))
    decreases |steps|
  {
    if steps != [] {
      match steps[0] {
        case Replace(pat) => ApplySafe(s, pat);
        case WrapItems(open, close) => WrapListSafe(s, open, close);
      }
      RunSafe(RunStep(s, steps[0]), steps[1..]);
    }
  }

  /** The converter in the source's order lets no raw markup through: every `<` in its
      output begins a tag that one of its steps emits. */
  lemma ToHtmlAsWrittenSafe(md: string)
    ensures Tags.Safe(ToHtmlAsWritten(md))
  {
    var e := Escape.HtmlSpecialChars(md);
    Tags.EscapedIsSafe(md);
    StepListsAreSafe();
    RunSafe(e, AsWrittenSteps);
    Tags.SafeParagraphs(Run(e, AsWrittenSteps));
  }

  /** So does the corrected chain. */
  lemma ToHtmlSafe(md: string)
    ensures Tags.Safe(ToHtml(md))
  {
    var e := Escape.HtmlSpecialChars(md);
    Tags.EscapedIsSafe(md);
    StepListsAreSafe();
    RunSafe(e, CorrectedSteps);
    Tags.SafeParagraphs(Run(e, CorrectedSteps));
  }
}
