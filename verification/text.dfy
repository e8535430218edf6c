/** Character classes, searching and the PHP string primitives the generator relies on:
    trim, strtoupper, str_replace and explode/implode. A PHP string is modelled as a
    sequence of characters, one character per byte. */
module Text {

  datatype Option<T> = None | Some(value: T)

  /** PCRE's `\s` with the default character tables: tab, LF, VT, FF, CR and space. */
  predicate IsSpace(c: char) {
    c == ' ' || c == '\t' || c == '\n' || c == '\U{0B}' || c == '\U{0C}' || c == '\r'
  }

  /** The characters PHP's trim() strips by default: space, tab, LF, CR, NUL and VT. */
  predicate IsTrimmable(c: char) {
    c == ' ' || c == '\t' || c == '\n' || c == '\r' || c == '\0' || c == '\U{0B}'
  }

  predicate AllSpace(t: string) {
    forall k :: 0 <= k < |t| ==> IsSpace(t[k])
  }

  predicate IsDigit(c: char) { '0' <= c <= '9' }

  /** The class `[A-Z0-9_]` of rdrtpl's argument pattern. */
  predicate IsKeyChar(c: char) { 'A' <= c <= 'Z' || IsDigit(c) || c == '_' }

  predicate StartsWith(s: string, p: string) {
    |p| <= |s| && s[..|p|] == p
  }

  predicate EndsWith(s: string, p: string) {
    |p| <= |s| && s[|s| - |p|..] == p
  }

  /** `p` occurs somewhere in `s`. */
  predicate Occurs(s: string, p: string) {
    exists i :: 0 <= i <= |s| - |p| && StartsWith(s[i..], p)
  }

  /** A line starts at `i`: at the beginning of `s` or right after a line feed (PCRE's `^` under /m). */
  predicate LineStart(s: string, i: nat) {
    i == 0 || (0 < i <= |s| && s[i - 1] == '\n')
  }

  /** Length of the current line: the index of the first line feed, or |s| if there is none. */
  function LineLen(s: string): (n: nat)
    ensures n <= |s|
    ensures forall k :: 0 <= k < n ==> s[k] != '\n'
    ensures n < |s| ==> s[n] == '\n'
  {
    if s == [] || s[0] == '\n' then 0 else 1 + LineLen(s[1..])
  }

  /** The rest of the line that starts at `i` (what `(.*?)$` captures under /m). */
  function LineAt(s: string, i: nat): (r: string)
    requires i <= |s|
    ensures '\n' !in r
    ensures StartsWith(s[i..], r)
    ensures i + |r| == |s| || s[i + |r|] == '\n'
  {
    s[i..i + LineLen(s[i..])]
  }

  /** Length of the longest prefix of `s` made of `\s` characters (a greedy `\s*`). */
  function SpaceRun(s: string): (n: nat)
    ensures n <= |s|
    ensures forall k :: 0 <= k < n ==> IsSpace(s[k])
    ensures n < |s| ==> !IsSpace(s[n])
  {
    if s != [] && IsSpace(s[0]) then 1 + SpaceRun(s[1..]) else 0
  }

  /** Length of the longest prefix of `s` made of decimal digits (a greedy `\d*`). */
  function DigitRun(s: string): (n: nat)
    ensures n <= |s|
    ensures forall k :: 0 <= k < n ==> IsDigit(s[k])
    ensures n < |s| ==> !IsDigit(s[n])
  {
    if s != [] && IsDigit(s[0]) then 1 + DigitRun(s[1..]) else 0
  }

  /** Length of the longest prefix of `s` made of `[A-Z0-9_]` characters. */
  function KeyRun(s: string): (n: nat)
    ensures n <= |s|
    ensures forall k :: 0 <= k < n ==> IsKeyChar(s[k])
    ensures n < |s| ==> !IsKeyChar(s[n])
  {
    if s != [] && IsKeyChar(s[0]) then 1 + KeyRun(s[1..]) else 0
  }

  /** The lazy group `(.*?)` followed by the literal `close`: the least `j` such that `close`
      starts at `s[j..]` and the group `s[..j]` does not cross a line feed (unless /s is set). */
  function FindClose(s: string, close: string, dotAll: bool): (r: Option<nat>)
    ensures r.Some? ==> r.value + |close| <= |s| && StartsWith(s[r.value..], close)
    ensures r.Some? ==> forall k :: 0 <= k < r.value ==> !StartsWith(s[k..], close)
    ensures r.Some? && !dotAll ==> '\n' !in s[..r.value]
    ensures r.None? ==> forall k :: 0 <= k <= |s| && (dotAll || '\n' !in s[..k]) ==> !StartsWith(s[k..], close)
  {
    FindCloseFrom(s, close, dotAll, 0)
  }

  function FindCloseFrom(s: string, close: string, dotAll: bool, i: nat): (r: Option<nat>)
    requires i <= |s|
    requires dotAll || '\n' !in s[..i]
    ensures r.Some? ==> i <= r.value && r.value + |close| <= |s| && StartsWith(s[r.value..], close)
    ensures r.Some? ==> forall k :: i <= k < r.value ==> !StartsWith(s[k..], close)
    ensures r.Some? && !dotAll ==> '\n' !in s[..r.value]
    ensures r.None? ==> forall k :: i <= k <= |s| && (dotAll || '\n' !in s[..k]) ==> !StartsWith(s[k..], close)
    decreases |s| - i
  {
    if StartsWith(s[i..], close) then Some(i)
    else if i == |s| then None
    else if !dotAll && s[i] == '\n' then
      assert forall k :: i < k <= |s| ==> s[..k][i] == '\n';
      None
    else
      assert dotAll || s[..i + 1] == s[..i] + [s[i]];
      FindCloseFrom(s, close, dotAll, i + 1)
  }

  /** The least position `j` at which `close` starts and before which no line feed
      lies (unless /s) is what FindClose finds. */
  lemma FindCloseAt(s: string, close: string, dotAll: bool, j: nat)
    requires j + |close| <= |s| && StartsWith(s[j..], close)
    requires dotAll || '\n' !in s[..j]
    requires forall k :: 0 <= k < j ==> !StartsWith(s[k..], close)
    ensures FindClose(s, close, dotAll) == Some(j)
  {
  }

  /** The last position where `p` starts in `s`. */
  function FindLast(s: string, p: string): (r: Option<nat>)
    ensures r.Some? ==> r.value + |p| <= |s| && StartsWith(s[r.value..], p)
    ensures r.Some? ==> forall k :: r.value < k <= |s| ==> !StartsWith(s[k..], p)
    ensures r.None? ==> forall k :: 0 <= k <= |s| ==> !StartsWith(s[k..], p)
  {
    FindLastUpTo(s, p, |s|)
  }

  function FindLastUpTo(s: string, p: string, n: nat): (r: Option<nat>)
    requires n <= |s|
    ensures r.Some? ==> r.value <= n && r.value + |p| <= |s| && StartsWith(s[r.value..], p)
    ensures r.Some? ==> forall k :: r.value < k <= n ==> !StartsWith(s[k..], p)
    ensures r.None? ==> forall k :: 0 <= k <= n ==> !StartsWith(s[k..], p)
  {
    if StartsWith(s[n..], p) then Some(n)
    else if n == 0 then None
    else FindLastUpTo(s, p, n - 1)
  }

  /** PHP's trim() with its default character list: what is left once the leading
      run of trim characters and then the trailing run are cut off. */
  function Trim(s: string): (r: string)
    ensures LeadingTrim(s) + |r| <= |s| && r == s[LeadingTrim(s)..LeadingTrim(s) + |r|]
    ensures forall k :: LeadingTrim(s) + |r| <= k < |s| ==> IsTrimmable(s[k])
    ensures r != [] ==> !IsTrimmable(r[0]) && !IsTrimmable(r[|r| - 1])
  {
    var l := TrimLeft(s);
    var r := TrimRight(l);
    assert forall k :: LeadingTrim(s) + |r| <= k < |s| ==> s[k] == l[k - LeadingTrim(s)];
    r
  }

  /** The number of trim characters `s` starts with. */
  function LeadingTrim(s: string): (n: nat)
    ensures n <= |s|
    ensures forall k :: 0 <= k < n ==> IsTrimmable(s[k])
    ensures n < |s| ==> !IsTrimmable(s[n])
  {
    if s != [] && IsTrimmable(s[0]) then 1 + LeadingTrim(s[1..]) else 0
  }

  /** The left half of trim(): `s` without its leading trim characters. */
  function TrimLeft(s: string): (r: string)
    ensures |r| <= |s| && r == s[|s| - |r|..]
    ensures forall k :: 0 <= k < |s| - |r| ==> IsTrimmable(s[k])
    ensures r != [] ==> !IsTrimmable(r[0])
  {
    s[LeadingTrim(s)..]
  }

  function TrimRight(s: string): (r: string)
    ensures |r| <= |s| && r == s[..|r|]
    ensures forall k :: |r| <= k < |s| ==> IsTrimmable(s[k])
    ensures r != [] ==> !IsTrimmable(r[|r| - 1])
  {
    if s != [] && IsTrimmable(s[|s| - 1]) then TrimRight(s[..|s| - 1]) else s
  }

  /** PHP's strtoupper(): ASCII letters only, every other character unchanged. */
  function ToUpper(s: string): (r: string)
    ensures |r| == |s|
    ensures forall k :: 0 <= k < |s| ==>
              r[k] == (if 'a' <= s[k] <= 'z' then s[k] - 'a' + 'A' else s[k])
  {
    if s == [] then []
    else [if 'a' <= s[0] <= 'z' then s[0] - 'a' + 'A' else s[0]] + ToUpper(s[1..])
  }

  lemma ToUpperIdempotent(s: string)
    ensures ToUpper(ToUpper(s)) == ToUpper(s)
  {
  }

  /** PHP's str_replace() for one search string: scans left to right, replaces each
      non-overlapping occurrence of `p` by `v`, and never rescans the inserted `v`.
      An empty search string leaves the subject unchanged, as in PHP. */
  function ReplaceAll(s: string, p: string, v: string): (r: string)
    ensures p == [] || v == p ==> r == s
    decreases |s|
  {
    if s == [] then []
    else if p != [] && StartsWith(s, p) then v + ReplaceAll(s[|p|..], p, v)
    else [s[0]] + ReplaceAll(s[1..], p, v)
  }

  /** PHP's explode(): the pieces of `s` between the leftmost non-overlapping occurrences of `p`. */
  function Explode(s: string, p: string): (r: seq<string>)
    requires p != []
    ensures |r| >= 1
    decreases |s|
  {
    if s == [] then [[]]
    else if StartsWith(s, p) then [[]] + Explode(s[|p|..], p)
    else
      var rest := Explode(s[1..], p);
      [[s[0]] + rest[0]] + rest[1..]
  }

  lemma ExplodeAtSeparator(s: string, p: string)
    requires p != [] && s != [] && StartsWith(s, p)
    ensures Explode(s, p) == [[]] + Explode(s[|p|..], p)
  {
  }

  lemma ExplodeKeepsFirst(s: string, p: string)
    requires p != [] && s != [] && !StartsWith(s, p)
    ensures Explode(s, p) == [[s[0]] + Explode(s[1..], p)[0]] + Explode(s[1..], p)[1..]
  {
  }

  /** PHP's implode(): the pieces joined with `sep` between consecutive ones. */
  function Implode(parts: seq<string>, sep: string): string
  {
    if parts == [] then []
    else if |parts| == 1 then parts[0]
    else parts[0] + sep + Implode(parts[1..], sep)
  }

  lemma ImplodeConsHead(c: char, parts: seq<string>, sep: string)
    requires parts != []
    ensures Implode([[c] + parts[0]] + parts[1..], sep) == [c] + Implode(parts, sep)
  {
    var ps := [[c] + parts[0]] + parts[1..];
    assert ps[1..] == parts[1..];
  }

  lemma ImplodeConsEmpty(parts: seq<string>, sep: string)
    requires parts != []
    ensures Implode([[]] + parts, sep) == sep + Implode(parts, sep)
  {
    assert ([[]] + parts)[1..] == parts;
  }

  /** str_replace is implode(v, explode(p, s)): every occurrence found by the left-to-right
      scan is replaced, and nothing else changes. */
  lemma {:induction false} ReplaceAllIsImplodeExplode(s: string, p: string, v: string)
    requires p != []
    ensures ReplaceAll(s, p, v) == Implode(Explode(s, p), v)
    decreases |s|
  {
    if s == [] {
    } else if StartsWith(s, p) {
      ReplaceAllIsImplodeExplode(s[|p|..], p, v);
      var rest := Explode(s[|p|..], p);
      assert Explode(s, p) == [[]] + rest;
      assert ([[]] + rest)[1..] == rest;
    } else {
      ReplaceAllIsImplodeExplode(s[1..], p, v);
      ImplodeConsHead(s[0], Explode(s[1..], p), v);
    }
  }

  /** explode is undone by implode with the same separator. */
  lemma {:induction false} ImplodeExplode(s: string, p: string)
    requires p != []
    ensures Implode(Explode(s, p), p) == s
    decreases |s|
  {
    if s == [] {
    } else if StartsWith(s, p) {
      var t := s[|p|..];
      ImplodeExplode(t, p);
      ExplodeAtSeparator(s, p);
      ImplodeConsEmpty(Explode(t, p), p);
      assert s == p + t;
    } else {
      var t := s[1..];
      ImplodeExplode(t, p);
      ExplodeKeepsFirst(s, p);
      ImplodeConsHead(s[0], Explode(t, p), p);
      assert s == [s[0]] + t;
    }
  }

  /** `p` occurs in a non-empty `s` exactly when it starts `s` or occurs in its tail. */
  lemma OccursStep(s: string, p: string)
    requires s != []
    ensures Occurs(s, p) <==> StartsWith(s, p) || Occurs(s[1..], p)
  {
    if Occurs(s, p) {
      OccursHeadOrTail(s, p);
    }
    if StartsWith(s, p) {
      assert s[0..] == s;
      assert StartsWith(s[0..], p);
    }
    if Occurs(s[1..], p) {
      OccursInTail(s, p);
    }
  }

  lemma OccursHeadOrTail(s: string, p: string)
    requires s != [] && Occurs(s, p)
    ensures StartsWith(s, p) || Occurs(s[1..], p)
  {
    var i :| 0 <= i <= |s| - |p| && StartsWith(s[i..], p);
    if i == 0 {
      assert s[0..] == s;
    } else {
      assert s[i..] == s[1..][i - 1..];
      assert StartsWith(s[1..][i - 1..], p);
    }
  }

  lemma OccursInTail(s: string, p: string)
    requires s != [] && Occurs(s[1..], p)
    ensures Occurs(s, p)
  {
    var i :| 0 <= i <= |s[1..]| - |p| && StartsWith(s[1..][i..], p);
    assert s[1..][i..] == s[i + 1..];
    assert StartsWith(s[i + 1..], p);
  }

  /** No piece produced by explode contains the separator. */
  lemma {:induction false} ExplodePiecesFree(s: string, p: string)
    requires p != []
    ensures forall k :: 0 <= k < |Explode(s, p)| ==> !Occurs(Explode(s, p)[k], p)
    decreases |s|
  {
    if s == [] {
      assert !Occurs([], p);
    } else if StartsWith(s, p) {
      ExplodePiecesFree(s[|p|..], p);
      var rest := Explode(s[|p|..], p);
      assert !Occurs([], p);
      forall k | 0 <= k < |[[]] + rest| ensures !Occurs(([[]] + rest)[k], p) {
        if k > 0 { assert ([[]] + rest)[k] == rest[k - 1]; }
      }
    } else {
      ExplodePiecesFree(s[1..], p);
      var rest := Explode(s[1..], p);
      var head := [s[0]] + rest[0];
      ExplodeHeadIsPrefix(s[1..], p);
      assert head == s[..|head|];
      if |p| <= |head| { assert head[..|p|] == s[..|p|]; }
      OccursStep(head, p);
      assert head[1..] == rest[0];
      assert !Occurs(head, p);
      forall k | 0 <= k < |[head] + rest[1..]| ensures !Occurs(([head] + rest[1..])[k], p) {
        if k > 0 { assert ([head] + rest[1..])[k] == rest[k]; }
      }
    }
  }

  lemma {:induction false} ExplodeHeadIsPrefix(s: string, p: string)
    requires p != []
    ensures |Explode(s, p)[0]| <= |s| && Explode(s, p)[0] == s[..|Explode(s, p)[0]|]
    decreases |s|
  {
    if s != [] && !StartsWith(s, p) {
      ExplodeHeadIsPrefix(s[1..], p);
    }
  }

  /** A string is absent when one of its characters is. */
  lemma AbsentChar(s: string, p: string, k: nat)
    requires k < |p| && p[k] !in s
    ensures !Occurs(s, p)
  {
  }

  /** A subject in which the search string does not occur comes back unchanged. */
  lemma {:induction false} ReplaceAllAbsent(s: string, p: string, v: string)
    requires !Occurs(s, p)
    ensures ReplaceAll(s, p, v) == s
    decreases |s|
  {
    if s != [] {
      OccursStep(s, p);
      ReplaceAllAbsent(s[1..], p, v);
    }
  }
}
