/** schachtel/rdrtpl.php: the standalone renderer. Every argument from the third on that
    reads `KEY=<base64>` puts `{{KEY}}` => the decoded value into a map, and the template is
    rewritten by one strtr() pass over that map. */
module Rdrtpl {
  import opened Text
  import Template

  /** The group `([A-Z0-9_]+)` of the argument pattern. */
  predicate IsKey(key: string) {
    key != [] && forall k :: 0 <= k < |key| ==> IsKeyChar(key[k])
  }

  /** The map key the script builds for `key`. */
  function TokenOf(key: string): string {
    "{{" + key + "}}"
  }

  /** What a map key looks like: `{{`, one or more key characters, `}}`. */
  predicate IsToken(t: string) {
    |t| >= 5 && t[..2] == "{{" && t[|t| - 2..] == "}}" && forall k :: 2 <= k < |t| - 2 ==> IsKeyChar(t[k])
  }

  lemma TokenOfIsToken(key: string)
    requires IsKey(key)
    ensures IsToken(TokenOf(key))
  {
    var t := TokenOf(key);
    forall k | 2 <= k < |t| - 2 ensures IsKeyChar(t[k]) {
      assert t[k] == key[k - 2];
    }
  }

  /** Different keys give different map keys. */
  lemma TokenOfInjective(a: string, b: string)
    ensures TokenOf(a) == TokenOf(b) <==> a == b
  {
    assert a == TokenOf(a)[2..|a| + 2];
    assert b == TokenOf(b)[2..|b| + 2];
  }

  /** `/^([A-Z0-9_]+)=(.*)$/` on one argument: the key and the still encoded value. `.` does
      not match a line feed, and `$` matches at the end or before a final line feed. */
  function ArgMatch(arg: string): (r: Option<(string, string)>)
    ensures r.Some? ==> IsKey(r.value.0) && '\n' !in r.value.1
    ensures r.Some? ==> arg == r.value.0 + "=" + r.value.1 || arg == r.value.0 + "=" + r.value.1 + "\n"
  {
    var n := KeyRun(arg);
    if n == 0 || n == |arg| || arg[n] != '=' then None
    else
      var rest := arg[n + 1..];
      var m := LineLen(rest);
      if m + 1 < |rest| then None
      else
        ArgShape(arg, n, rest, m);
        Some((arg[..n], rest[..m]))
  }

  /** How a matching argument splits into key, `=`, value and an optional final line feed. */
  lemma ArgShape(arg: string, n: nat, rest: string, m: nat)
    requires 0 < n < |arg| && arg[n] == '=' && forall k :: 0 <= k < n ==> IsKeyChar(arg[k])
    requires rest == arg[n + 1..] && m <= |rest| && |rest| <= m + 1
    requires forall k :: 0 <= k < m ==> rest[k] != '\n'
    requires m < |rest| ==> rest[m] == '\n'
    ensures IsKey(arg[..n]) && '\n' !in rest[..m]
    ensures arg == arg[..n] + "=" + rest[..m] || arg == arg[..n] + "=" + rest[..m] + "\n"
  {
    assert arg == arg[..n] + "=" + rest;
    if m < |rest| {
      assert rest == rest[..m] + "\n";
    } else {
      assert rest == rest[..m];
    }
  }

  /** LineLen stops at the first line feed. */
  lemma {:induction false} LineLenIs(s: string, n: nat)
    requires n <= |s| && (forall k :: 0 <= k < n ==> s[k] != '\n') && (n < |s| ==> s[n] == '\n')
    ensures LineLen(s) == n
    decreases n
  {
    if n > 0 {
      LineLenIs(s[1..], n - 1);
    }
  }

  /** KeyRun is the length of the key-character prefix. */
  lemma {:induction false} KeyRunIs(s: string, n: nat)
    requires n <= |s| && (forall k :: 0 <= k < n ==> IsKeyChar(s[k])) && (n < |s| ==> !IsKeyChar(s[n]))
    ensures KeyRun(s) == n
    decreases n
  {
    if n > 0 {
      KeyRunIs(s[1..], n - 1);
    }
  }

  /** Every argument of the form `KEY=value`, with or without one final line feed, matches
      with that key and value. */
  lemma ArgMatchComplete(key: string, value: string, nl: bool)
    requires IsKey(key) && '\n' !in value
    ensures ArgMatch(key + "=" + value + (if nl then "\n" else "")) == Some((key, value))
  {
    var arg := key + "=" + value + (if nl then "\n" else "");
    var n := |key|;
    assert arg[n] == '=';
    KeyRunIs(arg, n);
    assert arg[..n] == key;
    var rest := arg[n + 1..];
    assert rest == value + (if nl then "\n" else "");
    assert forall k :: 0 <= k < |value| ==> rest[k] == value[k];
    LineLenIs(rest, |value|);
    var m := LineLen(rest);
    assert rest[..m] == value;
    if nl {
      assert m == |rest| - 1;
      assert ArgMatch(arg) == Some((arg[..n], rest[..m]));
    } else {
      assert rest == value;
      assert ArgMatch(arg) == Some((arg[..n], rest));
    }
  }

  /** The argument supplies `key`. */
  predicate Supplies(arg: string, key: string) {
    ArgMatch(arg).Some? && ArgMatch(arg).value.0 == key
  }

  /** The map after the loop has seen the arguments `args`, in order. */
  function VarsOf(args: seq<string>, decode: string -> string): (r: map<string, string>)
    ensures |r| <= |args|
  {
    if args == [] then map[]
    else VarsStep(VarsOf(args[..|args| - 1], decode), args[|args| - 1], decode)
  }

  /** One turn of the loop: a matching argument sets `{{KEY}}` to its decoded value. */
  function VarsStep(vars: map<string, string>, arg: string, decode: string -> string): map<string, string>
  {
    match ArgMatch(arg)
    case Some((key, enc)) => vars[TokenOf(key) := decode(enc)]
    case None => vars
  }

  /** The loop over `$argv` from index 2; `argv[0]` is the script and `argv[1]` the template
      file, both present once the script gets this far. base64_decode is `decode`. */
  method ParseVars(argv: seq<string>, decode: string -> string) returns (vars: map<string, string>)
    requires |argv| >= 2
    ensures vars == VarsOf(argv[2..], decode)
  {
    vars := map[];
    var i := 2;
    while i < |argv|
      invariant 2 <= i <= |argv|
      invariant vars == VarsOf(argv[2..i], decode)
    {
      assert argv[2..i + 1] == argv[2..i] + [argv[i]];
      ghost var before := vars;
      match ArgMatch(argv[i]) {
        case Some((key, enc)) =>
          vars := vars[TokenOf(key) := decode(enc)];
        case None =>
      }
      assert vars == VarsStep(before, argv[i], decode);
      i := i + 1;
    }
    assert argv[2..i] == argv[2..];
  }

  /** Every key of the map is a token `{{KEY}}`. */
  lemma {:induction false} VarsKeysAreTokens(args: seq<string>, decode: string -> string)
    ensures forall t | t in VarsOf(args, decode) :: IsToken(t)
  {
    if args != [] {
      VarsKeysAreTokens(args[..|args| - 1], decode);
      match ArgMatch(args[|args| - 1])
      case Some((key, enc)) =>
        TokenOfIsToken(key);
      case None =>
    }
  }

  /** `{{KEY}}` is in the map exactly when some argument supplies KEY. */
  lemma {:induction false} VarsHasKey(args: seq<string>, decode: string -> string, key: string)
    ensures TokenOf(key) in VarsOf(args, decode) <==> SuppliedIn(args, key)
  {
    if args != [] {
      var init := args[..|args| - 1];
      var last := args[|args| - 1];
      VarsHasKey(init, decode, key);
      SuppliedInSnoc(args, key);
      match ArgMatch(last)
      case Some((k, enc)) =>
        TokenOfInjective(key, k);
      case None =>
    }
  }

  /** Some argument of `args` supplies `key`. */
  predicate SuppliedIn(args: seq<string>, key: string) {
    exists i :: 0 <= i < |args| && Supplies(args[i], key)
  }

  lemma SuppliedInSnoc(args: seq<string>, key: string)
    requires args != []
    ensures SuppliedIn(args, key) <==> SuppliedIn(args[..|args| - 1], key) || Supplies(args[|args| - 1], key)
  {
    var init := args[..|args| - 1];
    if SuppliedIn(args, key) {
      var i :| 0 <= i < |args| && Supplies(args[i], key);
      if i < |init| { assert init[i] == args[i]; }
    }
    if SuppliedIn(init, key) {
      var i :| 0 <= i < |init| && Supplies(init[i], key);
      assert args[i] == init[i];
    }
  }

  /** The value of `{{KEY}}` is the decoding of the last argument that supplies KEY. */
  lemma {:induction false} LastWins(args: seq<string>, decode: string -> string, i: nat, key: string)
    requires i < |args| && Supplies(args[i], key)
    requires forall j :: i < j < |args| ==> !Supplies(args[j], key)
    ensures TokenOf(key) in VarsOf(args, decode)
    ensures VarsOf(args, decode)[TokenOf(key)] == decode(ArgMatch(args[i]).value.1)
  {
    var init := args[..|args| - 1];
    var last := args[|args| - 1];
    if i < |init| {
      assert forall j :: i < j < |init| ==> init[j] == args[j];
      LastWins(init, decode, i, key);
      assert !Supplies(last, key);
      match ArgMatch(last)
      case Some((k, enc)) =>
        TokenOfInjective(k, key);
      case None =>
    }
  }

  /** The longest key of `vars` no longer than `n` that starts `s`. */
  function LongestKey(s: string, vars: map<string, string>, n: nat): (r: Option<string>)
    requires n <= |s|
    ensures r.Some? ==> r.value in vars && 0 < |r.value| <= n && r.value == s[..|r.value|]
    ensures r.Some? ==> forall m :: |r.value| < m <= n ==> s[..m] !in vars
    ensures r.None? ==> forall m :: 0 < m <= n ==> s[..m] !in vars
  {
    if n == 0 then None
    else if s[..n] in vars then Some(s[..n])
    else LongestKey(s, vars, n - 1)
  }

  /** strtr's choice at the start of `s`: the longest non-empty key that starts there. */
  function KeyAt(s: string, vars: map<string, string>): (r: Option<string>)
    ensures r.Some? ==> r.value in vars && r.value != [] && StartsWith(s, r.value)
    ensures r.Some? ==> forall k | k in vars && StartsWith(s, k) :: |k| <= |r.value|
    ensures r.None? ==> forall k | k in vars && k != [] :: !StartsWith(s, k)
  {
    var r := LongestKey(s, vars, |s|);
    LongestKeyIsLongest(s, vars, r);
    r
  }

  lemma LongestKeyIsLongest(s: string, vars: map<string, string>, r: Option<string>)
    requires r == LongestKey(s, vars, |s|)
    ensures r.Some? ==> forall k | k in vars && StartsWith(s, k) :: |k| <= |r.value|
    ensures r.None? ==> forall k | k in vars && k != [] :: !StartsWith(s, k)
  {
    if r.Some? {
      forall k | k in vars && StartsWith(s, k) ensures |k| <= |r.value| {
        assert s[..|k|] == k;
      }
    } else {
      forall k | k in vars && k != [] ensures !StartsWith(s, k) {
        if |k| <= |s| { assert s[..|k|] !in vars; }
      }
    }
  }

  /** strtr($template, $vars): left to right, the longest key at each position is replaced by
      its value and the scan resumes after the key; an inserted value is never searched. */
  function Strtr(s: string, vars: map<string, string>): (r: string)
    ensures (forall k :: k in vars ==> vars[k] == k) ==> r == s
    decreases |s|
  {
    if s == [] then []
    else
      match KeyAt(s, vars)
      case Some(k) => vars[k] + Strtr(s[|k|..], vars)
      case None => [s[0]] + Strtr(s[1..], vars)
  }

  /** The script once its checks have passed: the blank line between the shebang line and
      the opening tag is output as is, then the arguments are parsed and the template is
      echoed after one strtr() pass. */
  method Render(template: string, argv: seq<string>, decode: string -> string) returns (out: string)
    requires |argv| >= 2
    ensures out == "\n" + Strtr(template, VarsOf(argv[2..], decode))
  {
    var vars := ParseVars(argv, decode);
    out := "\n" + Strtr(template, vars);
  }

  /** A template in which no key of the map occurs is echoed unchanged. */
  lemma {:induction false} StrtrWithoutKeys(s: string, vars: map<string, string>)
    requires forall k | k in vars && k != [] :: !Occurs(s, k)
    ensures Strtr(s, vars) == s
    decreases |s|
  {
    if s != [] {
      forall k | k in vars && k != [] ensures !Occurs(s[1..], k) && !StartsWith(s, k) {
        OccursStep(s, k);
      }
      assert KeyAt(s, vars).None?;
      StrtrWithoutKeys(s[1..], vars);
    }
  }

  /** No token is a proper prefix of another: a key character can never be `}`. */
  lemma TokensPrefixFree(a: string, b: string)
    requires IsToken(a) && IsToken(b) && StartsWith(b, a)
    ensures a == b
  {
    assert a[|a| - 2..][0] == '}';
    assert b[|a| - 2] == b[..|a|][|a| - 2] == '}';
    assert !IsKeyChar(b[|a| - 2]);
    assert |a| == |b|;
    assert b == b[..|a|];
  }

  /** Single pass: with token keys, a token of the map is replaced by its value verbatim,
      even when the value holds tokens, and the scan goes on right after it. */
  lemma TokenReplaced(vars: map<string, string>, t: string, rest: string)
    requires forall k | k in vars :: IsToken(k)
    requires t in vars
    ensures Strtr(t + rest, vars) == vars[t] + Strtr(rest, vars)
  {
    var s := t + rest;
    assert s[..|t|] == t;
    match KeyAt(s, vars)
    case Some(k) =>
      assert |t| <= |k|;
      assert k[..|t|] == t;
      TokensPrefixFree(t, k);
      assert s[|t|..] == rest;
    case None =>
      assert false;
  }

  /** Where renderTemplate expands a token that an earlier value inserted, strtr leaves it
      in place. */
  lemma SinglePassUnlikeRenderTemplate()
    ensures Strtr("{{A}}", map["{{A}}" := "{{B}}", "{{B}}" := "x"]) == "{{B}}"
    ensures Template.RenderSeq("{{A}}", [("a", "{{B}}"), ("b", "x")]) == "x"
  {
    var vars := map["{{A}}" := "{{B}}", "{{B}}" := "x"];
    TokenOfIsToken("A");
    TokenOfIsToken("B");
    assert TokenOf("A") == "{{A}}" && TokenOf("B") == "{{B}}";
    TokenReplaced(vars, "{{A}}", []);
    assert "{{A}}" + [] == "{{A}}";
    Template.EarlierValueIsRescanned();
  }
}
