/**
 * `replaceEnvironmentVariables` (renderer.js lines 271-280): every `{{key}}` in a string
 * is replaced by the active environment's value for `key`.
 *
 * The pattern `/\{\{([^}]+)\}\}/g` matches "{{", then a greedy run of one or more
 * characters other than `}`, then "}}". Backtracking cannot help: a shorter run would
 * leave a non-`}` character where `}` is needed. So at a given position there is a match
 * exactly when the maximal run after "{{" is non-empty and "}}" follows it.
 */
module Substitution {
  import opened Wrappers
  import opened JsObject
  import opened Store

  /** Length of the longest prefix of `s` without `}`. */
  function KeyRun(s: string): (n: nat)
    ensures n <= |s|
    ensures forall i :: 0 <= i < n ==> s[i] != '}'
    ensures n < |s| ==> s[n] == '}'
  {
    if s == [] || s[0] == '}' then 0 else 1 + KeyRun(s[1..])
  }

  /** `t` is a whole match of the pattern: "{{", a non-empty key without `}`, "}}". */
  predicate IsPlaceholder(t: string)
  {
    |t| >= 5 && t[..2] == "{{" && t[|t| - 2..] == "}}" && '}' !in t[2..|t| - 2]
  }

  /**
   * The length of the placeholder `{{key}}` at the start of `s`, if one is there: the
   * one prefix of `s` that matches the pattern, and None when no prefix does.
   */
  function PlaceholderAt(s: string): (r: Option<nat>)
    ensures r.Some? ==> 5 <= r.value <= |s|
    ensures forall n :: 0 <= n <= |s| ==> (IsPlaceholder(s[..n]) <==> r == Some(n))
  {
    PlaceholderPrefixes(s);
    if |s| >= 2 && s[0] == '{' && s[1] == '{' then
      var n := KeyRun(s[2..]);
      if n >= 1 && 2 + n + 1 < |s| && s[2 + n + 1] == '}' then Some(n + 4) else None
    else None
  }

  /** Any prefix matching the pattern ends right after the maximal run of non-`}` characters. */
  lemma PlaceholderPrefixes(s: string)
    ensures forall n :: 0 <= n <= |s| && IsPlaceholder(s[..n]) ==>
      |s| >= 2 && s[0] == '{' && s[1] == '{' && KeyRun(s[2..]) == n - 4 && s[n - 1] == '}'
  {
    forall n | 0 <= n <= |s| && IsPlaceholder(s[..n])
      ensures |s| >= 2 && s[0] == '{' && s[1] == '{' && KeyRun(s[2..]) == n - 4 && s[n - 1] == '}'
    {
      PlaceholderPrefix(s, n);
    }
  }

  lemma PlaceholderPrefix(s: string, n: nat)
    requires n <= |s| && IsPlaceholder(s[..n])
    ensures |s| >= 2 && s[0] == '{' && s[1] == '{' && KeyRun(s[2..]) == n - 4 && s[n - 1] == '}'
  {
    var t := s[..n];
    assert s[0] == t[..2][0] && s[1] == t[..2][1];
    assert s[n - 2] == t[n - 2..][0] && s[n - 1] == t[n - 2..][1];
    var key := s[2..n - 2];
    assert forall i :: 0 <= i < |key| ==> key[i] == t[2..n - 2][i];
    assert key == t[2..n - 2];
    assert s[2..] == key + s[n - 2..];
    KeyRunPrefix(key, s[n - 2..]);
  }

  /** The value that replaces `{{key}}`: `variables[key] || match`, so an empty value counts as missing. */
  function Lookup(variables: Object<string>, key: string, matched: string): string
  {
    match Get(variables, key)
    case Some(v) => if v != [] then v else matched
    case None => matched
  }

  /** The global replace: leftmost matches, scanning resumes after each one, replacements are not rescanned. */
  function Substitute(s: string, variables: Object<string>): string
    decreases |s|
  {
    if s == [] then []
    else
      match PlaceholderAt(s)
      case Some(len) =>
        Lookup(variables, s[2..len - 2], s[..len]) + Substitute(s[len..], variables)
      case None => [s[0]] + Substitute(s[1..], variables)
  }

  /** `replaceEnvironmentVariables(str)` with the selected environment name and the store's table. */
  function ReplaceEnvironmentVariables(s: string, activeEnv: string, envs: Object<Object<string>>): (r: string)
    ensures activeEnv == [] ==> r == s
    ensures activeEnv != [] ==> r == Substitute(s, EnvironmentOf(envs, activeEnv))
  {
    if activeEnv == [] then s else Substitute(s, EnvironmentOf(envs, activeEnv))
  }

  /** A well-formed placeholder is recognised with exactly its key. */
  lemma PlaceholderOf(key: string, rest: string)
    requires key != [] && '}' !in key
    ensures var s := "{{" + key + "}}" + rest;
      PlaceholderAt(s) == Some(|key| + 4) && s[2..|key| + 2] == key && s[..|key| + 4] == "{{" + key + "}}"
      && s[|key| + 4..] == rest
  {
    var s := "{{" + key + "}}" + rest;
    KeyRunPrefix(key, "}}" + rest);
    assert s[2..] == key + ("}}" + rest);
  }

  lemma {:induction false} KeyRunPrefix(key: string, rest: string)
    requires '}' !in key && rest != [] && rest[0] == '}'
    ensures KeyRun(key + rest) == |key|
  {
    if key != [] {
      assert (key + rest)[1..] == key[1..] + rest;
      KeyRunPrefix(key[1..], rest);
    } else {
      assert key + rest == rest;
    }
  }

  /**
   * A placeholder whose variable is defined and non-empty is replaced by the value;
   * the value is not scanned again and the text after it is processed on its own.
   */
  lemma SubstitutePlaceholder(key: string, rest: string, variables: Object<string>)
    requires key != [] && '}' !in key
    ensures var v := Get(variables, key);
      Substitute("{{" + key + "}}" + rest, variables) ==
        (if v.Some? && v.value != [] then v.value else "{{" + key + "}}") + Substitute(rest, variables)
  {
    PlaceholderOf(key, rest);
  }

  /** Where no placeholder starts, the character is kept and the scan moves on by one. */
  lemma SubstituteSkip(s: string, variables: Object<string>)
    requires s != [] && PlaceholderAt(s).None?
    ensures Substitute(s, variables) == [s[0]] + Substitute(s[1..], variables)
  {
  }

  /** Text in which no placeholder starts is copied as it is, and the scan resumes after it. */
  lemma SubstitutePrefix(p: string, t: string, variables: Object<string>)
    requires forall i :: 0 <= i < |p| ==> PlaceholderAt((p + t)[i..]).None?
    ensures Substitute(p + t, variables) == p + Substitute(t, variables)
  {
    var s := p + t;
    SubstituteFrom(s, |p|, variables);
    assert s[..|p|] == p && s[|p|..] == t;
  }

  /** No placeholder starts at any of the first `k` positions of `s`. */
  predicate NoPlaceholderBefore(s: string, k: nat)
    requires k <= |s|
  {
    forall i :: 0 <= i < k ==> PlaceholderAt(s[i..]).None?
  }

  lemma {:induction false} SubstituteFrom(s: string, k: nat, variables: Object<string>)
    requires k <= |s| && NoPlaceholderBefore(s, k)
    ensures Substitute(s, variables) == s[..k] + Substitute(s[k..], variables)
  {
    if k == 0 {
      assert s[..0] == [] && s[0..] == s;
    } else {
      SubstituteFrom(s, k - 1, variables);
      assert PlaceholderAt(s[k - 1..]).None?;
      SkipAt(s, k - 1, variables);
      SnocConcat(s, k, Substitute(s[k..], variables));
    }
  }

  lemma SkipAt(s: string, k: nat, variables: Object<string>)
    requires k < |s| && PlaceholderAt(s[k..]).None?
    ensures Substitute(s[k..], variables) == [s[k]] + Substitute(s[k + 1..], variables)
  {
    var u := s[k..];
    SubstituteSkip(u, variables);
    assert u[0] == s[k] && u[1..] == s[k + 1..];
  }

  lemma SnocConcat(s: string, k: nat, x: string)
    requires 0 < k <= |s|
    ensures s[..k - 1] + ([s[k - 1]] + x) == s[..k] + x
  {
    assert s[..k] == s[..k - 1] + [s[k - 1]];
  }

  /**
   * A placeholder after other text: the text before it is copied, the placeholder is
   * replaced (or kept, when its variable is missing or empty), and the scan goes on after it.
   */
  lemma SubstituteInText(p: string, key: string, rest: string, variables: Object<string>)
    requires key != [] && '}' !in key
    requires forall i :: 0 <= i < |p| ==> PlaceholderAt((p + ("{{" + key + "}}" + rest))[i..]).None?
    ensures var v := Get(variables, key);
      Substitute(p + ("{{" + key + "}}" + rest), variables) ==
        p + (if v.Some? && v.value != [] then v.value else "{{" + key + "}}") + Substitute(rest, variables)
  {
    SubstitutePrefix(p, "{{" + key + "}}" + rest, variables);
    SubstitutePlaceholder(key, rest, variables);
  }

  /** `"a{{k}}"` with `k` set to `"v"` gives `"av"`. */
  lemma SubstituteExample()
    ensures Substitute("a{{k}}", [("k", "v")]) == "av"
  {
    var s := "a{{k}}";
    assert s[0..] == s && s[0] == 'a';
    assert s == "a" + ("{{" + "k" + "}}" + []);
    SubstituteInText("a", "k", [], [("k", "v")]);
  }

  /** With no variable holding a non-empty value, every string is left as it is. */
  lemma {:induction false} SubstituteNothingDefined(s: string, variables: Object<string>)
    requires forall k :: Get(variables, k).Some? ==> Get(variables, k).value == []
    ensures Substitute(s, variables) == s
    decreases |s|
  {
    if s != [] {
      match PlaceholderAt(s)
      case Some(len) =>
        SubstituteNothingDefined(s[len..], variables);
        SubstituteAt(s, len, variables);
        LookupKept(variables, s[2..len - 2], s[..len]);
        SplitJoin(s, len);
      case None =>
        SubstituteNothingDefined(s[1..], variables);
        SubstituteSkip(s, variables);
        assert [s[0]] + s[1..] == s;
    }
  }

  /** Where a placeholder starts, its replacement is followed by the rest, scanned on its own. */
  lemma SubstituteAt(s: string, len: nat, variables: Object<string>)
    requires s != [] && PlaceholderAt(s) == Some(len)
    ensures 5 <= len <= |s|
    ensures Substitute(s, variables) == Lookup(variables, s[2..len - 2], s[..len]) + Substitute(s[len..], variables)
  {
  }

  /** A placeholder whose variable is missing or holds the empty string stays as matched. */
  lemma LookupKept(variables: Object<string>, key: string, matched: string)
    requires forall k :: Get(variables, k).Some? ==> Get(variables, k).value == []
    ensures Lookup(variables, key, matched) == matched
  {
    assert Get(variables, key).Some? ==> Get(variables, key).value == [];
  }

  /** Cutting a string at `k` and joining the halves gives it back. */
  lemma SplitJoin(s: string, k: nat)
    requires k <= |s|
    ensures s[..k] + s[k..] == s
  {
  }

  /** An empty environment (the one an unknown name reads as) changes nothing. */
  lemma SubstituteEmptyEnvironment(s: string, envs: Object<Object<string>>, activeEnv: string)
    requires activeEnv !in Keys(envs)
    ensures ReplaceEnvironmentVariables(s, activeEnv, envs) == s
  {
    SubstituteNothingDefined(s, []);
  }

  /** Text without "{{" has no placeholder, so it comes back unchanged whatever the variables. */
  lemma {:induction false} SubstituteLiteral(s: string, variables: Object<string>)
    requires forall i :: 0 <= i < |s| - 1 ==> !(s[i] == '{' && s[i + 1] == '{')
    ensures Substitute(s, variables) == s
    decreases |s|
  {
    if s != [] {
      assert PlaceholderAt(s) == None;
      var t := s[1..];
      assert forall i :: 0 <= i < |t| ==> t[i] == s[i + 1];
      SubstituteLiteral(s[1..], variables);
      assert [s[0]] + s[1..] == s;
    }
  }
}
