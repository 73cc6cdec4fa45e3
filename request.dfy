/**
 * How the renderer assembles a request and a new environment from form input:
 * folding the header rows (renderer.js lines 288-295), collecting the variables of a
 * new environment from prompt answers (lines 246-257) and preparing the body
 * (lines 306-317).
 */
module Request {
  import opened Wrappers
  import opened JsObject
  import opened Json
  import opened Store
  import opened Substitution

  /**
   * The entries a loop of `o[key] = value(v)` assignments writes, in order: one for each
   * (key, v) row that `keep` accepts.
   */
  function Assigned(rows: seq<(string, string)>, keep: (string, string) -> bool, value: string -> string): (r: Object<string>)
    ensures |r| <= |rows|
  {
    if rows == [] then []
    else
      var last := rows[|rows| - 1];
      Assigned(rows[..|rows| - 1], keep, value) + (if keep(last.0, last.1) then [(last.0, value(last.1))] else [])
  }

  /** The keys written are the keys of the accepted rows. */
  lemma {:induction false} AssignedKeys(rows: seq<(string, string)>, keep: (string, string) -> bool, value: string -> string, k: string)
    ensures k in Keys(Assigned(rows, keep, value)) <==>
      exists i :: 0 <= i < |rows| && rows[i].0 == k && keep(rows[i].0, rows[i].1)
  {
    if rows != [] {
      var init := rows[..|rows| - 1];
      var last := rows[|rows| - 1];
      AssignedKeys(init, keep, value, k);
      var tail := if keep(last.0, last.1) then [(last.0, value(last.1))] else [];
      assert Keys(Assigned(rows, keep, value)) == Keys(Assigned(init, keep, value)) + Keys(tail);
      if keep(last.0, last.1) {
        assert Keys(tail) == [last.0];
      } else {
        assert Keys(tail) == [];
      }
      if exists i :: 0 <= i < |rows| && rows[i].0 == k && keep(rows[i].0, rows[i].1) {
        var i :| 0 <= i < |rows| && rows[i].0 == k && keep(rows[i].0, rows[i].1);
        if i < |rows| - 1 {
          assert init[i] == rows[i];
        }
      }
      if exists i :: 0 <= i < |init| && init[i].0 == k && keep(init[i].0, init[i].1) {
        var i :| 0 <= i < |init| && init[i].0 == k && keep(init[i].0, init[i].1);
        assert rows[i] == init[i];
      }
      if last.0 == k && keep(last.0, last.1) {
        assert rows[|rows| - 1].0 == k && keep(rows[|rows| - 1].0, rows[|rows| - 1].1);
      }
    }
  }

  /** The value written last for a key is that of the last accepted row with the key. */
  lemma {:induction false} AssignedLastWins(rows: seq<(string, string)>, keep: (string, string) -> bool, value: string -> string, i: nat)
    requires i < |rows| && keep(rows[i].0, rows[i].1)
    requires forall j :: i < j < |rows| ==> !(rows[j].0 == rows[i].0 && keep(rows[j].0, rows[j].1))
    ensures LastGet(Assigned(rows, keep, value), rows[i].0) == Some(value(rows[i].1))
  {
    var init := rows[..|rows| - 1];
    var last := rows[|rows| - 1];
    var tail := if keep(last.0, last.1) then [(last.0, value(last.1))] else [];
    var r := Assigned(rows, keep, value);
    assert r == Assigned(init, keep, value) + tail;
    if i < |rows| - 1 {
      AssignedLastWins(init, keep, value, i);
      if tail == [] {
        assert r == Assigned(init, keep, value);
      } else {
        assert r[..|r| - 1] == Assigned(init, keep, value);
      }
    }
  }

  /**
   * Folding assignments into an empty object: keys unique, each in the position its
   * first accepted row gives it, with the value of its last accepted row.
   */
  function Fold(rows: seq<(string, string)>, keep: (string, string) -> bool, value: string -> string): (r: Object<string>)
    ensures UniqueKeys(r)
    ensures forall k :: Get(r, k) == LastGet(Assigned(rows, keep, value), k)
  {
    Spread([], Assigned(rows, keep, value))
  }

  /** One more row: one more assignment, or none when the row is not accepted. */
  lemma AssignedStep(rows: seq<(string, string)>, keep: (string, string) -> bool, value: string -> string, i: nat)
    requires i < |rows|
    ensures Spread([], Assigned(rows[..i + 1], keep, value)) ==
      if keep(rows[i].0, rows[i].1) then Put(Spread([], Assigned(rows[..i], keep, value)), rows[i].0, value(rows[i].1))
      else Spread([], Assigned(rows[..i], keep, value))
  {
    var u := Assigned(rows[..i], keep, value);
    assert rows[..i + 1][..i] == rows[..i];
    if keep(rows[i].0, rows[i].1) {
      var e := (rows[i].0, value(rows[i].1));
      assert Assigned(rows[..i + 1], keep, value) == u + [e];
      assert (u + [e])[..|u|] == u;
    } else {
      assert Assigned(rows[..i + 1], keep, value) == u;
    }
  }

  /** Later rows never move keys already placed. */
  lemma FoldKeysStay(rows: seq<(string, string)>, keep: (string, string) -> bool, value: string -> string, n: nat)
    requires n <= |rows|
    ensures Keys(Fold(rows[..n], keep, value)) <= Keys(Fold(rows, keep, value))
  {
    var u := Assigned(rows, keep, value);
    var m := AssignedPrefix(rows, keep, value, n);
    SpreadKeysGrow([], u, m);
  }

  lemma {:induction false} AssignedPrefix(rows: seq<(string, string)>, keep: (string, string) -> bool, value: string -> string, n: nat)
    returns (m: nat)
    requires n <= |rows|
    ensures m <= |Assigned(rows, keep, value)|
    ensures Assigned(rows[..n], keep, value) == Assigned(rows, keep, value)[..m]
  {
    if n == |rows| {
      assert rows[..n] == rows;
      m := |Assigned(rows, keep, value)|;
    } else {
      var init := rows[..|rows| - 1];
      assert rows[..n] == init[..n];
      m := AssignedPrefix(init, keep, value, n);
    }
  }

  // Header rows

  /** A header row counts when its key input is non-empty. */
  predicate KeepHeader(key: string, value: string)
  {
    key != []
  }

  /** `headers[key] = replaceEnvironmentVariables(value)` for each row with a key, in order. */
  function Headers(rows: seq<(string, string)>, activeEnv: string, envs: Object<Object<string>>): Object<string>
  {
    Fold(rows, KeepHeader, v => ReplaceEnvironmentVariables(v, activeEnv, envs))
  }

  /** The header-collecting `forEach`. */
  method CollectHeaders(rows: seq<(string, string)>, activeEnv: string, envs: Object<Object<string>>)
    returns (headers: Object<string>)
    ensures headers == Headers(rows, activeEnv, envs)
  {
    ghost var value := v => ReplaceEnvironmentVariables(v, activeEnv, envs);
    headers := [];
    var i := 0;
    while i < |rows|
      invariant i <= |rows|
      invariant headers == Spread([], Assigned(rows[..i], KeepHeader, value))
    {
      var (key, text) := rows[i];
      AssignedStep(rows, KeepHeader, value, i);
      if key != [] {
        headers := Put(headers, key, ReplaceEnvironmentVariables(text, activeEnv, envs));
      }
      i := i + 1;
    }
    assert rows[..i] == rows;
  }

  /**
   * The folded headers: exactly the non-empty keys of the rows, each once; a key's value
   * is the substituted value of its last row; the key itself is not substituted.
   */
  lemma HeadersMeaning(rows: seq<(string, string)>, activeEnv: string, envs: Object<Object<string>>, k: string)
    ensures UniqueKeys(Headers(rows, activeEnv, envs))
    ensures k in Keys(Headers(rows, activeEnv, envs)) <==> k != [] && exists i :: 0 <= i < |rows| && rows[i].0 == k
  {
    var value := v => ReplaceEnvironmentVariables(v, activeEnv, envs);
    AssignedKeys(rows, KeepHeader, value, k);
  }

  lemma HeadersLastRowWins(rows: seq<(string, string)>, activeEnv: string, envs: Object<Object<string>>, i: nat)
    requires i < |rows| && rows[i].0 != []
    requires forall j :: i < j < |rows| ==> rows[j].0 != rows[i].0
    ensures Get(Headers(rows, activeEnv, envs), rows[i].0) == Some(ReplaceEnvironmentVariables(rows[i].1, activeEnv, envs))
  {
    var value := v => ReplaceEnvironmentVariables(v, activeEnv, envs);
    AssignedLastWins(rows, KeepHeader, value, i);
  }

  // Variables of a new environment

  /** A prompted variable is stored when both its name and its value are non-empty. */
  predicate KeepVariable(key: string, value: string)
  {
    key != [] && value != []
  }

  function Verbatim(v: string): string
  {
    v
  }

  /** The `while (addMore)` loop: `answers[i]` is the name and value given in round i ("" for a cancelled prompt). */
  method CollectVariables(answers: seq<(string, string)>) returns (variables: Object<string>)
    ensures variables == Fold(answers, KeepVariable, Verbatim)
  {
    variables := [];
    var i := 0;
    while i < |answers|
      invariant i <= |answers|
      invariant variables == Spread([], Assigned(answers[..i], KeepVariable, Verbatim))
    {
      var (key, value) := answers[i];
      AssignedStep(answers, KeepVariable, Verbatim, i);
      if key != [] {
        if value != [] {
          variables := Put(variables, key, value);
        }
      }
      i := i + 1;
    }
    assert answers[..i] == answers;
  }

  /** The new environment holds exactly the answered names with a value; the last answer for a name wins. */
  lemma VariablesMeaning(answers: seq<(string, string)>, k: string)
    ensures UniqueKeys(Fold(answers, KeepVariable, Verbatim))
    ensures k in Keys(Fold(answers, KeepVariable, Verbatim)) <==>
      exists i :: 0 <= i < |answers| && answers[i].0 == k && k != [] && answers[i].1 != []
  {
    AssignedKeys(answers, KeepVariable, Verbatim, k);
  }

  lemma VariablesLastAnswerWins(answers: seq<(string, string)>, i: nat)
    requires i < |answers| && answers[i].0 != [] && answers[i].1 != []
    requires forall j :: i < j < |answers| ==> !(answers[j].0 == answers[i].0 && answers[j].1 != [])
    ensures Get(Fold(answers, KeepVariable, Verbatim), answers[i].0) == Some(answers[i].1)
  {
    AssignedLastWins(answers, KeepVariable, Verbatim, i);
  }

  /** The add-environment handler: nothing happens without a name; otherwise the collected variables are stored under it. */
  method AddEnvironmentFromPrompts(store: Storage, name: string, answers: seq<(string, string)>)
    requires store.Valid()
    modifies store`environments, store`savedEnvironments
    ensures store.Valid()
    ensures name == [] ==> store.environments == old(store.environments) && store.savedEnvironments == old(store.savedEnvironments)
    ensures name != [] ==>
      store.environments == Put(old(store.environments), name, Fold(answers, KeepVariable, Verbatim)) && store.EnvironmentsSaved()
  {
    if name != [] {
      var variables := CollectVariables(answers);
      store.AddEnvironment(name, variables);
    }
  }

  // Body

  /** The request carries a body unless the method is GET or the body text is empty. */
  predicate HasBody(verb: string, bodyText: string)
  {
    verb != "GET" && bodyText != []
  }

  datatype BodyOutcome = NoBody | JsonBody(value: Json) | InvalidJson

  /** The body: parsed from the substituted text; a parse failure aborts the submission. */
  function PrepareBody(verb: string, bodyText: string, activeEnv: string, envs: Object<Object<string>>,
                       parse: string -> Option<Json>): (r: BodyOutcome)
    ensures r.NoBody? <==> !HasBody(verb, bodyText)
    ensures r.InvalidJson? <==> HasBody(verb, bodyText) && parse(ReplaceEnvironmentVariables(bodyText, activeEnv, envs)).None?
    ensures r.JsonBody? ==> parse(ReplaceEnvironmentVariables(bodyText, activeEnv, envs)) == Some(r.value)
  {
    if HasBody(verb, bodyText) then
      match parse(ReplaceEnvironmentVariables(bodyText, activeEnv, envs))
      case Some(v) => JsonBody(v)
      case None => InvalidJson
    else NoBody
  }
}
