/**
 * The persistence store of storage.js: request history, named environments of
 * variables, saved collections and the colour theme, each kept in memory and written
 * back whole to the browser's `localStorage` after every change.
 *
 * `localStorage` is modelled by four `saved*` fields holding the last document written
 * under each key (None while nothing has been written or loaded). Serialisation is not
 * modelled: the document is the value itself. The clock is a parameter.
 */
module Store {
  import opened Wrappers
  import opened JsObject
  import opened Json

  /** What the renderer records of a response (renderer.js lines 605-610). */
  datatype ResponseRecord = ResponseRecord(status: int, statusText: string, headers: Object<string>, body: string)

  /**
   * The argument of `addToHistory`; `verb` is its `method` field. `body` is None when the
   * request had none (`undefined`).
   */
  datatype HistoryRequest = HistoryRequest(
    verb: string, url: string, headers: Object<string>, body: Option<Json>, response: Option<ResponseRecord>)

  /** A history entry: the request plus the clock's reading as `id` and ISO timestamp. */
  datatype HistoryItem = HistoryItem(
    id: int, timestamp: string,
    verb: string, url: string, headers: Object<string>, body: Option<Json>, response: Option<ResponseRecord>)

  /** The longest history `addToHistory` keeps by itself. */
  const MaxHistory: nat := 50

  /** `unshift` the new item, then `pop` once if the list is longer than 50. */
  function Pushed(h: seq<HistoryItem>, x: HistoryItem): (r: seq<HistoryItem>)
    ensures |r| == if |h| < MaxHistory then |h| + 1 else |h|
    ensures r[0] == x
    ensures forall i :: 0 < i < |r| ==> r[i] == h[i - 1]
  {
    var n := [x] + h;
    if |n| > MaxHistory then n[..|n| - 1] else n
  }

  /** A history within the limit stays within it. */
  lemma PushedBound(h: seq<HistoryItem>, x: HistoryItem)
    requires |h| <= MaxHistory
    ensures |Pushed(h, x)| <= MaxHistory
    ensures |h| < MaxHistory ==> Pushed(h, x) == [x] + h
    ensures |h| == MaxHistory ==> Pushed(h, x) == [x] + h[..MaxHistory - 1]
  {
  }

  /** Only one item is dropped: a loaded history over the limit is not cut down to 50. */
  lemma PushedOverLimit(h: seq<HistoryItem>, x: HistoryItem)
    requires |h| > MaxHistory
    ensures |Pushed(h, x)| == |h| > MaxHistory
    ensures Pushed(h, x) == [x] + h[..|h| - 1]
  {
  }

  /** Newest first: ids strictly decrease along the list. */
  predicate NewestFirst(h: seq<HistoryItem>)
  {
    forall i, j :: 0 <= i < j < |h| ==> h[i].id > h[j].id
  }

  /** With a clock that moves forward, the history stays newest first, so its ids are distinct. */
  lemma PushedNewestFirst(h: seq<HistoryItem>, x: HistoryItem)
    requires NewestFirst(h)
    requires forall i :: 0 <= i < |h| ==> h[i].id < x.id
    ensures NewestFirst(Pushed(h, x))
    ensures forall i, j :: 0 <= i < j < |Pushed(h, x)| ==> Pushed(h, x)[i].id != Pushed(h, x)[j].id
  {
    var r := Pushed(h, x);
    forall i, j | 0 <= i < j < |r| ensures r[i].id > r[j].id {
      if i == 0 {
        assert r[j] == h[j - 1];
      } else {
        assert r[i] == h[i - 1] && r[j] == h[j - 1];
      }
    }
  }

  /** Two additions within the same millisecond give two entries with the same id. */
  lemma SameClockSameId(x: HistoryItem, y: HistoryItem)
    requires x.id == y.id
    ensures var h := Pushed(Pushed([], x), y);
      |h| == 2 && h[0].id == h[1].id
  {
  }

  /** `this.environments[name] || {}`: every object is truthy, so a present entry is returned as it is. */
  function EnvironmentOf(envs: Object<Object<string>>, name: string): (r: Object<string>)
    ensures name in Keys(envs) ==> Some(r) == Get(envs, name)
    ensures name !in Keys(envs) ==> r == []
  {
    Get(envs, name).GetOr([])
  }

  /** Adding an environment replaces the named one and leaves the others as they were. */
  lemma EnvironmentAfterAdd(envs: Object<Object<string>>, name: string, vars: Object<string>, other: string)
    requires other != name
    ensures EnvironmentOf(Put(envs, name, vars), name) == vars
    ensures EnvironmentOf(Put(envs, name, vars), other) == EnvironmentOf(envs, other)
  {
    assert Get(Put(envs, name, vars), other) == Get(envs, other);
  }

  /** A deleted environment reads as empty; the others are untouched. */
  lemma EnvironmentAfterDelete(envs: Object<Object<string>>, name: string, other: string)
    requires other != name
    ensures EnvironmentOf(Remove(envs, name), name) == []
    ensures EnvironmentOf(Remove(envs, name), other) == EnvironmentOf(envs, other)
  {
    assert Get(Remove(envs, name), other) == Get(envs, other);
  }

  /** `c.id === id`, with ids compared as values (numbers and strings in practice). */
  predicate HasId(c: Object<Json>, id: Json)
  {
    Get(c, "id") == Some(id)
  }

  /** `{ id: now, ...collection }`. */
  function NewCollection(collection: Object<Json>, now: int): (r: Object<Json>)
    ensures r != [] && r[0].0 == "id"
    ensures UniqueKeys(r)
    ensures forall k :: k in Keys(r) <==> k == "id" || k in Keys(collection)
  {
    var r := Spread([("id", JNum(now))], collection);
    assert Keys([("id", JNum(now))]) == ["id"];
    assert UniqueKeys([("id", JNum(now))]);
    assert Keys(r)[0] == "id";
    r
  }

  /** The generated id, unless the collection brings its own `id`, which wins; every other field is copied. */
  lemma NewCollectionFields(collection: Object<Json>, now: int)
    requires UniqueKeys(collection)
    ensures "id" !in Keys(collection) ==> HasId(NewCollection(collection, now), JNum(now))
    ensures "id" in Keys(collection) ==> Get(NewCollection(collection, now), "id") == Get(collection, "id")
    ensures forall k :: k != "id" ==> Get(NewCollection(collection, now), k) == Get(collection, k)
  {
    var base := [("id", JNum(now))];
    assert Get(base, "id") == Some(JNum(now));
    forall k ensures LastGet(collection, k) == Get(collection, k) {
      LastGetUnique(collection, k);
    }
    forall k | k != "id" ensures Get(base, k) == None {
      assert Keys(base) == ["id"];
    }
  }

  /** `findIndex(c => c.id === id)`: the first collection with that id. */
  function FirstWithId(cs: seq<Object<Json>>, id: Json): (r: Option<nat>)
    ensures r.Some? ==> r.value < |cs| && HasId(cs[r.value], id)
    ensures r.Some? ==> forall j :: 0 <= j < r.value ==> !HasId(cs[j], id)
    ensures r.None? ==> forall j :: 0 <= j < |cs| ==> !HasId(cs[j], id)
  {
    if cs == [] then None
    else if HasId(cs[0], id) then Some(0)
    else
      match FirstWithId(cs[1..], id)
      case None => None
      case Some(i) => Some(i + 1)
  }

  /** `collections.filter(c => c.id !== id)`. */
  function WithoutId(cs: seq<Object<Json>>, id: Json): (r: seq<Object<Json>>)
    ensures |r| <= |cs|
    ensures forall c :: c in r <==> c in cs && !HasId(c, id)
  {
    if cs == [] then []
    else (if HasId(cs[0], id) then [] else [cs[0]]) + WithoutId(cs[1..], id)
  }

  /** The filter keeps the order of what it keeps: it works piece by piece. */
  lemma {:induction false} WithoutIdAppend(a: seq<Object<Json>>, b: seq<Object<Json>>, id: Json)
    ensures WithoutId(a + b, id) == WithoutId(a, id) + WithoutId(b, id)
  {
    if a == [] {
      assert a + b == b;
    } else {
      assert (a + b)[1..] == a[1..] + b;
      WithoutIdAppend(a[1..], b, id);
    }
  }

  /** With no collection carrying the id, deleting changes nothing; deleting twice is deleting once. */
  lemma {:induction false} WithoutIdNoMatch(cs: seq<Object<Json>>, id: Json)
    ensures (forall j :: 0 <= j < |cs| ==> !HasId(cs[j], id)) ==> WithoutId(cs, id) == cs
    ensures WithoutId(WithoutId(cs, id), id) == WithoutId(cs, id)
  {
    if cs != [] {
      WithoutIdNoMatch(cs[1..], id);
      var r := WithoutId(cs, id);
      forall j | 0 <= j < |r| ensures !HasId(r[j], id) {
        assert r[j] in r;
      }
      assert forall j :: 0 <= j < |cs[1..]| ==> cs[1..][j] == cs[j + 1];
      WithoutIdNoMatchAll(r, id);
    }
  }

  lemma {:induction false} WithoutIdNoMatchAll(cs: seq<Object<Json>>, id: Json)
    requires forall j :: 0 <= j < |cs| ==> !HasId(cs[j], id)
    ensures WithoutId(cs, id) == cs
  {
    if cs != [] {
      var tail := cs[1..];
      assert forall j :: 0 <= j < |tail| ==> tail[j] == cs[j + 1];
      WithoutIdNoMatchAll(tail, id);
      assert !HasId(cs[0], id);
      assert WithoutId(cs, id) == [cs[0]] + WithoutId(tail, id);
      assert [cs[0]] + tail == cs;
    }
  }

  /** The theme the store starts with: the stored one, or "light" when none (or an empty one) is stored. */
  function InitialTheme(stored: Option<string>): (t: string)
    ensures t != []
    ensures stored.Some? && stored.value != [] ==> t == stored.value
    ensures !(stored.Some? && stored.value != []) ==> t == "light"
  {
    if stored.Some? && stored.value != [] then stored.value else "light"
  }

  class Storage {
    var history: seq<HistoryItem>
    var environments: Object<Object<string>>
    var collections: seq<Object<Json>>
    var theme: string

    // The documents last written to `localStorage` under requestHistory, environments,
    // collections and theme.
    var savedHistory: Option<seq<HistoryItem>>
    var savedEnvironments: Option<Object<Object<string>>>
    var savedCollections: Option<seq<Object<Json>>>
    var savedTheme: Option<string>

    /** Parsed documents keep their keys unique. */
    predicate Valid()
      reads this
    {
      UniqueKeys(environments) && forall i :: 0 <= i < |collections| ==> UniqueKeys(collections[i])
    }

    /** The stored copy of each store holds the in-memory value. */
    predicate HistorySaved()
      reads this
    {
      savedHistory == Some(history)
    }

    predicate EnvironmentsSaved()
      reads this
    {
      savedEnvironments == Some(environments)
    }

    predicate CollectionsSaved()
      reads this
    {
      savedCollections == Some(collections)
    }

    /** Loading: a missing document gives the empty default; a missing or empty theme gives "light". */
    constructor (storedHistory: Option<seq<HistoryItem>>,
                 storedEnvironments: Option<Object<Object<string>>>,
                 storedCollections: Option<seq<Object<Json>>>,
                 storedTheme: Option<string>)
      requires UniqueKeys(storedEnvironments.GetOr([]))
      requires forall i :: 0 <= i < |storedCollections.GetOr([])| ==> UniqueKeys(storedCollections.GetOr([])[i])
      ensures Valid()
      ensures history == storedHistory.GetOr([])
      ensures environments == storedEnvironments.GetOr([])
      ensures collections == storedCollections.GetOr([])
      ensures theme == InitialTheme(storedTheme)
      ensures savedHistory == storedHistory && savedEnvironments == storedEnvironments
      ensures savedCollections == storedCollections && savedTheme == storedTheme
    {
      history := storedHistory.GetOr([]);
      environments := storedEnvironments.GetOr([]);
      collections := storedCollections.GetOr([]);
      theme := InitialTheme(storedTheme);
      savedHistory := storedHistory;
      savedEnvironments := storedEnvironments;
      savedCollections := storedCollections;
      savedTheme := storedTheme;
    }

    // Request history

    /** Stores the request, stamped with the clock, at the front of the history and returns it. */
    method AddToHistory(request: HistoryRequest, now: int, iso: string) returns (item: HistoryItem)
      modifies this`history, this`savedHistory
      ensures item == HistoryItem(now, iso, request.verb, request.url, request.headers, request.body, request.response)
      ensures history == Pushed(old(history), item)
      ensures HistorySaved()
    {
      item := HistoryItem(now, iso, request.verb, request.url, request.headers, request.body, request.response);
      history := [item] + history;
      if |history| > MaxHistory {
        history := history[..|history| - 1];
      }
      savedHistory := Some(history);
    }

    method GetHistory() returns (h: seq<HistoryItem>)
      ensures h == history
    {
      h := history;
    }

    method ClearHistory()
      modifies this`history, this`savedHistory
      ensures history == [] && HistorySaved()
    {
      history := [];
      savedHistory := Some(history);
    }

    // Environments

    /** `environments[name] = variables`: replaces an existing entry in place, otherwise appends. */
    method AddEnvironment(name: string, variables: Object<string>)
      requires Valid()
      modifies this`environments, this`savedEnvironments
      ensures Valid()
      ensures environments == Put(old(environments), name, variables)
      ensures EnvironmentsSaved()
    {
      environments := Put(environments, name, variables);
      savedEnvironments := Some(environments);
    }

    method GetEnvironment(name: string) returns (variables: Object<string>)
      ensures variables == EnvironmentOf(environments, name)
    {
      variables := Get(environments, name).GetOr([]);
    }

    method GetAllEnvironments() returns (envs: Object<Object<string>>)
      ensures envs == environments
    {
      envs := environments;
    }

    /** `delete environments[name]`, then save, whether or not the name was there. */
    method DeleteEnvironment(name: string)
      requires Valid()
      modifies this`environments, this`savedEnvironments
      ensures Valid()
      ensures environments == Remove(old(environments), name)
      ensures EnvironmentsSaved()
    {
      environments := Remove(environments, name);
      savedEnvironments := Some(environments);
    }

    // Collections

    /** Appends the collection with a generated id in front of its own fields and returns it. */
    method AddCollection(collection: Object<Json>, now: int) returns (item: Object<Json>)
      requires Valid()
      modifies this`collections, this`savedCollections
      ensures Valid()
      ensures item == NewCollection(collection, now)
      ensures collections == old(collections) + [item]
      ensures CollectionsSaved()
    {
      item := Spread([("id", JNum(now))], collection);
      collections := collections + [item];
      savedCollections := Some(collections);
    }

    method GetCollections() returns (cs: seq<Object<Json>>)
      ensures cs == collections
    {
      cs := collections;
    }

    /**
     * Merges `updates` into the first collection with the given id and returns the
     * merged collection; None, with nothing changed or saved, when there is none.
     */
    method UpdateCollection(id: Json, updates: Object<Json>) returns (r: Option<Object<Json>>)
      requires Valid()
      modifies this`collections, this`savedCollections
      ensures Valid()
      ensures FirstWithId(old(collections), id).None? ==>
        r.None? && collections == old(collections) && savedCollections == old(savedCollections)
      ensures FirstWithId(old(collections), id).Some? ==>
        var i := FirstWithId(old(collections), id).value;
        && r == Some(Spread(old(collections)[i], updates))
        && collections == old(collections)[i := Spread(old(collections)[i], updates)]
        && CollectionsSaved()
    {
      var index := FirstWithId(collections, id);
      if index.Some? {
        var i := index.value;
        var merged := Spread(collections[i], updates);
        collections := collections[i := merged];
        savedCollections := Some(collections);
        r := Some(merged);
      } else {
        r := None;
      }
    }

    /** Removes every collection with the given id, keeping the others in order; always saves. */
    method DeleteCollection(id: Json)
      requires Valid()
      modifies this`collections, this`savedCollections
      ensures Valid()
      ensures collections == WithoutId(old(collections), id)
      ensures CollectionsSaved()
    {
      collections := WithoutId(collections, id);
      savedCollections := Some(collections);
      forall i | 0 <= i < |collections| ensures UniqueKeys(collections[i]) {
        assert collections[i] in old(collections);
      }
    }

    // Theme

    method GetTheme() returns (t: string)
      ensures t == theme
    {
      t := theme;
    }

    method SetTheme(t: string)
      modifies this`theme, this`savedTheme
      ensures theme == t && savedTheme == Some(t)
    {
      theme := t;
      savedTheme := Some(t);
    }
  }

  /** The theme survives a restart unless it was set to the empty string, which reloads as "light". */
  lemma ThemeReload(t: string)
    ensures t != [] ==> InitialTheme(Some(t)) == t
    ensures t == [] ==> InitialTheme(Some(t)) == "light"
  {
  }
}
