/**
 * A value-level model of the `AssetManager` of bevy-asset-manager: a map from
 * an application key to an asset entry that is either registered by path only
 * (`Lazy`) or holds the handle of a load request already issued (`Loaded`),
 * together with the log of load requests the asset server has received.
 *
 * Every public method of the manager takes the map's write lock once for its
 * whole body, so each one is modelled here as a single atomic step from one
 * `State` to the next. The batch operations are left folds of the single-key
 * step, applied in input order.
 */
module AssetModel {

  datatype Option<T> = None | Some(value: T)

  /** The asset server's opaque handle. `request` is the position, in the
      server's request log, of the load that produced it. Cloning a handle,
      weakly or strongly, gives back the same value. */
  datatype Handle = Handle(request: nat)

  /** The entry of one key: a path not yet loaded, or the handle of the load
      request issued for it. */
  datatype AssetHandle = Lazy(path: string) | Loaded(handle: Handle)

  /** The manager's map and the asset server's log of load requests, oldest first. */
  datatype State<K> = State(assets: map<K, AssetHandle>, loads: seq<string>)

  // ---------------------------------------------------------------------------
  // Invariant and relations between states
  // ---------------------------------------------------------------------------

  /** Every loaded entry holds the handle of a request the server has received,
      and no two keys share a handle. The second half holds because this model
      gives every request its own handle; Bevy's server may return one handle
      for two requests of the same path, so it is a property of the model's
      server, not of the manager. */
  ghost predicate WellFormed<K>(s: State<K>)
  {
    && (forall k | k in s.assets && s.assets[k].Loaded? :: s.assets[k].handle.request < |s.loads|)
    && (forall k, k' | k in s.assets && k' in s.assets && k != k' && s.assets[k].Loaded? && s.assets[k'].Loaded? ::
          s.assets[k].handle != s.assets[k'].handle)
  }

  /** No key is dropped and no load request is forgotten. */
  ghost predicate Grows<K>(s: State<K>, t: State<K>)
  {
    s.assets.Keys <= t.assets.Keys && s.loads <= t.loads
  }

  /** Every lazy entry of `t` was already in `s` with the same path: nothing
      was registered lazily and nothing loaded was turned back into a path. */
  ghost predicate NoNewLazy<K>(s: State<K>, t: State<K>)
  {
    forall k | k in t.assets && t.assets[k].Lazy? :: k in s.assets && s.assets[k] == t.assets[k]
  }

  /** `t` differs from `s` only in lazy entries promoted to loaded and in
      requests appended to the log. */
  ghost predicate Promotes<K>(s: State<K>, t: State<K>)
  {
    && Grows(s, t)
    && t.assets.Keys == s.assets.Keys
    && NoNewLazy(s, t)
    && (forall k | k in s.assets && s.assets[k].Loaded? :: t.assets[k] == s.assets[k])
  }

  lemma PromotesTransitive<K>(s: State<K>, t: State<K>, u: State<K>)
    requires Promotes(s, t) && Promotes(t, u)
    ensures Promotes(s, u)
  {
  }

  // ---------------------------------------------------------------------------
  // Helpers over the batch arguments
  // ---------------------------------------------------------------------------

  /** The keys named by a slice of (key, path) pairs. */
  function KeysOf<K>(pairs: seq<(K, string)>): set<K>
  {
    set i | 0 <= i < |pairs| :: pairs[i].0
  }

  /** The paths of a slice of (key, path) pairs, in order. */
  function PathsOf<K>(pairs: seq<(K, string)>): seq<string>
  {
    seq(|pairs|, i requires 0 <= i < |pairs| => pairs[i].1)
  }

  /** Position `i` holds the last pair given for its key. */
  ghost predicate LastFor<K>(pairs: seq<(K, string)>, i: int)
    requires 0 <= i < |pairs|
  {
    forall j | i < j < |pairs| :: pairs[j].0 != pairs[i].0
  }

  /** The keys among `keys` whose entry in `assets` is still lazy. */
  function LazyKeys<K>(assets: map<K, AssetHandle>, keys: seq<K>): set<K>
  {
    set k | k in assets && k in keys && assets[k].Lazy?
  }

  /** The positions in `keys` whose key has an entry in `assets`, ascending:
      exactly those positions, each once. */
  function PresentPositions<K>(assets: map<K, AssetHandle>, keys: seq<K>): (r: seq<nat>)
    ensures forall i | 0 <= i < |r| :: r[i] < |keys| && keys[r[i]] in assets
    ensures forall i, j | 0 <= i < j < |r| :: r[i] < r[j]
    ensures forall j | 0 <= j < |keys| && keys[j] in assets :: j in r
    decreases |keys|
  {
    if keys == [] then []
    else
      var n := |keys| - 1;
      var p := PresentPositions(assets, keys[..n]);
      if keys[n] in assets then p + [n] else p
  }

  /** The elements of `keys` that have an entry in `assets`, in order, repeats
      kept: the keys at the present positions, in ascending position order. */
  function Present<K>(assets: map<K, AssetHandle>, keys: seq<K>): (r: seq<K>)
    ensures |r| == |PresentPositions(assets, keys)|
    ensures forall i | 0 <= i < |r| :: r[i] == keys[PresentPositions(assets, keys)[i]]
    ensures forall i | 0 <= i < |r| :: r[i] in assets && r[i] in keys
    ensures forall i | 0 <= i < |keys| && keys[i] in assets :: keys[i] in r
    decreases |keys|
  {
    if keys == [] then []
    else
      var n := |keys| - 1;
      var p := Present(assets, keys[..n]);
      if keys[n] in assets then p + [keys[n]] else p
  }

  // ---------------------------------------------------------------------------
  // Operations
  // ---------------------------------------------------------------------------

  /** `insert`: registers `path` lazily under `key`, replacing any earlier entry. */
  function Insert<K>(s: State<K>, key: K, path: string): (r: State<K>)
    ensures r.loads == s.loads
    ensures r.assets.Keys == s.assets.Keys + {key}
    ensures r.assets[key] == Lazy(path)
    ensures forall k | k in s.assets && k != key :: r.assets[k] == s.assets[k]
  {
    State(s.assets[key := Lazy(path)], s.loads)
  }

  /** `insert_many`: `insert` applied to each pair in order. */
  function InsertMany<K>(s: State<K>, pairs: seq<(K, string)>): State<K>
    decreases |pairs|
  {
    if pairs == [] then s
    else
      var n := |pairs| - 1;
      Insert(InsertMany(s, pairs[..n]), pairs[n].0, pairs[n].1)
  }

  /** `insert_loaded`: requests a load of `path` now and stores the handle of
      that request under `key`, replacing any earlier entry. */
  function InsertLoaded<K>(s: State<K>, key: K, path: string): (r: State<K>)
    ensures r.loads == s.loads + [path]
    ensures r.assets.Keys == s.assets.Keys + {key}
    ensures r.assets[key] == Loaded(Handle(|s.loads|))
    ensures forall k | k in s.assets && k != key :: r.assets[k] == s.assets[k]
  {
    State(s.assets[key := Loaded(Handle(|s.loads|))], s.loads + [path])
  }

  /** `insert_many_loaded`: `insert_loaded` applied to each pair in order. */
  function InsertManyLoaded<K>(s: State<K>, pairs: seq<(K, string)>): State<K>
    decreases |pairs|
  {
    if pairs == [] then s
    else
      var n := |pairs| - 1;
      InsertLoaded(InsertManyLoaded(s, pairs[..n]), pairs[n].0, pairs[n].1)
  }

  /** `load`: promotes a lazy entry by requesting its path; an absent key or a
      loaded entry is left alone. */
  function Load<K>(s: State<K>, key: K): (r: State<K>)
    ensures Promotes(s, r)
    ensures key in s.assets ==> r.assets[key].Loaded?
    ensures forall k | k in s.assets && k != key :: r.assets[k] == s.assets[k]
    ensures key in s.assets && s.assets[key].Lazy? ==>
              r.loads == s.loads + [s.assets[key].path] && r.assets[key] == Loaded(Handle(|s.loads|))
    ensures !(key in s.assets && s.assets[key].Lazy?) ==> r == s
  {
    if key in s.assets && s.assets[key].Lazy? then
      State(s.assets[key := Loaded(Handle(|s.loads|))], s.loads + [s.assets[key].path])
    else
      s
  }

  /** `load_many`: `load` applied to each key in order. */
  function LoadMany<K>(s: State<K>, keys: seq<K>): State<K>
    decreases |keys|
  {
    if keys == [] then s
    else
      var n := |keys| - 1;
      Load(LoadMany(s, keys[..n]), keys[n])
  }

  /** `get`: the handle stored under `key`, loading it first when the entry is lazy. */
  function Get<K>(s: State<K>, key: K): (r: (State<K>, Option<Handle>))
    ensures r.0 == Load(s, key)
    ensures r.1.Some? <==> key in s.assets
    ensures r.1.Some? ==> r.0.assets[key] == Loaded(r.1.value)
  {
    if key !in s.assets then (s, None)
    else
      match s.assets[key]
      case Lazy(path) =>
        var h := Handle(|s.loads|);
        (State(s.assets[key := Loaded(h)], s.loads + [path]), Some(h))
      case Loaded(h) => (s, Some(h))
  }

  /** `get_many`: `get` applied to each key in order, keeping the handles of
      the keys that are present. */
  function GetMany<K>(s: State<K>, keys: seq<K>): (State<K>, seq<Handle>)
    decreases |keys|
  {
    if keys == [] then (s, [])
    else
      var n := |keys| - 1;
      var (t, hs) := GetMany(s, keys[..n]);
      var (u, h) := Get(t, keys[n]);
      (u, if h.Some? then hs + [h.value] else hs)
  }

  // ---------------------------------------------------------------------------
  // The invariant is kept by every single-key step
  // ---------------------------------------------------------------------------

  lemma InsertKeepsWellFormed<K>(s: State<K>, key: K, path: string)
    requires WellFormed(s)
    ensures WellFormed(Insert(s, key, path))
  {
  }

  /** The handle of a fresh request is one no key holds yet. */
  lemma InsertLoadedKeepsWellFormed<K>(s: State<K>, key: K, path: string)
    requires WellFormed(s)
    ensures WellFormed(InsertLoaded(s, key, path))
  {
  }

  lemma LoadKeepsWellFormed<K>(s: State<K>, key: K)
    requires WellFormed(s)
    ensures WellFormed(Load(s, key))
  {
  }

  // ---------------------------------------------------------------------------
  // Batch registration
  // ---------------------------------------------------------------------------

  /** `insert_many` issues no load request and adds exactly the keys of `pairs`. */
  lemma {:induction false} InsertManyRegisters<K>(s: State<K>, pairs: seq<(K, string)>)
    ensures InsertMany(s, pairs).loads == s.loads
    ensures InsertMany(s, pairs).assets.Keys == s.assets.Keys + KeysOf(pairs)
    decreases |pairs|
  {
    if pairs != [] {
      InsertManyRegisters(s, pairs[..|pairs| - 1]);
      KeysOfSnoc(pairs);
    }
  }

  /** `insert_many` registers every key of `pairs` with the path of its last
      pair, and leaves every other key as it was. */
  lemma {:induction false} InsertManyLastWins<K>(s: State<K>, pairs: seq<(K, string)>)
    ensures forall i {:trigger LastFor(pairs, i)} | 0 <= i < |pairs| && LastFor(pairs, i) ::
              pairs[i].0 in InsertMany(s, pairs).assets && InsertMany(s, pairs).assets[pairs[i].0] == Lazy(pairs[i].1)
    ensures forall k | k in s.assets && k !in KeysOf(pairs) ::
              k in InsertMany(s, pairs).assets && InsertMany(s, pairs).assets[k] == s.assets[k]
    decreases |pairs|
  {
    if pairs != [] {
      var n := |pairs| - 1;
      var init := pairs[..n];
      var (key, path) := pairs[n];
      InsertManyLastWins(s, init);
      KeysOfSnoc(pairs);
      var t := InsertMany(s, init);
      var r := InsertMany(s, pairs);
      assert r == Insert(t, key, path);
      forall i | 0 <= i < n && LastFor(pairs, i)
        ensures pairs[i].0 in r.assets && r.assets[pairs[i].0] == Lazy(pairs[i].1)
      {
        assert init[i] == pairs[i];
        assert LastFor(init, i);
        assert pairs[i].0 != key;
      }
    }
  }

  /** `insert_many_loaded` issues one load request per pair, in input order, and
      adds exactly the keys of `pairs`. */
  lemma {:induction false} InsertManyLoadedRegisters<K>(s: State<K>, pairs: seq<(K, string)>)
    ensures InsertManyLoaded(s, pairs).loads == s.loads + PathsOf(pairs)
    ensures InsertManyLoaded(s, pairs).assets.Keys == s.assets.Keys + KeysOf(pairs)
    decreases |pairs|
  {
    if pairs == [] {
      assert PathsOf(pairs) == [];
    } else {
      var n := |pairs| - 1;
      InsertManyLoadedRegisters(s, pairs[..n]);
      KeysOfSnoc(pairs);
      assert PathsOf(pairs) == PathsOf(pairs[..n]) + [pairs[n].1];
    }
  }

  /** `insert_many_loaded` registers every key of `pairs` with the handle of the
      request issued for its last pair, and leaves every other key as it was. */
  lemma {:induction false} InsertManyLoadedLastWins<K>(s: State<K>, pairs: seq<(K, string)>)
    ensures forall i {:trigger LastFor(pairs, i)} | 0 <= i < |pairs| && LastFor(pairs, i) ::
              pairs[i].0 in InsertManyLoaded(s, pairs).assets &&
              InsertManyLoaded(s, pairs).assets[pairs[i].0] == Loaded(Handle(|s.loads| + i))
    ensures forall k | k in s.assets && k !in KeysOf(pairs) ::
              k in InsertManyLoaded(s, pairs).assets && InsertManyLoaded(s, pairs).assets[k] == s.assets[k]
    decreases |pairs|
  {
    if pairs != [] {
      var n := |pairs| - 1;
      var init := pairs[..n];
      var (key, path) := pairs[n];
      InsertManyLoadedLastWins(s, init);
      InsertManyLoadedRegisters(s, init);
      KeysOfSnoc(pairs);
      var t := InsertManyLoaded(s, init);
      var r := InsertManyLoaded(s, pairs);
      assert r == InsertLoaded(t, key, path);
      assert |t.loads| == |s.loads| + n;
      forall i | 0 <= i < n && LastFor(pairs, i)
        ensures pairs[i].0 in r.assets && r.assets[pairs[i].0] == Loaded(Handle(|s.loads| + i))
      {
        assert init[i] == pairs[i];
        assert LastFor(init, i);
        assert pairs[i].0 != key;
      }
    }
  }

  lemma KeysOfSnoc<K>(pairs: seq<(K, string)>)
    requires pairs != []
    ensures KeysOf(pairs) == KeysOf(pairs[..|pairs| - 1]) + {pairs[|pairs| - 1].0}
  {
  }

  // ---------------------------------------------------------------------------
  // Promotion
  // ---------------------------------------------------------------------------

  /** Loading a key twice is the same as loading it once. */
  lemma LoadIdempotent<K>(s: State<K>, key: K)
    ensures Load(Load(s, key), key) == Load(s, key)
  {
  }

  /** `load_many` adds and removes no key and demotes nothing; every key it
      names that is present ends up loaded, and the others are untouched. */
  lemma {:induction false} LoadManyPromotes<K>(s: State<K>, keys: seq<K>)
    ensures Promotes(s, LoadMany(s, keys))
    ensures forall k | k in s.assets && k in keys :: LoadMany(s, keys).assets[k].Loaded?
    ensures forall k | k in s.assets && k !in keys :: LoadMany(s, keys).assets[k] == s.assets[k]
    decreases |keys|
  {
    if keys != [] {
      var n := |keys| - 1;
      var init := keys[..n];
      assert forall x :: x in keys <==> x in init || x == keys[n];
      LoadManyPromotes(s, init);
      PromotesTransitive(s, LoadMany(s, init), LoadMany(s, keys));
    }
  }

  lemma LazyKeysSnoc<K>(assets: map<K, AssetHandle>, keys: seq<K>)
    requires keys != []
    ensures var k := keys[|keys| - 1];
            LazyKeys(assets, keys) ==
              LazyKeys(assets, keys[..|keys| - 1]) + (if k in assets && assets[k].Lazy? then {k} else {})
  {
  }

  /** `load_many` issues exactly one load request per distinct lazy key it names. */
  lemma {:induction false} LoadManyCount<K>(s: State<K>, keys: seq<K>)
    ensures |LoadMany(s, keys).loads| == |s.loads| + |LazyKeys(s.assets, keys)|
    decreases |keys|
  {
    if keys == [] {
      assert LazyKeys(s.assets, keys) == {};
    } else {
      var n := |keys| - 1;
      var init := keys[..n];
      var k := keys[n];
      LoadManyCount(s, init);
      LoadManyPromotes(s, init);
      LazyKeysSnoc(s.assets, keys);
      var t := LoadMany(s, init);
      if k in s.assets && s.assets[k].Lazy? && k !in init {
        assert t.assets[k] == s.assets[k];
        assert k !in LazyKeys(s.assets, init);
      } else {
        if k in s.assets && s.assets[k].Lazy? {
          assert k in LazyKeys(s.assets, init);
        }
        assert LazyKeys(s.assets, keys) == LazyKeys(s.assets, init);
        assert !(k in t.assets && t.assets[k].Lazy?);
        assert LoadMany(s, keys) == t;
      }
    }
  }

  /** Each lazy key named by `load_many` ends up holding the handle of a request
      issued by that call for the key's path. */
  lemma {:induction false} LoadManyRequests<K>(s: State<K>, keys: seq<K>)
    ensures forall k | k in LazyKeys(s.assets, keys) ::
              var r := LoadMany(s, keys);
              k in r.assets && r.assets[k].Loaded? &&
              var h := r.assets[k].handle;
              |s.loads| <= h.request < |r.loads| && r.loads[h.request] == s.assets[k].path
    decreases |keys|
  {
    if keys != [] {
      var n := |keys| - 1;
      var init := keys[..n];
      var k := keys[n];
      LoadManyRequests(s, init);
      LoadManyPromotes(s, init);
      LazyKeysSnoc(s.assets, keys);
      var t := LoadMany(s, init);
      var r := Load(t, k);
      assert r == LoadMany(s, keys);
      forall x | x in LazyKeys(s.assets, init)
        ensures x in r.assets && r.assets[x] == t.assets[x]
      {
        assert t.assets[x].Loaded?;
      }
    }
  }

  /** `load_many` over keys none of which is lazy changes nothing. */
  lemma {:induction false} LoadManyNoLazy<K>(s: State<K>, keys: seq<K>)
    requires LazyKeys(s.assets, keys) == {}
    ensures LoadMany(s, keys) == s
    decreases |keys|
  {
    if keys != [] {
      var n := |keys| - 1;
      assert LazyKeys(s.assets, keys[..n]) <= LazyKeys(s.assets, keys);
      LoadManyNoLazy(s, keys[..n]);
      assert keys[n] in keys;
      assert keys[n] !in LazyKeys(s.assets, keys);
      assert LoadMany(s, keys) == Load(s, keys[n]);
    }
  }

  /** Calling `load_many` twice on the same keys is the same as calling it once. */
  lemma LoadManyIdempotent<K>(s: State<K>, keys: seq<K>)
    ensures LoadMany(LoadMany(s, keys), keys) == LoadMany(s, keys)
  {
    LoadManyPromotes(s, keys);
    var t := LoadMany(s, keys);
    assert LazyKeys(t.assets, keys) == {};
    LoadManyNoLazy(t, keys);
  }

  // ---------------------------------------------------------------------------
  // Retrieval
  // ---------------------------------------------------------------------------

  /** A second `get` on the same key returns the same handle and changes nothing. */
  lemma GetTwice<K>(s: State<K>, key: K)
    ensures Get(Get(s, key).0, key) == Get(s, key)
  {
  }

  /** After a lazy `insert`, two successive `get`s issue exactly one load
      request, for the registered path, and return the handle of that request. */
  lemma InsertThenGetTwice<K>(s: State<K>, key: K, path: string)
    ensures var t := Insert(s, key, path);
            var (u, h1) := Get(t, key);
            var (v, h2) := Get(u, key);
            v.loads == s.loads + [path] && h1 == h2 == Some(Handle(|s.loads|))
  {
  }

  /** Registering a second path under a key before its first `get` replaces the
      first: only the second path is ever requested. */
  lemma OverwriteBeforeGet<K>(s: State<K>, key: K, pathA: string, pathB: string)
    ensures Get(Insert(Insert(s, key, pathA), key, pathB), key).0.loads == s.loads + [pathB]
  {
  }

  /** `get_many` changes the state exactly as `load_many` does. */
  lemma {:induction false} GetManyLoadsLikeLoadMany<K>(s: State<K>, keys: seq<K>)
    ensures GetMany(s, keys).0 == LoadMany(s, keys)
    decreases |keys|
  {
    if keys != [] {
      GetManyLoadsLikeLoadMany(s, keys[..|keys| - 1]);
    }
  }

  /** `get_many` returns, in input order, one handle per requested key that is
      present (absent keys are dropped): the handle that key holds afterwards. */
  lemma {:induction false} GetManyFilterMap<K>(s: State<K>, keys: seq<K>)
    ensures |GetMany(s, keys).1| == |Present(s.assets, keys)|
    ensures forall i | 0 <= i < |GetMany(s, keys).1| ::
              var r := GetMany(s, keys);
              Present(s.assets, keys)[i] in r.0.assets && r.0.assets[Present(s.assets, keys)[i]] == Loaded(r.1[i])
    decreases |keys|
  {
    if keys != [] {
      var n := |keys| - 1;
      var init := keys[..n];
      var k := keys[n];
      GetManyFilterMap(s, init);
      GetManyLoadsLikeLoadMany(s, init);
      LoadManyPromotes(s, init);
      var (t, hs) := GetMany(s, init);
      var (u, h) := Get(t, k);
      assert GetMany(s, keys) == (u, if h.Some? then hs + [h.value] else hs);
      var p := Present(s.assets, init);
      assert Present(s.assets, keys) == if k in s.assets then p + [k] else p;
      forall i | 0 <= i < |hs| ensures p[i] in u.assets && u.assets[p[i]] == Loaded(hs[i]) {
        assert t.assets[p[i]] == Loaded(hs[i]);
      }
    }
  }

  /** `get_many` issues at most one load request per distinct key, however often
      the key is repeated: exactly one per distinct requested key that was lazy. */
  lemma GetManyLoadsOncePerKey<K>(s: State<K>, keys: seq<K>)
    ensures |GetMany(s, keys).0.loads| == |s.loads| + |LazyKeys(s.assets, keys)|
    ensures |LazyKeys(s.assets, keys)| <= |set k | k in keys|
  {
    GetManyLoadsLikeLoadMany(s, keys);
    LoadManyCount(s, keys);
    var lazy := LazyKeys(s.assets, keys);
    var all := set k | k in keys;
    var rest := all - lazy;
    assert all == lazy + rest;
    assert lazy * rest == {};
  }

  // ---------------------------------------------------------------------------
  // The map only grows; only lazy registration makes an entry lazy
  // ---------------------------------------------------------------------------

  lemma {:induction false} InsertManyLoadedNoNewLazy<K>(s: State<K>, pairs: seq<(K, string)>)
    ensures NoNewLazy(s, InsertManyLoaded(s, pairs))
    decreases |pairs|
  {
    if pairs != [] {
      var n := |pairs| - 1;
      InsertManyLoadedNoNewLazy(s, pairs[..n]);
      var t := InsertManyLoaded(s, pairs[..n]);
      assert InsertManyLoaded(s, pairs) == InsertLoaded(t, pairs[n].0, pairs[n].1);
    }
  }

  /** No operation removes a key or forgets a load request. */
  lemma OnlyGrows<K>(s: State<K>, key: K, path: string, pairs: seq<(K, string)>, keys: seq<K>)
    ensures Grows(s, Insert(s, key, path))
    ensures Grows(s, InsertMany(s, pairs))
    ensures Grows(s, InsertLoaded(s, key, path))
    ensures Grows(s, InsertManyLoaded(s, pairs))
    ensures Grows(s, Load(s, key))
    ensures Grows(s, LoadMany(s, keys))
    ensures Grows(s, Get(s, key).0)
    ensures Grows(s, GetMany(s, keys).0)
  {
    InsertManyRegisters(s, pairs);
    InsertManyLoadedRegisters(s, pairs);
    LoadManyPromotes(s, keys);
    GetManyLoadsLikeLoadMany(s, keys);
  }

  /** Every operation other than `insert` and `insert_many` leaves lazy only
      entries that were already lazy, with the same path: none of them turns a
      loaded entry back into a path or registers a new lazy one. */
  lemma OnlyLazyInsertsMakeLazy<K>(s: State<K>, key: K, path: string, pairs: seq<(K, string)>, keys: seq<K>)
    ensures NoNewLazy(s, InsertLoaded(s, key, path))
    ensures NoNewLazy(s, InsertManyLoaded(s, pairs))
    ensures NoNewLazy(s, Load(s, key))
    ensures NoNewLazy(s, LoadMany(s, keys))
    ensures NoNewLazy(s, Get(s, key).0)
    ensures NoNewLazy(s, GetMany(s, keys).0)
  {
    InsertManyLoadedNoNewLazy(s, pairs);
    LoadManyPromotes(s, keys);
    GetManyLoadsLikeLoadMany(s, keys);
  }
}
