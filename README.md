# bevy-asset-manager: the `AssetManager` cache, modelled in Dafny

`AssetManager<Key, Asset>` maps an application key to one of two entry states.
A `Lazy(path)` entry is registered by path only. A `Loaded(handle)` entry holds
the handle of a load request already sent to Bevy's `AssetServer`. Keys can be
registered lazily (`insert`, `insert_many`) or eagerly (`insert_loaded`,
`insert_many_loaded`). `load`, `load_many`, `get` and `get_many` promote lazy
entries in place by calling `asset_server.load(path)`; the getters also return
the stored handles.

The project has two modules.

- `AssetModel` (`asset_model.dfy`) is the value-level model. A `State` is the
  manager's map plus the asset server's log of load requests. Each public method
  is one function from state to state, because each takes the write lock once
  for its whole body. The batch methods are left folds of the single-key step,
  in input order. A handle is `Handle(request)`, where `request` is the position
  of the load request that produced it. The lemmas state which entries change,
  how many load requests each operation issues and for which paths, and what
  the getters return.
- `AssetManagers` (`asset_manager.dfy`) is the object. `AssetServer` is the
  shared collaborator: a request log and a `Load` method. `AssetManager` has an
  `assets: map` field that its methods update in place. The batch methods are
  loops. Each method is proved to perform exactly the `AssetModel` step of the
  same name. Each also keeps the object invariant `Valid()`: every loaded handle
  names an issued request, and no two keys share a handle. The second half
  follows from the model's server giving every request its own handle; it is
  not a property of the manager over Bevy's server.

## Model

| member | source | states |
|---|---|---|
| `AssetModel.Insert` | src/lib.rs:259-265 | `insert` issues no load request, maps `key` to `Lazy(path)` whatever was there before, adds only `key`, and leaves every other key's entry unchanged |
| `AssetModel.InsertLoaded` | src/lib.rs:276-282 | `insert_loaded` issues exactly one load request, for `path`, and maps `key` to `Loaded` of that request's handle; every other entry is unchanged |
| `AssetModel.Load` | src/lib.rs:296-306 | `load` on an absent key or a loaded entry changes nothing; on `Lazy(p)` it issues exactly one request, for `p`, and the entry becomes `Loaded` of that request's handle; it never adds, removes or demotes a key |
| `AssetModel.Get` | src/lib.rs:324-339 | `get` changes the state exactly as `load` does; it returns `None` iff the key is absent, and otherwise the handle the key holds afterwards (the stored one if already loaded) |
| `AssetModel.PresentPositions` | src/lib.rs:356 | the positions `filter_map` keeps: ascending, each below `|keys|` with its key in the map, and every such position included |
| `AssetModel.Present` | src/lib.rs:356 | the keys kept by `filter_map`: exactly the requested keys at the positions whose key is in the map (`PresentPositions`: ascending, each such position once), in input order with repeats kept |
| `AssetModel.InsertKeepsWellFormed` | src/lib.rs:259-265 | `insert` keeps the invariant: loaded handles name issued requests, no two keys share a handle |
| `AssetModel.InsertLoadedKeepsWellFormed` | src/lib.rs:276-282 | `insert_loaded` keeps the invariant: the fresh request's handle is held by no other key |
| `AssetModel.LoadKeepsWellFormed` | src/lib.rs:296-306 | `load` (and so `get`) keeps the invariant |
| `AssetModel.InsertManyRegisters` | src/lib.rs:267-274 | `insert_many` issues zero load requests and adds exactly the keys named in `pairs` |
| `AssetModel.InsertManyLastWins` | src/lib.rs:267-274 | after `insert_many`, each key in `pairs` is `Lazy` of the path of its last pair; keys not in `pairs` are untouched |
| `AssetModel.InsertManyLoadedRegisters` | src/lib.rs:284-294 | `insert_many_loaded` appends exactly the paths of `pairs` to the request log, one per pair, in input order, and adds exactly the keys named in `pairs` |
| `AssetModel.InsertManyLoadedLastWins` | src/lib.rs:284-294 | after `insert_many_loaded`, each key in `pairs` holds the handle of the request issued for its last pair; keys not in `pairs` are untouched |
| `AssetModel.InsertManyLoadedNoNewLazy` | src/lib.rs:284-294 | `insert_many_loaded` creates no lazy entry and demotes no loaded one |
| `AssetModel.LoadIdempotent` | src/lib.rs:296-306 | `load` twice on a key equals `load` once |
| `AssetModel.LoadManyPromotes` | src/lib.rs:308-322 | `load_many` never adds, removes or demotes a key; every named key that is present ends up `Loaded`; unnamed keys are untouched |
| `AssetModel.LoadManyCount` | src/lib.rs:308-322 | `load_many` issues exactly as many requests as there are distinct named keys that were lazy |
| `AssetModel.LoadManyRequests` | src/lib.rs:308-322 | each lazy key named by `load_many` ends up holding the handle of a request made by that call for the key's own path |
| `AssetModel.LoadManyNoLazy` | src/lib.rs:308-322 | `load_many` over keys none of which is lazy changes nothing |
| `AssetModel.LoadManyIdempotent` | src/lib.rs:308-322 | `load_many` twice on the same keys equals `load_many` once |
| `AssetModel.GetTwice` | src/lib.rs:324-339 | a second `get` on a key returns the same handle as the first and changes nothing |
| `AssetModel.InsertThenGetTwice` | src/lib.rs:324-339 | after a lazy `insert`, two successive `get`s issue exactly one request, for the registered path, and both return that request's handle |
| `AssetModel.OverwriteBeforeGet` | src/lib.rs:260-264 | `insert(k, a)`, then `insert(k, b)`, then `get(k)` requests `b` only, never `a` |
| `AssetModel.GetManyLoadsLikeLoadMany` | src/lib.rs:341-357 | `get_many` changes the map and the request log exactly as `load_many` on the same keys |
| `AssetModel.GetManyFilterMap` | src/lib.rs:341-357 | `get_many` returns one handle per requested key present in the map, in input order, absent keys dropped; each is the handle that key holds afterwards |
| `AssetModel.GetManyLoadsOncePerKey` | src/lib.rs:341-357 | `get_many` issues one request per distinct requested key that was lazy, so a repeated key is loaded at most once |
| `AssetModel.OnlyGrows` | src/lib.rs:251-357 | no operation removes a key or forgets a load request |
| `AssetModel.OnlyLazyInsertsMakeLazy` | src/lib.rs:251-357 | every operation other than `insert` and `insert_many` leaves lazy only entries that were already lazy with the same path |
| `AssetManagers.AssetServer.Load` | src/lib.rs:280 | a load request is logged and returns the handle that identifies it |
| `AssetManagers.AssetManager.constructor` | src/lib.rs:251-257 | `new` yields an empty map bound to the given server, satisfying the invariant |
| `AssetManagers.AssetManager.Insert` | src/lib.rs:259-265 | the in-place `insert` performs `AssetModel.Insert` and touches only the map, not the server |
| `AssetManagers.AssetManager.InsertMany` | src/lib.rs:267-274 | the loop over `pairs` performs `AssetModel.InsertMany` and touches only the map |
| `AssetManagers.AssetManager.InsertLoaded` | src/lib.rs:276-282 | the in-place `insert_loaded` performs `AssetModel.InsertLoaded` and keeps the invariant |
| `AssetManagers.AssetManager.InsertManyLoaded` | src/lib.rs:284-294 | the loop over `pairs` performs `AssetModel.InsertManyLoaded` and keeps the invariant |
| `AssetManagers.AssetManager.Load` | src/lib.rs:296-306 | the in-place `load` through `get_mut` performs `AssetModel.Load` and keeps the invariant |
| `AssetManagers.AssetManager.LoadMany` | src/lib.rs:308-322 | the loop over `keys` performs `AssetModel.LoadMany`, one `load` per key in order |
| `AssetManagers.AssetManager.Get` | src/lib.rs:324-339 | the in-place `get` returns and stores what `AssetModel.Get` gives |
| `AssetManagers.AssetManager.GetMany` | src/lib.rs:341-357 | the `filter_map` loop returns and stores what `AssetModel.GetMany` gives |
| `AssetManagers.LazyKeyFetchedTwice` | src/lib.rs:324-339 | through the object: a lazily inserted key fetched twice causes one server request, for its path, and both fetches return that request's handle |

## Left out

- The `RwLock` and thread safety: the model is sequential. Each public method takes the write lock once for its whole body, which is why each is one atomic step. Lock poisoning through `.unwrap()` is not modelled.
- Bevy's `AssetServer` loading, `Handle` reference counting and the strong/weak distinction of `clone_weak`: a handle is an opaque value naming its load request, and `clone_weak` is the identity on it. So the model does not capture that `get` on a lazy entry returns a strong handle while the map keeps only a weak one.
- `AssetServer::load` of a path already requested: Bevy's server may return the same handle for a repeated path; the model gives every request its own handle, so it counts requests, not distinct resources.
- The macros `lazy_asset_manager!`, `loaded_asset_manager!` and `mixed_asset_manager!` and the `LoadStyle` enum: syntax over `new` plus `insert_many` or `insert_many_loaded`. In `mixed_asset_manager!` the eagerly marked pairs also go through `insert_many`, so they end up lazy, and `Vec::insert` is called with one argument; neither is reproduced.
- The crate's usage example in its documentation comments and the `#[derive(Resource)]` integration with Bevy's ECS.
- Generic `Asset` type: it only parameterises the handle type, so the model has a single handle type.
