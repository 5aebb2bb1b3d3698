/**
 * The `AssetManager` of bevy-asset-manager as an object: a map field updated in
 * place, and a shared asset server whose `load` is the only way a handle comes
 * into being. Each method is proved to perform exactly the step that
 * `AssetModel` defines for it, and to keep `AssetModel.WellFormed`.
 */
module AssetManagers {
  import opened AssetModel

  /** The asset server, reduced to what the manager observes of it: every load
      request is logged, and the handle it returns identifies that request. */
  class AssetServer {
    var requests: seq<string>

    constructor ()
      ensures requests == []
    {
      requests := [];
    }

    /** `AssetServer::load`: dispatches a load of `path` and returns its handle at once. */
    method Load(path: string) returns (h: Handle)
      modifies this
      ensures requests == old(requests) + [path]
      ensures h == Handle(|old(requests)|)
    {
      h := Handle(|requests|);
      requests := requests + [path];
    }
  }

  class AssetManager<Key(==)> {
    var assets: map<Key, AssetHandle>
    const server: AssetServer

    /** The manager's map together with the server's request log. */
    ghost function Model(): State<Key>
      reads this, server
    {
      State(assets, server.requests)
    }

    ghost predicate Valid()
      reads this, server
    {
      WellFormed(Model())
    }

    /** `new`: an empty manager bound to `server`. */
    constructor (server: AssetServer)
      ensures this.server == server && assets == map[]
      ensures Valid()
    {
      this.server := server;
      assets := map[];
    }

    /** `insert`: registers `path` under `key` without loading it. */
    method Insert(key: Key, path: string)
      requires Valid()
      modifies this
      ensures Valid()
      ensures Model() == AssetModel.Insert(old(Model()), key, path)
    {
      InsertKeepsWellFormed(Model(), key, path);
      assets := assets[key := Lazy(path)];
    }

    /** `insert_many`: registers each pair in order without loading anything. */
    method InsertMany(pairs: seq<(Key, string)>)
      requires Valid()
      modifies this
      ensures Valid()
      ensures Model() == AssetModel.InsertMany(old(Model()), pairs)
    {
      for i := 0 to |pairs|
        invariant Valid()
        invariant Model() == AssetModel.InsertMany(old(Model()), pairs[..i])
      {
        var (key, path) := pairs[i];
        InsertKeepsWellFormed(Model(), key, path);
        assets := assets[key := Lazy(path)];
        assert pairs[..i + 1][..i] == pairs[..i];
      }
      assert pairs[..|pairs|] == pairs;
    }

    /** `insert_loaded`: requests a load of `path` and stores its handle under `key`. */
    method InsertLoaded(key: Key, path: string)
      requires Valid()
      modifies this, server
      ensures Valid()
      ensures Model() == AssetModel.InsertLoaded(old(Model()), key, path)
    {
      InsertLoadedKeepsWellFormed(Model(), key, path);
      var h := server.Load(path);
      assets := assets[key := Loaded(h)];
    }

    /** `insert_many_loaded`: requests a load for each pair in order and stores
        each handle under its key. */
    method InsertManyLoaded(pairs: seq<(Key, string)>)
      requires Valid()
      modifies this, server
      ensures Valid()
      ensures Model() == AssetModel.InsertManyLoaded(old(Model()), pairs)
    {
      for i := 0 to |pairs|
        invariant Valid()
        invariant Model() == AssetModel.InsertManyLoaded(old(Model()), pairs[..i])
      {
        var (key, path) := pairs[i];
        InsertLoadedKeepsWellFormed(Model(), key, path);
        var h := server.Load(path);
        assets := assets[key := Loaded(h)];
        assert pairs[..i + 1][..i] == pairs[..i];
      }
      assert pairs[..|pairs|] == pairs;
    }

    /** `load`: promotes the entry of `key` if it is lazy. */
    method Load(key: Key)
      requires Valid()
      modifies this, server
      ensures Valid()
      ensures Model() == AssetModel.Load(old(Model()), key)
    {
      LoadKeepsWellFormed(Model(), key);
      if key in assets {
        match assets[key]
        case Lazy(path) =>
          var h := server.Load(path);
          assets := assets[key := Loaded(h)];
        case Loaded(_) =>
      }
    }

    /** `load_many`: promotes the entry of each key in order if it is lazy. */
    method LoadMany(keys: seq<Key>)
      requires Valid()
      modifies this, server
      ensures Valid()
      ensures Model() == AssetModel.LoadMany(old(Model()), keys)
    {
      for i := 0 to |keys|
        invariant Valid()
        invariant Model() == AssetModel.LoadMany(old(Model()), keys[..i])
      {
        var key := keys[i];
        LoadKeepsWellFormed(Model(), key);
        if key in assets {
          match assets[key]
          case Lazy(path) =>
            var h := server.Load(path);
            assets := assets[key := Loaded(h)];
          case Loaded(_) =>
        }
        assert keys[..i + 1][..i] == keys[..i];
      }
      assert keys[..|keys|] == keys;
    }

    /** `get`: the handle stored under `key`, loading it first if the entry is lazy. */
    method Get(key: Key) returns (r: Option<Handle>)
      requires Valid()
      modifies this, server
      ensures Valid()
      ensures (Model(), r) == AssetModel.Get(old(Model()), key)
    {
      LoadKeepsWellFormed(Model(), key);
      if key !in assets {
        r := None;
      } else {
        match assets[key]
        case Lazy(path) =>
          var h := server.Load(path);
          assets := assets[key := Loaded(h)];
          r := Some(h);
        case Loaded(h) =>
          r := Some(h);
      }
    }

    /** `get_many`: `get` for each key in order, keeping the handles of the
        keys that are present. */
    method GetMany(keys: seq<Key>) returns (handles: seq<Handle>)
      requires Valid()
      modifies this, server
      ensures Valid()
      ensures (Model(), handles) == AssetModel.GetMany(old(Model()), keys)
    {
      handles := [];
      for i := 0 to |keys|
        invariant Valid()
        invariant (Model(), handles) == AssetModel.GetMany(old(Model()), keys[..i])
      {
        var key := keys[i];
        LoadKeepsWellFormed(Model(), key);
        if key in assets {
          match assets[key]
          case Lazy(path) =>
            var h := server.Load(path);
            assets := assets[key := Loaded(h)];
            handles := handles + [h];
          case Loaded(h) =>
            handles := handles + [h];
        }
        assert keys[..i + 1][..i] == keys[..i];
      }
      assert keys[..|keys|] == keys;
    }
  }

  /** A key registered lazily and then fetched twice: the server receives one
      request, for the registered path, and both fetches return its handle. */
  method LazyKeyFetchedTwice<Key(==)>(server: AssetServer, key: Key, path: string)
      returns (first: Option<Handle>, second: Option<Handle>)
    modifies server
    ensures server.requests == old(server.requests) + [path]
    ensures first == second == Some(Handle(|old(server.requests)|))
  {
    var manager := new AssetManager<Key>(server);
    manager.Insert(key, path);
    first := manager.Get(key);
    second := manager.Get(key);
  }
}
