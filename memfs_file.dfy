/** The `MemFS\File` class: a loader that keeps file contents in a Memcached
    pool under `md5` of the file name. The pool is the map field `cache`;
    `md5` and `urlencode` are fixed functions given at construction; each
    method that may read files takes `read`, the answers `file_get_contents`
    gives (`None` for `false`), and `getOk`, whether the wrapper's multi-get
    reports success. The ghost field `fetched` records every address handed
    to `file_get_contents`, in order. */
module MemFS {
  import opened Wrappers
  import opened PhpStrings
  import opened ClosingTag
  import opened KeyTable
  import opened LoadProtocol

  class File {
    /** The Memcached pool: key to cached content. */
    var cache: map<string, string>
    /** The addresses read so far, in order. */
    ghost var fetched: seq<string>
    /** The key derivation, PHP's `md5`. */
    const md5: string -> string
    /** PHP's `urlencode`, applied to addresses that start with "http". */
    const urlencode: string -> string

    /** Connecting to the pool: whatever it already holds is the cache. */
    constructor (md5: string -> string, urlencode: string -> string, pool: map<string, string>)
      ensures this.md5 == md5 && this.urlencode == urlencode
      ensures cache == pool && fetched == []
    {
      this.md5 := md5;
      this.urlencode := urlencode;
      cache := pool;
      fetched := [];
    }

    /** The loop at the top of `load` that builds `$keys`. */
    method DeriveKeys(filenames: seq<string>) returns (keys: seq<Entry>)
      ensures keys == KeysOf(md5, filenames)
    {
      keys := [];
      var i := 0;
      while i < |filenames|
        invariant 0 <= i <= |filenames|
        invariant keys == KeysOf(md5, filenames[..i])
      {
        assert filenames[..i + 1][..i] == filenames[..i];
        keys := Assign(keys, md5(filenames[i]), filenames[i]);
        i := i + 1;
      }
      assert filenames[..i] == filenames;
    }

    /** `save($keys, $isRequired)`: read, check and normalise each entry in
        turn, writing it to the pool before going on to the next. */
    method Save(keys: seq<Entry>, isRequired: bool, read: string -> Option<string>)
      returns (r: Result<map<string, string>, LoadError>)
      modifies this
      ensures var o := Saved(keys, SaveStep(isRequired, urlencode, read));
        && cache == old(cache) + o.stored
        && fetched == old(fetched) + o.addresses
        && r == (if o.failure.Some? then Err(o.failure.value) else Ok(o.stored))
    {
      ghost var step := SaveStep(isRequired, urlencode, read);
      var resources: map<string, string> := map[];
      var i := 0;
      while i < |keys|
        invariant 0 <= i <= |keys|
        invariant Saved(keys[..i], step).failure.None?
        invariant resources == Saved(keys[..i], step).stored
        invariant cache == old(cache) + resources
        invariant fetched == old(fetched) + Saved(keys[..i], step).addresses
      {
        var e := keys[i];
        SaveIteration(keys, i, isRequired, urlencode, read);
        var filename := Address(urlencode, e.filename);
        var raw := read(filename);
        AppendAssoc(old(fetched), Saved(keys[..i], step).addresses, filename);
        fetched := fetched + [filename];
        var prepared := Prepare(raw, filename, isRequired);
        if prepared.Err? {
          SavedAfterFailure(keys, i + 1, step);
          return Err(prepared.error);
        }
        var resource := prepared.value;
        MergeUpdate(old(cache), resources, e.key, resource);
        cache := cache[e.key := resource];
        resources := resources[e.key := resource];
        i := i + 1;
      }
      assert keys[..i] == keys;
      return Ok(resources);
    }

    /** `load($filenames, $isRequired)`, handing back the resources it would
        `eval`. */
    method Load(filenames: seq<string>, isRequired: bool, getOk: bool, read: string -> Option<string>)
      returns (r: Result<map<string, string>, LoadError>)
      modifies this
      ensures var o := Loaded(old(cache), md5, filenames, getOk, SaveStep(isRequired, urlencode, read));
        && cache == o.cache
        && fetched == old(fetched) + o.fetched
        && r == o.result
    {
      var keys := DeriveKeys(filenames);
      ghost var step := SaveStep(isRequired, urlencode, read);
      var resources: map<string, string>;
      if !getOk {
        LoadedGetFails(cache, md5, filenames, step);
        resources :- Save(keys, isRequired, read);
        SavedCount(keys, step);
      } else {
        LoadedGetSucceeds(cache, md5, filenames, step);
        resources := Hits(cache, keys);
      }
      if |resources| != |keys| {
        var saved :- Save(DiffKey(keys, resources), isRequired, read);
        resources := resources + saved;
      } else if getOk {
        HitsCount(cache, keys);
        MergeNothing(resources);
        MergeNothing(cache);
      }
      return Ok(resources);
    }

    /** `once($filename, $isRequired)`: load only when the pool does not hold
        the name's key yet. */
    method Once(filename: string, isRequired: bool, getOk: bool, read: string -> Option<string>)
      returns (r: Result<map<string, string>, LoadError>)
      modifies this
      ensures var o := Onced(old(cache), md5, filename, getOk, SaveStep(isRequired, urlencode, read));
        && cache == o.cache
        && fetched == old(fetched) + o.fetched
        && r == o.result
    {
      var key := md5(filename);
      if key !in cache {
        r := Load([filename], isRequired, getOk, read);
      } else {
        r := Ok(map[]);
      }
    }

    /** `flush($filename)`: delete the key of every name, descending into
        nested lists. */
    method Flush(arg: FileArg)
      modifies this
      ensures cache == old(cache) - FlushKeys(md5, arg)
      ensures fetched == old(fetched)
      decreases arg
    {
      match arg
      case Path(name) =>
        cache := cache - {md5(name)};
      case Paths(items) =>
        var i := 0;
        while i < |items|
          invariant 0 <= i <= |items|
          invariant cache == old(cache) - FlushKeys(md5, Paths(items[..i]))
          invariant fetched == old(fetched)
        {
          FlushKeysSnoc(md5, items, i);
          DeleteTwice(old(cache), FlushKeys(md5, Paths(items[..i])), FlushKeys(md5, items[i]));
          Flush(items[i]);
          i := i + 1;
        }
        assert items[..i] == items;
    }

    /** `flushAll()`: empty the pool. */
    method FlushAll()
      modifies this
      ensures cache == map[]
      ensures fetched == old(fetched)
    {
      cache := map[];
    }
  }
}
