/**
  The dictionary cache of the completion provider (`cachedKeys` in
  src/completion.ts): a map from dictionary path to the modification time
  seen at the last load and the entries parsed then.

  The file system is a parameter, a map from path to the file's
  modification time (in milliseconds, as `getTime` returns it) and its
  text; a path missing from it is a file `statSync` cannot stat. The
  module-level mutable object of the source becomes a value passed in and
  returned.
 */
module Freshness {
  import opened Results
  import opened Dictionary

  datatype FileStat = FileStat(mtime: int, content: string)

  type FileSystem = map<string, FileStat>

  /** One record of the cache: the modification time the file had when it
      was parsed, and the entries parsed from it. */
  datatype CacheRec = CacheRec(lastModified: int, items: seq<Entry>)

  type Cache = map<string, CacheRec>

  /** `statSync` throws: the file cannot be stat'd. */
  datatype LoadError = StatFailed(path: string)

  /** A successful lookup: the cache afterwards, the entries served, and
      whether the file was parsed again. */
  datatype Lookup = Lookup(cache: Cache, items: seq<Entry>, reloaded: bool)

  /** The reload rule: there is no record for the path, or the record's
      modification time is not the file's current one. */
  predicate Stale(cache: Cache, path: string, mtime: int) {
    path !in cache || cache[path].lastModified != mtime
  }

  /** Entries are served for `path`: the file is stat'd first (a failure
      leaves the cache as it was), re-parsed exactly when the record is
      stale, and the record then carries the current modification time.
      No other path's record is touched. */
  function Refresh(cache: Cache, fs: FileSystem, path: string): (r: Result<Lookup, LoadError>)
    ensures r.Err? <==> path !in fs
    ensures r.Err? ==> r.error == StatFailed(path)
    ensures r.Ok? ==> path in r.value.cache
                      && r.value.cache[path].lastModified == fs[path].mtime
                      && r.value.items == r.value.cache[path].items
    ensures r.Ok? ==> (r.value.reloaded <==> Stale(cache, path, fs[path].mtime))
    ensures r.Ok? && r.value.reloaded ==> r.value.items == Parse(fs[path].content)
    ensures r.Ok? && !r.value.reloaded ==> r.value.cache == cache && r.value.items == cache[path].items
    ensures r.Ok? ==> r.value.cache.Keys == cache.Keys + {path}
    ensures r.Ok? ==> forall q :: q in cache && q != path ==> r.value.cache[q] == cache[q]
  {
    if path !in fs then Err(StatFailed(path))
    else
      var stat := fs[path];
      if Stale(cache, path, stat.mtime) then
        var data := CacheRec(stat.mtime, Parse(stat.content));
        Ok(Lookup(cache[path := data], data.items, true))
      else
        Ok(Lookup(cache, cache[path].items, false))
  }

  /** The cache agrees with the file system: every record whose
      modification time is still the file's current one holds the parse of
      the file's current text. */
  predicate Coherent(cache: Cache, fs: FileSystem) {
    forall q :: q in cache && q in fs && cache[q].lastModified == fs[q].mtime
      ==> cache[q].items == Parse(fs[q].content)
  }

  /** The cache starts empty, and an empty cache agrees with any file system. */
  lemma EmptyCoherent(fs: FileSystem)
    ensures Coherent(map[], fs)
  {
  }

  /** On a coherent cache a lookup serves the parse of the file's current
      text, and the cache stays coherent. */
  lemma RefreshServesCurrent(cache: Cache, fs: FileSystem, path: string)
    requires Coherent(cache, fs)
    ensures var r := Refresh(cache, fs, path);
            r.Ok? ==> r.value.items == Parse(fs[path].content) && Coherent(r.value.cache, fs)
  {
  }

  /** A change to a file that also changes its modification time keeps the
      cache coherent. */
  lemma WriteKeepsCoherent(cache: Cache, fs: FileSystem, path: string, st: FileStat)
    requires Coherent(cache, fs)
    requires path in cache ==> cache[path].lastModified != st.mtime
    ensures Coherent(cache, fs[path := st])
  {
  }

  /** Two lookups with no change to the file in between parse it at most
      once: the second one serves what the first stored. */
  lemma RefreshTwiceLoadsOnce(cache: Cache, fs: FileSystem, path: string)
    requires path in fs
    ensures var first := Refresh(cache, fs, path);
            var second := Refresh(first.value.cache, fs, path);
            second.Ok? && !second.value.reloaded
            && second.value.cache == first.value.cache
            && second.value.items == first.value.items
  {
  }

  /** Touching the file, so that its modification time differs from the
      one on record, forces the next lookup to parse it again. */
  lemma TouchReloads(cache: Cache, fs: FileSystem, path: string, mtime: int)
    requires path in cache && path in fs && cache[path].lastModified != mtime
    ensures var r := Refresh(cache, fs[path := fs[path].(mtime := mtime)], path);
            r.Ok? && r.value.reloaded && r.value.items == Parse(fs[path].content)
  {
  }

  /** The flip side of the reload rule: a write that leaves the modification
      time as it was is not seen, and the entries parsed before the write
      are served. */
  lemma SameTimestampServesOld(cache: Cache, fs: FileSystem, path: string, text: string)
    requires path in cache && path in fs && cache[path].lastModified == fs[path].mtime
    ensures var r := Refresh(cache, fs[path := fs[path].(content := text)], path);
            r.Ok? && !r.value.reloaded && r.value.items == cache[path].items
  {
  }
}
