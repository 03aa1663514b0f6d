/** `CFileSystemHandler`: the list of loaders, the merged resource map and the
    cache of loaded streams. A loaded stream is a buffer with an id; the
    cache holds weak references to buffers, and `refs` counts the strong
    references (the `shared_ptr`s handed out) of each buffer. A weak
    reference whose buffer has no strong reference left has expired. */
module Registry {
  import opened Wrappers
  import opened Bytes
  import opened ResourceNames
  import opened ResourcesMap
  import opened Catalogs
  import opened FileWalk
  import opened Loaders
  import opened GzipUnpack

  /** A `shared_ptr` / `weak_ptr` to a stream: null, or the buffer `id`. */
  datatype StreamRef = Null | Buf(id: nat)

  /** The locator `getResource` serves for `id`: the most recently registered
      one (the back of the list), or the original one (the front) when
      `fromBegin`; none when the identifier is not registered. */
  function Resolve(resources: ResMap, id: ResourceIdentifier, fromBegin: bool): (r: Option<Locator>)
    ensures r.None? <==> id !in resources || resources[id] == []
    ensures r.Some? ==> r.value in resources[id]
  {
    if id !in resources || resources[id] == [] then None
    else if fromBegin then Some(resources[id][0])
    else Some(resources[id][|resources[id]| - 1])
  }

  /** In a well-formed map the resolved locator is the one of the latest
      loader that registered `id` (or, with `fromBegin`, of the earliest). */
  lemma ResolvePicksPriority(resources: ResMap, bound: nat, id: ResourceIdentifier, fromBegin: bool)
    requires WellFormed(resources, bound) && id in resources
    ensures Resolve(resources, id, fromBegin).Some?
    ensures forall k :: 0 <= k < |resources[id]| ==>
              if fromBegin then Resolve(resources, id, fromBegin).value.loader <= resources[id][k].loader
              else resources[id][k].loader <= Resolve(resources, id, fromBegin).value.loader
  {
    FrontAndBackArePriorityExtremes(resources[id]);
  }

  /** The loader as it is after its scan: a catalog loader's `entries` hold
      the records of its archive (an existing entry is never replaced). */
  function Scanned(l: Loader): (s: Loader)
    ensures s.prefix == l.prefix
    ensures l.FileLoader? ==> s == l
    ensures !l.FileLoader? ==> s == l.(entries := InsertAll(l.entries, CatalogOf(l)))
  {
    if l.FileLoader? then l else l.(entries := InsertAll(l.entries, CatalogOf(l)))
  }

  /** Every name a loader's scan registers can afterwards be loaded by it,
      and a LOD loader's entries keep non-negative packed sizes. */
  lemma ScannedLoaderServesItsNames(l: Loader)
    requires EntriesOk(l)
    ensures forall r :: r in ScannedNames(l) ==> CanLoad(Scanned(l), r)
    ensures EntriesOk(Scanned(l))
  {
    if !l.FileLoader? {
      InsertAllSpec(l.entries, CatalogOf(l));
      if l.LodLoader? {
        InsertAllKeepsSizes(l.entries, CatalogOf(l));
      }
    }
  }

  /** A video archive shorter than 48 bytes is not scanned: the loader's
      entries and the resource map stay as they were. */
  lemma ShortVideoArchiveRegistersNothing(l: Loader, m: ResMap, owner: nat)
    requires l.VideoLoader? && l.archive.Some? && |l.archive.value| < VID_MIN_FILE_SIZE
    ensures ScannedNames(l) == [] && Scanned(l) == l
    ensures RegisterAll(m, l.prefix, owner, ScannedNames(l)) == m
  {
    assert CatalogOf(l) == [];
  }

  /** A map well formed for `bound` loaders is well formed for more. */
  lemma WellFormedGrows(m: ResMap, bound: nat)
    requires WellFormed(m, bound)
    ensures WellFormed(m, bound + 1)
  {
  }

  /** The registry's map invariant: the map is well formed for the loader
      list, every locator can be served by the loader it names, and every
      LOD loader's packed sizes are non-negative. */
  ghost predicate Servable(m: ResMap, ls: seq<Loader>) {
    WellFormed(m, |ls|)
    && (forall id, k :: id in m && 0 <= k < |m[id]| ==>
          CanLoad(ls[m[id][k].loader], m[id][k].resourceName))
    && (forall i :: 0 <= i < |ls| ==> EntriesOk(ls[i]))
  }

  /** A locator that was servable stays servable when a loader is appended. */
  lemma OldLocatorServable(m: ResMap, ls: seq<Loader>, l2: Loader, id: ResourceIdentifier, k: nat)
    requires Servable(m, ls) && id in m && k < |m[id]|
    ensures m[id][k].loader < |ls| && CanLoad((ls + [l2])[m[id][k].loader], m[id][k].resourceName)
  {
    assert (ls + [l2])[m[id][k].loader] == ls[m[id][k].loader];
  }

  /** A locator that the registration of `raws` added names `owner` and one
      of `raws`. */
  lemma NewLocatorServable(prefix: string, owner: nat, raws: seq<string>, l2: Loader,
                           id: ResourceIdentifier, j: nat)
    requires (forall r :: r in raws ==> CanLoad(l2, r)) && j < |LocatorsFor(id, prefix, owner, raws)|
    ensures LocatorsFor(id, prefix, owner, raws)[j].loader == owner
    ensures CanLoad(l2, LocatorsFor(id, prefix, owner, raws)[j].resourceName)
  {
    LocatorsForSpec(id, prefix, owner, raws);
  }

  /** After loader `l2` at position `|ls|` registers `raws`, all of which it
      can serve, the locators of `id` are still servable: the old ones by
      the loaders that were there, the new ones by `l2`. */
  lemma ServableAfterScan(m: ResMap, ls: seq<Loader>, prefix: string, raws: seq<string>, l2: Loader,
                          id: ResourceIdentifier)
    requires Servable(m, ls) && forall r :: r in raws ==> CanLoad(l2, r)
    requires id in RegisterAll(m, prefix, |ls|, raws)
    ensures var m2 := RegisterAll(m, prefix, |ls|, raws);
            forall k :: 0 <= k < |m2[id]| ==>
              m2[id][k].loader <= |ls| && CanLoad((ls + [l2])[m2[id][k].loader], m2[id][k].resourceName)
  {
    var m2: ResMap := RegisterAll(m, prefix, |ls|, raws);
    RegisterAllAppends(m, prefix, |ls|, raws, id);
    forall k | 0 <= k < |m2[id]|
      ensures m2[id][k].loader <= |ls| && CanLoad((ls + [l2])[m2[id][k].loader], m2[id][k].resourceName)
    {
      LocatorServable(m, ls, prefix, raws, l2, id, m2[id], k);
    }
  }

  /** Locator `k` of the list `Get(m, id) + LocatorsFor(...)` is servable. */
  lemma LocatorServable(m: ResMap, ls: seq<Loader>, prefix: string, raws: seq<string>, l2: Loader,
                        id: ResourceIdentifier, locs: seq<Locator>, k: nat)
    requires Servable(m, ls) && forall r :: r in raws ==> CanLoad(l2, r)
    requires locs == Get(m, id) + LocatorsFor(id, prefix, |ls|, raws) && k < |locs|
    ensures locs[k].loader <= |ls| && CanLoad((ls + [l2])[locs[k].loader], locs[k].resourceName)
  {
    var old0 := Get(m, id);
    if k < |old0| {
      OldLocatorServable(m, ls, l2, id, k);
      assert locs[k] == m[id][k];
    } else {
      NewLocatorServable(prefix, |ls|, raws, l2, id, k - |old0|);
      assert locs[k] == LocatorsFor(id, prefix, |ls|, raws)[k - |old0|];
      assert (ls + [l2])[|ls|] == l2;
    }
  }

  /** Registering names that the appended loader can serve keeps the map
      invariant. */
  lemma AddLoaderKeepsServable(m: ResMap, ls: seq<Loader>, prefix: string, raws: seq<string>, l2: Loader)
    requires Servable(m, ls) && EntriesOk(l2) && forall r :: r in raws ==> CanLoad(l2, r)
    ensures Servable(RegisterAll(m, prefix, |ls|, raws), ls + [l2])
  {
    var m2: ResMap := RegisterAll(m, prefix, |ls|, raws);
    var ls2: seq<Loader> := ls + [l2];
    WellFormedGrows(m, |ls|);
    RegisterAllKeepsWellFormed(m, prefix, |ls|, raws);
    forall id: ResourceIdentifier | id in m2
      ensures forall k :: 0 <= k < |m2[id]| ==> CanLoad(ls2[m2[id][k].loader], m2[id][k].resourceName)
    {
      ServableAfterScan(m, ls, prefix, raws, l2, id);
    }
    assert forall i :: 0 <= i < |ls2| ==> EntriesOk(ls2[i]) by {
      forall i | 0 <= i < |ls2| ensures EntriesOk(ls2[i]) {
        if i < |ls| { assert ls2[i] == ls[i]; }
      }
    }
  }

  /** Appending loader `l` after its scan keeps the map invariant. */
  lemma ScanKeepsServable(m: ResMap, ls: seq<Loader>, l: Loader)
    requires Servable(m, ls) && EntriesOk(l)
    ensures Servable(RegisterAll(m, l.prefix, |ls|, ScannedNames(l)), ls + [Scanned(l)])
  {
    ScannedLoaderServesItsNames(l);
    AddLoaderKeepsServable(m, ls, l.prefix, ScannedNames(l), Scanned(l));
  }

  class FileSystemHandler {
    var loaders: seq<Loader>
    var resources: ResMap
    var memoryStreams: map<Locator, StreamRef>
    var buffers: map<nat, seq<byte>>
    var refs: map<nat, nat>
    var nextId: nat

    /** Every registered locator names a loader of the list that can serve
        it, the map is in registration order, and every buffer id in use was
        allocated. */
    ghost predicate Valid()
      reads this
    {
      Servable(resources, loaders)
      && buffers.Keys == refs.Keys
      && (forall b :: b in buffers ==> b < nextId)
      && (forall loc :: loc in memoryStreams && memoryStreams[loc].Buf? ==> memoryStreams[loc].id in buffers)
    }

    /** A weak reference has expired: null, or its buffer has no owner left. */
    predicate Expired(r: StreamRef)
      reads this
    {
      r.Null? || r.id !in refs || refs[r.id] == 0
    }

    constructor ()
      ensures Valid()
      ensures loaders == [] && resources == map[] && memoryStreams == map[]
      ensures buffers == map[] && refs == map[] && nextId == 0
    {
      loaders := [];
      resources := map[];
      memoryStreams := map[];
      buffers := map[];
      refs := map[];
      nextId := 0;
    }

    /** `addHandler`: append the loader, then let it register its names for
        its own position in the list. */
    method AddHandler(l: Loader)
      requires Valid() && EntriesOk(l)
      modifies this`loaders, this`resources
      ensures Valid()
      ensures loaders == old(loaders) + [Scanned(l)]
      ensures resources == RegisterAll(old(resources), l.prefix, |old(loaders)|, ScannedNames(l))
    {
      var owner := |loaders|;
      var resMap;
      var scanned := l;
      if l.FileLoader? {
        resMap := ScanFiles(l.tree, l.prefix, owner, resources);
      } else {
        var entries;
        entries, resMap := InsertEntries(CatalogOf(l), l.prefix, owner, l.entries, resources);
        scanned := l.(entries := entries);
      }
      ScanKeepsServable(resources, loaders, l);
      loaders := loaders + [scanned];
      resources := resMap;
    }

    /** `getResource`. A registered identifier is served from the cache when
        its locator's stream is still alive (and that stream gains an owner);
        otherwise the locator is loaded again through `AddResource`. */
    method GetResource(id: ResourceIdentifier, fromBegin: bool, unpack: bool,
                       inflate: seq<byte> -> seq<byte>, gunzip: seq<byte> -> seq<GzRead>)
      returns (rslt: StreamRef)
      requires Valid()
      requires forall b :: FullBlocks(DataPrefix(gunzip(b)), BUFSIZE)
      modifies this`memoryStreams, this`buffers, this`refs, this`nextId
      ensures Valid()
      ensures Resolve(resources, id, fromBegin).None? ==>
                rslt == Null && memoryStreams == old(memoryStreams) && buffers == old(buffers)
                && refs == old(refs) && nextId == old(nextId)
      ensures Resolve(resources, id, fromBegin).Some? ==>
                var loc := Resolve(resources, id, fromBegin).value;
                if loc in old(memoryStreams) && !old(Expired(memoryStreams[loc])) then
                  rslt == old(memoryStreams[loc])
                  && refs == old(refs)[rslt.id := old(refs[rslt.id]) + 1]
                  && memoryStreams == old(memoryStreams) && buffers == old(buffers) && nextId == old(nextId)
                else
                  Loaded(loc, unpack, inflate, gunzip, rslt, old(memoryStreams), old(buffers), old(refs), old(nextId))
    {
      var r := Resolve(resources, id, fromBegin);
      if r.None? {
        rslt := Null;
        return;
      }
      var loc := r.value;
      if loc !in memoryStreams || Expired(memoryStreams[loc]) {
        rslt := AddResource(loc, unpack, inflate, gunzip);
        return;
      }
      rslt := memoryStreams[loc];
      refs := refs[rslt.id := refs[rslt.id] + 1];
    }

    /** The state after `addResource(loc, unpack)` from the given old state.
        The loader's stream becomes a new buffer with one owner, or null.
        Unpacked it is replaced by the gunzipped bytes and not cached;
        packed it is cached only when `loc` had no cache entry yet (an
        existing, expired entry stays as it was). */
    ghost predicate Loaded(loc: Locator, unpack: bool, inflate: seq<byte> -> seq<byte>,
                           gunzip: seq<byte> -> seq<GzRead>, rslt: StreamRef,
                           ms0: map<Locator, StreamRef>, bufs0: map<nat, seq<byte>>,
                           refs0: map<nat, nat>, next0: nat)
      reads this
      requires loc.loader < |loaders| && EntriesOk(loaders[loc.loader])
      requires CanLoad(loaders[loc.loader], loc.resourceName)
    {
      var data := LoadResource(loaders[loc.loader], loc.resourceName, inflate);
      var content := if data.Some? && unpack then Flatten(DataPrefix(gunzip(data.value)))
                     else if data.Some? then data.value else [];
      (data.None? ==> rslt == Null && buffers == bufs0 && refs == refs0 && nextId == next0)
      && (data.Some? ==>
            rslt == Buf(next0) && buffers == bufs0[next0 := content]
            && refs == refs0[next0 := 1] && nextId == next0 + 1)
      && memoryStreams == (if unpack || loc in ms0 then ms0 else ms0[loc := rslt])
    }

    /** `addResource`: load `loc` through its loader; unpack it, or remember
        the stream in the cache unless `loc` already has an entry. */
    method AddResource(loc: Locator, unpack: bool, inflate: seq<byte> -> seq<byte>,
                       gunzip: seq<byte> -> seq<GzRead>)
      returns (rslt: StreamRef)
      requires Valid() && loc.loader < |loaders|
      requires CanLoad(loaders[loc.loader], loc.resourceName)
      requires forall b :: FullBlocks(DataPrefix(gunzip(b)), BUFSIZE)
      modifies this`memoryStreams, this`buffers, this`refs, this`nextId
      ensures Valid()
      ensures Loaded(loc, unpack, inflate, gunzip, rslt, old(memoryStreams), old(buffers), old(refs), old(nextId))
    {
      var data := LoadResource(loaders[loc.loader], loc.resourceName, inflate);
      rslt := Null;
      if data.Some? {
        var content := data.value;
        if unpack {
          content := GetUnpackedFile(gunzip(data.value));
        }
        rslt := Allocate(content);
      }
      if !unpack && loc !in memoryStreams {
        memoryStreams := memoryStreams[loc := rslt];
      }
    }

    /** A new stream over `content` with one owner, under the next free id. */
    method Allocate(content: seq<byte>) returns (r: StreamRef)
      requires Valid()
      modifies this`buffers, this`refs, this`nextId
      ensures Valid()
      ensures r == Buf(old(nextId)) && nextId == old(nextId) + 1
      ensures buffers == old(buffers)[r.id := content] && refs == old(refs)[r.id := 1]
    {
      r := Buf(nextId);
      buffers := buffers[nextId := content];
      refs := refs[nextId := 1];
      nextId := nextId + 1;
    }

    /** Two packed requests in a row. The second one shares the first one's
        stream, except when the locator's cache entry had already expired:
        `insert` never replaces that entry, so every request loads the
        resource again into a new buffer. */
    method GetTwice(id: ResourceIdentifier, fromBegin: bool,
                    inflate: seq<byte> -> seq<byte>, gunzip: seq<byte> -> seq<GzRead>)
      returns (r1: StreamRef, r2: StreamRef)
      requires Valid()
      requires forall b :: FullBlocks(DataPrefix(gunzip(b)), BUFSIZE)
      modifies this`memoryStreams, this`buffers, this`refs, this`nextId
      ensures Valid()
      ensures Resolve(resources, id, fromBegin).None? ==> r1 == Null && r2 == Null
      ensures Resolve(resources, id, fromBegin).Some? && r1.Buf? ==>
                var loc := Resolve(resources, id, fromBegin).value;
                if loc in old(memoryStreams) && old(Expired(memoryStreams[loc]))
                then r2.Buf? && r2 != r1
                else r2 == r1
    {
      r1 := GetResource(id, fromBegin, false, inflate, gunzip);
      r2 := GetResource(id, fromBegin, false, inflate, gunzip);
    }

    /** A packed request followed by an unpack request, as written. When the
        packed stream was not cached before, it is still alive at the second
        request, so the unpack request gets that packed stream back instead
        of unpacked data. */
    method PackedThenUnpacked(id: ResourceIdentifier, fromBegin: bool,
                              inflate: seq<byte> -> seq<byte>, gunzip: seq<byte> -> seq<GzRead>)
      returns (r1: StreamRef, r2: StreamRef)
      requires Valid()
      requires forall b :: FullBlocks(DataPrefix(gunzip(b)), BUFSIZE)
      modifies this`memoryStreams, this`buffers, this`refs, this`nextId
      ensures Valid()
      ensures (Resolve(resources, id, fromBegin).Some? && r1.Buf?
               && Resolve(resources, id, fromBegin).value !in old(memoryStreams)) ==> r2 == r1
    {
      r1 := GetResource(id, fromBegin, false, inflate, gunzip);
      r2 := GetResource(id, fromBegin, true, inflate, gunzip);
    }

    /** `getResource` with packed and unpacked data kept apart, as the
        comment in `addResource` intends: an unpack request never reads the
        cache and always loads and unpacks the resource into a new buffer. */
    method GetResourceSeparated(id: ResourceIdentifier, fromBegin: bool, unpack: bool,
                                inflate: seq<byte> -> seq<byte>, gunzip: seq<byte> -> seq<GzRead>)
      returns (rslt: StreamRef)
      requires Valid()
      requires forall b :: FullBlocks(DataPrefix(gunzip(b)), BUFSIZE)
      modifies this`memoryStreams, this`buffers, this`refs, this`nextId
      ensures Valid()
      ensures Resolve(resources, id, fromBegin).None? ==>
                rslt == Null && memoryStreams == old(memoryStreams) && buffers == old(buffers)
                && refs == old(refs) && nextId == old(nextId)
      ensures Resolve(resources, id, fromBegin).Some? && unpack ==>
                Loaded(Resolve(resources, id, fromBegin).value, true, inflate, gunzip, rslt,
                       old(memoryStreams), old(buffers), old(refs), old(nextId))
      ensures Resolve(resources, id, fromBegin).Some? && !unpack ==>
                var loc := Resolve(resources, id, fromBegin).value;
                if loc in old(memoryStreams) && !old(Expired(memoryStreams[loc])) then
                  rslt == old(memoryStreams[loc])
                  && refs == old(refs)[rslt.id := old(refs[rslt.id]) + 1]
                  && memoryStreams == old(memoryStreams) && buffers == old(buffers) && nextId == old(nextId)
                else
                  Loaded(loc, false, inflate, gunzip, rslt, old(memoryStreams), old(buffers), old(refs), old(nextId))
    {
      if !unpack {
        rslt := GetResource(id, fromBegin, false, inflate, gunzip);
        return;
      }
      var r := Resolve(resources, id, fromBegin);
      if r.None? {
        rslt := Null;
        return;
      }
      rslt := AddResource(r.value, true, inflate, gunzip);
    }

    /** The same two requests with packed and unpacked data kept apart: the
        unpack request gets a new buffer, never the packed stream. */
    method PackedThenUnpackedSeparated(id: ResourceIdentifier, fromBegin: bool,
                                       inflate: seq<byte> -> seq<byte>, gunzip: seq<byte> -> seq<GzRead>)
      returns (r1: StreamRef, r2: StreamRef)
      requires Valid()
      requires forall b :: FullBlocks(DataPrefix(gunzip(b)), BUFSIZE)
      modifies this`memoryStreams, this`buffers, this`refs, this`nextId
      ensures Valid()
      ensures r2.Buf? ==> r2 != r1 && r2.id !in old(buffers)
    {
      r1 := GetResourceSeparated(id, fromBegin, false, inflate, gunzip);
      r2 := GetResourceSeparated(id, fromBegin, true, inflate, gunzip);
    }

    /** Dropping a `shared_ptr`: its buffer loses one owner. */
    method Release(r: StreamRef)
      requires Valid()
      modifies this`refs
      ensures Valid()
      ensures r.Buf? && r.id in old(refs) && old(refs[r.id]) > 0 ==> refs == old(refs)[r.id := old(refs[r.id]) - 1]
      ensures !(r.Buf? && r.id in old(refs) && old(refs[r.id]) > 0) ==> refs == old(refs)
    {
      if r.Buf? && r.id in refs && refs[r.id] > 0 {
        refs := refs[r.id := refs[r.id] - 1];
      }
    }
  }
}
