/** `TResourcesMap`: identifier -> ordered list of locators, grown only by appending. */
module ResourcesMap {
  import opened ResourceNames

  /** Which loader (its position in the registry's loader list) can produce
      a resource, and under which loader-local name. */
  datatype Locator = Locator(loader: nat, resourceName: string)

  type ResMap = map<ResourceIdentifier, seq<Locator>>

  /** The list of `id`; an identifier not in the map has the empty list
      (what `map[ident]` default-constructs before `push_back`). */
  function Get(m: ResMap, id: ResourceIdentifier): seq<Locator> {
    if id in m then m[id] else []
  }

  /** `IResourceLoader::addEntryToMap` (and the identical inline code of the LOD
      scan): one locator for `raw` at the END of its identifier's list; every
      other identifier keeps its list. */
  function AddEntryToMap(m: ResMap, prefix: string, owner: nat, raw: string): (r: ResMap)
    ensures r.Keys == m.Keys + {Ident(prefix, raw)}
    ensures r[Ident(prefix, raw)] == Get(m, Ident(prefix, raw)) + [Locator(owner, raw)]
    ensures forall id :: id in m && id != Ident(prefix, raw) ==> r[id] == m[id]
  {
    var id := Ident(prefix, raw);
    m[id := Get(m, id) + [Locator(owner, raw)]]
  }

  /** The map after registering the raw names `raws`, in order, for loader `owner`. */
  function RegisterAll(m: ResMap, prefix: string, owner: nat, raws: seq<string>): ResMap
    decreases |raws|
  {
    if raws == [] then m
    else AddEntryToMap(RegisterAll(m, prefix, owner, raws[..|raws| - 1]), prefix, owner, raws[|raws| - 1])
  }

  /** The locators for the names in `raws` that normalise to `id`, in order. */
  function LocatorsFor(id: ResourceIdentifier, prefix: string, owner: nat, raws: seq<string>): seq<Locator>
    decreases |raws|
  {
    if raws == [] then []
    else
      LocatorsFor(id, prefix, owner, raws[..|raws| - 1])
      + (if Ident(prefix, raws[|raws| - 1]) == id then [Locator(owner, raws[|raws| - 1])] else [])
  }

  /** Registration only appends: each identifier's new list is its old list
      followed by the locators of exactly the registered names that normalise
      to it, in registration order; an identifier is present afterwards
      exactly when it was before or one of the names normalises to it. */
  lemma {:induction false} RegisterAllAppends(m: ResMap, prefix: string, owner: nat, raws: seq<string>, id: ResourceIdentifier)
    ensures Get(RegisterAll(m, prefix, owner, raws), id) == Get(m, id) + LocatorsFor(id, prefix, owner, raws)
    ensures id in RegisterAll(m, prefix, owner, raws) <==> id in m || LocatorsFor(id, prefix, owner, raws) != []
    decreases |raws|
  {
    if raws != [] {
      var init := raws[..|raws| - 1];
      RegisterAllAppends(m, prefix, owner, init, id);
      AddEntryGet(RegisterAll(m, prefix, owner, init), prefix, owner, raws[|raws| - 1], id);
    }
  }

  /** What one registration does to the list and the presence of `id`. */
  lemma AddEntryGet(m: ResMap, prefix: string, owner: nat, raw: string, id: ResourceIdentifier)
    ensures Get(AddEntryToMap(m, prefix, owner, raw), id)
            == Get(m, id) + (if Ident(prefix, raw) == id then [Locator(owner, raw)] else [])
    ensures id in AddEntryToMap(m, prefix, owner, raw) <==> id in m || Ident(prefix, raw) == id
  {
  }

  /** Every locator `LocatorsFor` yields belongs to `owner`, names one of
      `raws` and normalises to `id`. */
  lemma {:induction false} LocatorsForSound(id: ResourceIdentifier, prefix: string, owner: nat, raws: seq<string>)
    ensures forall k :: 0 <= k < |LocatorsFor(id, prefix, owner, raws)| ==>
              var l := LocatorsFor(id, prefix, owner, raws)[k];
              l.loader == owner && l.resourceName in raws && Ident(prefix, l.resourceName) == id
    decreases |raws|
  {
    if raws != [] {
      var init := raws[..|raws| - 1];
      LocatorsForSound(id, prefix, owner, init);
      assert forall r :: r in init ==> r in raws;
    }
  }

  /** `LocatorsFor` yields a locator exactly when some registered name
      normalises to `id`. */
  lemma {:induction false} LocatorsForComplete(id: ResourceIdentifier, prefix: string, owner: nat, raws: seq<string>)
    ensures LocatorsFor(id, prefix, owner, raws) != [] <==> exists r :: r in raws && Ident(prefix, r) == id
    decreases |raws|
  {
    if raws != [] {
      var init := raws[..|raws| - 1];
      var last := raws[|raws| - 1];
      LocatorsForComplete(id, prefix, owner, init);
      assert raws == init + [last];
      if Ident(prefix, last) == id {
        assert last in raws;
      } else {
        assert LocatorsFor(id, prefix, owner, raws) == LocatorsFor(id, prefix, owner, init);
        SameMatches(id, prefix, init, last);
      }
    }
  }

  /** A last name that does not normalise to `id` adds no match for it. */
  lemma SameMatches(id: ResourceIdentifier, prefix: string, init: seq<string>, last: string)
    requires Ident(prefix, last) != id
    ensures (exists r :: r in init + [last] && Ident(prefix, r) == id)
            <==> (exists r :: r in init && Ident(prefix, r) == id)
  {
    if r :| r in init + [last] && Ident(prefix, r) == id {
      assert r in init;
    }
    if r :| r in init && Ident(prefix, r) == id {
      assert r in init + [last];
    }
  }

  /** Both halves: the locators are the right ones, and there are some
      exactly when a registered name normalises to `id`. */
  lemma LocatorsForSpec(id: ResourceIdentifier, prefix: string, owner: nat, raws: seq<string>)
    ensures forall k :: 0 <= k < |LocatorsFor(id, prefix, owner, raws)| ==>
              var l := LocatorsFor(id, prefix, owner, raws)[k];
              l.loader == owner && l.resourceName in raws && Ident(prefix, l.resourceName) == id
    ensures LocatorsFor(id, prefix, owner, raws) != [] <==> exists r :: r in raws && Ident(prefix, r) == id
  {
    LocatorsForSound(id, prefix, owner, raws);
    LocatorsForComplete(id, prefix, owner, raws);
  }

  /** Within one list, locators appear in non-decreasing loader order:
      later-registered loaders come later. */
  ghost predicate OrderedByLoader(locs: seq<Locator>) {
    forall i :: 0 < i < |locs| ==> locs[i - 1].loader <= locs[i].loader
  }

  /** The map invariant: no identifier has an empty list, every list is in
      registration order, and every locator names one of the `bound` loaders. */
  ghost predicate WellFormed(m: ResMap, bound: nat) {
    forall id :: id in m ==>
      |m[id]| > 0 && OrderedByLoader(m[id]) &&
      forall k :: 0 <= k < |m[id]| ==> m[id][k].loader < bound
  }

  /** Adding one locator of loader `owner` keeps the map well formed. */
  lemma AddEntryKeepsWellFormed(m: ResMap, prefix: string, owner: nat, raw: string)
    requires WellFormed(m, owner + 1)
    ensures WellFormed(AddEntryToMap(m, prefix, owner, raw), owner + 1)
  {
    var id := Ident(prefix, raw);
    var r := AddEntryToMap(m, prefix, owner, raw);
    var l := Get(m, id);
    assert r[id] == l + [Locator(owner, raw)];
    assert l != [] ==> l[|l| - 1].loader < owner + 1;
    assert OrderedByLoader(r[id]);
    assert forall k :: 0 <= k < |r[id]| ==> r[id][k].loader < owner + 1;
  }

  /** Registering the names of loader `owner` keeps the map well formed once
      `owner` counts as registered. */
  lemma {:induction false} RegisterAllKeepsWellFormed(m: ResMap, prefix: string, owner: nat, raws: seq<string>)
    requires WellFormed(m, owner + 1)
    ensures WellFormed(RegisterAll(m, prefix, owner, raws), owner + 1)
    decreases |raws|
  {
    if raws != [] {
      RegisterAllKeepsWellFormed(m, prefix, owner, raws[..|raws| - 1]);
      AddEntryKeepsWellFormed(RegisterAll(m, prefix, owner, raws[..|raws| - 1]), prefix, owner, raws[|raws| - 1]);
    }
  }

  /** In a list in registration order the front holds the lowest and the back
      the highest loader position: the back is the highest-priority source
      and the front the original one. */
  lemma {:induction false} FrontAndBackArePriorityExtremes(locs: seq<Locator>)
    requires |locs| > 0 && OrderedByLoader(locs)
    ensures forall k :: 0 <= k < |locs| ==> locs[0].loader <= locs[k].loader <= locs[|locs| - 1].loader
    decreases |locs|
  {
    if |locs| > 1 {
      var init := locs[..|locs| - 1];
      assert OrderedByLoader(init);
      FrontAndBackArePriorityExtremes(init);
      forall k | 0 <= k < |locs|
        ensures locs[0].loader <= locs[k].loader <= locs[|locs| - 1].loader
      {
        if k < |locs| - 1 {
          assert init[k] == locs[k] && init[|init| - 1] == locs[|locs| - 2];
        }
      }
    }
  }
}
