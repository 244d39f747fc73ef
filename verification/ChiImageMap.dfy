/** The image loader over the registered memories. */
module ChiImageMap {
  import opened Machine
  import opened Options
  import opened BeatAccess
  import opened SparseMemory
  import opened ImageMap
  import ChunkEngine
  import Handshake

  /** A memory is a region named by its owner that starts at the beginning of its storage. */
  ghost function RegionOf(e: Registered): Region {
    Region(e.owner, e.base, e.storage.size, e.storage.size, 0)
  }

  ghost function RegionsOf(entries: seq<Registered>): (regions: seq<Region>)
    ensures |regions| == |entries|
    ensures forall i :: 0 <= i < |entries| ==> regions[i] == RegionOf(entries[i])
  {
    seq(|entries|, i requires 0 <= i < |entries| => RegionOf(entries[i]))
  }

  /** Entries the registry keeps apart are regions the map keeps apart. */
  lemma NeverClashes(entries: seq<Registered>, i: nat, r: Region)
    requires AllApart(entries) && i < |entries| && r in RegionsOf(entries[..i])
    ensures RegionOf(entries[i]).WellFormed() && !Clash(RegionOf(entries[i]), r)
  {
    var j :| 0 <= j < i && RegionsOf(entries[..i])[j] == r;
    assert Apart(entries[j], entries[i]);
    assert entries[i] in entries;
  }

  /** Freezes registration and maps every memory: no registered memory is ever refused by the map. */
  method BuildImageMap(registry: Registry) returns (image: Option<ImageMemoryMap>)
    requires registry.Valid()
    modifies registry
    ensures registry.Valid() && registry.memories == old(registry.memories) && registry.failed == old(registry.failed)
    ensures image.Some? <==> !registry.failed
    ensures image.Some? ==> registry.frozen && fresh(image.value) && image.value.Valid() && !image.value.frozen
    ensures image.Some? ==> multiset(image.value.regions) == multiset(RegionsOf(registry.memories))
  {
    hide AllApart, Region.WellFormed, Clash, Laid;
    var windows := registry.Freeze();
    if windows == None {
      return None;
    }
    var entries := windows.value;
    var built := new ImageMemoryMap();
    for i := 0 to |entries|
      invariant registry.memories == entries && registry.frozen && !registry.failed && registry.Valid()
      invariant fresh(built) && built.Valid() && !built.frozen
      invariant multiset(built.regions) == multiset(RegionsOf(entries[..i]))
    {
      forall r <- built.regions
        ensures RegionOf(entries[i]).WellFormed() && !Clash(RegionOf(entries[i]), r)
      {
        assert r in multiset(built.regions);
        NeverClashes(entries, i, r);
      }
      FormedRegion(entries, i);
      assert RegionsOf(entries[..i + 1]) == RegionsOf(entries[..i]) + [RegionOf(entries[i])];
      var e := entries[i];
      var added := built.Add(Region(e.owner, e.base, e.storage.size, e.storage.size, 0));
    }
    assert entries[..|entries|] == entries;
    image := Some(built);
  }

  lemma FormedRegion(entries: seq<Registered>, i: nat)
    requires AllApart(entries) && i < |entries|
    ensures RegionOf(entries[i]).WellFormed()
  {
    assert entries[i] in entries;
  }

  /** No two entries share an owner or a memory. */
  ghost predicate OneEach(entries: seq<Registered>) {
    forall e <- entries, f <- entries :: e.owner == f.owner || e.storage == f.storage ==> e == f
  }

  /** The memories by owner, as the callbacks of their regions reach them. */
  function StorageOf(entries: seq<Registered>): (storage: map<string, Memory>)
    requires OneEach(entries)
    ensures forall e <- entries :: e.owner in storage && storage[e.owner] == e.storage
    ensures forall n :: n in storage ==> exists e <- entries :: e.owner == n && e.storage == storage[n]
  {
    map e | e in entries :: e.owner := e.storage
  }

  lemma RegisteredOnce(entries: seq<Registered>)
    requires AllApart(entries)
    ensures OneEach(entries)
  {
    hide Overlap, WellFormed;
    forall e <- entries, f <- entries | e.owner == f.owner || e.storage == f.storage
      ensures e == f
    {
      var i :| 0 <= i < |entries| && entries[i] == e;
      var j :| 0 <= j < |entries| && entries[j] == f;
      assert i == j || Apart(entries[i], entries[j]);
    }
  }

  /** Different owners have different memories, each as large as its region says. */
  lemma StorageApart(entries: seq<Registered>)
    requires OneEach(entries)
    ensures ChunkEngine.Apart(StorageOf(entries))
    ensures forall r <- RegionsOf(entries) ::
      r.name in StorageOf(entries) && StorageOf(entries)[r.name].size == r.storageSize
  {
    var storage := StorageOf(entries);
    forall n, k | n in storage && k in storage && n != k
      ensures storage[n] != storage[k]
    {
      var e :| e in entries && e.owner == n && e.storage == storage[n];
      var f :| f in entries && f.owner == k && f.storage == storage[k];
    }
    forall r <- RegionsOf(entries)
      ensures r.name in storage && storage[r.name].size == r.storageSize
    {
      var i :| 0 <= i < |entries| && RegionOf(entries[i]) == r;
      assert entries[i] in entries;
    }
  }

  lemma SameMembers(a: seq<Region>, b: seq<Region>)
    requires multiset(a) == multiset(b)
    ensures forall r <- a :: r in b
  {
    forall r <- a
      ensures r in b
    {
      assert r in multiset(a);
    }
  }

  /** A loader whose regions are the registered memories themselves. */
  method BuildLoader(registry: Registry, boot: U64, xlen: nat, script: seq<ChunkEngine.Pins>)
    returns (loader: Option<ChunkEngine.Engine>)
    requires registry.Valid() && boot % 8 == 0 && (xlen == 32 || xlen == 64)
    requires forall e <- registry.memories :: e.storage.Valid()
    modifies registry
    ensures registry.Valid() && registry.memories == old(registry.memories)
    ensures loader.Some? <==> !registry.failed
    ensures loader.Some? ==>
      && loader.value.Valid() && loader.value.Ready()
      && multiset(loader.value.image.regions) == multiset(RegionsOf(registry.memories))
      && (forall e <- registry.memories :: e.owner in loader.value.memories &&
           loader.value.memories[e.owner] == e.storage)
  {
    var image := BuildImageMap(registry);
    if image == None {
      return None;
    }
    hide AllApart, OneEach, RegionsOf, Handshake.Sound, Handshake.Tracks, Laid, ChunkEngine.Apart;
    var entries := registry.memories;
    RegisteredOnce(entries);
    StorageApart(entries);
    SameMembers(image.value.regions, RegionsOf(entries));
    var transport := new Handshake.Transport(boot, xlen);
    var engine := new ChunkEngine.Engine(transport, image.value, StorageOf(entries), script);
    loader := Some(engine);
  }
}
