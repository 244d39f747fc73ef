/** The map from physical ranges to native byte stores used while an image is loaded. */
module ImageMap {
  import opened Machine
  import opened Options

  /** A window of the address space and where it starts in its store. */
  datatype Region = Region(name: string, base: U64, size: U64, storageSize: U64, offset: U64) {
    ghost predicate WellFormed() {
      name != "" && 0 < size && base + size - 1 <= U64_MAX && offset + size <= storageSize
    }

    predicate Contains(a: int) {
      base <= a < base + size
    }
  }

  ghost predicate Clash(r: Region, s: Region) {
    r.name == s.name || (r.base <= s.base + s.size - 1 && s.base <= r.base + r.size - 1)
  }

  /** Well-formed regions in address order, sharing neither a name nor an address. */
  ghost predicate Laid(regions: seq<Region>) {
    && (forall r <- regions :: r.WellFormed())
    && (forall i, j :: 0 <= i < j < |regions| ==>
          regions[i].base + regions[i].size <= regions[j].base && regions[i].name != regions[j].name)
  }

  ghost function RegionAt(regions: seq<Region>, a: int): Option<Region> {
    if regions == [] then None
    else if regions[0].Contains(a) then Some(regions[0])
    else RegionAt(regions[1..], a)
  }

  lemma {:induction false} Located(regions: seq<Region>, i: nat, a: int)
    requires Laid(regions) && i < |regions| && regions[i].Contains(a)
    ensures RegionAt(regions, a) == Some(regions[i])
  {
    if i > 0 {
      assert regions[0].base + regions[0].size <= regions[i].base;
      Located(regions[1..], i - 1, a);
    }
  }

  lemma {:induction false} NotLocated(regions: seq<Region>, a: int)
    requires forall r <- regions :: !r.Contains(a)
    ensures RegionAt(regions, a) == None
  {
    if regions != [] {
      assert regions[0] in regions;
      NotLocated(regions[1..], a);
    }
  }

  lemma {:induction false} LocatedIn(regions: seq<Region>, a: int)
    ensures RegionAt(regions, a).Some? ==>
      RegionAt(regions, a).value in regions && RegionAt(regions, a).value.Contains(a)
  {
    if regions != [] && !regions[0].Contains(a) {
      LocatedIn(regions[1..], a);
    }
  }

  lemma SameName(regions: seq<Region>, r: Region, s: Region)
    requires Laid(regions) && r in regions && s in regions && r.name == s.name
    ensures r == s
  {
    var i :| 0 <= i < |regions| && regions[i] == r;
    var j :| 0 <= j < |regions| && regions[j] == s;
  }

  function Insert<T>(s: seq<T>, place: nat, x: T): (r: seq<T>)
    requires place <= |s|
    ensures |r| == |s| + 1
    ensures forall j :: 0 <= j < |r| ==> r[j] == if j < place then s[j] else if j == place then x else s[j - 1]
    ensures multiset(r) == multiset(s) + multiset{x}
  {
    assert s == s[..place] + s[place..];
    s[..place] + [x] + s[place..]
  }

  lemma Inserted(regions: seq<Region>, place: nat, region: Region)
    requires Laid(regions) && place <= |regions| && region.WellFormed() && forall r <- regions :: !Clash(region, r)
    requires forall j :: 0 <= j < |regions| ==> (j < place <==> regions[j].base < region.base)
    ensures Laid(Insert(regions, place, region))
  {
    forall j | 0 <= j < |regions|
      ensures j < place ==> regions[j].base + regions[j].size <= region.base
      ensures place <= j ==> region.base + region.size <= regions[j].base
      ensures regions[j].name != region.name && regions[j].WellFormed()
    {
      assert regions[j] in regions && !Clash(region, regions[j]);
    }
  }

  /** A stretch of addresses that one region, or no region, serves. */
  datatype Segment = Segment(region: Option<Region>, offset: nat, length: nat)

  class ImageMemoryMap {
    var frozen: bool
    var regions: seq<Region>

    ghost predicate Valid()
      reads this
    {
      Laid(regions)
    }

    constructor ()
      ensures Valid() && regions == [] && !frozen
    {
      frozen, regions := false, [];
    }

    /** Adds a region that clashes with none, keeping address order. */
    method Add(region: Region) returns (ok: bool)
      requires Valid()
      modifies this
      ensures Valid() && frozen == old(frozen)
      ensures ok <==> !frozen && region.WellFormed() && forall r <- old(regions) :: !Clash(region, r)
      ensures multiset(regions) == multiset(old(regions)) + (if ok then multiset{region} else multiset{})
      ensures !ok ==> regions == old(regions)
    {
      if frozen || region.name == "" || region.size == 0 || region.base + region.size - 1 > U64_MAX ||
         region.offset > region.storageSize || region.size > region.storageSize - region.offset {
        return false;
      }
      var place := 0;
      for i := 0 to |regions|
        invariant regions == old(regions) && place <= i
        invariant forall r <- regions[..i] :: !Clash(region, r)
        invariant forall j :: 0 <= j < i ==> (j < place <==> regions[j].base < region.base)
      {
        var r := regions[i];
        if r.name == region.name ||
           (region.base <= r.base + r.size - 1 && r.base <= region.base + region.size - 1) {
          assert r in regions && Clash(region, r);
          return false;
        }
        if r.base < region.base {
          place := i + 1;
        }
      }
      assert regions[..|regions|] == regions;
      Inserted(regions, place, region);
      regions := Insert(regions, place, region);
      ok := true;
    }

    method Freeze()
      requires Valid()
      modifies this
      ensures Valid() && frozen && regions == old(regions)
    {
      frozen := true;
    }

    /** The longest stretch from `address` that stays in one region or outside all of them. */
    method FindSegment(address: U64, length: nat) returns (s: Segment)
      requires Valid()
      ensures s.length <= length && (0 < length ==> 0 < s.length)
      ensures forall a: int :: address <= a < address + s.length ==> RegionAt(regions, a) == s.region
      ensures s.length < length ==> RegionAt(regions, address + s.length) != s.region
      ensures s.region.None? ==> s.offset == 0
      ensures s.region.Some? ==>
        s.region.value in regions && s.region.value.Contains(address) &&
          s.offset == s.region.value.offset + (address - s.region.value.base)
    {
      for i := 0 to |regions|
        invariant forall j :: 0 <= j < i ==> regions[j].base + regions[j].size <= address
      {
        var region := regions[i];
        assert region in regions && region.WellFormed();
        if address < region.base {
          s := Segment(None, 0, if length < region.base - address then length else region.base - address);
          forall a: int | address <= a < address + s.length
            ensures RegionAt(regions, a) == None
          {
            assert forall j :: i <= j < |regions| ==> region.base <= regions[j].base;
            NotLocated(regions, a);
          }
          Located(regions, i, region.base);
          return;
        }
        var relative := address - region.base;
        if relative < region.size {
          s := Segment(Some(region), region.offset + relative, if length < region.size - relative then length
            else region.size - relative);
          forall a: int | address <= a < address + s.length
            ensures RegionAt(regions, a) == Some(region)
          {
            Located(regions, i, a);
          }
          LocatedIn(regions, address + s.length);
          return;
        }
      }
      s := Segment(None, 0, length);
      forall a: int | address <= a
        ensures RegionAt(regions, a) == None
      {
        NotLocated(regions, a);
      }
    }
  }
}
