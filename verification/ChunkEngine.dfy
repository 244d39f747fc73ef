/** Loading, clearing and reading ranges: mapped bytes go to the sparse memory behind their region, the
    rest to the target, one clocked request at a time. */
module ChunkEngine {
  import opened Machine
  import opened Options
  import opened Collections
  import opened SparseMemory
  import opened ImageMap
  import opened AddressSpace
  import Handshake

  /** What the target's pins do in one clock; a status of zero is success. */
  datatype Pins = Pins(ready: bool, answered: bool, status: Byte)

  /** A request that was turned down, one that got no data, or the data. */
  datatype Response = Rejected | Failed | Data(word: U64)

  /** What is left of an accepted range is acceptable. */
  lemma TailAccepted(boot: nat, address: nat, n: nat, done: nat)
    requires !Wraps(address, n) && done < n
    ensures address + done <= U64_MAX && !Wraps(address + done, n - done)
    ensures !Handshake.TouchesBoot(boot, address, n) ==> !Handshake.TouchesBoot(boot, address + done, n - done)
  {
  }

  /** The log has one transaction for each request made, with whether it was answered with success. */
  ghost predicate Logged(log: seq<Transaction>, issued: seq<Handshake.Request>, answers: seq<Handshake.Answer>) {
    && |log| == |issued|
    && forall i :: 0 <= i < |log| ==>
         log[i] == Transaction(issued[i].write, issued[i].address, issued[i].data, issued[i].length,
                               i < |answers| && answers[i].status == 0)
  }

  ghost predicate Apart(memories: map<string, Memory>) {
    forall n, k :: n in memories && k in memories && n != k ==> memories[n] != memories[k]
  }

  lemma LoggedNext(log: seq<Transaction>, issued: seq<Handshake.Request>, answers: seq<Handshake.Answer>,
                   r: Handshake.Request, answers': seq<Handshake.Answer>)
    requires Logged(log, issued, answers) && |issued| == |answers|
    requires answers' == answers || (|answers'| == |answers| + 1 && answers'[..|answers|] == answers)
    ensures Logged(log + [Transaction(r.write, r.address, r.data, r.length,
                                      |answers| < |answers'| && answers'[|answers|].status == 0)], issued + [r],
                                        answers')
  {
  }

  class Engine {
    const image: ImageMemoryMap
    /** The storage behind each region, by name. */
    const memories: map<string, Memory>
    const transport: Handshake.Transport
    /** The target's memory, and what its pins will do. */
    var target: Store
    var pins: seq<Pins>
    var log: seq<Transaction>

    ghost predicate Valid()
      reads this, image, transport, memories.Values
    {
      Grounded() && transport.Valid() && Logged(log, transport.issued, transport.answers)
    }

    /** Every region has its storage, and no storage is behind two names. */
    ghost predicate Grounded()
      reads image, memories.Values
    {
      Housed() && Apart(memories) && forall n :: n in memories ==> memories[n].Valid()
    }

    ghost predicate Housed()
      reads image
    {
      image.Valid() && forall r <- image.regions :: r.name in memories && memories[r.name].size == r.storageSize
    }

    /** No request is outstanding and none has failed. */
    predicate Ready()
      reads transport
    {
      !transport.pending && !transport.failed
    }

    ghost function Stores(): Stores
      reads image, memories.Values
      requires Grounded()
    {
      map n | n in memories :: memories[n].Flat()
    }

    /** The regions in force: none once loading has ended. */
    ghost function Regions(): (regions: seq<Region>)
      reads this, image, transport, memories.Values
      requires Valid()
      ensures Laid(regions) && Stocked(regions, Stores())
    {
      if transport.loading then image.regions else []
    }

    ghost function Now(): State
      reads this, image, memories.Values
      requires Grounded()
    {
      State(Stores(), target, log)
    }

    constructor (t: Handshake.Transport, map_: ImageMemoryMap, storage: map<string, Memory>, script: seq<Pins>)
      requires t.Valid() && map_.Valid() && t.issued == [] && Apart(storage)
      requires forall n :: n in storage ==> storage[n].Valid()
      requires forall r <- map_.regions :: r.name in storage && storage[r.name].size == r.storageSize
      ensures Valid() && image == map_ && memories == storage && transport == t && log == [] && target == map[]
    {
      image, memories, transport := map_, storage, t;
      target, pins, log := map[], script, [];
    }

    /** A segment that one region serves. */
    ghost predicate Mapped(regions: seq<Region>, at: nat, n: nat, s: Segment) {
      && s.region.Some? && 0 < n && InRegion(regions, at, n, s.region.value)
      && s.offset == s.region.value.offset + (at - s.region.value.base)
    }

    method NextSegment(address: U64, n: nat) returns (s: Segment)
      requires Valid() && 0 < n
      ensures 0 < s.length <= n
      ensures s.region.None? ==>
        Outside(Regions(), address, s.length) &&
          (s.length < n ==> RegionAt(Regions(), address + s.length).Some?)
      ensures s.region.Some? ==> Mapped(Regions(), address, s.length, s)
    {
      if transport.loading {
        s := image.FindSegment(address, n);
      } else {
        s := Segment(None, 0, n);
      }
    }

    // -------------------------------------------------------------- one request

    /** Clocks the outstanding request until the target answers it or its pins fall silent. */
    method Await(word: U64)
      requires transport.Valid() && transport.pending
      modifies transport`exposed, transport`accepted, transport`pending, transport`response
      modifies transport`taken, transport`answers, transport`failed, this`pins
      ensures transport.Valid()
      ensures transport.pending ==> transport.answers == old(transport.answers)
      ensures !transport.pending ==> exists status ::
                transport.answers == old(transport.answers) + [Handshake.Answer(word, status)] &&
                  (status != 0 <==> transport.failed)
    {
      hide Handshake.Sound;
      while transport.pending && pins != []
        invariant transport.Valid()
        invariant transport.pending ==> transport.answers == old(transport.answers)
        invariant !transport.pending ==> exists status ::
                    transport.answers == old(transport.answers) + [Handshake.Answer(word, status)] &&
                      (status != 0 <==> transport.failed)
        decreases |pins|
      {
        var now := pins[0];
        pins := pins[1..];
        transport.Sample(now.ready, now.answered, Handshake.Answer(word, now.status));
      }
    }

    /** One request to the target, which acts on it when it answers with success. */
    method Transact(write: bool, address: U64, data: U64, length: nat) returns (r: Response)
      requires Valid() && Ready()
      modifies transport, this`target, this`pins, this`log
      ensures Valid() && (Ready() <==> r.Data?) && transport.loading == old(transport.loading)
      ensures r == Rejected <==>
        !(1 <= length <= MAX_BYTES) || Wraps(address, length) || (write && Guarded(address, length))
      ensures log == old(log) + (if r == Rejected then [] else [Transaction(write, address, data, length, r.Data?)])
      ensures target == if r.Data? && write then Put(old(target), address, LowBytes(data, length)) else old(target)
      ensures r.Data? && !write ==> LowBytes(r.word, length) == GetAll(old(target), address, length)
    {
      hide Handshake.Sound, Logged, Grounded, LittleEndian, LowBytes;
      var request := Handshake.Request(write, address, data, length);
      ghost var issued, answers := transport.issued, transport.answers;
      transport.Transact(request);
      if transport.failed {
        assert transport.issued == issued;
        return Rejected;
      }
      var bytes := GetAll(target, address, length);
      WordCarries(bytes);
      Await(LittleEndian(bytes));
      LoggedNext(log, issued, answers, request, transport.answers);
      log := log + [Transaction(write, address, data, length, Ready())];
      if !Ready() {
        return Failed;
      }
      if write {
        target := Put(target, address, LowBytes(data, length));
      }
      r := Data(transport.response.data);
    }

    /** While loading, writes must stay clear of the boot register. */
    ghost predicate Guarded(address: U64, n: nat)
      reads transport
    {
      transport.loading && Handshake.TouchesBoot(transport.bootRegister, address, n)
    }

    ghost predicate RefusesWrite(address: U64, n: nat)
      reads transport
    {
      Wraps(address, n) || Guarded(address, n)
    }

    /** A range that wraps is refused, and while loading one that reaches the boot register. */
    method Admits(address: U64, n: nat) returns (ok: bool)
      requires Valid()
      ensures ok <==> !RefusesWrite(address, n)
    {
      if n == 0 {
        return true;
      }
      if n - 1 > U64_MAX - address {
        return false;
      }
      var boot, last := transport.bootRegister, address + (n - 1);
      ok := !(transport.loading && address <= boot + 7 && boot <= last);
    }

    // -------------------------------------------------------------- writes and clears

    /** A write in progress: `front` is written from `address` on, and nothing else. */
    ghost predicate Going(regions: seq<Region>, limit: nat, before: State, address: nat, front: seq<Byte>)
      reads this, image, transport, memories.Values
      requires Laid(regions) && Stocked(regions, before.stores)
    {
      Valid() && Ready() && Regions() == regions && Wrote(regions, limit, before, Now(), address, front, false)
    }

    /** A write that stopped at a request the target did not serve: `front` is written and nothing else. */
    ghost predicate Halted(regions: seq<Region>, limit: nat, before: State, address: nat, front: seq<Byte>)
      reads this, image, transport, memories.Values
      requires Laid(regions) && Stocked(regions, before.stores)
    {
      Valid() && !Ready() && Regions() == regions && Wrote(regions, limit, before, Now(), address, front, true)
    }

    /** How a write of `bytes` may end. */
    ghost predicate Ended(outcome: Outcome, regions: seq<Region>, before: State, address: nat, bytes: seq<Byte>)
      reads this, image, transport, memories.Values
      requires Laid(regions) && Stocked(regions, before.stores)
    {
      && Valid() && Regions() == regions && (Ready() <==> outcome == Done)
      && WriteEnds(outcome, regions, before, Now(), address, bytes)
    }

    lemma Behind(regions: seq<Region>, r: Region)
      requires Valid() && regions == Regions() && r in regions
      ensures r.name in memories && memories[r.name].size == r.storageSize
    {
    }

    /** Calls the write of one memory. */
    method Store(name: string, offset: U64, bytes: seq<Byte>)
      requires Grounded() && name in memories && offset + |bytes| <= memories[name].size
      modifies memories[name]
      ensures Grounded() && Stores() == old(Stores())[name := Overwrite(old(Stores())[name], offset, bytes)]
    {
      hide Overwrite, Touches, Base, PageOf, Within, ByteAt, Housed, Memory.Flat, Memory.Valid;
      var memory := memories[name];
      var ok := memory.Write(offset, bytes);
    }

    /** Calls the clear of one memory: no page is allocated for it. */
    method Clear(name: string, offset: U64, n: nat)
      requires Grounded() && name in memories && offset + n <= memories[name].size
      modifies memories[name]
      ensures Grounded() && Stores() == old(Stores())[name := Overwrite(old(Stores())[name], offset, Zeros(n))]
      ensures forall m <- memories.Values :: m.pages.Keys <= old(m.pages.Keys)
    {
      hide Overwrite, Covers, Base, PageOf, Within, ByteAt, Housed, Memory.Flat, Memory.Valid;
      var memory := memories[name];
      var ok := memory.Zero(offset, n);
    }

    /** Hands a piece of the range to the memory behind its region. */
    method StorePiece(segment: Segment, piece: seq<Byte>, ghost regions: seq<Region>, ghost limit: nat,
                      ghost before: State,
                      ghost address: nat,
                      ghost front: seq<Byte>)
      requires Laid(regions) && Stocked(regions, before.stores) && Going(regions, limit, before, address, front)
      requires Mapped(regions, address + |front|, |piece|, segment)
      modifies memories.Values
      ensures Going(regions, limit, before, address, front + piece)
    {
      hide RegionAt, Laid, Stocked, View, Overwrite, Updated, Grounded, Logged, Wrote;
      ghost var was, at, r := Now(), address + |front|, segment.region.value;
      Behind(regions, r);
      SegmentInStore(regions, r, at, |piece|);
      RegionWrite(regions, was.stores, target, r, at, piece);
      InRegionInside(regions, at, |piece|, r);
      Store(segment.region.value.name, segment.offset, piece);
      WroteMapped(regions, limit, before, was, Now(), address, front, piece);
    }

    /** Has the memory behind a region clear a piece of the range. */
    method ClearPiece(segment: Segment, n: nat, ghost regions: seq<Region>, ghost limit: nat, ghost before: State,
                      ghost address: nat,
                      ghost front: seq<Byte>)
      requires Laid(regions) && Stocked(regions, before.stores) && Going(regions, limit, before, address, front)
      requires Mapped(regions, address + |front|, n, segment)
      modifies memories.Values
      ensures Going(regions, limit, before, address, front + Zeros(n))
      ensures forall m <- memories.Values :: m.pages.Keys <= old(m.pages.Keys)
    {
      hide RegionAt, Laid, Stocked, View, Overwrite, Updated, Grounded, Logged, Wrote;
      ghost var was, at, r := Now(), address + |front|, segment.region.value;
      Behind(regions, r);
      SegmentInStore(regions, r, at, n);
      RegionWrite(regions, was.stores, target, r, at, Zeros(n));
      InRegionInside(regions, at, n, r);
      Clear(segment.region.value.name, segment.offset, n);
      WroteMapped(regions, limit, before, was, Now(), address, front, Zeros(n));
    }

    /** Sends a piece of an accepted range to the target as one word; the range holds `bytes` in the end. */
    method SendPiece(at: U64, piece: seq<Byte>, ghost regions: seq<Region>, ghost limit: nat, ghost before: State,
                     ghost address: nat,
                     ghost front: seq<Byte>) returns (ok: bool)
      requires Laid(regions) && Stocked(regions, before.stores) && Going(regions, limit, before, address, front)
      requires 1 <= |piece| <= MAX_BYTES && !RefusesWrite(at, |piece|) && at == address + |front|
      requires Outside(regions, at, |piece|)
      requires |piece| == 8 || at + |piece| == limit || RegionAt(regions, at + |piece|).Some?
      modifies transport, this`target, this`pins, this`log
      ensures transport.loading == old(transport.loading)
      ensures ok ==> Going(regions, limit, before, address, front + piece)
      ensures !ok ==> Halted(regions, limit, before, address, front)
    {
      hide LittleEndian, LowBytes, Put, Logged, Grounded, Laid, Stocked, Wrote, Handshake.TouchesBoot;
      hide Handshake.Sound, Handshake.Tracks;
      ghost var was := Now();
      WordCarries(piece);
      var response := Transact(true, at, LittleEndian(piece), |piece|);
      ok := response.Data?;
      WroteUnmapped(regions, limit, before, was, Now(), address, front, piece,
        Transaction(true, at, LittleEndian(piece), |piece|, ok));
    }

    /** Writes the longest piece of the rest of a range that one memory call or one request takes. */
    method WriteNext(at: U64, rest: seq<Byte>, ghost regions: seq<Region>, ghost limit: nat, ghost before: State,
                     ghost address: nat,
                     ghost front: seq<Byte>) returns (n: nat, ok: bool)
      requires Laid(regions) && Stocked(regions, before.stores) && Going(regions, limit, before, address, front)
      requires rest != [] && !RefusesWrite(at, |rest|) && at == address + |front| && at + |rest| == limit
      modifies memories.Values, transport, this`target, this`pins, this`log
      ensures 0 < n <= |rest| && transport.loading == old(transport.loading)
      ensures ok ==> Going(regions, limit, before, address, front + rest[..n])
      ensures !ok ==> Halted(regions, limit, before, address, front)
    {
      hide Wrote, InRegion, Outside, Laid, Stocked, Grounded, Logged, Handshake.Sound, Handshake.Tracks;
      var segment := NextSegment(at, |rest|);
      if segment.region.Some? {
        n, ok := segment.length, true;
        StorePiece(segment, rest[..n], regions, limit, before, address, front);
      } else {
        n := if segment.length < MAX_BYTES then segment.length else MAX_BYTES;
        OutsideShorter(regions, at, segment.length, n);
        ok := SendPiece(at, rest[..n], regions, limit, before, address, front);
      }
    }

    /** The same for a clear. */
    method ClearNext(at: U64, count: nat, ghost regions: seq<Region>, ghost limit: nat, ghost before: State,
                     ghost address: nat,
                     ghost front: seq<Byte>) returns (n: nat, ok: bool)
      requires Laid(regions) && Stocked(regions, before.stores) && Going(regions, limit, before, address, front)
      requires 0 < count && !RefusesWrite(at, count) && at == address + |front| && at + count == limit
      modifies memories.Values, transport, this`target, this`pins, this`log
      ensures 0 < n <= count && transport.loading == old(transport.loading)
      ensures ok ==> Going(regions, limit, before, address, front + Zeros(n))
      ensures !ok ==> Halted(regions, limit, before, address, front)
      ensures forall m <- memories.Values :: m.pages.Keys <= old(m.pages.Keys)
    {
      hide Wrote, InRegion, Outside, Laid, Stocked, Grounded, Logged, Handshake.Sound, Handshake.Tracks;
      var segment := NextSegment(at, count);
      if segment.region.Some? {
        n, ok := segment.length, true;
        ClearPiece(segment, n, regions, limit, before, address, front);
      } else {
        n := if segment.length < MAX_BYTES then segment.length else MAX_BYTES;
        OutsideShorter(regions, at, segment.length, n);
        ok := SendPiece(at, Zeros(n), regions, limit, before, address, front);
      }
    }

    /** A flat write of the range: all of it, none of it, or all that precedes a rejected request. */
    method WriteChunk(address: U64, bytes: seq<Byte>) returns (outcome: Outcome)
      requires Valid() && Ready()
      modifies memories.Values, transport, this`target, this`pins, this`log
      ensures outcome == Refused <==> old(RefusesWrite(address, |bytes|))
      ensures Ended(outcome, old(Regions()), old(Now()), address, bytes)
    {
      hide Wrote, Laid, Stocked, Grounded, Logged, Handshake.Sound, Handshake.Tracks, Handshake.TouchesBoot;
      ghost var regions, limit, before := Regions(), address + |bytes|, Now();
      var admitted := Admits(address, |bytes|);
      if !admitted {
        transport.Fail();
        return Refused;
      }
      WroteNothing(regions, limit, before, address);
      var done: nat := 0;
      while done < |bytes|
        invariant done <= |bytes| && transport.loading == old(transport.loading)
        invariant Going(regions, limit, before, address, bytes[..done])
        decreases |bytes| - done
      {
        SplitAt(bytes, done);
        TailAccepted(transport.bootRegister, address, |bytes|, done);
        var n, ok := WriteNext(address + done, bytes[done..], regions, limit, before, address, bytes[..done]);
        if !ok {
          return Stopped(done);
        }
        done := done + n;
      }
      SplitAt(bytes, done);
      outcome := Done;
    }

    /** Leaves the range all zeros, as a write would, but without allocating pages for it. */
    method ClearChunk(address: U64, length: nat) returns (outcome: Outcome)
      requires Valid() && Ready()
      modifies memories.Values, transport, this`target, this`pins, this`log
      ensures outcome == Refused <==> old(RefusesWrite(address, length))
      ensures Ended(outcome, old(Regions()), old(Now()), address, Zeros(length))
      ensures forall m <- memories.Values :: m.pages.Keys <= old(m.pages.Keys)
    {
      hide Wrote, Laid, Stocked, Grounded, Logged, Handshake.Sound, Handshake.Tracks, Handshake.TouchesBoot;
      ghost var regions, limit, before := Regions(), address + length, Now();
      var admitted := Admits(address, length);
      if !admitted {
        transport.Fail();
        return Refused;
      }
      WroteNothing(regions, limit, before, address);
      var done: nat := 0;
      while done < length
        invariant done <= length && transport.loading == old(transport.loading)
        invariant Going(regions, limit, before, address, Zeros(length)[..done])
        invariant forall m <- memories.Values :: m.pages.Keys <= old(m.pages.Keys)
        decreases length - done
      {
        TailAccepted(transport.bootRegister, address, length, done);
        var n, ok := ClearNext(address + done, length - done, regions, limit, before, address, Zeros(length)[..done]);
        if !ok {
          return Stopped(done);
        }
        ZerosExtend(length, done, n);
        done := done + n;
      }
      SplitAt(Zeros(length), done);
      outcome := Done;
    }

    // -------------------------------------------------------------- reads

    /** A read in progress, `front` read so far. */
    ghost predicate Reading(regions: seq<Region>, limit: nat, before: State, address: nat, front: seq<Byte>)
      reads this, image, transport, memories.Values
      requires Laid(regions) && Stocked(regions, before.stores)
    {
      Valid() && Ready() && Regions() == regions && Fetched(regions, limit, before, Now(), address, front, false)
    }

    /** A read that stopped at a request the target did not serve. */
    ghost predicate CutShort(regions: seq<Region>, limit: nat, before: State, address: nat, front: seq<Byte>)
      reads this, image, transport, memories.Values
      requires Laid(regions) && Stocked(regions, before.stores)
    {
      Valid() && !Ready() && Regions() == regions && Fetched(regions, limit, before, Now(), address, front, true)
    }

    /** Has the memory behind a region read a piece of the range. */
    method LoadPiece(segment: Segment, n: nat, ghost regions: seq<Region>, ghost limit: nat, ghost before: State,
                     ghost address: nat,
                     ghost front: seq<Byte>) returns (piece: seq<Byte>)
      requires Laid(regions) && Stocked(regions, before.stores) && Reading(regions, limit, before, address, front)
      requires Mapped(regions, address + |front|, n, segment)
      ensures |piece| == n && Reading(regions, limit, before, address, front + piece)
    {
      hide RegionAt, Laid, Stocked, View, Logged, Fetched, Reads, Handshake.Sound, Handshake.Tracks;
      ghost var at, r := address + |front|, segment.region.value;
      Behind(regions, r);
      SegmentInStore(regions, r, at, n);
      InRegionInside(regions, at, n, r);
      RegionReads(regions, Stores(), target, r, at, n);
      var bytes := memories[segment.region.value.name].Read(segment.offset, n);
      piece := bytes.value;
      assert log + [] == log;
      FetchedMore(regions, limit, before, Now(), Now(), address, front, piece, true, []);
    }

    /** Fetches a piece of the range from the target as one word. */
    method FetchPiece(at: U64, n: nat, ghost regions: seq<Region>, ghost limit: nat, ghost before: State,
                      ghost address: nat,
                      ghost front: seq<Byte>) returns (piece: seq<Byte>, ok: bool)
      requires Laid(regions) && Stocked(regions, before.stores) && Reading(regions, limit, before, address, front)
      requires 1 <= n <= MAX_BYTES && !Wraps(at, n) && at == address + |front| && Outside(regions, at, n)
      requires n == 8 || at + n == limit || RegionAt(regions, at + n).Some?
      modifies transport, this`target, this`pins, this`log
      ensures |piece| == n && transport.loading == old(transport.loading)
      ensures ok ==> Reading(regions, limit, before, address, front + piece)
      ensures !ok ==> CutShort(regions, limit, before, address, front)
    {
      hide LowBytes, Logged, Grounded, Laid, Stocked, Fetched, Reads, Handshake.Sound, Handshake.Tracks;
      ghost var was := Now();
      TargetReads(regions, Stores(), target, at, n);
      var response := Transact(false, at, 0, n);
      ok := response.Data?;
      piece := if ok then LowBytes(response.word, n) else Zeros(n);
      FetchedMore(regions, limit, before, was, Now(), address, front, piece, ok, [Transaction(false, at, 0, n, ok)]);
    }

    method ReadNext(at: U64, count: nat, ghost regions: seq<Region>, ghost limit: nat, ghost before: State,
                    ghost address: nat,
                    ghost front: seq<Byte>) returns (piece: seq<Byte>, ok: bool)
      requires Laid(regions) && Stocked(regions, before.stores) && Reading(regions, limit, before, address, front)
      requires 0 < count && !Wraps(at, count) && at == address + |front| && at + count == limit
      modifies transport, this`target, this`pins, this`log
      ensures 0 < |piece| <= count && transport.loading == old(transport.loading)
      ensures ok ==> Reading(regions, limit, before, address, front + piece)
      ensures !ok ==> CutShort(regions, limit, before, address, front)
    {
      hide Fetched, InRegion, Outside, Laid, Stocked, Grounded, Logged, Handshake.Sound, Handshake.Tracks;
      var segment := NextSegment(at, count);
      if segment.region.Some? {
        ok := true;
        piece := LoadPiece(segment, segment.length, regions, limit, before, address, front);
      } else {
        var n := if segment.length < MAX_BYTES then segment.length else MAX_BYTES;
        OutsideShorter(regions, at, segment.length, n);
        piece, ok := FetchPiece(at, n, regions, limit, before, address, front);
      }
    }

    /** The bytes of the range, or those that precede a request the target did not serve; a read of the boot
        register is a read like any other. */
    method ReadChunk(address: U64, length: nat) returns (outcome: Outcome, bytes: seq<Byte>)
      requires Valid() && Ready()
      modifies transport, this`target, this`pins, this`log
      ensures outcome == Refused <==> Wraps(address, length)
      ensures Valid() && Regions() == old(Regions()) && (Ready() <==> outcome == Done)
      ensures ReadEnds(outcome, old(Regions()), old(Now()), Now(), address, length, bytes)
    {
      hide Fetched, Laid, Stocked, Grounded, Logged, Handshake.Sound, Handshake.Tracks;
      ghost var regions, limit, before := Regions(), address + length, Now();
      bytes := [];
      if 0 < length && length - 1 > U64_MAX - address {
        transport.Fail();
        return Refused, bytes;
      }
      FetchedNothing(regions, limit, before, address);
      while |bytes| < length
        invariant |bytes| <= length && transport.loading == old(transport.loading)
        invariant Reading(regions, limit, before, address, bytes)
        decreases length - |bytes|
      {
        TailAccepted(transport.bootRegister, address, length, |bytes|);
        var piece, ok := ReadNext(address + |bytes|, length - |bytes|, regions, limit, before, address, bytes);
        if !ok {
          return Stopped(|bytes|), bytes;
        }
        bytes := bytes + piece;
      }
      outcome := Done;
    }

    // -------------------------------------------------------------- the entry point

    /** Ends loading: the entry goes to the boot register in one eight-byte write, which is awaited; from
        then on no region is in force. */
    method Publish(entry: U64) returns (ok: bool)
      requires Valid() && Ready()
      modifies transport, this`target, this`pins, this`log
      ensures Valid() && (ok <==> Ready())
      ensures ok ==> Handshake.EntryFits(transport.xlen, entry)
      ensures transport.loading <==> old(transport.loading) && !Handshake.EntryFits(transport.xlen, entry)
      ensures log == old(log) + (if Handshake.EntryFits(transport.xlen, entry)
        then [Transaction(true, transport.bootRegister, entry, MAX_BYTES, ok)] else [])
      ensures target == if ok then Put(old(target), transport.bootRegister, LowBytes(entry, MAX_BYTES)) else old(target)
    {
      hide Handshake.Sound, Logged, Grounded, LittleEndian, LowBytes;
      ghost var issued, answers := transport.issued, transport.answers;
      transport.Boot(entry);
      if transport.failed {
        assert transport.issued == issued;
        return false;
      }
      Await(0);
      LoggedNext(log, issued, answers, transport.request, transport.answers);
      ok := Ready();
      log := log + [Transaction(true, transport.bootRegister, entry, MAX_BYTES, ok)];
      if ok {
        target := Put(target, transport.bootRegister, LowBytes(entry, MAX_BYTES));
      }
    }
  }
}
