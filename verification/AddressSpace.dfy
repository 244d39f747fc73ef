/** One address space over region stores and the target's memory, and what writing and reading ranges of
    it means: mapped bytes are in their region's store, the rest are reached by transactions of at most
    eight bytes. */
module AddressSpace {
  import opened Machine
  import opened Options
  import opened Power
  import opened Collections
  import opened SparseMemory
  import opened ImageMap

  const MAX_BYTES: nat := 8

  // ---------------------------------------------------------------- little-endian words

  function LittleEndian(bytes: seq<Byte>): nat {
    if bytes == [] then 0 else bytes[0] + 256 * LittleEndian(bytes[1..])
  }

  function LowBytes(word: nat, n: nat): (bytes: seq<Byte>)
    ensures |bytes| == n
  {
    if n == 0 then [] else [word % 256] + LowBytes(word / 256, n - 1)
  }

  /** Byte `i` of a word is its bits from `8 * i` on. */
  lemma {:induction false} LowBytesAt(word: nat, n: nat, i: nat)
    requires i < n
    ensures LowBytes(word, n)[i] == word / Pow2(8 * i) % 256
  {
    if i == 0 {
      assert Pow2(0) == 1;
    } else {
      LowBytesAt(word / 256, n - 1, i - 1);
      assert Pow2(8) == 256;
      Pow2Add(8, 8 * (i - 1));
      DivideTwice(word, 256, Pow2(8 * (i - 1)));
    }
  }

  lemma {:induction false} LittleEndianRoundTrip(bytes: seq<Byte>)
    ensures LowBytes(LittleEndian(bytes), |bytes|) == bytes
  {
    if bytes != [] {
      LittleEndianRoundTrip(bytes[1..]);
      LowByte(bytes[0], LittleEndian(bytes[1..]));
    }
  }

  lemma LowByte(low: Byte, rest: nat)
    ensures (low + 256 * rest) % 256 == low && (low + 256 * rest) / 256 == rest
  {
  }

  /** A word made of `n` bytes needs no more. */
  lemma {:induction false} LittleEndianFits(bytes: seq<Byte>)
    requires |bytes| <= 8
    ensures LittleEndian(bytes) <= U64_MAX
    ensures |bytes| < 8 ==> LittleEndian(bytes) < 0x100_0000_0000_0000
    ensures |bytes| < 7 ==> LittleEndian(bytes) < 0x1_0000_0000_0000
    ensures |bytes| < 6 ==> LittleEndian(bytes) < 0x100_0000_0000
    ensures |bytes| < 5 ==> LittleEndian(bytes) < 0x1_0000_0000
    ensures |bytes| < 4 ==> LittleEndian(bytes) < 0x100_0000
    ensures |bytes| < 3 ==> LittleEndian(bytes) < 0x1_0000
    ensures |bytes| < 2 ==> LittleEndian(bytes) < 0x100
  {
    if bytes != [] {
      LittleEndianFits(bytes[1..]);
    }
  }

  lemma WordCarries(bytes: seq<Byte>)
    requires |bytes| <= 8
    ensures LittleEndian(bytes) <= U64_MAX && LowBytes(LittleEndian(bytes), |bytes|) == bytes
  {
    LittleEndianFits(bytes);
    LittleEndianRoundTrip(bytes);
  }

  // ---------------------------------------------------------------- the target

  function Range(address: nat, n: nat): (s: seq<nat>)
    ensures |s| == n && forall i :: 0 <= i < n ==> s[i] == address + i
  {
    seq(n, i requires 0 <= i => address + i)
  }

  /** A request as the target serves it, and whether it reported success. */
  datatype Transaction = Transaction(write: bool, address: nat, data: nat, length: nat, ok: bool)

  type Store = map<nat, Byte>

  function Get(m: Store, a: int): Byte {
    if a in m then m[a] else 0
  }

  function GetAll(m: Store, address: nat, n: nat): (bytes: seq<Byte>)
    ensures |bytes| == n && forall i :: 0 <= i < n ==> bytes[i] == Get(m, address + i)
  {
    seq<Byte>(n, i => Get(m, address + i))
  }

  lemma RangeMembers(address: nat, n: nat)
    ensures forall a: int :: a in Range(address, n) <==> address <= a < address + n
  {
    forall a: int | address <= a < address + n
      ensures a in Range(address, n)
    {
      assert Range(address, n)[a - address] == a;
    }
  }

  function Put(m: Store, address: nat, bytes: seq<Byte>): (r: Store)
    ensures forall a: int :: Get(r, a) == if address <= a < address + |bytes| then bytes[a - address] else Get(m, a)
  {
    RangeMembers(address, |bytes|);
    m + map a | a in Range(address, |bytes|) :: bytes[a - address]
  }

  // ---------------------------------------------------------------- addresses covered

  /** The unmapped addresses of a range in increasing order. */
  ghost function Unmapped(regions: seq<Region>, address: nat, n: nat): seq<nat> {
    if n == 0 then []
    else Unmapped(regions, address, n - 1) +
         (if RegionAt(regions, address + n - 1).None? then [address + n - 1] else [])
  }

  /** Every byte the transactions touch, in order. */
  ghost function Touched(ts: seq<Transaction>): seq<nat> {
    if ts == [] then [] else Touched(ts[..|ts| - 1]) + Range(ts[|ts| - 1].address, ts[|ts| - 1].length)
  }

  ghost predicate Inside(regions: seq<Region>, at: nat, n: nat) {
    forall a: int :: at <= a < at + n ==> RegionAt(regions, a).Some?
  }

  ghost predicate Outside(regions: seq<Region>, at: nat, n: nat) {
    forall a: int :: at <= a < at + n ==> RegionAt(regions, a).None?
  }

  ghost predicate InRegion(regions: seq<Region>, at: nat, n: nat, r: Region) {
    r in regions && r.Contains(at) && forall a: int :: at <= a < at + n ==> RegionAt(regions, a) == Some(r)
  }

  lemma OutsideShorter(regions: seq<Region>, at: nat, n: nat, m: nat)
    requires Outside(regions, at, n) && m <= n
    ensures Outside(regions, at, m)
  {
  }

  lemma InRegionInside(regions: seq<Region>, at: nat, n: nat, r: Region)
    requires InRegion(regions, at, n, r)
    ensures Inside(regions, at, n)
  {
  }

  lemma {:induction false} UnmappedInside(regions: seq<Region>, address: nat, n: nat, m: nat)
    requires Inside(regions, address + n, m)
    ensures Unmapped(regions, address, n + m) == Unmapped(regions, address, n)
    decreases m
  {
    if m > 0 {
      UnmappedInside(regions, address, n, m - 1);
      assert RegionAt(regions, address + (n + m) - 1).Some?;
    }
  }

  lemma {:induction false} UnmappedOutside(regions: seq<Region>, address: nat, n: nat, m: nat)
    requires Outside(regions, address + n, m)
    ensures Unmapped(regions, address, n + m) == Unmapped(regions, address, n) + Range(address + n, m)
    decreases m
  {
    hide RegionAt;
    if m > 0 {
      UnmappedOutside(regions, address, n, m - 1);
      assert RegionAt(regions, address + (n + m) - 1).None?;
      assert Range(address + n, m) == Range(address + n, m - 1) + [address + n + m - 1];
    }
  }

  lemma TouchedMore(ts: seq<Transaction>, t: Transaction)
    ensures Touched(ts + [t]) == Touched(ts) + Range(t.address, t.length)
  {
    assert (ts + [t])[..|ts|] == ts;
  }

  // ---------------------------------------------------------------- one address space

  type Stores = map<string, seq<Byte>>

  ghost predicate Stocked(regions: seq<Region>, stores: Stores) {
    forall r <- regions :: r.name in stores && |stores[r.name]| == r.storageSize
  }

  /** What an address holds: a mapped byte is in its region's store. */
  ghost function View(regions: seq<Region>, stores: Stores, target: Store, a: int): Byte
    requires Laid(regions) && Stocked(regions, stores)
  {
    LocatedIn(regions, a);
    match RegionAt(regions, a)
    case Some(r) => stores[r.name][r.offset + (a - r.base)]
    case None => Get(target, a)
  }

  /** The address space differs only in that `bytes` are now at `address`. */
  ghost predicate Updated(regions: seq<Region>, stores: Stores, target: Store, stores': Stores, target': Store,
                          address: nat, bytes: seq<Byte>)
    requires Laid(regions) && Stocked(regions, stores)
  {
    && Stocked(regions, stores')
    && (forall a: int {:trigger View(regions, stores', target', a)} :: View(regions, stores', target', a) ==
          if address <= a < address + |bytes| then bytes[a - address] else View(regions, stores, target, a))
  }

  lemma UpdatedMore(regions: seq<Region>, s0: Stores, t0: Store, s1: Stores, t1: Store, s2: Stores, t2: Store,
                    address: nat, front: seq<Byte>, piece: seq<Byte>)
    requires Laid(regions) && Stocked(regions, s0) && Stocked(regions, s1)
    requires Updated(regions, s0, t0, s1, t1, address, front)
    requires Updated(regions, s1, t1, s2, t2, address + |front|, piece)
    ensures Updated(regions, s0, t0, s2, t2, address, front + piece)
  {
  }

  lemma NothingUpdated(regions: seq<Region>, stores: Stores, target: Store, address: nat)
    requires Laid(regions) && Stocked(regions, stores)
    ensures Updated(regions, stores, target, stores, target, address, [])
  {
  }

  /** Writing inside one region's window changes just those addresses. */
  lemma RegionWrite(regions: seq<Region>, stores: Stores, target: Store, r: Region, address: nat, bytes: seq<Byte>)
    requires Laid(regions) && Stocked(regions, stores) && InRegion(regions, address, |bytes|, r)
    requires r.offset + (address - r.base) + |bytes| <= r.storageSize
    ensures var after := stores[r.name := Overwrite(stores[r.name], r.offset + (address - r.base), bytes)];
      Stocked(regions, after) && Updated(regions, stores, target, after, target, address, bytes)
  {
    var o := r.offset + (address - r.base);
    var after := stores[r.name := Overwrite(stores[r.name], o, bytes)];
    forall a: int
      ensures View(regions, after, target, a) ==
        if address <= a < address + |bytes| then bytes[a - address] else View(regions, stores, target, a)
    {
      LocatedIn(regions, a);
      if RegionAt(regions, a).Some? && RegionAt(regions, a).value.name == r.name {
        SameName(regions, r, RegionAt(regions, a).value);
      }
    }
  }

  lemma TargetWrite(regions: seq<Region>, stores: Stores, target: Store, address: nat, bytes: seq<Byte>)
    requires Laid(regions) && Stocked(regions, stores)
    requires Outside(regions, address, |bytes|)
    ensures Updated(regions, stores, target, stores, Put(target, address, bytes), address, bytes)
  {
  }

  /** A segment of a region lies within the region's part of the store. */
  lemma {:induction false} SegmentInStore(regions: seq<Region>, r: Region, address: nat, n: nat)
    requires Laid(regions) && 0 < n && InRegion(regions, address, n, r)
    ensures r in regions && r.offset + (address - r.base) + n <= r.offset + r.size <= r.storageSize
  {
    LocatedIn(regions, address + n - 1);
    assert r.WellFormed();
  }

  // ---------------------------------------------------------------- operations on ranges

  /** How a chunk operation ended: everything done; refused before anything was touched; or stopped at a
      transaction the target rejected, `done` bytes in. */
  datatype Outcome = Done | Refused | Stopped(done: nat)

  ghost predicate Wraps(address: nat, n: nat) {
    0 < n && address + n - 1 > U64_MAX
  }

  /** A transaction of a range that ends at `limit` is as long as eight bytes, the range and the regions allow. */
  ghost predicate Longest(regions: seq<Region>, limit: nat, t: Transaction) {
    t.length == 8 || t.address + t.length == limit || RegionAt(regions, t.address + t.length).Some?
  }

  /** The transactions are well formed and as long as can be, cover exactly the unmapped bytes of the first `done` in
      increasing order, and all succeeded but a last one when the operation stopped there. */
  ghost predicate Covered(regions: seq<Region>, limit: nat, address: nat, done: nat, write: bool, ts: seq<Transaction>,
                          stopped: bool) {
    && (stopped ==> ts != [] && !ts[|ts| - 1].ok && ts[|ts| - 1].address == address + done)
    && (var served := if stopped then ts[..|ts| - 1] else ts;
        (forall t <- served :: t.ok) && Touched(served) == Unmapped(regions, address, done))
    && (forall t <- ts ::
          && t.write == write && 1 <= t.length <= MAX_BYTES && t.address + t.length - 1 <= U64_MAX
          && Longest(regions, limit, t))
  }

  lemma NothingCovered(regions: seq<Region>, limit: nat, address: nat, write: bool)
    ensures Covered(regions, limit, address, 0, write, [], false)
  {
  }

  lemma CoveredMapped(regions: seq<Region>, limit: nat, address: nat, done: nat, n: nat, write: bool,
                      ts: seq<Transaction>)
    requires Covered(regions, limit, address, done, write, ts, false)
    requires Inside(regions, address + done, n)
    ensures Covered(regions, limit, address, done + n, write, ts, false)
  {
    UnmappedInside(regions, address, done, n);
  }

  lemma CoveredUnmapped(regions: seq<Region>, limit: nat, address: nat, done: nat, write: bool, ts: seq<Transaction>,
                        t: Transaction)
    requires Covered(regions, limit, address, done, write, ts, false)
    requires t.write == write && 1 <= t.length <= MAX_BYTES && t.address == address + done &&
      t.address + t.length - 1 <= U64_MAX
    requires Outside(regions, t.address, t.length) && Longest(regions, limit, t)
    ensures t.ok ==> Covered(regions, limit, address, done + t.length, write, ts + [t], false)
    ensures !t.ok ==> Covered(regions, limit, address, done, write, ts + [t], true)
  {
    TouchedMore(ts, t);
    UnmappedOutside(regions, address, done, t.length);
    assert (ts + [t])[..|ts|] == ts;
  }

  /** Everything an operation may change. */
  datatype State = State(stores: Stores, target: Store, log: seq<Transaction>)

  /** From `before` to `after`, `bytes` have been written from `address` on and nothing else. */
  ghost predicate Wrote(regions: seq<Region>, limit: nat, before: State, after: State, address: nat, bytes: seq<Byte>,
                        stopped: bool)
    requires Laid(regions) && Stocked(regions, before.stores)
  {
    && Updated(regions, before.stores, before.target, after.stores, after.target, address, bytes)
    && before.log <= after.log && Covered(regions, limit, address, |bytes|, true, after.log[|before.log|..], stopped)
  }

  lemma WroteNothing(regions: seq<Region>, limit: nat, s: State, address: nat)
    requires Laid(regions) && Stocked(regions, s.stores)
    ensures Wrote(regions, limit, s, s, address, [], false)
  {
    NothingUpdated(regions, s.stores, s.target, address);
    NothingCovered(regions, limit, address, true);
    assert s.log[|s.log|..] == [];
  }

  lemma WroteMapped(regions: seq<Region>, limit: nat, s0: State, s1: State, s2: State, address: nat, front: seq<Byte>,
                    piece: seq<Byte>)
    requires Laid(regions) && Stocked(regions, s0.stores) && Wrote(regions, limit, s0, s1, address, front, false)
    requires s2.target == s1.target && s2.log == s1.log
    requires Updated(regions, s1.stores, s1.target, s2.stores, s2.target, address + |front|, piece)
    requires Inside(regions, address + |front|, |piece|)
    ensures Wrote(regions, limit, s0, s2, address, front + piece, false)
  {
    UpdatedMore(regions, s0.stores, s0.target, s1.stores, s1.target, s2.stores, s2.target, address, front, piece);
    CoveredMapped(regions, limit, address, |front|, |piece|, true, s1.log[|s0.log|..]);
  }

  lemma WroteUnmapped(regions: seq<Region>, limit: nat, s0: State, s1: State, s2: State, address: nat, front: seq<Byte>,
                      piece: seq<Byte>, t: Transaction)
    requires Laid(regions) && Stocked(regions, s0.stores) && Wrote(regions, limit, s0, s1, address, front, false)
    requires s2.stores == s1.stores && s2.log == s1.log + [t]
    requires s2.target == if t.ok then Put(s1.target, t.address, piece) else s1.target
    requires t.write && t.address == address + |front| && t.length == |piece| && 1 <= |piece| <= MAX_BYTES &&
      t.address + t.length - 1 <= U64_MAX
    requires Outside(regions, t.address, t.length) && Longest(regions, limit, t)
    ensures t.ok ==> Wrote(regions, limit, s0, s2, address, front + piece, false)
    ensures !t.ok ==> Wrote(regions, limit, s0, s2, address, front, true)
  {
    var n := |s0.log|;
    assert s2.log[n..] == s1.log[n..] + [t];
    CoveredUnmapped(regions, limit, address, |front|, true, s1.log[n..], t);
    if t.ok {
      TargetWrite(regions, s1.stores, s1.target, t.address, piece);
      UpdatedMore(regions, s0.stores, s0.target, s1.stores, s1.target, s2.stores, s2.target, address, front, piece);
    }
  }

  /** A read of `n` bytes sent either nothing, for mapped bytes, or one transaction for just these. */
  ghost predicate Sent(regions: seq<Region>, limit: nat, at: nat, n: nat, ok: bool, sent: seq<Transaction>) {
    if sent == [] then ok && Inside(regions, at, n)
    else
      && 1 <= n <= MAX_BYTES && at + n - 1 <= U64_MAX && Outside(regions, at, n)
      && |sent| == 1 && !sent[0].write && sent[0].address == at && sent[0].length == n && sent[0].ok == ok
      && Longest(regions, limit, sent[0])
  }

  lemma CoveredNext(regions: seq<Region>, limit: nat, address: nat, done: nat, ts: seq<Transaction>, n: nat, ok: bool,
                    sent: seq<Transaction>)
    requires Covered(regions, limit, address, done, false, ts, false) &&
      Sent(regions, limit, address + done, n, ok, sent)
    ensures ok ==> Covered(regions, limit, address, done + n, false, ts + sent, false)
    ensures !ok ==> Covered(regions, limit, address, done, false, ts + sent, true)
  {
    if sent == [] {
      CoveredMapped(regions, limit, address, done, n, false, ts);
      assert ts + sent == ts;
    } else {
      CoveredUnmapped(regions, limit, address, done, false, ts, sent[0]);
      assert ts + sent == ts + [sent[0]];
    }
  }

  /** The bytes are what the address space holds from `at` on. */
  ghost predicate Reads(regions: seq<Region>, stores: Stores, target: Store, at: nat, bytes: seq<Byte>)
    requires Laid(regions) && Stocked(regions, stores)
  {
    forall a: int {:trigger View(regions, stores, target, a)} :: at <= a < at + |bytes| ==>
      bytes[a - at] == View(regions, stores, target, a)
  }

  lemma ReadsMore(regions: seq<Region>, stores: Stores, target: Store, at: nat, bytes: seq<Byte>, piece: seq<Byte>)
    requires Laid(regions) && Stocked(regions, stores)
    requires Reads(regions, stores, target, at, bytes) && Reads(regions, stores, target, at + |bytes|, piece)
    ensures Reads(regions, stores, target, at, bytes + piece)
  {
    hide View;
  }

  /** From `before` to `after` only requests were made, and `bytes` are what the range held. */
  ghost predicate Fetched(regions: seq<Region>, limit: nat, before: State, after: State, address: nat, bytes: seq<Byte>,
                          stopped: bool)
    requires Laid(regions) && Stocked(regions, before.stores)
  {
    && after.stores == before.stores && after.target == before.target
    && before.log <= after.log && Covered(regions, limit, address, |bytes|, false, after.log[|before.log|..], stopped)
    && Reads(regions, before.stores, before.target, address, bytes)
  }

  lemma FetchedNothing(regions: seq<Region>, limit: nat, s: State, address: nat)
    requires Laid(regions) && Stocked(regions, s.stores)
    ensures Fetched(regions, limit, s, s, address, [], false)
  {
    NothingCovered(regions, limit, address, false);
    assert s.log[|s.log|..] == [];
  }

  lemma FetchedMore(regions: seq<Region>, limit: nat, s0: State, s1: State, s2: State, address: nat, bytes: seq<Byte>,
                    piece: seq<Byte>,
                    ok: bool, sent: seq<Transaction>)
    requires Laid(regions) && Stocked(regions, s0.stores) && Stocked(regions, s1.stores)
    requires Fetched(regions, limit, s0, s1, address, bytes, false)
    requires s2 == s1.(log := s1.log + sent) && Sent(regions, limit, address + |bytes|, |piece|, ok, sent)
    requires ok ==> Reads(regions, s1.stores, s1.target, address + |bytes|, piece)
    ensures ok ==> Fetched(regions, limit, s0, s2, address, bytes + piece, false)
    ensures !ok ==> Fetched(regions, limit, s0, s2, address, bytes, true)
  {
    hide Covered, Reads, Sent, Laid, Stocked;
    var n := |s0.log|;
    assert s2.log[n..] == s1.log[n..] + sent;
    CoveredNext(regions, limit, address, |bytes|, s1.log[n..], |piece|, ok, sent);
    if ok {
      ReadsMore(regions, s0.stores, s0.target, address, bytes, piece);
    }
  }

  lemma RegionReads(regions: seq<Region>, stores: Stores, target: Store, r: Region, at: nat, n: nat)
    requires Laid(regions) && Stocked(regions, stores) && InRegion(regions, at, n, r)
    requires r.offset + (at - r.base) + n <= r.storageSize
    ensures var o := r.offset + (at - r.base); Reads(regions, stores, target, at, stores[r.name][o..o + n])
  {
  }

  lemma TargetReads(regions: seq<Region>, stores: Stores, target: Store, at: nat, n: nat)
    requires Laid(regions) && Stocked(regions, stores) && Outside(regions, at, n)
    ensures Reads(regions, stores, target, at, GetAll(target, at, n))
  {
  }

  /** What a write or a clear of `bytes` may have done by the time it ends. */
  ghost predicate WriteEnds(outcome: Outcome, regions: seq<Region>, before: State, after: State, address: nat,
                            bytes: seq<Byte>)
    requires Laid(regions) && Stocked(regions, before.stores)
  {
    match outcome
    case Refused => after == before
    case Done => Wrote(regions, address + |bytes|, before, after, address, bytes, false)
    case Stopped(done) =>
      done < |bytes| && Wrote(regions, address + |bytes|, before, after, address, bytes[..done], true)
  }

  /** What a read of `n` bytes may have done by the time it ends. */
  ghost predicate ReadEnds(outcome: Outcome, regions: seq<Region>, before: State, after: State, address: nat, n: nat,
                           bytes: seq<Byte>)
    requires Laid(regions) && Stocked(regions, before.stores)
  {
    match outcome
    case Refused => after == before
    case Done => |bytes| == n && Fetched(regions, address + n, before, after, address, bytes, false)
    case Stopped(done) => |bytes| == done < n && Fetched(regions, address + n, before, after, address, bytes, true)
  }

  lemma ZerosExtend(n: nat, done: nat, more: nat)
    requires done + more <= n
    ensures Zeros(n)[..done] + Zeros(more) == Zeros(n)[..done + more]
  {
  }

  lemma SplitAt(bytes: seq<Byte>, done: nat)
    requires done <= |bytes|
    ensures |bytes[done..]| == |bytes| - done && (done == |bytes| ==> bytes[..done] == bytes)
    ensures forall n :: 0 <= n <= |bytes[done..]| ==> bytes[..done] + bytes[done..][..n] == bytes[..done + n]
  {
  }
}
