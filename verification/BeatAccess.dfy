/** The process-wide table of registered memories, and one clocked access to a beat of one of them. */
module BeatAccess {
  import opened Machine
  import opened Options
  import opened Power
  import opened SparseMemory
  import BitVectors

  // ---------------------------------------------------------------- registration

  datatype Registered = Registered(modelId: U32, base: U64, owner: string, storage: Memory)

  /** The last address of a window. */
  ghost function End(base: nat, size: nat): int {
    base + size - 1
  }

  ghost predicate Overlap(base: nat, size: nat, base': nat, size': nat) {
    base <= End(base', size') && base' <= End(base, size)
  }

  ghost predicate WellFormed(base: U64, size: U64, owner: string) {
    owner != "" && 0 < size && End(base, size) <= U64_MAX
  }

  /** Two entries of one table share nothing. */
  ghost predicate Apart(a: Registered, b: Registered) {
    && a.modelId != b.modelId && a.owner != b.owner && a.storage != b.storage
    && !Overlap(a.base, a.storage.size, b.base, b.storage.size)
  }

  ghost predicate AllApart(entries: seq<Registered>) {
    && (forall e <- entries :: WellFormed(e.base, e.storage.size, e.owner))
    && (forall i, j :: 0 <= i < j < |entries| ==> Apart(entries[i], entries[j]) && Apart(entries[j], entries[i]))
  }

  ghost predicate Same(e: Registered, modelId: U32, base: U64, size: U64, owner: string) {
    e.modelId == modelId && e.owner == owner && e.base == base && e.storage.size == size
  }

  ghost predicate Clashes(e: Registered, modelId: U32, base: U64, size: U64, owner: string) {
    e.modelId == modelId || e.owner == owner || Overlap(base, size, e.base, e.storage.size)
  }

  /** The same registration was made before. */
  ghost predicate Repeats(entries: seq<Registered>, modelId: U32, base: U64, size: U64, owner: string) {
    exists e <- entries :: Same(e, modelId, base, size, owner)
  }

  ghost predicate ClashFree(entries: seq<Registered>, modelId: U32, base: U64, size: U64, owner: string) {
    forall e <- entries :: !Clashes(e, modelId, base, size, owner)
  }

  /** Memories by identity, each under one only. */
  ghost predicate OneIdentity(identities: map<U32, Memory>) {
    forall i, j :: i in identities && j in identities && i != j ==> identities[i] != identities[j]
  }

  /** Every registered memory is the one of its identity. */
  ghost predicate Identified(entries: seq<Registered>, identities: map<U32, Memory>) {
    forall e <- entries :: e.modelId in identities && identities[e.modelId] == e.storage
  }

  /** The identity is new, or its memory has that capacity. */
  ghost predicate CapacityAgrees(identities: map<U32, Memory>, modelId: U32, size: U64) {
    modelId in identities ==> identities[modelId].size == size
  }

  ghost function FirstOf(entries: seq<Registered>, modelId: U32, size: nat): (storage: Option<Memory>)
    ensures storage.Some? <==> exists e <- entries :: e.modelId == modelId && e.storage.size == size
    ensures storage.Some? ==> storage.value.size == size && exists e <- entries ::
      e.modelId == modelId && e.storage == storage.value
  {
    if entries == [] then None
    else if entries[0].modelId == modelId && entries[0].storage.size == size then Some(entries[0].storage)
    else FirstOf(entries[1..], modelId, size)
  }

  class Registry {
    /** Every memory of the process, registered or not. */
    var identities: map<U32, Memory>
    var memories: seq<Registered>
    var frozen: bool
    var failed: bool

    ghost predicate Valid()
      reads this
    {
      AllApart(memories) && OneIdentity(identities) && Identified(memories, identities)
    }

    constructor ()
      ensures Valid() && identities == map[] && memories == [] && !frozen && !failed
    {
      identities, memories, frozen, failed := map[], [], false, false;
    }

    /** The memory of an identity: made all zeros when it is first asked for, and from then on the same one, for
        one capacity only. */
    method Obtain(modelId: U32, size: U64) returns (storage: Option<Memory>)
      requires Valid()
      modifies this`identities
      ensures Valid()
      ensures storage.Some? <==>
        (modelId in old(identities) || 0 < size) && CapacityAgrees(old(identities), modelId, size)
      ensures identities == if storage.Some? then old(identities)[modelId := storage.value] else old(identities)
      ensures storage.Some? && modelId in old(identities) ==> storage.value == old(identities)[modelId]
      ensures storage.Some? && modelId !in old(identities) ==>
        fresh(storage.value) && storage.value.Valid() && storage.value.size == size &&
          storage.value.Flat() == Zeros(size)
    {
      hide AllApart;
      if modelId in identities {
        return if identities[modelId].size == size then Some(identities[modelId]) else None;
      }
      if size == 0 {
        return None;
      }
      var memory := new Memory(size);
      identities := identities[modelId := memory];
      storage := Some(memory);
    }

    /** Registering the same memory again changes nothing; a new one must clash with none before it and
        come before the freeze. Any refusal is final. */
    method Register(modelId: U32, base: U64, size: U64, owner: string) returns (ok: bool)
      requires Valid()
      modifies this
      ensures Valid() && frozen == old(frozen)
      ensures failed <==> old(failed) || !ok
      ensures ok <==> !old(failed) && WellFormed(base, size, owner) &&
                      (Repeats(old(memories), modelId, base, size, owner) ||
                       (!old(frozen) && ClashFree(old(memories), modelId, base, size, owner) &&
                         CapacityAgrees(old(identities), modelId, size)))
      ensures !ok || Repeats(old(memories), modelId, base, size, owner) ==> memories == old(memories)
      ensures ok && memories != old(memories) ==>
        |memories| == |old(memories)| + 1 && memories[..|old(memories)|] == old(memories) &&
        (var e := memories[|old(memories)|];
         && Same(e, modelId, base, size, owner) && identities == old(identities)[modelId := e.storage]
         && (if modelId in old(identities) then e.storage == old(identities)[modelId]
             else fresh(e.storage) && e.storage.Valid() && e.storage.Flat() == Zeros(size)))
      ensures memories == old(memories) ==> identities == old(identities)
    {
      if failed || owner == "" || size == 0 || base + size - 1 > U64_MAX {
        failed := true;
        return false;
      }
      hide AllApart, Repeats, OneIdentity, Identified, CapacityAgrees;
      for i := 0 to |memories|
        invariant memories == old(memories) && identities == old(identities) && failed == old(failed) &&
          frozen == old(frozen)
        invariant ClashFree(memories[..i], modelId, base, size, owner)
      {
        var e := memories[i];
        if e.modelId == modelId {
          OnlyOne(memories, i, modelId, base, size, owner);
          ok := e.owner == owner && e.base == base && e.storage.size == size;
          failed := !ok;
          return;
        }
        if e.owner == owner || (base <= e.base + e.storage.size - 1 && e.base <= base + size - 1) {
          OnlyOne(memories, i, modelId, base, size, owner);
          failed := true;
          return false;
        }
        assert memories[..i + 1] == memories[..i] + [e];
      }
      assert memories[..|memories|] == memories;
      NoRepeat(memories, modelId, base, size, owner);
      if frozen {
        failed := true;
        return false;
      }
      var storage := Obtain(modelId, size);
      if storage == None {
        failed := true;
        return false;
      }
      NewStorage(memories, identities, modelId, base, size, owner, storage.value);
      memories := memories + [Registered(modelId, base, owner, storage.value)];
      ok := true;
    }

    /** The memory registered under an identity with that capacity, unless a registration failed. */
    ghost function Usable(modelId: U32, size: nat): (storage: Option<Memory>)
      reads this
      ensures storage.Some? <==> !failed && exists e <- memories :: e.modelId == modelId && e.storage.size == size
      ensures storage.Some? ==> exists e <- memories :: e.modelId == modelId && e.storage == storage.value
      ensures storage.Some? ==> storage.value.size == size
    {
      if failed then None else FirstOf(memories, modelId, size)
    }

    /** Any failed registration keeps every memory from use. */
    method Initialized(modelId: U32, size: nat) returns (storage: Option<Memory>)
      requires Valid()
      ensures storage == Usable(modelId, size)
    {
      if failed {
        return None;
      }
      assert memories[0..] == memories;
      for i := 0 to |memories|
        invariant FirstOf(memories, modelId, size) == FirstOf(memories[i..], modelId, size)
      {
        assert memories[i..][1..] == memories[i + 1..];
        if memories[i].modelId == modelId && memories[i].storage.size == size {
          return Some(memories[i].storage);
        }
      }
      storage := None;
    }

    method Freeze() returns (windows: Option<seq<Registered>>)
      requires Valid()
      modifies this
      ensures Valid() && memories == old(memories) && identities == old(identities) && failed == old(failed)
      ensures windows == if failed then None else Some(memories)
      ensures frozen <==> old(frozen) || !failed
    {
      if failed {
        return None;
      }
      frozen := true;
      windows := Some(memories);
    }
  }

  /** In a table whose entries are apart, at most one entry can match, and then no other clashes. */
  lemma OnlyOne(entries: seq<Registered>, i: nat, modelId: U32, base: U64, size: U64, owner: string)
    requires AllApart(entries) && i < |entries| && Clashes(entries[i], modelId, base, size, owner)
    ensures Repeats(entries, modelId, base, size, owner) <==> Same(entries[i], modelId, base, size, owner)
    ensures !ClashFree(entries, modelId, base, size, owner)
  {
    assert entries[i] in entries;
    if Repeats(entries, modelId, base, size, owner) {
      var e :| e in entries && Same(e, modelId, base, size, owner);
      var j :| 0 <= j < |entries| && entries[j] == e;
      assert j != i ==> Apart(entries[i], entries[j]);
      assert Overlap(base, size, e.base, e.storage.size);
    }
  }

  lemma NoRepeat(entries: seq<Registered>, modelId: U32, base: U64, size: U64, owner: string)
    requires ClashFree(entries, modelId, base, size, owner)
    ensures !Repeats(entries, modelId, base, size, owner)
  {
    forall e <- entries
      ensures !Same(e, modelId, base, size, owner)
    {
    }
  }

  /** The memory of an unregistered identity is not registered under another. */
  lemma NewStorage(entries: seq<Registered>, identities: map<U32, Memory>, modelId: U32, base: U64, size: U64,
                   owner: string,
                   storage: Memory)
    requires AllApart(entries) && WellFormed(base, size, owner) && ClashFree(entries, modelId, base, size, owner)
    requires OneIdentity(identities) && Identified(entries, identities)
    requires modelId in identities && identities[modelId] == storage && storage.size == size
    ensures AllApart(entries + [Registered(modelId, base, owner, storage)])
    ensures Identified(entries + [Registered(modelId, base, owner, storage)], identities)
  {
    hide AllApart, WellFormed, Overlap;
    ExtendApart(entries, Registered(modelId, base, owner, storage));
  }

  lemma ExtendApart(entries: seq<Registered>, e: Registered)
    requires AllApart(entries) && WellFormed(e.base, e.storage.size, e.owner)
    requires (forall f <- entries :: f.storage != e.storage) &&
      ClashFree(entries, e.modelId, e.base, e.storage.size, e.owner)
    ensures AllApart(entries + [e])
  {
    var all := entries + [e];
    forall i, j | 0 <= i < j < |all|
      ensures Apart(all[i], all[j]) && Apart(all[j], all[i])
    {
      assert all[i] == entries[i] && entries[i] in entries;
      if j == |entries| {
        assert !Clashes(entries[i], e.modelId, e.base, e.storage.size, e.owner);
      } else {
        assert all[j] == entries[j];
      }
    }
  }

  // ---------------------------------------------------------------- lanes of a bus word

  function Place(k: nat): nat
    requires k < 4
  {
    if k == 0 then 1 else if k == 1 then 0x100 else if k == 2 then 0x1_0000 else 0x100_0000
  }

  ghost function WordOf(b0: Byte, b1: Byte, b2: Byte, b3: Byte): U32 {
    b0 + 0x100 * b1 + 0x1_0000 * b2 + 0x100_0000 * b3
  }

  /** The bus words that carry these lanes. */
  ghost function Packed(bytes: seq<Byte>): (words: seq<U32>)
    requires |bytes| % 4 == 0
    ensures |words| == |bytes| / 4
  {
    seq(|bytes| / 4, j requires 0 <= j < |bytes| / 4 => WordOf(bytes[4 * j], bytes[4 * j + 1], bytes[4 * j + 2],
      bytes[4 * j + 3]))
  }

  function PackedByte(words: seq<U32>, lane: nat): Byte
    requires lane < 4 * |words|
  {
    words[lane / 4] / Place(lane % 4) % 256
  }

  /** Each lane is recovered from the word that carries it. */
  lemma LaneOfPacked(bytes: seq<Byte>, lane: nat)
    requires |bytes| % 4 == 0 && lane < |bytes|
    ensures PackedByte(Packed(bytes), lane) == bytes[lane]
  {
    hide WordOf, Place;
    var j, r := lane / 4, lane % 4;
    FourLanes(lane);
    var w := WordOf(bytes[4 * j], bytes[4 * j + 1], bytes[4 * j + 2], bytes[4 * j + 3]);
    assert Packed(bytes)[j] == w;
    PlaceOfLane(w, r);
    LaneOfWord(bytes[4 * j], bytes[4 * j + 1], bytes[4 * j + 2], bytes[4 * j + 3]);
  }

  lemma FourLanes(lane: nat)
    ensures 4 * (lane / 4) + lane % 4 == lane
  {
  }

  lemma PlaceOfLane(w: nat, r: nat)
    requires r < 4
    ensures w / Place(r) % 256 ==
      if r == 0 then w / 1 % 256 else if r == 1 then w / 0x100 % 256 else if r == 2 then w / 0x1_0000 % 256
      else w / 0x100_0000 % 256
  {
  }

  lemma LaneOfWord(b0: Byte, b1: Byte, b2: Byte, b3: Byte)
    ensures var w := WordOf(b0, b1, b2, b3);
      w / 1 % 256 == b0 && w / 0x100 % 256 == b1 && w / 0x1_0000 % 256 == b2 && w / 0x100_0000 % 256 == b3
  {
    var w := WordOf(b0, b1, b2, b3);
    Split(w, 0x100, b1 + 0x100 * b2 + 0x1_0000 * b3, b0);
    Split(w, 0x1_0000, b2 + 0x100 * b3, b0 + 0x100 * b1);
    Split(w, 0x100_0000, b3, b0 + 0x100 * b1 + 0x1_0000 * b2);
    Split(b1 + 0x100 * b2 + 0x1_0000 * b3, 0x100, b2 + 0x100 * b3, b1);
    Split(b2 + 0x100 * b3, 0x100, b3, b2);
  }

  lemma Split(w: nat, d: nat, high: nat, low: nat)
    requires low < d && w == high * d + low
    ensures w / d == high && w % d == low
  {
    DivideUnique(w, d, high, low);
  }

  /** Or-ing a byte into a lane that is still zero sets that lane and no other; the lane being zero, or-ing
      is adding. */
  method SetPackedByte(words: seq<U32>, ghost bytes: seq<Byte>, lane: nat, b: Byte) returns (r: seq<U32>)
    requires |bytes| % 4 == 0 && lane < |bytes| && bytes[lane] == 0 && words == Packed(bytes)
    ensures r == Packed(bytes[lane := b])
  {
    SetLane(bytes, lane, b);
    r := words[lane / 4 := words[lane / 4] + b * Place(lane % 4)];
  }

  lemma SetLane(bytes: seq<Byte>, lane: nat, b: Byte)
    requires |bytes| % 4 == 0 && lane < |bytes| && bytes[lane] == 0
    ensures Packed(bytes)[lane / 4] + b * Place(lane % 4) <= U32_MAX
    ensures Packed(bytes[lane := b]) == Packed(bytes)[lane / 4 := Packed(bytes)[lane / 4] + b * Place(lane % 4)]
  {
    var j := lane / 4;
    var after := bytes[lane := b];
    assert 4 * j + lane % 4 == lane;
    assert Packed(after)[j] == Packed(bytes)[j] + b * Place(lane % 4);
    forall i | 0 <= i < |bytes| / 4 && i != j
      ensures Packed(after)[i] == Packed(bytes)[i]
    {
    }
  }

  // ---------------------------------------------------------------- one access

  ghost predicate Supported(beatBytes: nat) {
    beatBytes == 16 || beatBytes == 32 || beatBytes == 64
  }

  ghost predicate Enabled(mask: nat, lane: nat) {
    mask / Pow2(lane) % 2 == 1
  }

  /** The beat with the enabled lanes replaced. */
  ghost function Merged(beat: seq<Byte>, data: seq<U32>, mask: nat): (r: seq<Byte>)
    requires |beat| <= 4 * |data|
    ensures |r| == |beat|
    ensures forall i :: 0 <= i < |r| ==> r[i] == if Enabled(mask, i) then PackedByte(data, i) else beat[i]
  {
    seq(|beat|, i requires 0 <= i < |beat| => if Enabled(mask, i) then PackedByte(data, i) else beat[i])
  }

  ghost function BeatAddress(address: nat, beatBytes: nat): nat
    requires 0 < beatBytes
  {
    address - address % beatBytes
  }

  ghost predicate BeatFits(size: nat, beatBytes: nat, address: nat) {
    Supported(beatBytes) && BeatAddress(address, beatBytes) + beatBytes <= size
  }

  /** The beat an address lies in. */
  ghost function BeatOf(flat: seq<Byte>, beatBytes: nat, address: nat): (beat: seq<Byte>)
    requires BeatFits(|flat|, beatBytes, address)
    ensures |beat| == beatBytes
  {
    flat[BeatAddress(address, beatBytes)..BeatAddress(address, beatBytes) + beatBytes]
  }

  /** A memory after a masked write to the beat an address lies in. */
  ghost function AfterWrite(flat: seq<Byte>, beatBytes: nat, address: nat, data: seq<U32>, mask: nat): seq<Byte>
    requires BeatFits(|flat|, beatBytes, address) && |data| == 16
  {
    Overwrite(flat, BeatAddress(address, beatBytes), Merged(BeatOf(flat, beatBytes, address), data, mask))
  }

  /** Exactly the enabled bytes of the beat change. */
  lemma OnlyEnabledBytes(flat: seq<Byte>, beatBytes: nat, address: nat, data: seq<U32>, mask: nat, o: nat)
    requires BeatFits(|flat|, beatBytes, address) && |data| == 16 && o < |flat|
    ensures var a := BeatAddress(address, beatBytes);
      a <= address < a + beatBytes && a % beatBytes == 0
    ensures var a, after := BeatAddress(address, beatBytes), AfterWrite(flat, beatBytes, address, data, mask);
      |after| == |flat| &&
      after[o] == if a <= o < a + beatBytes && Enabled(mask, o - a) then PackedByte(data, o - a) else flat[o]
  {
    hide Enabled, PackedByte;
  }

  // ---------------------------------------------------------------- the mask, bit by bit

  /** A lane is enabled exactly by its own bit of the mask. */
  lemma MaskBit(bits: BitVectors.Bits, lane: nat)
    requires lane < |bits|
    ensures Enabled(BitVectors.NatOf(bits), lane) <==> bits[lane]
  {
    var high := bits[lane..];
    BitVectors.Cut(bits, lane);
    BitVectors.ShiftedDown(BitVectors.NatOf(bits), BitVectors.NatOf(bits[..lane]), BitVectors.NatOf(high), Pow2(lane));
    assert BitVectors.NatOf(high) == (if high[0] then 1 else 0) + 2 * BitVectors.NatOf(high[1..]);
  }

  /** A masked write changes exactly the bytes of the beat whose bit of the mask is set. */
  lemma OnlySetBits(flat: seq<Byte>, beatBytes: nat, address: nat, data: seq<U32>, bits: BitVectors.Bits, o: nat)
    requires BeatFits(|flat|, beatBytes, address) && |data| == 16 && |bits| == 64 && o < |flat|
    ensures var a := address - address % beatBytes;
      AfterWrite(flat, beatBytes, address, data, BitVectors.NatOf(bits))[o] ==
        if a <= o < a + beatBytes && bits[o - a] then PackedByte(data, o - a) else flat[o]
  {
    hide Enabled, PackedByte;
    OnlyEnabledBytes(flat, beatBytes, address, data, BitVectors.NatOf(bits), o);
    var a := BeatAddress(address, beatBytes);
    if a <= o < a + beatBytes {
      MaskBit(bits, o - a);
    }
  }

  lemma EnabledQuotient(mask: nat, i: nat, q: nat, r: nat)
    requires r < Pow2(i) && mask == q * Pow2(i) + r
    ensures Enabled(mask, i) <==> q % 2 == 1
  {
    hide Pow2;
    Split(mask, Pow2(i), q, r);
  }

  lemma Double(n: nat)
    requires 0 < n
    ensures Pow2(n) == 2 * Pow2(n - 1)
  {
  }

  lemma PowerBit(k: nat, i: nat)
    ensures Enabled(Pow2(k), i) <==> i == k
  {
    hide Pow2, Enabled;
    if i < k {
      Pow2Add(k - i, i);
      Double(k - i);
      EnabledQuotient(Pow2(k), i, Pow2(k - i), 0);
    } else if i == k {
      EnabledQuotient(Pow2(k), k, 1, 0);
    } else {
      Double(i);
      Pow2Grows(k, i - 1);
      EnabledQuotient(Pow2(k), i, 0, Pow2(k));
    }
  }

  lemma OnesBit(n: nat, i: nat)
    ensures Enabled(Pow2(n) - 1, i) <==> i < n
  {
    hide Pow2, Enabled;
    if i < n {
      Pow2Add(n - i, i);
      Double(n - i);
      SumTimes(Pow2(n - i) - 1, 1, Pow2(i));
      EnabledQuotient(Pow2(n) - 1, i, Pow2(n - i) - 1, Pow2(i) - 1);
    } else {
      Pow2Grows(n, i);
      EnabledQuotient(Pow2(n) - 1, i, 0, Pow2(n) - 1);
    }
  }

  lemma NoBit(i: nat)
    ensures !Enabled(0, i)
  {
    EnabledQuotient(0, i, 0, 0);
  }

  /** An empty mask changes nothing. */
  lemma EmptyMask(flat: seq<Byte>, beatBytes: nat, address: nat, data: seq<U32>)
    requires BeatFits(|flat|, beatBytes, address) && |data| == 16
    ensures AfterWrite(flat, beatBytes, address, data, 0) == flat
  {
    hide PackedByte, Enabled;
    forall o | 0 <= o < |flat|
      ensures AfterWrite(flat, beatBytes, address, data, 0)[o] == flat[o]
    {
      OnlyEnabledBytes(flat, beatBytes, address, data, 0, o);
      if BeatAddress(address, beatBytes) <= o {
        NoBit(o - BeatAddress(address, beatBytes));
      }
    }
  }

  /** A full mask replaces the beat. */
  lemma FullMask(flat: seq<Byte>, beatBytes: nat, address: nat, data: seq<U32>)
    requires BeatFits(|flat|, beatBytes, address) && |data| == 16
    ensures var a := address - address % beatBytes;
      AfterWrite(flat, beatBytes, address, data, Pow2(beatBytes) - 1) ==
        flat[..a] + seq(beatBytes, i requires 0 <= i < beatBytes => PackedByte(data, i)) + flat[a + beatBytes..]
  {
    hide PackedByte, Enabled, Pow2;
    var a, after := BeatAddress(address, beatBytes), AfterWrite(flat, beatBytes, address, data, Pow2(beatBytes) - 1);
    forall o | 0 <= o < |flat|
      ensures after[o] == if a <= o < a + beatBytes then PackedByte(data, o - a) else flat[o]
    {
      OnlyEnabledBytes(flat, beatBytes, address, data, Pow2(beatBytes) - 1, o);
      if a <= o {
        OnesBit(beatBytes, o - a);
      }
    }
  }

  /** A single bit replaces a single byte. */
  lemma OneBitMask(flat: seq<Byte>, beatBytes: nat, address: nat, data: seq<U32>, k: nat)
    requires BeatFits(|flat|, beatBytes, address) && |data| == 16 && k < beatBytes
    ensures AfterWrite(flat, beatBytes, address, data, Pow2(k)) ==
      flat[address - address % beatBytes + k := PackedByte(data, k)]
  {
    hide PackedByte, Enabled, Pow2;
    var a, after := BeatAddress(address, beatBytes), AfterWrite(flat, beatBytes, address, data, Pow2(k));
    forall o | 0 <= o < |flat|
      ensures after[o] == if o == a + k then PackedByte(data, k) else flat[o]
    {
      OnlyEnabledBytes(flat, beatBytes, address, data, Pow2(k), o);
      if a <= o {
        PowerBit(k, o - a);
      }
    }
  }

  /** The enabled lanes take the bus data, in place, lane by lane. */
  method MergeLanes(beat: seq<Byte>, data: seq<U32>, mask: U64) returns (merged: seq<Byte>)
    requires |beat| <= 4 * |data|
    ensures merged == Merged(beat, data, mask)
  {
    merged := beat;
    for lane := 0 to |beat|
      invariant |merged| == |beat|
      invariant merged[..lane] == Merged(beat, data, mask)[..lane] && merged[lane..] == beat[lane..]
    {
      if mask / Pow2(lane) % 2 == 1 {
        merged := merged[lane := PackedByte(data, lane)];
      }
      assert merged[lane] == Merged(beat, data, mask)[lane];
    }
    assert merged[..|beat|] == merged;
  }

  /** The bus words with the beat in their low lanes and zeros above. */
  method PackLanes(beat: seq<Byte>) returns (words: seq<U32>)
    requires |beat| <= 64
    ensures words == Packed(beat + Zeros(64 - |beat|))
  {
    words := seq(16, _ => 0);
    assert words == Packed(Zeros(64));
    hide Packed, Padded;
    PaddedEnds(beat);
    for lane := 0 to |beat|
      invariant words == Packed(Padded(beat, lane))
    {
      FillLane(beat, lane);
      words := SetPackedByte(words, Padded(beat, lane), lane, beat[lane]);
    }
  }

  /** The first `n` lanes of a beat in a 64-byte bus, the others zero. */
  ghost function Padded(beat: seq<Byte>, n: nat): (lanes: seq<Byte>)
    requires n <= |beat| <= 64
    ensures |lanes| == 64
  {
    beat[..n] + Zeros(64 - n)
  }

  lemma PaddedEnds(beat: seq<Byte>)
    requires |beat| <= 64
    ensures Padded(beat, 0) == Zeros(64) && Padded(beat, |beat|) == beat + Zeros(64 - |beat|)
  {
  }

  lemma FillLane(beat: seq<Byte>, lane: nat)
    requires lane < |beat| <= 64
    ensures Padded(beat, lane)[lane] == 0
    ensures Padded(beat, lane)[lane := beat[lane]] == Padded(beat, lane + 1)
  {
  }

  /** Reads the beat first, so that a partial write keeps the disabled bytes and an address outside the
      memory changes nothing. */
  method AccessMemory(memory: Memory, beatBytes: Byte, write: bool, address: U64, writeData: seq<U32>, writeMask: U64)
    returns (ok: bool, readData: seq<U32>)
    requires memory.Valid() && |writeData| == 16 && Supported(beatBytes)
    modifies memory
    ensures memory.Valid()
    ensures ok <==> BeatFits(memory.size, beatBytes, address)
    ensures memory.Flat() ==
            if ok && write then AfterWrite(old(memory.Flat()), beatBytes, address, writeData, writeMask)
            else old(memory.Flat())
    ensures readData ==
            if ok && !write then Packed(BeatOf(memory.Flat(), beatBytes, address) + Zeros(64 - beatBytes))
            else Packed(Zeros(64))
  {
    hide Enabled, PackedByte;
    readData := seq(16, _ => 0);
    assert readData == Packed(Zeros(64));
    var beatAddress := address - address % beatBytes;
    var beat := memory.Read(beatAddress, beatBytes);
    ok := beat.Some?;
    if ok && write {
      var merged := MergeLanes(beat.value, writeData, writeMask);
      var written := memory.Write(beatAddress, merged);
    } else if ok {
      readData := PackLanes(beat.value);
    }
  }

  /** Serves one bus access. The status is 2 for missing data buffers, 1 for an unsupported width, 3 for a
      memory that is not usable or a beat outside it. A write changes exactly the enabled bytes of its
      beat; a read returns the beat; nothing is returned through a missing buffer. */
  method Access(registry: Registry, modelId: U32, capacity: U64, beatBytes: Byte, write: bool, address: U64,
                writeData: Option<seq<U32>>, writeMask: U64, readable: bool)
    returns (status: nat, readData: Option<seq<U32>>)
    requires registry.Valid() && (writeData.Some? ==> |writeData.value| == 16)
    requires forall e <- registry.memories :: e.storage.Valid()
    modifies set e <- registry.memories :: e.storage
    ensures forall e <- registry.memories :: e.storage.Valid()
    ensures status == StatusOf(writeData.Some? &&
      readable, beatBytes, registry.Usable(modelId, capacity).Some?, capacity, address)
    ensures forall e <- registry.memories :: e.storage.Flat() ==
              if status == 0 && write && registry.Usable(modelId, capacity) == Some(e.storage) then
                Written(old(e.storage.Flat()), beatBytes, address, writeData, writeMask)
              else old(e.storage.Flat())
    ensures status == 2 ==> readData == None
    ensures status == 1 || status == 3 || (status == 0 && write) ==> readData == Some(Packed(Zeros(64)))
    ensures status == 0 && !write ==>
      exists e <- registry.memories :: registry.Usable(modelId, capacity) == Some(e.storage) &&
                                       readData == Some(BusOf(e.storage.Flat(), beatBytes, address))
  {
    hide BeatFits, AfterWrite, BeatOf, Packed, AllApart, OneIdentity, Identified;
    if writeData == None || !readable {
      return 2, None;
    }
    var zeros := seq(16, _ => 0);
    ZeroBus();
    if beatBytes != 16 && beatBytes != 32 && beatBytes != 64 {
      return 1, Some(zeros);
    }
    var storage := registry.Initialized(modelId, capacity);
    if storage == None {
      return 3, Some(zeros);
    }
    var ok, data := AccessMemory(storage.value, beatBytes, write, address, writeData.value, writeMask);
    status, readData := if ok then 0 else 3, Some(data);
  }

  /** A memory after a write, and the bus after a read, of a beat that fits. */
  ghost function Written(flat: seq<Byte>, beatBytes: nat, address: nat, data: Option<seq<U32>>, mask: nat): seq<Byte> {
    if BeatFits(|flat|, beatBytes, address) && data.Some? && |data.value| == 16
      then AfterWrite(flat, beatBytes, address, data.value, mask)
    else flat
  }

  ghost function BusOf(flat: seq<Byte>, beatBytes: nat, address: nat): seq<U32> {
    if BeatFits(|flat|, beatBytes, address) then Packed(BeatOf(flat, beatBytes, address) + Zeros(64 - beatBytes))
      else Packed(Zeros(64))
  }

  lemma ZeroBus()
    ensures Packed(Zeros(64)) == seq(16, _ => 0)
  {
  }

  /** The first check that fails. */
  ghost function StatusOf(buffers: bool, beatBytes: nat, usable: bool, capacity: nat, address: nat): nat {
    if !buffers then 2
    else if !Supported(beatBytes) then 1
    else if !usable || !BeatFits(capacity, beatBytes, address) then 3
    else 0
  }
}
