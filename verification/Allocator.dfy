/** The bump allocators over the free-memory pointer, the word at 0x40 of memory. */
module Allocator {
  import opened Bytes
  import opened FlatMemory
  import opened ScratchMemory

  const HEAP_START: nat := 0x80

  /** An allocated range; a byte buffer also has the length in its first word. */
  datatype Region = Region(start: nat, size: nat, length: Option<nat>) {
    function End(): nat { start + size }
  }

  // ---- memory that holds a free-memory pointer and regions ---------------------------

  /** The pointer as the allocators read it: eight bytes from byte 88. */
  function Fmp(mem: bytes): nat
    requires |mem| >= 96
  {
    Number(mem[88..96])
  }

  /** The whole word at 0x40 is that number. */
  predicate FmpWord(mem: bytes)
    requires |mem| >= 96
  {
    mem[64..96] == BigEndian(32, Fmp(mem)) && Fmp(mem) < TWO_64
  }

  /** Regions lie above 0x80 and below the pointer, and follow each other. */
  predicate Packed(regions: seq<Region>, fmp: nat) {
    && (forall i :: 0 <= i < |regions| ==> HEAP_START <= regions[i].start && regions[i].End() <= fmp)
    && (forall i, j :: 0 <= i < j < |regions| ==> regions[i].End() <= regions[j].start)
  }

  predicate HoldsLength(mem: bytes, r: Region) {
    r.length.Some? ==>
      && 32 <= r.size && r.start + 32 <= |mem| && r.length.value < TWO_64
      && mem[r.start..r.start + 32] == BigEndian(32, r.length.value)
  }

  predicate HoldLengths(mem: bytes, regions: seq<Region>) {
    forall i :: 0 <= i < |regions| ==> HoldsLength(mem, regions[i])
  }

  predicate Sane(mem: bytes, regions: seq<Region>) {
    && |mem| >= SLOT && FmpWord(mem) && HEAP_START <= Fmp(mem)
    && Packed(regions, Fmp(mem)) && HoldLengths(mem, regions)
  }

  /** No two regions share a byte. */
  lemma PackedDisjoint(regions: seq<Region>, fmp: nat, i: nat, j: nat, at: nat)
    requires Packed(regions, fmp) && i < |regions| && j < |regions| && i != j
    requires regions[i].start <= at < regions[i].End()
    ensures !(regions[j].start <= at < regions[j].End())
  {
    if i < j {
      assert regions[i].End() <= regions[j].start;
    } else {
      assert regions[j].End() <= regions[i].start;
    }
  }

  lemma FmpWritten(mem: bytes, f: nat)
    requires |mem| >= 96 && f < TWO_64
    ensures var mem1 := Over(mem, 64, BigEndian(32, f)); FmpWord(mem1) && Fmp(mem1) == f
  {
    var w := BigEndian(32, f);
    var mem1 := Over(mem, 64, w);
    ReadOver(mem, 64, w);
    assert mem1[88..96] == mem1[64..96][24..];
    BigEndianSuffix(32, 8, f);
    EightBytes(f);
  }

  lemma EightBytes(f: nat)
    requires f < TWO_64
    ensures Number(BigEndian(8, f)) == f
  {
    Pow256Of8();
    NumberOfBigEndian(8, f);
  }

  /** Writing beside the length words keeps them. */
  lemma LengthsKept(mem: bytes, at: nat, v: bytes, regions: seq<Region>)
    requires at + |v| <= |mem| && HoldLengths(mem, regions)
    requires forall i :: 0 <= i < |regions| && regions[i].length.Some? ==>
               at + |v| <= regions[i].start || regions[i].start + 32 <= at
    ensures HoldLengths(Over(mem, at, v), regions)
  {
    forall i | 0 <= i < |regions| && regions[i].length.Some?
      ensures HoldsLength(Over(mem, at, v), regions[i])
    {
      assert HoldsLength(mem, regions[i]);
      ReadBeside(mem, at, v, regions[i].start, regions[i].start + 32);
    }
  }

  /** Moving the pointer up and adding the range in between. */
  lemma Extended(mem: bytes, regions: seq<Region>, f: nat, r: Region)
    requires Sane(mem, regions) && f < TWO_64 && r.start == Fmp(mem) && r.End() == f && HoldsLength(mem, r)
    ensures Sane(Over(mem, 64, BigEndian(32, f)), regions + [r])
  {
    FmpWritten(mem, f);
    var all := regions + [r];
    forall i | 0 <= i < |all|
      ensures HoldsLength(mem, all[i])
    {
      if i < |regions| {
        assert HoldsLength(mem, regions[i]);
      }
    }
    LengthsKept(mem, 64, BigEndian(32, f), all);
  }

  /** A length word at the pointer, above every region. */
  lemma AtPointer(mem: bytes, regions: seq<Region>, w: bytes)
    requires Sane(mem, regions) && |w| == 32 && Fmp(mem) + 32 <= |mem|
    ensures var mem1 := Over(mem, Fmp(mem), w); Sane(mem1, regions) && Fmp(mem1) == Fmp(mem)
  {
    var f := Fmp(mem);
    LengthsKept(mem, f, w, regions);
    ReadBeside(mem, f, w, 88, 96);
    ReadBeside(mem, f, w, 64, 96);
  }

  // ---- the allocators ----------------------------------------------------------------

  datatype Op = Bump(bump: int) | Alloc(size: nat) | AllocBytes(length: nat)

  class Heap {
    const m: Scratch
    ghost var regions: seq<Region>

    ghost predicate Valid()
      reads this, m.slots
    {
      m.Valid() && Sane(m.Memory(), regions)
    }

    ghost function Pointer(): nat
      requires Valid()
      reads this, m.slots
    {
      Fmp(m.Memory())
    }

    /** Zeroed memory with the pointer at 0x80. */
    constructor (pages: nat)
      requires 1 <= pages <= MAX_MEMORY_SLOTS
      ensures Valid() && fresh(m.slots) && Pointer() == HEAP_START && regions == []
    {
      m := new Scratch(pages);
      regions := [];
      new;
      FmpWritten(m.Memory(), HEAP_START);
      WordOfUint64(HEAP_START);
      m.StoreAt(64, LeftPadTo(Itob(HEAP_START), 32));
    }

    /** `extract_uint64(load 0, 88)`. */
    method ReadPointer() returns (f: nat)
      requires Valid()
      ensures f == Pointer() && HEAP_START <= f < TWO_64
    {
      f := Number(m.slots[0][88..96]);
      FlatSlice(m.slots[..m.n], 0, 88, 8);
    }

    /** Store the pointer and account for the range that it passed. */
    method Advance(f: nat, ghost r: Region)
      requires Valid() && f < TWO_64 && r.start == Pointer() && r.End() == f && HoldsLength(m.Memory(), r)
      modifies this`regions, m.slots
      ensures Valid() && Pointer() == f && regions == old(regions) + [r]
      ensures m.Others() == old(m.Others())
      ensures m.Memory() == Over(old(m.Memory()), 64, BigEndian(32, f))
    {
      Extended(m.Memory(), regions, f, r);
      FmpWritten(m.Memory(), f);
      WordOfUint64(f);
      m.StoreAt(64, LeftPadTo(Itob(f), 32));
      regions := regions + [r];
    }

    /** `emitFreeMemoryBump`. */
    method BumpBy(size: int) returns (ok: bool)
      requires Valid()
      modifies this`regions, m.slots
      ensures Valid() && m.Others() == old(m.Others())
      ensures ok <==> size <= 0 || old(Pointer()) + size < TWO_64
      ensures ok && size > 0 ==>
                Pointer() == old(Pointer()) + size &&
                regions == old(regions) + [Region(old(Pointer()), size, None)]
      ensures !ok || size <= 0 ==> Pointer() == old(Pointer()) && regions == old(regions)
    {
      if size <= 0 { return true; }
      var f := ReadPointer();
      ok := f + size < TWO_64;
      if ok {
        Advance(f + size, Region(f, size, None));
      }
    }

    /** `emitMemoryAlloc`: the size is rounded up to whole words. */
    method AllocRange(size: nat) returns (off: Option<nat>)
      requires Valid()
      modifies this`regions, m.slots
      ensures Valid() && m.Others() == old(m.Others())
      ensures off.Some? <==> size + 31 < TWO_64 && old(Pointer()) + Words(size) < TWO_64
      ensures off.Some? ==>
                && off.value == old(Pointer()) && Pointer() == off.value + Words(size)
                && regions == old(regions) + [Region(off.value, Words(size), None)]
      ensures off.None? ==> Pointer() == old(Pointer()) && regions == old(regions)
    {
      var f := ReadPointer();
      var rounded := (size + 31) / 32 * 32;
      if size + 31 >= TWO_64 || f + rounded >= TWO_64 { return None; }
      Advance(f + rounded, Region(f, rounded, None));
      off := Some(f);
    }

    /** `emitBytesBlobAlloc`: a length word and room for the bytes. */
    method AllocBuffer(length: nat) returns (off: Option<nat>)
      requires Valid() && length < TWO_64
      modifies this`regions, m.slots
      ensures Valid() && m.Others() == old(m.Others())
      ensures off.Some? <==> && old(Pointer()) + 32 <= m.Capacity()
                             && length + 31 < TWO_64 && old(Pointer()) + 32 + Words(length) < TWO_64
      ensures off.Some? ==>
                && off.value == old(Pointer()) && Pointer() == off.value + 32 + Words(length)
                && regions == old(regions) + [Region(off.value, 32 + Words(length), Some(length))]
      ensures off.None? ==> Pointer() == old(Pointer()) && regions == old(regions)
    {
      var f := ReadPointer();
      ghost var mem := m.Memory();
      var w := LeftPadTo(Itob(length), 32);
      WordOfUint64(length);
      if f + 32 <= m.Capacity() {
        AtPointer(mem, regions, w);
      }
      var ok := m.WriteWord(f, w, false);
      if !ok { return None; }
      var rounded := (length + 31) / 32 * 32;
      if length + 31 >= TWO_64 || f + 32 + rounded >= TWO_64 { return None; }
      ReadOver(mem, f, w);
      Advance(f + 32 + rounded, Region(f, 32 + rounded, Some(length)));
      off := Some(f);
    }

    /** ALLOCATOR SAFETY OVER ALL RUNS. Any sequence of allocations gives the pointer and the
    regions of `Play`, and keeps what `Valid` says: regions disjoint and above 0x80, length
    words intact, the pointer word exact. Other slots are untouched. */
    method Run(ops: seq<Op>)
      requires Valid() && forall i :: 0 <= i < |ops| && ops[i].AllocBytes? ==> ops[i].length < TWO_64
      modifies this`regions, m.slots
      ensures Valid() && m.Others() == old(m.Others())
      ensures (Pointer(), regions) == Play(old(Pointer()), old(regions), ops, m.Capacity())
    {
      var i := 0;
      while i < |ops|
        invariant i <= |ops| && Valid() && m.Others() == old(m.Others())
        invariant Play(Pointer(), regions, ops[i..], m.Capacity())
               == Play(old(Pointer()), old(regions), ops, m.Capacity())
      {
        var ok := Step(ops[i]);
        if !ok { return; }
        i := i + 1;
      }
    }

    method Step(op: Op) returns (ok: bool)
      requires Valid() && (op.AllocBytes? ==> op.length < TWO_64)
      modifies this`regions, m.slots
      ensures Valid() && m.Others() == old(m.Others())
      ensures var next := Next(old(Pointer()), op, m.Capacity());
              && (ok <==> next.Some?)
              && (ok ==> Pointer() == next.value && regions == old(regions) + Granted(old(Pointer()), op))
              && (!ok ==> Pointer() == old(Pointer()) && regions == old(regions))
    {
      match op
      case Bump(size) => ok := BumpBy(size);
      case Alloc(size) =>
        var off := AllocRange(size);
        ok := off.Some?;
      case AllocBytes(length) =>
        var off := AllocBuffer(length);
        ok := off.Some?;
    }
  }

  // ---- runs on values ------------------------------------------------------------------

  /** The pointer after an operation; `None` where the emitted program stops. */
  function Next(f: nat, op: Op, capacity: nat): Option<nat> {
    match op
    case Bump(size) =>
      if size <= 0 then Some(f) else if f + size < TWO_64 then Some(f + size) else None
    case Alloc(size) =>
      if size + 31 < TWO_64 && f + Words(size) < TWO_64 then Some(f + Words(size)) else None
    case AllocBytes(length) =>
      if f + 32 <= capacity && length + 31 < TWO_64 && f + 32 + Words(length) < TWO_64
      then Some(f + 32 + Words(length)) else None
  }

  function Granted(f: nat, op: Op): seq<Region> {
    match op
    case Bump(size) => if size <= 0 then [] else [Region(f, size, None)]
    case Alloc(size) => [Region(f, Words(size), None)]
    case AllocBytes(length) => [Region(f, 32 + Words(length), Some(length))]
  }

  function Play(f: nat, regions: seq<Region>, ops: seq<Op>, capacity: nat): (nat, seq<Region>)
    decreases |ops|
  {
    if ops == [] then (f, regions) else
    var next := Next(f, ops[0], capacity);
    if next.None? then (f, regions)
    else Play(next.value, regions + Granted(f, ops[0]), ops[1..], capacity)
  }

  predicate AlignedBumps(ops: seq<Op>) {
    forall i :: 0 <= i < |ops| && ops[i].Bump? ==> ops[i].bump % 32 == 0
  }

  /** The pointer never goes down, earlier regions stay, and whole-word bumps keep it aligned. */
  lemma {:induction false} PlayGrows(f: nat, regions: seq<Region>, ops: seq<Op>, capacity: nat)
    ensures f <= Play(f, regions, ops, capacity).0
    ensures regions <= Play(f, regions, ops, capacity).1
    ensures f % 32 == 0 && AlignedBumps(ops) ==> Play(f, regions, ops, capacity).0 % 32 == 0
    decreases |ops|
  {
    if ops != [] {
      var next := Next(f, ops[0], capacity);
      if next.Some? {
        PlayGrows(next.value, regions + Granted(f, ops[0]), ops[1..], capacity);
        if f % 32 == 0 && AlignedBumps(ops) {
          NextAligned(f, ops[0], capacity);
          assert AlignedBumps(ops[1..]);
        }
      }
    }
  }

  lemma NextAligned(f: nat, op: Op, capacity: nat)
    requires f % 32 == 0 && (op.Bump? ==> op.bump % 32 == 0) && Next(f, op, capacity).Some?
    ensures Next(f, op, capacity).value % 32 == 0
  {
    match op
    case Bump(size) => SumAligned(f, size);
    case Alloc(size) => SumAligned(f, Words(size));
    case AllocBytes(length) => SumAligned(f + 32, Words(length));
  }
}
