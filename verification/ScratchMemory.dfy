/** EVM memory held in AVM scratch slots.

Memory pages are slots 0 to n-1; the transient blob is slot n and the flash-accounting slots
are n+1 to n+10. Every access below loads, slices and stores slots exactly as the emitted
code does; its contract speaks of `Memory()`, the flat byte string. A method returns `ok`
(or `None`) where the emitted program passes (or fails) an assertion or operation. */
module ScratchMemory {
  import opened Bytes
  import opened FlatMemory

  const SCRATCH_SLOTS: nat := 256
  const MAX_MEMORY_SLOTS: nat := 88
  const FLASH_SLOTS: nat := 10
  const SPLITTER_SLOTS: nat := 100         // first slot of the function splitter

  /** The slot number that an access at a constant offset computes. */
  function SlotNumber(off: nat): int {
    Int32(off / SLOT)
  }

  /** The address that an access at a constant offset really has. */
  function Alias(off: nat): int {
    SlotNumber(off) * SLOT + off % SLOT
  }

  lemma AliasSlot(off: nat, n: nat)
    ensures Alias(off) < 0 <==> SlotNumber(off) < 0
    ensures Alias(off) >= n * SLOT <==> SlotNumber(off) >= n
  {
    SlotBounds(SlotNumber(off), off % SLOT, n);
  }

  lemma SlotBounds(p: int, sub: nat, n: nat)
    requires sub < SLOT
    ensures p * SLOT + sub < 0 <==> p < 0
    ensures p * SLOT + sub >= n * SLOT <==> p >= n
  {
  }

  /** Narrowing the slot number is harmless exactly below 2^43. */
  lemma AliasExactly(off: nat)
    ensures Alias(off) == off <==> off < 0x800_0000_0000
  {
    SlotOf(off);
    var p := off / SLOT;
    if off < 0x800_0000_0000 {
      assert p < 0x8000_0000;
    } else {
      assert p >= 0x8000_0000;
      assert Int32(p) < p;
    }
  }

  /** The failing input: offset 2^44 is offset 0. */
  lemma FarAlias()
    ensures Alias(0x1000_0000_0000) == 0
  {
  }

  class Scratch {
    const n: nat                 // number of memory pages
    const slots: array<bytes>

    ghost predicate Valid()
      reads slots
    {
      && 1 <= n <= MAX_MEMORY_SLOTS
      && slots.Length == SCRATCH_SLOTS
      && Pages(slots[..n])
    }

    ghost function Memory(): (mem: bytes)
      requires Valid()
      reads slots
      ensures |mem| == Capacity()
    {
      Flat(slots[..n])
    }

    /** Every slot that is not a memory page: transient, flash and the rest. */
    ghost function Others(): seq<bytes>
      requires Valid()
      reads slots
    {
      slots[n..]
    }

    function Capacity(): nat { n * SLOT }

    function TransientSlot(): nat { n }

    function FlashFirst(): nat { n + 1 }

    function FlashLast(): nat { n + FLASH_SLOTS }

    constructor (pages: nat)
      requires 1 <= pages <= MAX_MEMORY_SLOTS
      ensures Valid() && n == pages && fresh(slots)
      ensures Memory() == Zeros(pages * SLOT)
    {
      n := pages;
      slots := new bytes[SCRATCH_SLOTS](_ => Zeros(SLOT));
    }

    /** Replace bytes inside one slot: `stores(p, replace3(loads(p), sub, v))`. */
    method StoreAt(off: nat, v: bytes)
      requires Valid() && off < Capacity() && off % SLOT + |v| <= SLOT
      modifies slots
      ensures Valid() && off + |v| <= Capacity()
      ensures Memory() == Over(old(Memory()), off, v)
      ensures Others() == old(Others())
    {
      var p, sub := off / SLOT, off % SLOT;
      SlotOf(off);
      FlatUpdate(slots[..n], p, sub, v);
      ghost var pages := slots[..n];
      slots[p] := slots[p][..sub] + v + slots[p][sub + |v|..];
      assert slots[..n] == pages[p := Over(pages[p], sub, v)];
    }

    // ---- reads ---------------------------------------------------------------------

    /** The slots that the layout reserves: pages, transient blob and flash slots, without a
    gap, and all below the function splitter's. */
    method ReservedSlots() returns (reserved: seq<nat>)
      requires Valid()
      ensures |reserved| == n + 1 + FLASH_SLOTS < SPLITTER_SLOTS
      ensures forall i :: 0 <= i < |reserved| ==> reserved[i] == i
    {
      reserved := [];
      for slot := 0 to n
        invariant |reserved| == slot && forall i :: 0 <= i < slot ==> reserved[i] == i
      {
        reserved := reserved + [slot];
      }
      reserved := reserved + [TransientSlot()];
      for slot := FlashFirst() to FlashLast() + 1
        invariant |reserved| == slot && forall i :: 0 <= i < slot ==> reserved[i] == i
      {
        reserved := reserved + [slot];
      }
    }

    /** `readMemStackRange`. The second slot is consulted only when the range crosses into
    it; when the residue of the offset proves that it cannot, that arm is not emitted. Nothing
    is checked but what `loads` and `extract3` check: inside memory the result is the flat range
    unless that spans three pages, and beyond memory it is what the slot there holds. */
    method ReadStackRange(off: nat, len: nat, residue: Option<nat>) returns (r: Option<bytes>)
      requires Valid() && (residue.Some? ==> off % 32 == residue.value)
      ensures off < Capacity() && off + len <= Capacity() ==>
                && (r.Some? <==> off % SLOT + len <= 2 * SLOT)
                && (r.Some? ==> r.value == Memory()[off..off + len])
      ensures off / SLOT >= SCRATCH_SLOTS ==> r.None?
      ensures off / SLOT < SCRATCH_SLOTS && off % SLOT + len <= SLOT ==>
                r == Extract3(slots[off / SLOT], off % SLOT, len)
    {
      var p, sub := off / SLOT, off % SLOT;
      SlotOf(off);
      if p >= SCRATCH_SLOTS { return None; }
      if off < Capacity() && off + len <= Capacity() {
        TwoPages(off, len, n);
        InsideMemory(off, len);
      }
      if residue.Some? && len + residue.value <= 32 {
        ResidueFits(off, len, residue.value);
        return Extract3(slots[p], sub, len);
      }
      var avail := SLOT - sub;
      if len <= avail {
        r := Extract3(slots[p], sub, len);
      } else {
        if p + 1 >= SCRATCH_SLOTS { return None; }
        var first, rest := Extract3(slots[p], sub, avail), Extract3(slots[p + 1], 0, len - avail);
        r := if first.None? || rest.None? then None else Some(first.value + rest.value);
      }
    }

    /** What the two arms of a read inside memory give. */
    lemma InsideMemory(off: nat, len: nat)
      requires Valid() && off < Capacity() && off + len <= Capacity()
      ensures var p, sub := off / SLOT, off % SLOT;
              && p < n && |slots[p]| == SLOT
              && (sub + len <= SLOT ==> Memory()[off..off + len] == slots[p][sub..sub + len])
              && (SLOT < sub + len <= 2 * SLOT ==>
                    && p + 1 < n && |slots[p + 1]| == SLOT
                    && Memory()[off..off + len] == slots[p][sub..SLOT] + slots[p + 1][0..len - (SLOT - sub)])
              && (sub + len > 2 * SLOT ==> p + 1 < n && |slots[p + 1]| == SLOT)
    {
      var p, sub := off / SLOT, off % SLOT;
      SlotOf(off);
      TwoPages(off, len, n);
      assert slots[p] == slots[..n][p];
      if sub + len <= SLOT {
        FlatSlice(slots[..n], p, sub, len);
      } else {
        assert slots[p + 1] == slots[..n][p + 1];
        if sub + len <= 2 * SLOT {
          FlatStraddle(slots[..n], p, sub, len);
        }
      }
    }

    /** The bytes hashed for a run-time length: one slot, whatever the range. Inside memory that is
    the flat range if and only if it stays in its page. */
    method ReadInSlot(off: nat, len: nat) returns (r: Option<bytes>)
      requires Valid()
      ensures off < Capacity() && off + len <= Capacity() ==>
                && (r.Some? <==> off % SLOT + len <= SLOT)
                && (r.Some? ==> r.value == Memory()[off..off + len])
      ensures off / SLOT >= SCRATCH_SLOTS ==> r.None?
    {
      if off / SLOT >= SCRATCH_SLOTS { return None; }
      if off < Capacity() && off + len <= Capacity() {
        InsideMemory(off, len);
      }
      r := Extract3(slots[off / SLOT], off % SLOT, len);
    }

    /** `readMemWordDyn`: one word, after the bounds assertion. */
    method ReadWord(off: nat, residue: Option<nat>) returns (r: Option<bytes>)
      requires Valid() && (residue.Some? ==> off % 32 == residue.value)
      ensures r.Some? <==> off + 32 <= Capacity()
      ensures r.Some? ==> r.value == Memory()[off..off + 32]
    {
      if off + 32 > Capacity() { return None; }
      r := ReadStackRange(off, 32, residue);
    }

    /** `readMemWordConst`: only the first slot's number is checked, after it was narrowed to 32
    bits. Of the address that remains, a word inside memory is the flat word, and a word that
    starts in the last page and does not fit there takes its tail from the transient slot. */
    method ReadWordConst(off: nat) returns (r: Option<bytes>)
      requires Valid()
      ensures Alias(off) < 0 || Alias(off) >= Capacity() ==> r == None
      ensures 0 <= Alias(off) && Alias(off) + 32 <= Capacity() ==>
                r == Some(Memory()[Alias(off)..Alias(off) + 32])
      ensures 0 <= Alias(off) < Capacity() < Alias(off) + 32 ==>
                r == if Alias(off) + 32 - Capacity() <= |slots[n]|
                     then Some(Memory()[Alias(off)..] + slots[n][..Alias(off) + 32 - Capacity()])
                     else None
    {
      var slot, sub := SlotNumber(off), off % SLOT;
      if slot < 0 || slot >= n { return None; }
      PageOf(slot, sub);
      if sub + 32 <= SLOT {
        FlatSlice(slots[..n], slot, sub, 32);
        return Some(slots[slot][sub..sub + 32]);
      }
      var firstLen := SLOT - sub;
      if slot + 1 < n {
        FlatStraddle(slots[..n], slot, sub, 32);
      } else {
        FlatSlice(slots[..n], slot, sub, firstLen);
        assert Alias(off) + firstLen == Capacity() && slot + 1 == n;
        assert Memory()[Alias(off)..] == slots[slot][sub..sub + firstLen];
      }
      var tail := Extract3(slots[slot + 1], 0, 32 - firstLen);
      r := if tail.None? then None else Some(slots[slot][sub..sub + firstLen] + tail.value);
    }

    // ---- writes --------------------------------------------------------------------

    /** `writeMemWordDirect`: one word, in one slot or split across two. The split arm is not
    emitted for an offset known to be 32-aligned. */
    method WriteWord(off: nat, v: bytes, aligned: bool) returns (ok: bool)
      requires Valid() && |v| == 32 && (aligned ==> off % 32 == 0)
      modifies slots
      ensures Valid() && Others() == old(Others())
      ensures ok <==> off + 32 <= Capacity()
      ensures Memory() == if ok then Over(old(Memory()), off, v) else old(Memory())
    {
      ok := off + 32 <= Capacity();
      if !ok { return; }
      if aligned {
        ResidueFits(off, 32, 0);
        StoreAt(off, v);
      } else if off % SLOT <= SLOT - 32 {
        StoreAt(off, v);
      } else {
        SplitStore(off, v);
      }
    }

    method SplitStore(off: nat, v: bytes)
      requires Valid() && |v| == 32 && off + 32 <= Capacity() && off % SLOT > SLOT - 32
      modifies slots
      ensures Valid() && Others() == old(Others())
      ensures Memory() == Over(old(Memory()), off, v)
    {
      var firstLen := SLOT - off % SLOT;
      NextPage(off);
      StoreAt(off, v[..firstLen]);
      StoreAt(off + firstLen, v[firstLen..]);
      OverSplit(old(Memory()), off, v, firstLen);
    }

    /** `writeMemWordConst`: as with reads, only the first slot's number is checked, after it was
    narrowed. Of the address that remains, it is the flat write if and only if the word ends
    inside memory; otherwise the end of the word lands in the transient slot, or fails there
    with the first part written. */
    method WriteWordConst(off: nat, v: bytes) returns (ok: bool)
      requires Valid() && |v| == 32
      modifies slots
      ensures Valid()
      ensures Alias(off) < 0 || Alias(off) >= Capacity() ==>
                && !ok && Memory() == old(Memory()) && Others() == old(Others())
      ensures 0 <= Alias(off) && Alias(off) + 32 <= Capacity() ==>
                && ok && Memory() == Over(old(Memory()), Alias(off), v) && Others() == old(Others())
      ensures 0 <= Alias(off) < Capacity() < Alias(off) + 32 ==>
                && (ok <==> Alias(off) + 32 - Capacity() <= |old(slots[n])|)
                && Memory() == Over(old(Memory()), Alias(off), v[..Capacity() - Alias(off)])
                && slots[n] == (if ok then Over(old(slots[n]), 0, v[Capacity() - Alias(off)..])
                                else old(slots[n]))
                && slots[n + 1..] == old(slots[n + 1..])
    {
      AliasSlot(off, n);
      ok := 0 <= SlotNumber(off) < n;
      if ok {
        ok := WriteUnchecked(SlotNumber(off) * SLOT + off % SLOT, v);
      }
    }

    /** The store at an address whose slot number has passed the check. */
    method WriteUnchecked(at: nat, v: bytes) returns (ok: bool)
      requires Valid() && |v| == 32 && at < Capacity()
      modifies slots
      ensures Valid()
      ensures at + 32 <= Capacity() ==>
                ok && Memory() == Over(old(Memory()), at, v) && Others() == old(Others())
      ensures at + 32 > Capacity() ==>
                && (ok <==> at + 32 - Capacity() <= |old(slots[n])|)
                && Memory() == Over(old(Memory()), at, v[..Capacity() - at])
                && slots[n] == (if ok then Over(old(slots[n]), 0, v[Capacity() - at..]) else old(slots[n]))
                && slots[n + 1..] == old(slots[n + 1..])
    {
      ok := true;
      SlotOf(at);
      if at % SLOT + 32 <= SLOT {
        StoreAt(at, v);
      } else if at / SLOT + 1 < n {
        SplitStore(at, v);
      } else {
        ok := SpillStore(at, v);
      }
    }

    /** The split store when the first slot is the last page. */
    method SpillStore(off: nat, v: bytes) returns (ok: bool)
      requires Valid() && |v| == 32 && off < Capacity() < off + 32
      modifies slots
      ensures Valid()
      ensures ok <==> off + 32 - Capacity() <= |old(slots[n])|
      ensures Memory() == Over(old(Memory()), off, v[..Capacity() - off])
      ensures slots[n] == if ok then Over(old(slots[n]), 0, v[Capacity() - off..]) else old(slots[n])
      ensures slots[n + 1..] == old(slots[n + 1..])
    {
      var firstLen := SLOT - off % SLOT;
      assert firstLen == Capacity() - off;
      StoreAt(off, v[..firstLen]);
      assert Others()[0] == slots[n] && Others()[1..] == slots[n + 1..];
      var rest := Replace3(slots[n], 0, v[firstLen..]);
      ok := rest.Some?;
      if ok {
        ghost var pages := slots[..n];
        slots[n] := rest.value;
        assert slots[..n] == pages;
      }
    }

    /** `writeMemByteDirect`. */
    method WriteByte(off: nat, b: byte) returns (ok: bool)
      requires Valid()
      modifies slots
      ensures Valid() && Others() == old(Others())
      ensures ok <==> off < Capacity()
      ensures Memory() == if ok then Over(old(Memory()), off, [b]) else old(Memory())
    {
      ok := off < Capacity();
      if !ok { return; }
      StoreAt(off, [b]);
    }

    /** `handleMstore8`: the low byte of a word. Its bounds assertion is the one for words, so
    it fails in the last 31 bytes of memory, where the byte itself would fit. */
    method Mstore8(off: nat, v: bytes) returns (ok: bool)
      requires Valid() && |v| == 32
      modifies slots
      ensures Valid() && Others() == old(Others())
      ensures ok <==> off + 32 <= Capacity()
      ensures Memory() == if ok then Over(old(Memory()), off, [v[31]]) else old(Memory())
    {
      ok := off + 32 <= Capacity();
      if ok {
        ok := WriteByte(off, v[31]);
      }
    }
  }

  /** A range of len bytes at residue r stays in its page when len + r <= 32. */
  lemma ResidueFits(off: nat, len: nat, r: nat)
    requires off % 32 == r && len + r <= 32
    ensures off % SLOT + len <= SLOT
  {
    assert off % SLOT % 32 == r;
  }

  lemma NextPage(off: nat)
    ensures (off + (SLOT - off % SLOT)) % SLOT == 0
  {
  }
}
