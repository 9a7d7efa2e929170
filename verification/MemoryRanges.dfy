/** Run-time ranges of memory: word loops over the scratch slots. */
module MemoryRanges {
  import opened Bytes
  import opened FlatMemory
  import opened ScratchMemory

  /** When `readMemRangeDyn` succeeds: whole words must fit in memory, and the accumulated
  value must fit on the AVM stack. */
  predicate Readable(off: nat, len: nat, cap: nat) {
    len == 0 || (off + Words(len) <= cap && Words(len) <= MAX_BYTES)
  }

  /** When `writeMemRangeDyn` succeeds: it reads the word that holds the end of the range, or
  the word after it when the range ends on a word boundary, and keeps those bytes. */
  predicate Writable(dst: nat, len: nat, cap: nat) {
    && dst + (len - len % 32) + 32 <= cap
    && (len - len % 32) + 32 <= MAX_BYTES
  }

  /** `readMemRangeDyn`: a word loop into an accumulator, trimmed to the length. */
  method ReadRange(m: Scratch, off: nat, len: nat, aligned: bool) returns (r: Option<bytes>)
    requires m.Valid() && (aligned ==> off % 32 == 0)
    ensures r.Some? <==> Readable(off, len, m.Capacity())
    ensures r.Some? && len == 0 ==> r.value == []
    ensures r.Some? && len > 0 ==> off + len <= m.Capacity() && r.value == m.Memory()[off..off + len]
  {
    var acc: bytes, i := [], 0;
    while i < len
      invariant i % 32 == 0 && i <= Words(len)
      invariant i > 0 ==> off + i <= m.Capacity() && i <= MAX_BYTES
      invariant |acc| == i
      invariant i > 0 ==> acc == m.Memory()[off..off + i]
    {
      WordsAbove(i, len);
      if aligned {
        SumAligned(off, i);
      }
      SumAligned(i, 32);
      var word := m.ReadWord(off + i, if aligned then Some(0) else None);
      if word.None? { return None; }
      var next := Concat(acc, word.value, MAX_BYTES);
      if next.None? { return None; }
      ExtendRead(m.Memory(), off, i, acc);
      acc := next.value;
      i := i + 32;
    }
    WordsReached(i, len);
    r := Extract3(acc, 0, len);
    if i > 0 {
      TrimRead(m.Memory(), off, i, len);
    }
  }

  lemma ExtendRead(mem: bytes, off: nat, i: nat, acc: bytes)
    requires off + i + 32 <= |mem| && |acc| == i && (i > 0 ==> acc == mem[off..off + i])
    ensures acc + mem[off + i..off + i + 32] == mem[off..off + i + 32]
  {
  }

  lemma TrimRead(mem: bytes, off: nat, i: nat, len: nat)
    requires len <= i && off + i <= |mem|
    ensures mem[off..off + i][0..len] == mem[off..off + len]
  {
  }

  lemma WordsAbove(i: nat, len: nat)
    requires i % 32 == 0 && i < len
    ensures i + 32 <= Words(len)
  {
  }

  lemma WordsReached(i: nat, len: nat)
    requires i % 32 == 0 && len <= i <= Words(len)
    ensures i == Words(len)
  {
  }

  /** `writeMemRangeDyn`: the value, completed with the destination's own bytes to whole
  words, stored word by word. Exactly the bytes of the value change. */
  method WriteRange(m: Scratch, dst: nat, src: bytes) returns (ok: bool)
    requires m.Valid()
    modifies m.slots
    ensures m.Valid() && m.Others() == old(m.Others())
    ensures ok <==> Writable(dst, |src|, m.Capacity())
    ensures ok ==> dst + |src| <= m.Capacity() && m.Memory() == Over(old(m.Memory()), dst, src)
    ensures !ok ==> m.Memory() == old(m.Memory())
  {
    var rem := |src| % 32;
    var last := dst + (|src| - rem);
    var keepWord := m.ReadWord(last, None);
    if keepWord.None? { return false; }
    var keep := keepWord.value[rem..];
    if |src| + |keep| > MAX_BYTES { return false; }
    var val := src + keep;
    KeepsRest(m.Memory(), dst, src, last, rem);
    StoreWords(m, dst, val);
    ok := true;
  }

  /** The kept bytes are what the destination holds, so writing them back is no change. */
  lemma KeepsRest(mem: bytes, dst: nat, src: bytes, last: nat, rem: nat)
    requires rem == |src| % 32 && last == dst + (|src| - rem) && last + 32 <= |mem|
    ensures var val := src + mem[last..last + 32][rem..];
            && |val| % 32 == 0 && dst + |val| == last + 32
            && Over(mem, dst, val) == Over(mem, dst, src)
  {
    var keep := mem[last..last + 32][rem..];
    var at := dst + |src|;
    assert keep == mem[at..last + 32];
    OverAdjacent(mem, dst, src, keep);
    ReadBeside(mem, dst, src, at, last + 32);
    OverSame(Over(mem, dst, src), at, |keep|);
  }

  method StoreWords(m: Scratch, dst: nat, val: bytes)
    requires m.Valid() && |val| % 32 == 0 && dst + |val| <= m.Capacity()
    modifies m.slots
    ensures m.Valid() && m.Others() == old(m.Others())
    ensures m.Memory() == Over(old(m.Memory()), dst, val)
  {
    var j := 0;
    assert Over(m.Memory(), dst, val[..0]) == m.Memory();
    while j < |val|
      invariant j % 32 == 0 && j <= |val|
      invariant m.Valid() && m.Others() == old(m.Others())
      invariant m.Memory() == Over(old(m.Memory()), dst, val[..j])
    {
      RoomForWord(j, |val|);
      SumAligned(j, 32);
      ExtendWrite(old(m.Memory()), dst, val, j);
      var done := m.WriteWord(dst + j, val[j..j + 32], false);
      j := j + 32;
    }
    assert val[..j] == val;
  }

  lemma RoomForWord(j: nat, n: nat)
    requires j % 32 == 0 && n % 32 == 0 && j < n
    ensures j + 32 <= n
  {
  }

  lemma ExtendWrite(mem: bytes, off: nat, whole: bytes, i: nat)
    requires i + 32 <= |whole| && off + i + 32 <= |mem|
    ensures Over(Over(mem, off, whole[..i]), off + i, whole[i..i + 32]) == Over(mem, off, whole[..i + 32])
    ensures i == 0 ==> Over(mem, off, whole[..i]) == mem
  {
    OverAdjacent(mem, off, whole[..i], whole[i..i + 32]);
    assert whole[..i] + whole[i..i + 32] == whole[..i + 32];
  }

  /** Memory after a copy that succeeds. */
  function Moved(mem: bytes, dst: nat, src: nat, len: nat): (r: Option<bytes>)
    ensures r.Some? ==> |r.value| == |mem|
  {
    if !Readable(src, len, |mem|) || !Writable(dst, len, |mem|) then None
    else if len == 0 then Some(mem)
    else Some(Over(mem, dst, mem[src..src + len]))
  }

  /** MEMMOVE. A copy reads the whole source before it writes: whatever the overlap, the
  destination receives the source's old bytes and nothing else changes. */
  method Copy(m: Scratch, dst: nat, src: nat, len: nat) returns (ok: bool)
    requires m.Valid()
    modifies m.slots
    ensures m.Valid() && m.Others() == old(m.Others())
    ensures ok <==> Readable(src, len, m.Capacity()) && Writable(dst, len, m.Capacity())
    ensures ok && len > 0 ==>
              && src + len <= m.Capacity() && dst + len <= m.Capacity()
              && m.Memory() == Over(old(m.Memory()), dst, old(m.Memory())[src..src + len])
    ensures !ok || len == 0 ==> m.Memory() == old(m.Memory())
    ensures Moved(old(m.Memory()), dst, src, len) == if ok then Some(m.Memory()) else None
  {
    var v := ReadRange(m, src, len, false);
    if v.None? { return false; }
    if len == 0 {
      assert dst <= m.Capacity() ==> Over(m.Memory(), dst, []) == m.Memory();
    }
    ok := WriteRange(m, dst, v.value);
  }

  // ---- whole runs -----------------------------------------------------------------

  datatype Op =
    | LoadWord(off: nat)
    | LoadWordConst(off: nat)
    | LoadRange(off: nat, len: nat)
    | StoreWord(off: nat, word: bytes)
    | StoreWordConst(off: nat, word: bytes)
    | StoreByte(off: nat, b: byte)
    | StoreLowByte(off: nat, word: bytes)
    | StoreRange(off: nat, v: bytes)
    | Move(off: nat, src: nat, len: nat)

  /** Memory after an access, and what the access read: nothing or one value. */
  datatype Seen = Seen(mem: bytes, out: seq<bytes>)

  predicate WellFormed(op: Op, cap: nat) {
    match op
    case LoadWordConst(off) => off + 32 <= cap
    case StoreWord(_, w) => |w| == 32
    case StoreWordConst(off, w) => |w| == 32 && off + 32 <= cap
    case StoreLowByte(_, w) => |w| == 32
    case _ => true
  }

  /** What an access means on one flat byte string. */
  function FlatStep(mem: bytes, op: Op): Option<Seen>
    requires WellFormed(op, |mem|)
  {
    match op
    case LoadWord(off) => if off + 32 <= |mem| then Some(Seen(mem, [mem[off..off + 32]])) else None
    case LoadWordConst(off) => Some(Seen(mem, [mem[off..off + 32]]))
    case LoadRange(off, len) =>
      if !Readable(off, len, |mem|) then None
      else Some(Seen(mem, [if len == 0 then [] else mem[off..off + len]]))
    case StoreWord(off, w) => if off + 32 <= |mem| then Some(Seen(Over(mem, off, w), [])) else None
    case StoreWordConst(off, w) => Some(Seen(Over(mem, off, w), []))
    case StoreByte(off, b) => if off < |mem| then Some(Seen(Over(mem, off, [b]), [])) else None
    case StoreLowByte(off, w) =>
      if off + 32 <= |mem| then Some(Seen(Over(mem, off, [w[31]]), [])) else None
    case StoreRange(off, v) =>
      if Writable(off, |v|, |mem|) then Some(Seen(Over(mem, off, v), [])) else None
    case Move(off, src, len) =>
      var moved :- Moved(mem, off, src, len);
      Some(Seen(moved, []))
  }

  function FlatRun(mem: bytes, ops: seq<Op>): Option<Seen>
    requires forall i :: 0 <= i < |ops| ==> WellFormed(ops[i], |mem|)
    decreases |ops|
  {
    if |ops| == 0 then Some(Seen(mem, [])) else
    var next :- FlatStep(mem, ops[0]);
    assert |next.mem| == |mem|;
    var rest :- FlatRun(next.mem, ops[1..]);
    Some(Seen(rest.mem, next.out + rest.out))
  }

  function Values(r: Option<bytes>): seq<bytes> {
    if r.Some? then [r.value] else []
  }

  predicate IsLoad(op: Op) {
    op.LoadWord? || op.LoadWordConst? || op.LoadRange?
  }

  /** Constant offsets inside memory are not narrowed. */
  method LoadConst(m: Scratch, off: nat) returns (r: Option<bytes>)
    requires m.Valid() && off + 32 <= m.Capacity()
    ensures r == Some(m.Memory()[off..off + 32])
  {
    AliasExactly(off);
    r := m.ReadWordConst(off);
  }

  method StoreConst(m: Scratch, off: nat, w: bytes)
    requires m.Valid() && off + 32 <= m.Capacity() && |w| == 32
    modifies m.slots
    ensures m.Valid() && m.Others() == old(m.Others()) && m.Memory() == Over(old(m.Memory()), off, w)
  {
    AliasExactly(off);
    var ok := m.WriteWordConst(off, w);
  }

  method Load(m: Scratch, op: Op) returns (ok: bool, out: seq<bytes>)
    requires m.Valid() && WellFormed(op, m.Capacity()) && IsLoad(op)
    ensures ok <==> FlatStep(m.Memory(), op).Some?
    ensures ok ==> FlatStep(m.Memory(), op).value == Seen(m.Memory(), out)
  {
    var r: Option<bytes>;
    match op {
      case LoadWord(off) => r := m.ReadWord(off, None);
      case LoadWordConst(off) => r := LoadConst(m, off);
      case LoadRange(off, len) => r := ReadRange(m, off, len, false);
    }
    ok, out := r.Some?, Values(r);
  }

  method StoreSmall(m: Scratch, op: Op) returns (ok: bool)
    requires m.Valid() && WellFormed(op, m.Capacity()) && !IsLoad(op) && !op.StoreRange? && !op.Move?
    modifies m.slots
    ensures m.Valid() && m.Others() == old(m.Others())
    ensures ok <==> FlatStep(old(m.Memory()), op).Some?
    ensures ok ==> FlatStep(old(m.Memory()), op).value == Seen(m.Memory(), [])
  {
    match op
    case StoreWord(off, w) => ok := m.WriteWord(off, w, false);
    case StoreWordConst(off, w) =>
      StoreConst(m, off, w);
      ok := true;
    case StoreByte(off, b) => ok := m.WriteByte(off, b);
    case StoreLowByte(off, w) => ok := m.Mstore8(off, w);
  }

  method StoreBytes(m: Scratch, op: Op) returns (ok: bool)
    requires m.Valid() && op.StoreRange?
    modifies m.slots
    ensures m.Valid() && m.Others() == old(m.Others())
    ensures ok <==> FlatStep(old(m.Memory()), op).Some?
    ensures ok ==> FlatStep(old(m.Memory()), op).value == Seen(m.Memory(), [])
  {
    ok := WriteRange(m, op.off, op.v);
  }

  method MoveBytes(m: Scratch, op: Op) returns (ok: bool)
    requires m.Valid() && op.Move?
    modifies m.slots
    ensures m.Valid() && m.Others() == old(m.Others())
    ensures ok <==> FlatStep(old(m.Memory()), op).Some?
    ensures ok ==> FlatStep(old(m.Memory()), op).value == Seen(m.Memory(), [])
  {
    ok := Copy(m, op.off, op.src, op.len);
  }

  method Step(m: Scratch, op: Op) returns (ok: bool, out: seq<bytes>)
    requires m.Valid() && WellFormed(op, m.Capacity())
    modifies m.slots
    ensures m.Valid() && m.Others() == old(m.Others())
    ensures ok <==> FlatStep(old(m.Memory()), op).Some?
    ensures ok ==> FlatStep(old(m.Memory()), op).value == Seen(m.Memory(), out)
  {
    if IsLoad(op) {
      ok, out := Load(m, op);
    } else {
      out := [];
      if op.StoreRange? {
        ok := StoreBytes(m, op);
      } else if op.Move? {
        ok := MoveBytes(m, op);
      } else {
        ok := StoreSmall(m, op);
      }
    }
  }

  /** REFINEMENT OVER RUNS. For every sequence of accesses, at any alignment, the reads return
  the flat slices, the pages hold the flat memory cut at multiples of 4096, and no other
  scratch slot ever changes. */
  method Run(m: Scratch, ops: seq<Op>) returns (ok: bool, outs: seq<bytes>)
    requires m.Valid() && forall i :: 0 <= i < |ops| ==> WellFormed(ops[i], m.Capacity())
    modifies m.slots
    ensures m.Valid() && m.Others() == old(m.Others())
    ensures ok <==> FlatRun(old(m.Memory()), ops).Some?
    ensures ok ==> FlatRun(old(m.Memory()), ops).value == Seen(m.Memory(), outs)
  {
    ok, outs := true, [];
    var i := 0;
    assert ops[0..] == ops;
    AfterNothing(FlatRun(m.Memory(), ops));
    while ok && i < |ops|
      invariant i <= |ops| && m.Valid() && m.Others() == old(m.Others())
      invariant ok ==> FlatRun(old(m.Memory()), ops) == After(outs, FlatRun(m.Memory(), ops[i..]))
      invariant !ok ==> FlatRun(old(m.Memory()), ops).None?
    {
      FlatRunStep(m.Memory(), ops[i..]);
      assert ops[i..][1..] == ops[i + 1..];
      var out;
      ok, out := Step(m, ops[i]);
      if ok {
        AfterBoth(outs, out, FlatRun(m.Memory(), ops[i + 1..]));
      }
      outs := outs + out;
      i := i + 1;
    }
  }

  /** A run's outcome when `outs` were read before it. */
  function After(outs: seq<bytes>, run: Option<Seen>): Option<Seen> {
    var seen :- run;
    Some(Seen(seen.mem, outs + seen.out))
  }

  lemma AfterNothing(run: Option<Seen>)
    ensures After([], run) == run
  {
    if run.Some? {
      assert [] + run.value.out == run.value.out;
    }
  }

  lemma AfterBoth(xs: seq<bytes>, ys: seq<bytes>, run: Option<Seen>)
    ensures After(xs, After(ys, run)) == After(xs + ys, run)
  {
    if run.Some? {
      assert xs + (ys + run.value.out) == xs + ys + run.value.out;
    }
  }

  lemma FlatRunStep(mem: bytes, ops: seq<Op>)
    requires |ops| > 0 && forall i :: 0 <= i < |ops| ==> WellFormed(ops[i], |mem|)
    ensures var next := FlatStep(mem, ops[0]);
            && (next.None? ==> FlatRun(mem, ops) == None)
            && (next.Some? ==>
                  && |next.value.mem| == |mem|
                  && FlatRun(mem, ops) == After(next.value.out, FlatRun(next.value.mem, ops[1..])))
  {
  }
}
