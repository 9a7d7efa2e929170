/** EVM memory as one byte string, and the same bytes cut into 4096-byte pages. */
module FlatMemory {
  import opened Bytes

  const SLOT: nat := 4096

  /** `b` with `v` written over the bytes from `at` on. */
  function Over(b: bytes, at: nat, v: bytes): (r: bytes)
    requires at + |v| <= |b|
    ensures |r| == |b|
  {
    b[..at] + v + b[at + |v|..]
  }

  lemma OverAt(b: bytes, at: nat, v: bytes, k: nat)
    requires at + |v| <= |b| && k < |b|
    ensures Over(b, at, v)[k] == if at <= k < at + |v| then v[k - at] else b[k]
  {
  }

  /** Adjacent writes are one write. */
  lemma OverAdjacent(b: bytes, at: nat, v: bytes, w: bytes)
    requires at + |v| + |w| <= |b|
    ensures Over(Over(b, at, v), at + |v|, w) == Over(b, at, v + w)
  {
    var left, right := Over(Over(b, at, v), at + |v|, w), Over(b, at, v + w);
    forall k | 0 <= k < |b|
      ensures left[k] == right[k]
    {
      OverAt(b, at, v, k);
      OverAt(Over(b, at, v), at + |v|, w, k);
      OverAt(b, at, v + w, k);
    }
  }

  lemma OverSplit(b: bytes, at: nat, v: bytes, k: nat)
    requires at + |v| <= |b| && k <= |v|
    ensures Over(Over(b, at, v[..k]), at + k, v[k..]) == Over(b, at, v)
  {
    OverAdjacent(b, at, v[..k], v[k..]);
    assert v[..k] + v[k..] == v;
  }

  /** Writing back what is there changes nothing. */
  lemma OverSame(b: bytes, at: nat, len: nat)
    requires at + len <= |b|
    ensures Over(b, at, b[at..at + len]) == b
  {
  }

  lemma ReadOver(b: bytes, at: nat, v: bytes)
    requires at + |v| <= |b|
    ensures Over(b, at, v)[at..at + |v|] == v
  {
  }

  lemma ReadBeside(b: bytes, at: nat, v: bytes, from: nat, to: nat)
    requires at + |v| <= |b| && from <= to <= |b| && (to <= at || at + |v| <= from)
    ensures Over(b, at, v)[from..to] == b[from..to]
  {
    forall k | from <= k < to
      ensures Over(b, at, v)[k] == b[k]
    {
      OverAt(b, at, v, k);
    }
  }

  // ---- pages ----------------------------------------------------------------------

  predicate Pages(pages: seq<bytes>) {
    forall p :: 0 <= p < |pages| ==> |pages[p]| == SLOT
  }

  function Flat(pages: seq<bytes>): (flat: bytes)
    requires Pages(pages)
    ensures |flat| == |pages| * SLOT
  {
    seq(|pages| * SLOT, k requires 0 <= k < |pages| * SLOT => pages[k / SLOT][k % SLOT])
  }

  lemma PageOf(p: nat, sub: nat)
    requires sub < SLOT
    ensures (p * SLOT + sub) / SLOT == p && (p * SLOT + sub) % SLOT == sub
  {
  }

  /** A read inside one page. */
  lemma FlatSlice(pages: seq<bytes>, p: nat, sub: nat, len: nat)
    requires Pages(pages) && p < |pages| && sub + len <= SLOT
    ensures p * SLOT + sub + len <= |pages| * SLOT
    ensures Flat(pages)[p * SLOT + sub..p * SLOT + sub + len] == pages[p][sub..sub + len]
  {
    forall k | sub <= k < sub + len
      ensures Flat(pages)[p * SLOT + k] == pages[p][k]
    {
      PageOf(p, k);
    }
  }

  /** A read across a page boundary: the end of one page, then the start of the next. */
  lemma FlatStraddle(pages: seq<bytes>, p: nat, sub: nat, len: nat)
    requires Pages(pages) && p + 1 < |pages| && sub < SLOT < sub + len <= SLOT + SLOT
    ensures p * SLOT + sub + len <= |pages| * SLOT
    ensures Flat(pages)[p * SLOT + sub..p * SLOT + sub + len]
         == pages[p][sub..SLOT] + pages[p + 1][0..len - (SLOT - sub)]
  {
    FlatSlice(pages, p, sub, SLOT - sub);
    FlatSlice(pages, p + 1, 0, len - (SLOT - sub));
    var at, mid := p * SLOT + sub, (p + 1) * SLOT;
    assert Flat(pages)[at..at + len] == Flat(pages)[at..mid] + Flat(pages)[mid..at + len];
  }

  /** A write inside one page. */
  lemma FlatUpdate(pages: seq<bytes>, p: nat, sub: nat, v: bytes)
    requires Pages(pages) && p < |pages| && sub + |v| <= SLOT
    ensures p * SLOT + sub + |v| <= |pages| * SLOT
    ensures Pages(pages[p := Over(pages[p], sub, v)])
    ensures Flat(pages[p := Over(pages[p], sub, v)]) == Over(Flat(pages), p * SLOT + sub, v)
  {
    var at := p * SLOT + sub;
    var pages' := pages[p := Over(pages[p], sub, v)];
    forall k | 0 <= k < |pages| * SLOT
      ensures Flat(pages')[k] == Over(Flat(pages), at, v)[k]
    {
      OverAt(Flat(pages), at, v, k);
      OverAt(pages[p], sub, v, k % SLOT);
      InRange(k, p, sub, |v|);
    }
  }

  lemma InRange(k: nat, p: nat, sub: nat, len: nat)
    requires sub + len <= SLOT
    ensures p * SLOT + sub <= k < p * SLOT + sub + len
            <==> k / SLOT == p && sub <= k % SLOT < sub + len
  {
  }

  lemma SlotOf(off: nat)
    ensures off == (off / SLOT) * SLOT + off % SLOT && off % SLOT < SLOT
  {
  }

  /** A range that ends inside memory starts in a page, and if it leaves that page there is a
  next one. */
  lemma TwoPages(off: nat, len: nat, n: nat)
    requires off + len <= n * SLOT && off < n * SLOT
    ensures off / SLOT < n
    ensures off % SLOT + len > SLOT ==> off / SLOT + 1 < n
  {
  }
}
