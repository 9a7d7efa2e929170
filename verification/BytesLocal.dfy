/** A bytes or string local held as a value, seen as EVM memory.

In the EVM such a local is a pointer to its length word followed by its data. Here it is the
data alone. Reads and writes through the pointer go to the virtual image: the length word,
the data, then zeros. */
module BytesLocal {
  import opened Bytes

  // ---- the image ----------------------------------------------------------------------

  /** Byte i of the image of d. */
  function ImageAt(d: bytes, i: nat): byte {
    if i < 32 then BigEndian(32, |d|)[i] else if i - 32 < |d| then d[i - 32] else 0
  }

  function ImageSlice(d: bytes, off: nat, n: nat): (r: bytes)
    ensures |r| == n
  {
    seq<byte>(n, k requires 0 <= k < n => ImageAt(d, off + k))
  }

  /** Byte i of the image after v has been written at off. */
  function WrittenAt(d: bytes, off: nat, v: bytes, i: nat): byte {
    if off <= i < off + |v| then v[i - off] else ImageAt(d, i)
  }

  function WrittenSlice(d: bytes, off: nat, v: bytes, from: nat, n: nat): (r: bytes)
    ensures |r| == n
  {
    seq<byte>(n, k requires 0 <= k < n => WrittenAt(d, off, v, from + k))
  }

  /** The length word of the image after the write. */
  function LengthWord(d: bytes, off: nat, v: bytes): (r: bytes)
    ensures |r| == 32
  {
    WrittenSlice(d, off, v, 0, 32)
  }

  /** The local that the image after the write denotes: its length word must be a 64-bit
  number, and its data are the bytes that follow. */
  function Projection(d: bytes, off: nat, v: bytes): Option<bytes> {
    var w := LengthWord(d, off, v);
    if w[..24] != Zeros(24) then None
    else Some(WrittenSlice(d, off, v, 32, Number(w[24..])))
  }

  // ---- reads --------------------------------------------------------------------------

  function Min(a: nat, b: nat): nat { if a < b then a else b }

  /** The data branch: clamp to the data and pad with zeros. */
  method ReadData(d: bytes, off: nat) returns (word: bytes)
    ensures word == ImageSlice(d, off + 32, 32)
  {
    var safeOff := Min(off, |d|);
    var rem := |d| - safeOff;
    var wlen := Min(rem, 32);
    var slice := d[safeOff..safeOff + wlen];
    word := (slice + Zeros(32))[0..32];
    forall k | 0 <= k < 32
      ensures word[k] == ImageSlice(d, off + 32, 32)[k]
    {
      assert word[k] == if k < wlen then d[safeOff + k] else 0;
      assert ImageAt(d, off + 32 + k) == if off + k < |d| then d[off + k] else 0;
    }
  }

  /** `emitGuardedBytesDataRead`: a word at any offset from the pointer. The header branch
  builds the image, which must fit in an AVM value. */
  method ReadWord(d: bytes, off: nat) returns (word: Option<bytes>)
    requires |d| < TWO_64
    ensures word.Some? <==> off >= 32 || |d| + 64 <= MAX_BYTES
    ensures word.Some? ==> word.value == ImageSlice(d, off, 32)
  {
    if off >= 32 {
      var w := ReadData(d, off - 32);
      return Some(w);
    }
    var image := MakeImage(d);
    if image.None? { return None; }
    word := Extract3(image.value, off, 32);
  }

  /** be32(len) ++ d ++ 32 zeros. */
  method MakeImage(d: bytes) returns (image: Option<bytes>)
    requires |d| < TWO_64
    ensures image.Some? <==> |d| + 64 <= MAX_BYTES
    ensures image.Some? ==> image.value == ImageSlice(d, 0, |d| + 64)
  {
    var header := LeftPadTo(Itob(|d|), 32);
    WordOfUint64(|d|);
    image := Concat(header, d, MAX_BYTES);
    if image.Some? {
      image := Concat(image.value, Zeros(32), MAX_BYTES);
    }
  }

  // ---- writes -------------------------------------------------------------------------

  /** The data branch of the write: bytes past the end of the data are dropped. */
  method WriteData(d: bytes, off: nat, v: bytes) returns (r: bytes)
    requires (|v| == 32 || |v| == 1) && |d| < TWO_64
    ensures Projection(d, off + 32, v) == Some(r)
  {
    r := d;
    if off < |d| {
      var slice := if |v| == 1 then v else v[..Min(|d| - off, 32)];
      r := d[..off] + slice + d[off + |slice|..];
    }
    LengthKept(d, off + 32, v);
    assert r == WrittenSlice(d, off + 32, v, 32, |d|);
  }

  /** A write past the header leaves the length word. */
  lemma LengthKept(d: bytes, off: nat, v: bytes)
    requires off >= 32 && |d| < TWO_64
    ensures LengthWord(d, off, v)[..24] == Zeros(24) && Number(LengthWord(d, off, v)[24..]) == |d|
  {
    assert LengthWord(d, off, v) == BigEndian(32, |d|);
    LengthWordSplits(|d|);
  }

  lemma LengthWordSplits(n: nat)
    requires n < TWO_64
    ensures BigEndian(32, n)[..24] == Zeros(24) && Number(BigEndian(32, n)[24..]) == n
  {
    Pow256Of8();
    BigEndianPrefixZero(32, 8, n);
    NumberOfBigEndian(8, n);
    assert (Zeros(24) + BigEndian(8, n))[..24] == Zeros(24);
    assert (Zeros(24) + BigEndian(8, n))[24..] == BigEndian(8, n);
  }

  /** `emitGuardedBytesDataWrite`: a word or one byte at any offset from the pointer. In the
  header branch the new length comes from the image; it may cut or extend the data. */
  method Write(d: bytes, off: nat, v: bytes) returns (r: Option<bytes>)
    requires (|v| == 32 || |v| == 1) && |d| < TWO_64
    ensures r.Some? ==> r == Projection(d, off, v)
    ensures off >= 32 ==> r.Some?
    ensures off < 32 ==>
              (r.Some? <==> && |d| + 64 <= MAX_BYTES && Projection(d, off, v).Some?
                            && |Projection(d, off, v).value| <= MAX_BYTES)
  {
    if off >= 32 {
      var w := WriteData(d, off - 32, v);
      return Some(w);
    }
    var image := MakeImage(d);
    if image.None? { return None; }
    var img := image.value[..off] + v + image.value[off + |v|..];
    ImageWritten(d, off, v, image.value, img);
    if img[..24] != Zeros(24) { return None; }
    var len, avail := Number(img[24..32]), |img| - 32;
    r := Resize(d, off, v, img, len, avail);
  }

  lemma ImageWritten(d: bytes, off: nat, v: bytes, image: bytes, img: bytes)
    requires off < 32 && (|v| == 32 || |v| == 1) && |image| == |d| + 64 && image == ImageSlice(d, 0, |d| + 64)
    requires img == image[..off] + v + image[off + |v|..]
    ensures img == WrittenSlice(d, off, v, 0, |d| + 64)
    ensures img[..24] == LengthWord(d, off, v)[..24] && img[24..32] == LengthWord(d, off, v)[24..]
  {
    forall k | 0 <= k < |img|
      ensures img[k] == WrittenAt(d, off, v, k)
    {
    }
  }

  method Resize(d: bytes, off: nat, v: bytes, img: bytes, len: nat, avail: nat) returns (r: Option<bytes>)
    requires off + |v| <= |d| + 64 && img == WrittenSlice(d, off, v, 0, |d| + 64)
    requires avail == |img| - 32 && |img| <= MAX_BYTES
    ensures r.Some? <==> len <= MAX_BYTES
    ensures r.Some? ==> r.value == WrittenSlice(d, off, v, 32, len)
  {
    var data := img[32..32 + avail];
    if len <= avail {
      r := Extract3(data, 0, len);
    } else {
      r := if len - avail > MAX_BYTES then None else Concat(data, Zeros(len - avail), MAX_BYTES);
    }
  }

  /** `tryHandleBytesMemoryLengthWrite`: storing v at the bare pointer. The new length is the
  low eight bytes of v, so this is the write at offset 0 exactly when v fits in 64 bits
  (`HugeLength`). */
  method WriteLength(d: bytes, v: nat) returns (r: Option<bytes>)
    requires |d| <= MAX_BYTES
    ensures r.Some? <==> v % TWO_64 <= MAX_BYTES
    ensures r.Some? ==> r == Projection(d, 0, BigEndian(32, v % TWO_64))
  {
    var n := v % TWO_64;
    if n < |d| {
      r := Extract3(d, 0, n);
    } else {
      r := if n - |d| > MAX_BYTES then None else Concat(d, Zeros(n - |d|), MAX_BYTES);
    }
    if r.Some? {
      LengthWritten(d, n, r.value);
    }
  }

  lemma LengthWritten(d: bytes, n: nat, r: bytes)
    requires n < TWO_64 && r == if n < |d| then d[..n] else d + Zeros(n - |d|)
    ensures Projection(d, 0, BigEndian(32, n)) == Some(r)
  {
    var w := BigEndian(32, n);
    assert LengthWord(d, 0, w) == w;
    LengthWordSplits(n);
    assert WrittenSlice(d, 0, w, 32, n) == r;
  }

  /** A length of 64 bits or more denotes no local. */
  lemma HugeLength(d: bytes, v: nat)
    requires TWO_64 <= v < Pow256(32)
    ensures Projection(d, 0, BigEndian(32, v)).None?
  {
    var w := BigEndian(32, v);
    assert LengthWord(d, 0, w) == w;
    if w[..24] == Zeros(24) {
      SmallHeader(w, v, 32);
      assert false;
    }
  }

  lemma SmallHeader(w: bytes, v: nat, z: nat)
    requires z == 32 && v < Pow256(z) && w == BigEndian(z, v) && w[..24] == Zeros(24)
    ensures v < TWO_64
  {
    var low := Number(w[24..]);
    LengthIsWord(w);
    NumberBound(w[24..]);
    Pow256Of8();
    NumberOfBigEndian(z, v);
    Pow256Grows(8, z);
    NumberOfBigEndian(z, low);
  }

  // ---- reading back ---------------------------------------------------------------------

  /** A word written and then read at the same place is the word, as far as the local reaches. */
  lemma ReadBack(d: bytes, off: nat, v: bytes, k: nat)
    requires |v| == 32 && |d| < TWO_64 && Projection(d, off, v).Some? && k < 32
    requires off + k < 32 + |Projection(d, off, v).value|
    ensures ImageAt(Projection(d, off, v).value, off + k) == v[k]
  {
    var p := Projection(d, off, v).value;
    if off + k < 32 {
      LengthIsWord(LengthWord(d, off, v));
      assert LengthWord(d, off, v)[off + k] == v[k];
    }
  }

  lemma LengthIsWord(w: bytes)
    requires |w| == 32 && w[..24] == Zeros(24)
    ensures BigEndian(32, Number(w[24..])) == w
  {
    var low := w[24..];
    NumberBound(low);
    BigEndianPrefixZero(32, 8, Number(low));
    BigEndianOfNumber(low);
    assert w == Zeros(24) + low;
  }
}
