/**
 Reading files that lie inside an ISO image, as src/iso.c does: the window cache in
 front of a FAT image, and the extraction of a file in chunks.
 */
module IsoWindow {
  import opened Common

  const BLOCK := 2048
  const WINDOW_BLOCKS := 16
  const WINDOW := 32768
  const EXTRACT_BUFFER := 65536

  // ---------------------------------------------------------------- divisors of the window size

  function Pow2(k: nat): (p: nat)
    ensures p > 0
  {
    if k == 0 then 1 else 2 * Pow2(k - 1)
  }

  lemma {:induction false} Pow2Sum(j: nat, k: nat)
    ensures Pow2(j + k) == Pow2(j) * Pow2(k)
    decreases k
  {
    if k > 0 {
      Pow2Sum(j, k - 1);
      Doubled(Pow2(j), Pow2(k - 1));
      assert Pow2(j + k) == 2 * Pow2(j + k - 1);
    }
  }

  lemma {:induction false} Doubled(a: nat, b: nat)
    ensures a * (2 * b) == 2 * (a * b)
  {
  }

  /** An odd factor of an even product leaves the other one even. */
  lemma {:induction false} OtherEven(a: nat, q: nat, p: nat)
    requires (2 * a + 1) * q == 2 * p
    ensures q % 2 == 0
  {
    assert (2 * a + 1) * q == 2 * (a * q) + q;
  }

  lemma {:induction false} HalveLeft(a: nat, q: nat, p: nat)
    requires 2 * a * q == 2 * p
    ensures a * q == p
  {
    assert 2 * a * q == 2 * (a * q);
  }

  lemma {:induction false} HalveRight(d: nat, b: nat, p: nat)
    requires d * (2 * b) == 2 * p
    ensures d * b == p
  {
    assert d * (2 * b) == 2 * (d * b);
  }

  /** A divisor of a power of two is one. */
  lemma {:induction false} PowerDivisor(d: nat, q: nat, k: nat) returns (j: nat)
    requires d * q == Pow2(k)
    ensures j <= k && d == Pow2(j)
    decreases k
  {
    if k == 0 {
      FactorOfOne(d, q);
      j := 0;
    } else if d % 2 == 0 {
      HalveLeft(d / 2, q, Pow2(k - 1));
      j := PowerDivisor(d / 2, q, k - 1);
      j := j + 1;
    } else {
      OtherEven(d / 2, q, Pow2(k - 1));
      HalveRight(d, q / 2, Pow2(k - 1));
      j := PowerDivisor(d, q / 2, k - 1);
    }
  }

  lemma {:induction false} FactorOfOne(d: nat, q: nat)
    requires d * q == 1
    ensures d == 1
  {
    assert d > 1 && q >= 1 ==> d * q >= d;
  }

  lemma {:induction false} Constants()
    ensures Pow2(11) == BLOCK && Pow2(15) == WINDOW
  {
    assert Pow2(5) == 32;
    assert Pow2(11) == 64 * Pow2(5);
    assert Pow2(15) == 16 * Pow2(11);
  }

  /** A sector size that divides the window divides a block, or is a number of blocks. */
  lemma {:induction false} SectorAndBlock(size: nat) returns (m: nat)
    requires size > 0 && WINDOW % size == 0
    ensures m > 0 && (BLOCK == m * size || size == m * BLOCK)
  {
    Constants();
    assert WINDOW == size * (WINDOW / size) + WINDOW % size;
    var j := PowerDivisor(size, WINDOW / size, 15);
    if j <= 11 {
      Pow2Sum(11 - j, j);
      m := Pow2(11 - j);
    } else {
      Pow2Sum(j - 11, 11);
      m := Pow2(j - 11);
    }
  }

  // ---------------------------------------------------------------- the window

  /** The first sector of the window for a sector: the one at the start of its block. */
  function WindowStart(sec: nat, size: nat): nat
    requires size > 0
  {
    sec * size / BLOCK * BLOCK / size
  }

  /** The window starts on a block and the sector lies inside it, whichever of sector and block is larger. */
  lemma {:induction false} WindowHolds(sec: nat, size: nat)
    requires size > 0 && WINDOW % size == 0
    ensures var start := WindowStart(sec, size);
            start <= sec && start * size % BLOCK == 0 && (sec - start) * size + size <= WINDOW
  {
    var m := SectorAndBlock(size);
    if BLOCK == m * size {
      SmallSectors(sec, size, m);
    } else {
      LargeSectors(sec, size, m);
      SizeInWindow(size);
    }
  }

  lemma {:induction false} SizeInWindow(size: nat)
    requires size > 0 && WINDOW % size == 0
    ensures size <= WINDOW
  {
  }

  lemma {:induction false} LargeSectors(sec: nat, size: nat, m: nat)
    requires m > 0 && size == m * BLOCK
    ensures WindowStart(sec, size) == sec && sec * size % BLOCK == 0
  {
    assert sec * size == sec * m * BLOCK;
    DivUnique(sec * size, BLOCK, sec * m, 0);
    DivUnique(sec * size, size, sec, 0);
  }

  lemma {:induction false} SmallSectors(sec: nat, size: nat, m: nat)
    requires size > 0 && BLOCK == m * size
    ensures var start := WindowStart(sec, size);
            start <= sec && start * size % BLOCK == 0 && (sec - start) * size + size <= BLOCK
  {
    var block := sec / m;
    var within := sec % m;
    assert sec == block * m + within;
    assert sec * size == block * BLOCK + within * size by { Regroup(block, m, within, size); }
    WithinBlock(within, m, size);
    DivUnique(sec * size, BLOCK, block, within * size);
    assert block * BLOCK == block * m * size;
    DivUnique(block * BLOCK, size, block * m, 0);
    DivUnique(block * BLOCK, BLOCK, block, 0);
  }

  lemma {:induction false} Regroup(block: nat, m: nat, within: nat, size: nat)
    ensures (block * m + within) * size == block * (m * size) + within * size
  {
  }

  lemma {:induction false} WithinBlock(within: nat, m: nat, size: nat)
    requires within < m
    ensures within * size + size <= m * size
  {
    ProductGrows(m, within + 1, size);
    assert (within + 1) * size == within * size + size;
  }

  /** Part of a slice. */
  lemma {:induction false} SliceOfSlice(s: seq<Byte>, at: nat, n: nat, from: nat, len: nat)
    requires at + n <= |s| && from + len <= n
    ensures s[at..at + n][from..from + len] == s[at + from..at + from + len]
  {
    var t := s[at..at + n];
    var a, b := t[from..from + len], s[at + from..at + from + len];
    forall k | 0 <= k < len ensures a[k] == b[k] {
      assert t[from + k] == s[at + from + k];
    }
  }

  lemma {:induction false} InsideWindow(ahead: nat, size: nat)
    requires size > 0 && WINDOW % size == 0 && ahead < WINDOW / size
    ensures ahead * size + size <= WINDOW
  {
    assert WINDOW == WINDOW / size * size + WINDOW % size;
    WithinBlock(ahead, WINDOW / size, size);
  }

  /** An image that may fail any read. */
  class Image {
    const bytes: seq<Byte>
    const works: nat -> bool
    var clock: nat

    constructor (bytes: seq<Byte>, works: nat -> bool)
      ensures this.bytes == bytes && this.works == works
    {
      this.bytes, this.works, clock := bytes, works, 0;
    }

    /** iso9660_iso_seek_read: whole blocks, or nothing. */
    method SeekRead(block: nat, n: nat) returns (data: Option<seq<Byte>>)
      modifies this
      ensures data.Some? ==> (block + n) * BLOCK <= |bytes| && data.value == bytes[block * BLOCK..(block + n) * BLOCK]
    {
      clock := clock + 1;
      if works(clock) && (block + n) * BLOCK <= |bytes| {
        data := Some(bytes[block * BLOCK..(block + n) * BLOCK]);
      } else {
        data := None;
      }
    }
  }

  class Window {
    const image: Image
    const lsn: nat                 // the block where the FAT image starts
    const size: nat                // its sector size
    var start: nat
    var buf: seq<Byte>
    ghost var broken: bool         // a refill has failed

    ghost predicate Valid()
      reads this
    {
      size > 0 && |buf| == WINDOW && (WINDOW % size == 0 && !broken ==> Current(start, buf))
    }

    /** The buffer holds the part of the image that starts with the given sector. */
    ghost predicate Current(start: nat, buf: seq<Byte>)
    {
      start * size >= 0 && lsn * BLOCK + start * size + WINDOW <= |image.bytes|
      && buf == image.bytes[lsn * BLOCK + start * size..lsn * BLOCK + start * size + WINDOW]
    }

    constructor (image: Image, lsn: nat, size: nat, buf: seq<Byte>)
      requires size > 0 && (lsn + WINDOW_BLOCKS) * BLOCK <= |image.bytes|
      requires buf == image.bytes[lsn * BLOCK..(lsn + WINDOW_BLOCKS) * BLOCK]
      ensures Valid() && !broken && this.image == image && this.lsn == lsn && this.size == size
    {
      this.image, this.lsn, this.size, start, this.buf, broken := image, lsn, size, 0, buf, false;
    }

    /** Fill the window so that it holds a sector; the start moves even if the read fails. */
    method Refill(sec: nat) returns (ok: bool)
      requires Valid() && WINDOW % size == 0
      modifies this, image
      ensures Valid() && (!ok ==> broken) && (ok ==> broken == old(broken))
      ensures ok ==> start <= sec && (sec - start) * size + size <= WINDOW && Current(start, buf)
    {
      start := WindowStart(sec, size);
      WindowHolds(sec, size);
      var block := start * size / BLOCK;
      assert block * BLOCK == start * size;
      var data := image.SeekRead(lsn + block, WINDOW_BLOCKS);
      ok := data.Some?;
      if ok {
        buf := data.value;
      }
      broken := broken || !ok;
    }

    /** Have the window hold a sector, and tell where. */
    method Lookup(sec: nat) returns (ok: bool, from: nat)
      requires Valid() && WINDOW % size == 0
      modifies this, image
      ensures Valid() && (!ok ==> broken) && from + size <= WINDOW + if ok then 0 else size
      ensures ok && !broken ==> IsSector(buf[from..from + size], sec)
    {
      ok, from := true, 0;
      if sec < start || sec >= start + WINDOW / size {
        ok := Refill(sec);
      } else {
        InsideWindow(sec - start, size);
      }
      if ok {
        from := (sec - start) * size;
        if !broken {
          SectorFromWindow(start, buf, sec, from);
        }
      }
    }

    /**
     iso9660_readfat: a sector of the FAT image. As long as no refill has failed it is what a direct
     read of the image would give.
     */
    method ReadSector(sec: nat) returns (r: Option<seq<Byte>>)
      requires Valid()
      modifies this, image
      ensures Valid()
      ensures r.Some? ==> |r.value| == size
      ensures r.Some? && !broken ==> IsSector(r.value, sec)
      ensures r == None ==> WINDOW % size != 0 || broken
      ensures WINDOW % size != 0 ==> r == None
    {
      if WINDOW % size != 0 {
        return None;
      }
      var ok, from := Lookup(sec);
      r := if ok then Some(buf[from..from + size]) else None;
    }

    lemma {:induction false} SectorFromWindow(start: nat, buf: seq<Byte>, sec: nat, from: nat)
      requires Current(start, buf) && start <= sec && from == (sec - start) * size && from + size <= WINDOW
      ensures |buf| == WINDOW && IsSector(buf[from..from + size], sec)
    {
      SectorPlace(sec, start, size, from);
      SliceOfSlice(image.bytes, lsn * BLOCK + start * size, WINDOW, from, size);
    }

    /** The bytes of a sector, read directly. */
    ghost predicate IsSector(data: seq<Byte>, sec: nat) {
      sec * size >= 0 && lsn * BLOCK + sec * size + size <= |image.bytes| &&
      data == image.bytes[lsn * BLOCK + sec * size..lsn * BLOCK + sec * size + size]
    }
  }

  lemma {:induction false} SectorPlace(sec: nat, start: nat, size: nat, from: nat)
    requires start <= sec && from == (sec - start) * size
    ensures sec * size == start * size + from
  {
  }

  /** Open a FAT image inside an ISO image: fill the window from its start. */
  method Open(image: Image, lsn: nat, size: nat) returns (w: Option<Window>)
    requires size > 0
    modifies image
    ensures w.Some? ==> fresh(w.value) && w.value.Valid() && !w.value.broken && w.value.image == image
    ensures w.Some? ==> w.value.lsn == lsn && w.value.size == size
  {
    var data := image.SeekRead(lsn, WINDOW_BLOCKS);
    if data == None {
      return None;
    }
    var window := new Window(image, lsn, size, data.value);
    return Some(window);
  }

  // ---------------------------------------------------------------- extraction

  /** The blocks a file is counted with when the image is scanned. */
  function ProjectedBlocks(length: nat): nat {
    if length != 0 then (length + BLOCK - 1) / BLOCK else 0
  }

  /** One chunk: the blocks read, and the bytes of the file among them. */
  lemma {:induction false} ChunkStep(left: nat)
    requires left > 0
    ensures var nb := Min(EXTRACT_BUFFER / BLOCK, (left + BLOCK - 1) / BLOCK);
            var n := Min(left, EXTRACT_BUFFER);
            && 0 < n <= nb * BLOCK && nb + ProjectedBlocks(left - n) == ProjectedBlocks(left)
            && (n == nb * BLOCK || n == left)
  {
  }

  /** out stands in the image from a position on. */
  ghost predicate IsSlice(bytes: seq<Byte>, base: nat, out: seq<Byte>) {
    out != [] ==> base + |out| <= |bytes| && out == bytes[base..base + |out|]
  }

  lemma {:induction false} AppendSlice(bytes: seq<Byte>, base: nat, out: seq<Byte>, data: seq<Byte>, n: nat)
    requires 0 < n <= |data| && base + |out| + |data| <= |bytes| && IsSlice(bytes, base, out)
    requires data == bytes[base + |out|..base + |out| + |data|]
    ensures IsSlice(bytes, base, out + data[..n])
  {
    assert data[..n] == bytes[base + |out|..base + |out| + n];
    assert out + data[..n] == bytes[base..base + |out| + n];
  }

  /** Copy one chunk. */
  method ExtractChunk(image: Image, lsn: nat, i: nat, left: nat, out: seq<Byte>, writes: nat -> bool)
    returns (ok: bool, n: nat, nb: nat, out': seq<Byte>)
    requires left > 0 && |out| == i * BLOCK && IsSlice(image.bytes, lsn * BLOCK, out)
    modifies image
    ensures IsSlice(image.bytes, lsn * BLOCK, out')
    ensures !ok ==> out' == out
    ensures ok ==> 0 < n <= left && |out'| == |out| + n && (n < left ==> n == nb * BLOCK)
    ensures ok ==> nb + ProjectedBlocks(left - n) == ProjectedBlocks(left)
  {
    ChunkStep(left);
    nb := Min(EXTRACT_BUFFER / BLOCK, (left + BLOCK - 1) / BLOCK);
    n, out' := Min(left, EXTRACT_BUFFER), out;
    var data := image.SeekRead(lsn + i, nb);
    ok := data.Some? && writes(image.clock);
    if ok {
      AppendSlice(image.bytes, lsn * BLOCK, out, data.value, n);
      out' := out + data.value[..n];
    }
  }

  /**
   The copy of a file out of the image. A completed copy is the file's bytes, and the blocks it has
   counted for the progress bar are those projected; one given up is a prefix of them.
   */
  method Extract(image: Image, lsn: nat, length: nat, writes: nat -> bool)
    returns (ok: bool, out: seq<Byte>, blocks: nat)
    modifies image
    ensures IsSlice(image.bytes, lsn * BLOCK, out) && |out| <= length && blocks <= ProjectedBlocks(length)
    ensures ok ==> |out| == length && blocks == ProjectedBlocks(length)
  {
    out, blocks, ok := [], 0, true;
    var left, i := length, 0;
    while left > 0
      invariant ok && |out| + left == length && blocks + ProjectedBlocks(left) == ProjectedBlocks(length)
      invariant left > 0 ==> |out| == i * BLOCK
      invariant IsSlice(image.bytes, lsn * BLOCK, out)
    {
      var n, nb;
      ok, n, nb, out := ExtractChunk(image, lsn, i, left, out, writes);
      if !ok {
        return;
      }
      left, blocks, i := left - n, blocks + nb, i + nb;
    }
  }
}
