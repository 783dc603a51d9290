/**
 The zeroing loop of WriteDrive in src/format.c: chunk after chunk of the drive
 is overwritten, in fast mode after a look at what is already there, through
 a file pointer that reads, skips, short writes and retries all move.
 */
module ZeroDrive {
  import opened Common

  const DD_BUFFER_SIZE := 0x200_0000
  const WRITE_RETRIES := 4
  const THROTTLE := 15
  const MIN_SECTOR := 512

  /** How the drive answers a request; on a failure the file pointer may end up anywhere. */
  datatype Reply = Reply(ok: bool, count: nat, pointer: nat)

  /** The answer of a drive that does all of a request of n bytes. */
  predicate Grants(r: Reply, n: nat) {
    r.ok && r.count >= n
  }

  /** Every request of up to n bytes that lies inside the drive is done at once. */
  ghost predicate Obliging(disk: Disk, n: nat) {
    forall t: nat :: Grants(disk.reply(t), n)
  }

  /** A drive with a file pointer. Requests that reach past its end fail. */
  class Disk {
    const reply: nat -> Reply
    var bytes: seq<Byte>
    var fp: nat
    var clock: nat

    constructor (bytes: seq<Byte>, reply: nat -> Reply)
      ensures this.bytes == bytes && this.reply == reply && fp == 0
    {
      this.reply, this.bytes, fp, clock := reply, bytes, 0, 0;
    }

    method Read(n: nat) returns (ok: bool, data: seq<Byte>)
      modifies this`fp, this`clock
      ensures ok ==> old(fp) + n <= |bytes| && fp == old(fp) + |data| && |data| <= n && data == bytes[old(fp)..fp]
      ensures Grants(reply(old(clock)), n) && old(fp) + n <= |bytes| ==> ok && |data| == n
    {
      var a := reply(clock);
      clock := clock + 1;
      if a.ok && fp + n <= |bytes| {
        ok, data := true, bytes[fp..fp + Min(a.count, n)];
        fp := fp + |data|;
      } else {
        ok, data, fp := false, [], a.pointer;
      }
    }

    /** Writes some part of the data, all that it reports if it succeeds. */
    method Write(data: seq<Byte>) returns (ok: bool, count: nat)
      modifies this
      ensures |bytes| == old(|bytes|) && count <= |data|
      ensures ok ==> old(fp) + |data| <= |bytes| && fp == old(fp) + count
      ensures Grants(reply(old(clock)), |data|) && old(fp) + |data| <= |bytes| ==> ok && count == |data|
      ensures forall i :: 0 <= i < |bytes| ==>
                            bytes[i] == if old(fp) <= i < old(fp) + count then data[i - old(fp)] else old(bytes)[i]
    {
      var a := reply(clock);
      clock := clock + 1;
      ok := a.ok && fp + |data| <= |bytes|;
      count := if fp < |bytes| then Min(Min(a.count, |data|), |bytes| - fp) else 0;
      if fp < |bytes| {
        bytes := bytes[..fp] + data[..count] + bytes[fp + count..];
      }
      fp := if ok then fp + count else a.pointer;
    }

    method Seek(to: nat) returns (ok: bool)
      modifies this`fp, this`clock
      ensures ok == reply(old(clock)).ok && (ok ==> fp == to)
    {
      ok := reply(clock).ok;
      fp := if ok then to else reply(clock).pointer;
      clock := clock + 1;
    }
  }

  // ---------------------------------------------------------------- looking at a chunk

  /** Every byte is v. */
  ghost predicate Uniform(s: seq<Byte>, v: Byte) {
    forall i :: 0 <= i < |s| ==> s[i] == v
  }

  /** All bits are alike. */
  ghost predicate IsBlank(s: seq<Byte>) {
    Uniform(s, 0) || Uniform(s, 0xFF)
  }

  /** A 32-bit word, as the four bytes it is loaded from: 0 is four zeros, 0xFFFFFFFF four times 0xFF. */
  datatype Word = Word(b0: Byte, b1: Byte, b2: Byte, b3: Byte)

  function WordAt(s: seq<Byte>, i: nat): Word
    requires 4 * i + 4 <= |s|
  {
    Word(s[4 * i], s[4 * i + 1], s[4 * i + 2], s[4 * i + 3])
  }

  function Repeated(v: Byte): Word {
    Word(v, v, v, v)
  }

  ghost predicate AllWords(s: seq<Byte>, n: nat, w: Word)
    requires 4 * n <= |s|
  {
    forall i :: 0 <= i < n ==> WordAt(s, i) == w
  }

  lemma {:induction false} ByteOfWord(s: seq<Byte>, q: nat, r: nat, v: Byte)
    requires 4 * q + 4 <= |s| && r < 4 && WordAt(s, q) == Repeated(v)
    ensures s[4 * q + r] == v
  {
    assert r == 0 || r == 1 || r == 2 || r == 3;
  }

  /** Comparing words decides the bytes. */
  lemma {:induction false} WordsAreBytes(s: seq<Byte>, v: Byte)
    requires |s| % 4 == 0
    ensures AllWords(s, |s| / 4, Repeated(v)) <==> Uniform(s, v)
  {
    if AllWords(s, |s| / 4, Repeated(v)) {
      forall i | 0 <= i < |s| ensures s[i] == v {
        ByteOfWord(s, i / 4, i % 4, v);
      }
    }
  }

  /** Compare the words of a chunk with its first one. */
  method IsEmpty(s: seq<Byte>) returns (empty: bool)
    requires |s| >= 4
    ensures |s| % 4 == 0 ==> (empty <==> IsBlank(s))
  {
    if |s| % 4 == 0 {
      WordsAreBytes(s, 0);
      WordsAreBytes(s, 0xFF);
    }
    var first := WordAt(s, 0);
    if first != Repeated(0) && first != Repeated(0xFF) {
      return false;
    }
    var i := 1;
    while i < |s| / 4 && WordAt(s, i) == first
      invariant 1 <= i <= |s| / 4 && AllWords(s, i, first)
    {
      i := i + 1;
    }
    empty := i >= |s| / 4;
  }

  // ---------------------------------------------------------------- the loop

  /** The first byte of the chunk that i lies in. */
  function ChunkStart(i: nat, chunk: nat): nat
    requires chunk > 0
  {
    i - i % chunk
  }

  lemma {:induction false} InChunk(i: nat, wb: nat, chunk: nat)
    requires chunk > 0 && wb % chunk == 0 && wb <= i < wb + chunk
    ensures ChunkStart(i, chunk) == wb
  {
    DivUnique(i, chunk, wb / chunk, i - wb);
  }

  /**
   What the loop leaves of a byte: zero; or in fast mode the value of the
   first byte of its chunk, all ones, or zero where it was zero before.
   */
  ghost predicate WipedAt(now: seq<Byte>, was: seq<Byte>, i: nat, fast: bool, chunk: nat)
    requires i < |now| == |was| && chunk > 0
  {
    if fast then now[i] == now[ChunkStart(i, chunk)] && (now[i] == 0xFF || (now[i] == 0 && was[i] == 0))
    else now[i] == 0
  }

  ghost predicate WipedTo(now: seq<Byte>, was: seq<Byte>, upto: nat, fast: bool, chunk: nat)
    requires |now| == |was| && chunk > 0
  {
    upto <= |now| && forall i :: 0 <= i < upto ==> WipedAt(now, was, i, fast, chunk)
  }

  /** The bytes from a position on are as they were. */
  ghost predicate SameFrom(now: seq<Byte>, was: seq<Byte>, from: nat)
    requires |now| == |was|
  {
    forall i :: from <= i < |now| ==> now[i] == was[i]
  }

  /** Only the bytes of one chunk changed. */
  ghost predicate SameOutside(now: seq<Byte>, was: seq<Byte>, lo: nat, hi: nat)
    requires |now| == |was|
  {
    forall i :: 0 <= i < |now| && !(lo <= i < hi) ==> now[i] == was[i]
  }

  /** Write one chunk, putting the pointer back before each new try. */
  method WriteWithRetries(disk: Disk, data: seq<Byte>, wb: nat, cancelled: nat -> bool) returns (ok: bool)
    requires disk.fp == wb
    modifies disk
    ensures |disk.bytes| == old(|disk.bytes|) && SameOutside(disk.bytes, old(disk.bytes), wb, wb + |data|)
    ensures ok ==> wb + |data| <= |disk.bytes| && disk.fp == wb + |data| && disk.bytes[wb..wb + |data|] == data
    ensures Obliging(disk, |data|) && (forall t: nat :: !cancelled(t)) && wb + |data| <= |disk.bytes| ==> ok
  {
    ghost var was := disk.bytes;
    var i := 1;
    while i <= WRITE_RETRIES
      invariant disk.fp == wb && |disk.bytes| == |was| && SameOutside(disk.bytes, was, wb, wb + |data|)
      invariant Obliging(disk, |data|) && (forall t: nat :: !cancelled(t)) && wb + |data| <= |was| ==> i == 1
    {
      if cancelled(disk.clock) {
        return false;
      }
      assert Obliging(disk, |data|) ==> Grants(disk.reply(disk.clock), |data|);
      var s, count := disk.Write(data);
      if s && count == |data| {
        return true;
      }
      if i == WRITE_RETRIES {
        return false;
      }
      var t := disk.Seek(wb);
      if !t {
        return false;
      }
      i := i + 1;
    }
    return false;
  }

  /** Read one chunk and decide whether it is empty; if not, put the pointer back. */
  method LookAhead(disk: Disk, n: nat, wb: nat) returns (ok: bool, skip: bool)
    requires disk.fp == wb && n >= 4
    modifies disk`fp, disk`clock
    ensures ok ==> wb + n <= |disk.bytes| && disk.fp == if skip then wb + n else wb
    ensures ok && n % 4 == 0 ==> (skip <==> IsBlank(disk.bytes[wb..wb + n]))
    ensures Obliging(disk, n) && wb + n <= |disk.bytes| ==> ok
  {
    assert Obliging(disk, n) ==> Grants(disk.reply(disk.clock), n) && Grants(disk.reply(disk.clock + 1), n);
    var data;
    ok, data := disk.Read(n);
    if !ok || |data| != n {
      return false, false;
    }
    skip := IsEmpty(data);
    if !skip {
      ok := disk.Seek(wb);
    }
  }

  /** What one turn leaves of the chunk at wb. */
  ghost predicate ChunkDone(now: seq<Byte>, was: seq<Byte>, wb: nat, n: nat, fast: bool)
    requires |now| == |was| && wb + n <= |now|
  {
    forall i :: wb <= i < wb + n ==>
                  if fast then now[i] == now[wb] && (now[i] == 0xFF || (now[i] == 0 && was[i] == 0)) else now[i] == 0
  }

  lemma {:induction false} ChunkSkipped(bytes: seq<Byte>, wb: nat, n: nat)
    requires 0 < n && wb + n <= |bytes|
    requires IsBlank(bytes[wb..wb + n])
    ensures ChunkDone(bytes, bytes, wb, n, true)
  {
    var t := bytes[wb..wb + n];
    forall i | wb <= i < wb + n ensures bytes[i] == t[i - wb] {
    }
  }

  lemma {:induction false} ChunkWritten(now: seq<Byte>, was: seq<Byte>, wb: nat, n: nat, fast: bool)
    requires 0 < n && |now| == |was| && wb + n <= |now|
    requires Uniform(now[wb..wb + n], if fast then 0xFF else 0)
    ensures ChunkDone(now, was, wb, n, fast)
  {
    var t := now[wb..wb + n];
    forall i | wb <= i < wb + n ensures now[i] == t[i - wb] {
    }
  }

  /** One turn of the loop. */
  method ZeroTurn(disk: Disk, buffer: seq<Byte>, n: nat, wb: nat, fast: bool, throttle: nat, cancelled: nat -> bool)
    returns (ok: bool, throttle': nat)
    requires disk.fp == wb && 4 <= n <= |buffer| && Uniform(buffer, if fast then 0xFF else 0)
    modifies disk
    ensures |disk.bytes| == old(|disk.bytes|) && SameOutside(disk.bytes, old(disk.bytes), wb, wb + n)
    ensures ok ==> wb + n <= |disk.bytes| && disk.fp == wb + n
    ensures ok && (fast ==> n % 4 == 0) ==> ChunkDone(disk.bytes, old(disk.bytes), wb, n, fast)
    ensures Obliging(disk, n) && (forall t: nat :: !cancelled(t)) && wb + n <= |disk.bytes| ==> ok
    ensures throttle > 0 ==> throttle' == throttle - 1
    ensures ok && throttle == 0 && !fast ==> throttle' == 0
    ensures ok && throttle == 0 && fast && n % 4 == 0 ==>
              throttle' == if IsBlank(old(disk.bytes)[wb..wb + n]) then 0 else THROTTLE
  {
    throttle' := throttle;
    if throttle > 0 {
      throttle' := throttle - 1;
    } else if fast {
      if cancelled(disk.clock) {
        return false, throttle;
      }
      var skip;
      ok, skip := LookAhead(disk, n, wb);
      if !ok || skip {
        if ok && n % 4 == 0 {
          ChunkSkipped(disk.bytes, wb, n);
        }
        return;
      }
      throttle' := THROTTLE;
    }
    ok := WriteWithRetries(disk, buffer[..n], wb, cancelled);
    if ok {
      ChunkWritten(disk.bytes, old(disk.bytes), wb, n, fast);
    }
  }

  lemma {:induction false} WipedFurther(now: seq<Byte>, before: seq<Byte>, was: seq<Byte>, wb: nat, n: nat,
                                        fast: bool, chunk: nat)
    requires |now| == |before| == |was| && 0 < n <= chunk && wb % chunk == 0 && wb + n <= |now|
    requires WipedTo(before, was, wb, fast, chunk) && SameFrom(before, was, wb)
    requires SameOutside(now, before, wb, wb + n) && ChunkDone(now, before, wb, n, fast)
    ensures WipedTo(now, was, wb + n, fast, chunk)
  {
    forall i | 0 <= i < wb + n ensures WipedAt(now, was, i, fast, chunk) {
      if i < wb {
        assert WipedAt(before, was, i, fast, chunk);
      } else {
        InChunk(i, wb, chunk);
      }
    }
  }

  lemma {:induction false} WipedKept(now: seq<Byte>, before: seq<Byte>, was: seq<Byte>, wb: nat, n: nat, fast: bool,
                                     chunk: nat)
    requires |now| == |before| == |was| && chunk > 0 && WipedTo(before, was, wb, fast, chunk)
    requires SameOutside(now, before, wb, wb + n)
    ensures WipedTo(now, was, wb, fast, chunk)
  {
    forall i | 0 <= i < wb ensures WipedAt(now, was, i, fast, chunk) {
      assert WipedAt(before, was, i, fast, chunk);
    }
  }

  function RoundUp(n: nat, sector: nat): (r: nat)
    requires sector > 0
    ensures n <= r < n + sector && r % sector == 0
  {
    RoundUpMultiple((n + sector - 1) / sector, sector);
    assert n + sector - 1 == (n + sector - 1) / sector * sector + (n + sector - 1) % sector;
    (n + sector - 1) / sector * sector
  }

  lemma {:induction false} RoundUpMultiple(k: nat, sector: nat)
    requires sector > 0
    ensures k * sector >= 0 && (k * sector) % sector == 0
  {
    DivUnique(k * sector, sector, k, 0);
  }

  /** Multiples of the sector size are multiples of whatever divides it. */
  lemma {:induction false} MultipleOfFour(n: nat, sector: nat)
    requires sector > 0 && n % sector == 0 && sector % 4 == 0
    ensures n % 4 == 0
  {
    assert n == 4 * (sector / 4 * (n / sector));
  }

  lemma {:induction false} MultiplesApart(a: nat, b: nat, sector: nat)
    requires sector > 0 && a % sector == 0 && b % sector == 0 && a < b + sector
    ensures a <= b
  {
    if a > b {
      assert a == a / sector * sector && b == b / sector * sector;
      MultipleBelow(a / sector - b / sector, sector, a - b);
    }
  }

  /** The size of the next chunk: cut at the target size, then rounded up to whole sectors. */
  function NextSize(size: nat, wb: nat, target: nat, sector: nat): (n: nat)
    requires sector > 0 && wb < target && 0 < size && size % sector == 0
    ensures sector <= n <= size && n % sector == 0
    ensures (n == size || target <= wb + n) && wb + n < target + sector
  {
    var cut := if wb + size > target then target - wb else size;
    var n := if cut % sector != 0 then RoundUp(cut, sector) else cut;
    MultiplesApart(n, size, sector);
    MultiplesApart(sector, n, sector);
    n
  }

  lemma {:induction false} NextChunk(wb: nat, chunk: nat)
    requires chunk > 0 && wb % chunk == 0
    ensures (wb + chunk) % chunk == 0
  {
    DivUnique(wb + chunk, chunk, wb / chunk + 1, 0);
  }

  /** A drive that does what is asked, holds the target in whole sectors, and is left in peace by the user. */
  ghost predicate Willing(disk: Disk, cancelled: nat -> bool, sector: nat, target: nat)
    requires sector > 0
    reads disk
  {
    && Obliging(disk, RoundUp(DD_BUFFER_SIZE, sector)) && (forall t: nat :: !cancelled(t))
    && RoundUp(target, sector) <= |disk.bytes|
  }

  /** Every chunk lies inside the whole sectors of the target. */
  lemma {:induction false} ChunkInside(wb: nat, n: nat, target: nat, sector: nat)
    requires sector > 0 && wb % sector == 0 && n % sector == 0 && wb + n < target + sector
    ensures (wb + n) % sector == 0 && wb + n <= RoundUp(target, sector)
  {
    NextSector(wb, n, sector);
    MultiplesApart(wb + n, RoundUp(target, sector), sector);
  }

  lemma {:induction false} NextSector(wb: nat, size: nat, sector: nat)
    requires 0 < sector && wb % sector == 0 && size % sector == 0
    ensures (wb + size) % sector == 0
  {
    DivUnique(wb + size, sector, wb / sector + size / sector, 0);
  }

  /**
   The whole loop, from a rewound drive. The file pointer is at wb at the start of each turn. A completed
   run has overwritten everything up to the target; a run given up has changed
   nothing beyond the chunk it was at.
   */
  method ZeroLoop(disk: Disk, sector: nat, target: nat, fast: bool, cancelled: nat -> bool)
    returns (ok: bool, wb: nat)
    requires disk.fp == 0 && sector >= MIN_SECTOR
    modifies disk
    ensures |disk.bytes| == old(|disk.bytes|)
    ensures ok ==> target <= wb < target + sector && disk.fp == wb
    ensures (fast ==> sector % 4 == 0) ==>
              WipedTo(disk.bytes, old(disk.bytes), wb, fast, RoundUp(DD_BUFFER_SIZE, sector))
    ensures SameFrom(disk.bytes, old(disk.bytes), if ok then wb else wb + RoundUp(DD_BUFFER_SIZE, sector))
    ensures Willing(disk, cancelled, sector, target) ==> ok
  {
    var chunk := RoundUp(DD_BUFFER_SIZE, sector);
    var buffer := seq(chunk, _ => if fast then 0xFF else 0);
    var size, throttle := chunk, 0;
    ghost var was := disk.bytes;
    wb := 0;
    while wb < target
      invariant disk.fp == wb && |disk.bytes| == |was| && wb < target + sector
      invariant (wb < target ==> size == chunk && wb % chunk == 0) && wb % sector == 0
      invariant (fast ==> sector % 4 == 0) ==> WipedTo(disk.bytes, was, wb, fast, chunk)
      invariant SameFrom(disk.bytes, was, wb)
    {
      size := NextSize(size, wb, target, sector);
      ChunkInside(wb, size, target, sector);
      ghost var before := disk.bytes;
      ok, throttle := ZeroTurn(disk, buffer, size, wb, fast, throttle, cancelled);
      if fast ==> sector % 4 == 0 {
        if fast {
          MultipleOfFour(size, sector);
        }
        if ok {
          WipedFurther(disk.bytes, before, was, wb, size, fast, chunk);
        } else {
          WipedKept(disk.bytes, before, was, wb, size, fast, chunk);
        }
      }
      if !ok {
        return;
      }
      NextChunk(wb, chunk);
      wb := wb + size;
    }
    ok := true;
  }
}
