/**
 The copy loop of WriteDrive in src/format.c: an asynchronous read fills one half
 of the buffer while the other half is written out. Until the read is waited
 for, anything may happen at any time to the half it was given.
 */
module AsyncCopy {
  import opened Common
  import opened ZeroDrive

  const U64 := 0x1_0000_0000_0000_0000

  /** How the reader behaves from one moment to the next. */
  datatype Moment = Moment(launched: bool, arrives: bool, count: nat, noise: seq<Byte>)

  /** The size of the next request once `done` bytes are taken care of; the subtraction is unsigned. */
  function NextRequest(bufSize: nat, target: nat, done: nat): (n: nat)
    ensures n <= bufSize
  {
    Min(bufSize, (target - done) % U64)
  }

  /** The subtraction wraps around exactly when the last read was rounded past the target. */
  lemma {:induction false} RequestWraps(bufSize: nat, target: nat, done: nat)
    requires target < U64 && done + bufSize <= target + U64
    ensures done <= target ==> NextRequest(bufSize, target, done) == Min(bufSize, target - done)
    ensures done > target ==> NextRequest(bufSize, target, done) == bufSize
  {
    if done > target {
      DivUnique(target - done + U64, U64, 0, target - done + U64);
      assert (target - done) % U64 == target - done + U64;
    }
  }

  class Copier {
    const image: seq<Byte>
    const sector: nat
    const bufSize: nat
    const target: nat
    const moment: nat -> Moment
    const disk: Disk
    const buffer: array<Byte>      // two halves of bufSize bytes
    var clock: nat
    var readHalf: nat              // the half the pending read fills
    var offset: nat                // where in the image the pending read starts
    var request: nat               // how much it asked for
    var launched: bool
    ghost var past: bool           // some request reached past the target
    ghost var regular: bool        // every read gave whole sectors or ended at the target

    ghost predicate Valid()
      reads this
    {
      MIN_SECTOR <= sector < 0x8000_0000 && bufSize == RoundUp(DD_BUFFER_SIZE, sector) && 0 < target < U64
      && buffer.Length == 2 * bufSize && readHalf < 2 && request <= bufSize
    }

    constructor (image: seq<Byte>, sector: nat, target: nat, moment: nat -> Moment, disk: Disk)
      requires MIN_SECTOR <= sector < 0x8000_0000 && 0 < target < U64
      ensures Valid() && this.image == image && this.target == target && this.sector == sector && this.disk == disk
      ensures this.moment == moment && readHalf == 0 && offset == 0 && !past && regular && fresh(buffer)
    {
      this.image, this.sector, this.target, this.moment, this.disk := image, sector, target, moment, disk;
      bufSize := RoundUp(DD_BUFFER_SIZE, sector);
      buffer := new Byte[2 * RoundUp(DD_BUFFER_SIZE, sector)](_ => 0);
      clock, readHalf, offset, request, launched, past, regular := 0, 0, 0, 0, false, false, true;
    }

    /** Every read that may bring something brings something. */
    ghost predicate Feeds() {
      forall t: nat :: moment(t).count >= 1
    }

    /** Every read brings as much as it may. */
    ghost predicate Fully() {
      forall t: nat :: moment(t).count >= bufSize
    }

    /** Every read brings as much as it may, and the image has the target's bytes or ends with a sector. */
    ghost predicate ReadsFully() {
      Fully() && sector > 0 && (target <= |image| || |image| % sector == 0)
    }

    lemma {:induction false} FullFeeds()
      requires ReadsFully() && bufSize > 0
      ensures Feeds()
    {
    }

    /** Reads start and end, writes are done at once, and the user does not cancel. */
    ghost predicate Smooth(cancelled: nat -> bool)
      reads disk
    {
      && (forall t: nat :: moment(t).launched && moment(t).arrives)
      && sector > 0 && Willing(disk, cancelled, sector, target)
    }

    /** Where a half starts. */
    function Base(half: nat): nat {
      if half == 0 then 0 else bufSize
    }

    /** ReadFileAsync. */
    method Launch(n: nat)
      requires Valid() && n <= bufSize
      modifies this`clock, this`request, this`launched, this`past
      ensures Valid() && request == n && past == (old(past) || offset + n > target)
      ensures launched == moment(old(clock)).launched
    {
      request, launched := n, moment(clock).launched;
      clock := clock + 1;
      past := past || offset + n > target;
    }

    /** Time passes: any bytes may land where the pending read is allowed to put them. */
    method Tick()
      requires Valid()
      modifies this`clock, buffer
      ensures Valid()
      ensures forall i :: 0 <= i < buffer.Length && !(Base(readHalf) <= i < Base(readHalf) + request) ==>
                            buffer[i] == old(buffer[i])
    {
      var noise, at := moment(clock).noise, Base(readHalf);
      forall i | 0 <= i < |noise| && i < request {
        buffer[at + i] := noise[i];
      }
      clock := clock + 1;
    }

    method Deliver(at: nat, data: seq<Byte>)
      requires at + |data| <= buffer.Length
      modifies buffer
      ensures buffer[at..at + |data|] == data
    {
      forall i | 0 <= i < |data| {
        buffer[at + i] := data[i];
      }
    }

    /** What a read brings of the image. */
    function Brought(offset: nat, request: nat, count: nat): nat {
      if offset <= |image| then Min(Min(count, request), |image| - offset) else 0
    }

    /** WaitFileAsync and GetSizeAsync: the read is over, and this much of the image is in its half. */
    method Wait() returns (ok: bool, n: nat)
      requires Valid()
      modifies this`clock, this`offset, this`regular, buffer
      ensures Valid() && n <= request
      ensures ok ==> offset == old(offset) + n
      ensures ok == (launched && moment(old(clock)).arrives)
      ensures ok ==> n == Brought(old(offset), request, moment(old(clock)).count)
      ensures ok && n > 0 ==> offset <= |image|
      ensures ok && n > 0 ==> buffer[Base(readHalf)..Base(readHalf) + n] == image[old(offset)..offset]
      ensures ok ==> regular == (old(regular) && (n % sector == 0 || offset == target))
      ensures !ok ==> regular == old(regular)
    {
      var m, at := moment(clock), Base(readHalf);
      clock := clock + 1;
      if !launched || !m.arrives {
        return false, 0;
      }
      ok, n := true, Brought(offset, request, m.count);
      if n > 0 {
        Deliver(at, image[offset..offset + n]);
      }
      offset := offset + n;
      regular := regular && (n % sector == 0 || offset == target);
    }

    /** Write one half out with retries while the other half is being filled. */
    method WriteOut(half: nat, n: nat, wb: nat, cancelled: nat -> bool) returns (ok: bool)
      requires Valid() && half < 2 && half != readHalf && n <= bufSize && disk.fp == wb
      modifies this`clock, buffer, disk
      ensures Valid() && |disk.bytes| == old(|disk.bytes|)
      ensures SameOutside(disk.bytes, old(disk.bytes), wb, wb + n)
      ensures buffer[Base(half)..Base(half) + n] == old(buffer[Base(half)..Base(half) + n])
      ensures ok ==> wb + n <= |disk.bytes| && disk.fp == wb + n
      ensures ok ==> disk.bytes[wb..wb + n] == old(buffer[Base(half)..Base(half) + n])
      ensures Obliging(disk, bufSize) && (forall t: nat :: !cancelled(t)) && wb + n <= |disk.bytes| ==> ok
    {
      ghost var was, chunk := disk.bytes, buffer[Base(half)..Base(half) + n];
      var i := 1;
      while i <= WRITE_RETRIES
        invariant Valid() && disk.fp == wb && |disk.bytes| == |was| && SameOutside(disk.bytes, was, wb, wb + n)
        invariant buffer[Base(half)..Base(half) + n] == chunk
        invariant Obliging(disk, bufSize) && (forall t: nat :: !cancelled(t)) && wb + n <= |was| ==> i == 1
      {
        Tick();
        if cancelled(disk.clock) {
          return false;
        }
        assert Obliging(disk, bufSize) ==> Grants(disk.reply(disk.clock), bufSize);
        var s, count := disk.Write(buffer[Base(half)..Base(half) + n]);
        if s && count == n {
          return true;
        }
        if i == WRITE_RETRIES {
          return false;
        }
        var t := disk.Seek(wb);
        if !t {
          return false;
        }
        i := i + 1;
      }
      return false;
    }

    /** What the pending read asks for once wb bytes are written: no more than is left up to the target. */
    ghost predicate Asking(wb: nat)
      reads this
      requires sector > 0
    {
      wb % sector == 0 && wb < target + sector && offset <= wb && (wb < target ==> request == Min(bufSize, target - wb))
    }

    /** Where the pending read stands against what is written, as long as reads are regular. */
    ghost predicate ReaderAt(wb: nat)
      reads this
    {
      regular ==> (wb < target ==> offset == wb) && (past <==> wb > target)
    }

    /** A read of n bytes has arrived for the position wb. */
    ghost predicate Arrived(wb: nat, n: nat)
      reads this
      requires sector > 0
    {
      && n <= bufSize && wb + n <= target && wb % sector == 0 && offset <= wb + n
      && (regular ==> offset == wb + n && (n % sector == 0 || offset == target) && !past)
      && (regular && n > 0 ==> offset <= |image|)
    }

    lemma {:induction false} FullBrought(offset: nat, request: nat, t: nat)
      requires Fully() && request <= bufSize
      ensures Brought(offset, request, moment(t).count) == Brought(offset, request, bufSize)
    {
      assert moment(t).count >= bufSize;
    }

    /** Wait for the pending read and round its size up to whole sectors. */
    method Receive(wb: nat) returns (ok: bool, size: nat, ghost n: nat)
      requires Valid() && wb < target && Asking(wb) && ReaderAt(wb)
      modifies this`clock, this`offset, this`regular, buffer
      ensures Valid() && size == WholeSectors(n, sector) && n <= bufSize && (regular ==> old(regular))
      ensures ok ==> Arrived(wb, n)
      ensures ok ==> offset == old(offset) + n && (n > 0 ==> offset <= |image|)
      ensures ok && n > 0 ==> buffer[Base(readHalf)..Base(readHalf) + n] == image[old(offset)..offset]
      ensures ok && Fully() ==> n == Brought(old(offset), request, bufSize)
      ensures ok && n == 0 && Feeds() ==> offset >= |image|
      ensures old(regular) && ReadsFully() ==> regular
      ensures ok == (launched && moment(old(clock)).arrives)
    {
      ghost var t := clock;
      var got;
      ok, got := Wait();
      n, size := got, WholeSectors(got, sector);
      if Fully() {
        FullBrought(old(offset), request, t);
      }
      if old(regular) && ReadsFully() {
        FullRead(|image|, wb, target, sector, bufSize, moment(t).count);
      }
    }

    /** Switch halves and launch the next read. */
    method LaunchNext(wb: nat, size: nat, ghost n: nat)
      requires Valid() && wb < target && size == WholeSectors(n, sector) && Arrived(wb, n)
      modifies this`clock, this`readHalf, this`request, this`launched, this`past
      ensures Valid() && readHalf == 1 - old(readHalf) && Asking(wb + size) && ReaderAt(wb + size)
      ensures launched == moment(old(clock)).launched
    {
      SizeStep(wb, n, target, sector, bufSize);
      readHalf := (readHalf + 1) % 2;
      Launch(NextRequest(bufSize, target, wb + size));
    }

    /** What is copied so far, if all reads were regular. */
    ghost predicate CopiedTo(wb: nat)
      reads this, disk
    {
      regular ==> SamePrefix(disk.bytes, image, Min(wb, target))
    }

    /** What the half to be written holds: n bytes of the image from wb on, if the read was in step. */
    ghost predicate Loaded(half: nat, wb: nat, n: nat, size: nat, inStep: bool)
      reads buffer
    {
      n <= size <= bufSize && buffer.Length == 2 * bufSize &&
      (inStep && n > 0 ==> wb + n <= |image| && buffer[Base(half)..Base(half) + n] == image[wb..wb + n])
    }

    /** Write a chunk out; the copied prefix grows by what the chunk holds of the image. */
    method WriteChunk(half: nat, size: nat, wb: nat, cancelled: nat -> bool, ghost n: nat, ghost inStep: bool)
      returns (ok: bool)
      requires Valid() && half < 2 && half != readHalf && disk.fp == wb && Loaded(half, wb, n, size, inStep)
      modifies this`clock, buffer, disk
      ensures Valid() && |disk.bytes| == old(|disk.bytes|) && (ok ==> disk.fp == wb + size)
      ensures ok && size == 0 ==> disk.bytes == old(disk.bytes)
      ensures ok && inStep && SamePrefix(old(disk.bytes), image, wb) ==> SamePrefix(disk.bytes, image, wb + n)
      ensures Obliging(disk, bufSize) && (forall t: nat :: !cancelled(t)) && wb + size <= |disk.bytes| ==> ok
    {
      ghost var was, at := disk.bytes, Base(half);
      ghost var all := buffer[..];
      assert all[at..at + size] == buffer[at..at + size] && all[at..at + n] == buffer[at..at + n];
      ok := WriteOut(half, size, wb, cancelled);
      if ok && inStep && SamePrefix(was, image, wb) {
        SliceTwice(all, at, n, size);
        CopyFurther(disk.bytes, was, image, wb, n, size);
      }
    }

    /** One turn of the loop, and how much of the image it brought. */
    method Step(wb: nat, cancelled: nat -> bool) returns (ok: bool, size: nat, ghost n: nat)
      requires Valid() && wb < target && Asking(wb) && ReaderAt(wb) && disk.fp == wb
      modifies this, buffer, disk
      ensures Valid() && n <= bufSize && size == WholeSectors(n, sector) && |disk.bytes| == old(|disk.bytes|)
      ensures ok ==> Asking(wb + size) && ReaderAt(wb + size) && disk.fp == wb + size
      ensures ok ==> offset == old(offset) + n && wb + n <= target
      ensures ok && regular ==> old(regular) && (n % sector == 0 || wb + n == target)
      ensures ok && Fully() ==> n == Brought(old(offset), old(request), bufSize)
      ensures ok && n == 0 ==> disk.bytes == old(disk.bytes)
      ensures ok && old(offset) == wb && SamePrefix(old(disk.bytes), image, wb) ==>
                SamePrefix(disk.bytes, image, wb + n)
      ensures ok && n == 0 && Feeds() ==> offset >= |image|
      ensures old(regular) && ReadsFully() ==> regular
      ensures Smooth(cancelled) && old(launched) ==> ok && launched
    {
      var half := readHalf;
      ghost var inStep := offset == wb;
      ok, size, n := Receive(wb);
      Rounded(n, sector, bufSize);
      if ok {
        LaunchNext(wb, size, n);
        ChunkInside(0, wb + size, target, sector);
        ok := WriteChunk(half, size, wb, cancelled, n, inStep);
      }
    }

    /** Inside a short image, read in full: the pending read is where the writing is. */
    ghost predicate Inside(wb: nat)
      reads this, disk
    {
      offset == wb <= |image| && SamePrefix(disk.bytes, image, wb)
    }

    /** At the end of a short image: all of it is written, and the last sector is filled up. */
    ghost predicate AtEnd(wb: nat)
      reads this, disk
      requires sector > 0
    {
      offset == |image| && wb == RoundUp(|image|, sector) && SamePrefix(disk.bytes, image, |image|)
    }

    /** One turn of the loop. */
    method Turn(wb: nat, cancelled: nat -> bool) returns (ok: bool, size: nat)
      requires Valid() && wb < target && Asking(wb) && ReaderAt(wb) && CopiedTo(wb) && disk.fp == wb
      modifies this, buffer, disk
      ensures Valid() && size <= bufSize && |disk.bytes| == old(|disk.bytes|)
      ensures ok ==> Asking(wb + size) && ReaderAt(wb + size) && CopiedTo(wb + size) && disk.fp == wb + size
      ensures ok && size == 0 && Feeds() ==> offset >= |image|
      ensures old(regular) && ReadsFully() ==> regular
      ensures Smooth(cancelled) && old(launched) ==> ok && launched
      ensures ok && Fully() && |image| < target && old(Inside(wb) || AtEnd(wb)) ==>
                AtEnd(wb + size) || (size != 0 && Inside(wb + size))
    {
      ghost var n, o, bytes := 0, offset, disk.bytes;
      ok, size, n := Step(wb, cancelled);
      Rounded(n, sector, bufSize);
      if ok && Fully() && |image| < target {
        ShortStep(|image|, wb, target, sector, bufSize, o);
      }
    }

    /**
     The loop. With regular reads, a run that reaches the target has copied the image up to it, and has
     asked for data past the target if and only if the target is not a number of sectors. The loop also ends, and
     reports success, when a read brings nothing: if reads that may bring something do, exactly at the end of an image
     that is shorter than the target.
     */
    method Copy(cancelled: nat -> bool) returns (ok: bool, wb: nat)
      requires Valid() && readHalf == 0 && offset == 0 && !past && regular && disk.fp == 0
      modifies this, buffer, disk
      ensures Valid()
      ensures ok && regular && wb >= target ==> SamePrefix(disk.bytes, image, target)
      ensures ok && regular && wb < target ==> SamePrefix(disk.bytes, image, wb)
      ensures ok && regular ==> (past <==> wb >= target && target % sector != 0)
      ensures ok && Feeds() && target <= |image| ==> wb >= target
      ensures ok && Feeds() && regular && |image| < target ==> wb == |image|
      ensures ok && Fully() && |image| < target ==>
                wb == RoundUp(|image|, sector) && SamePrefix(disk.bytes, image, |image|)
      ensures ReadsFully() ==> regular
      ensures old(Smooth(cancelled)) ==> ok
    {
      Launch(Min(bufSize, target));
      var size := 1;
      wb := 0;
      while size != 0
        invariant Valid() && Asking(wb) && ReaderAt(wb) && CopiedTo(wb) && disk.fp == wb
        invariant |disk.bytes| == old(|disk.bytes|) && (ReadsFully() ==> regular) && (Smooth(cancelled) ==> launched)
        invariant size == 0 && Feeds() ==> offset >= |image|
        invariant Fully() && |image| < target ==> AtEnd(wb) || (size != 0 && Inside(wb))
        invariant wb <= target + bufSize
        decreases target + bufSize - wb, size
      {
        if wb >= target {
          break;
        }
        ok, size := Turn(wb, cancelled);
        if !ok {
          return;
        }
        wb := wb + size;
      }
      ok := true;
      AtTarget(wb, target, sector);
    }
  }

  /** A run in which nothing goes wrong copies the image. */
  method CopyWhole(c: Copier, cancelled: nat -> bool) returns (ok: bool)
    requires c.Valid() && c.readHalf == 0 && c.offset == 0 && !c.past && c.regular && c.disk.fp == 0
    requires c.Smooth(cancelled) && c.ReadsFully() && c.target <= |c.image|
    modifies c, c.buffer, c.disk
    ensures ok && SamePrefix(c.disk.bytes, c.image, c.target)
  {
    c.FullFeeds();
    var wb;
    ok, wb := c.Copy(cancelled);
  }

  /** Success short of the target: a smaller image, in full reads and with a drive that obliges. */
  method ShortImage(image: seq<Byte>) returns (c: Copier, ok: bool, wb: nat)
    requires |image| < 2048
    ensures ok && c.target == 2048 && wb == RoundUp(|image|, 512) && SamePrefix(c.disk.bytes, image, |image|)
  {
    var disk := new Disk(seq(2048, _ => 0), _ => Reply(true, 0x1_0000_0000, 0));
    c := new Copier(image, 512, 2048, _ => Moment(true, true, 0x1_0000_0000, []), disk);
    assert RoundUp(2048, 512) == 2048 && RoundUp(DD_BUFFER_SIZE, 512) == DD_BUFFER_SIZE;
    var never := _ => false;
    assert c.Smooth(never) && c.Fully();
    ok, wb := c.Copy(never);
  }

  /** A number of sectors less than one sector past the target is past it only if the target is not one. */
  lemma {:induction false} AtTarget(wb: nat, target: nat, sector: nat)
    requires sector > 0 && wb % sector == 0 && wb < target + sector
    ensures wb > target <==> wb >= target && target % sector != 0
  {
    if target % sector == 0 {
      MultiplesApart(wb, target, sector);
    }
  }

  /** A read that brings all it may, of an image that has the target's bytes or ends with a sector, is regular. */
  lemma {:induction false} FullRead(length: nat, wb: nat, target: nat, sector: nat, bufSize: nat, count: nat)
    requires sector > 0 && wb < target && wb % sector == 0 && bufSize % sector == 0 && count >= bufSize
    requires target <= length || length % sector == 0
    ensures wb <= length ==>
              var n := Min(Min(count, Min(bufSize, target - wb)), length - wb); n % sector == 0 || wb + n == target
  {
    if wb <= length && length % sector == 0 {
      DivUnique(length - wb, sector, length / sector - wb / sector, 0);
    }
  }

  /** s and t agree on their first n bytes, and have them. */
  ghost predicate SamePrefix(s: seq<Byte>, t: seq<Byte>, n: nat) {
    n <= |s| && n <= |t| && s[..n] == t[..n]
  }

  lemma {:induction false} SliceTwice(s: seq<Byte>, at: nat, n: nat, size: nat)
    requires n <= size && at + size <= |s|
    ensures s[at..at + size][..n] == s[at..at + n]
  {
  }

  /** A chunk that starts with the n bytes of the image at wb extends the copied prefix. */
  lemma {:induction false} CopyFurther(now: seq<Byte>, was: seq<Byte>, image: seq<Byte>, wb: nat, n: nat, size: nat)
    requires |now| == |was| && n <= size && wb + size <= |now|
    requires SamePrefix(was, image, wb) && SameOutside(now, was, wb, wb + size)
    requires n > 0 ==> wb + n <= |image| && now[wb..wb + size][..n] == image[wb..wb + n]
    ensures SamePrefix(now, image, wb + n)
  {
    assert now[..wb] == was[..wb];
    if n > 0 {
      assert now[..wb + n] == now[..wb] + now[wb..wb + size][..n];
      assert image[..wb + n] == image[..wb] + image[wb..wb + n];
    }
  }

  /** A full read of an image shorter than the target: a whole buffer, or up to the end of the image. */
  lemma {:induction false} ShortStep(length: nat, wb: nat, target: nat, sector: nat, bufSize: nat, offset: nat)
    requires 0 < sector && wb < target && wb % sector == 0 && bufSize % sector == 0 && length < target
    ensures offset == wb <= length ==>
              var n := Min(Min(bufSize, Min(bufSize, target - wb)), length - wb);
              && n == Min(bufSize, length - wb) && (n == bufSize ==> WholeSectors(n, sector) == n)
              && (n == length - wb ==> wb + WholeSectors(n, sector) == RoundUp(length, sector))
  {
    if wb <= length {
      RoundTail(length, wb, sector);
    }
  }

  lemma {:induction false} RoundTail(length: nat, wb: nat, sector: nat)
    requires 0 < sector && wb <= length && wb % sector == 0
    ensures wb + WholeSectors(length - wb, sector) == RoundUp(length, sector)
  {
    var a, b := wb + WholeSectors(length - wb, sector), RoundUp(length, sector);
    NextSector(wb, WholeSectors(length - wb, sector), sector);
    MultiplesApart(a, b, sector);
    MultiplesApart(b, a, sector);
  }

  /** A size rounded up to whole sectors, if it is not one already. */
  function WholeSectors(n: nat, sector: nat): nat
    requires sector > 0
  {
    if n % sector != 0 then RoundUp(n, sector) else n
  }

  /** The arithmetic of one turn with a read of n bytes. */
  lemma {:induction false} SizeStep(wb: nat, n: nat, target: nat, sector: nat, bufSize: nat)
    requires 0 < sector < 0x8000_0000 && 0 < bufSize < 0x1_0000_0000 && wb % sector == 0 && bufSize % sector == 0
    requires n <= bufSize && target < U64 && wb < target && wb + n <= target
    ensures var size, req := WholeSectors(n, sector), NextRequest(bufSize, target, wb + WholeSectors(n, sector));
            && (wb + size) % sector == 0 && n <= size && wb + size < target + sector
            && (wb + size <= target ==> req == Min(bufSize, target - (wb + size)))
            && (wb + size > target ==> req == bufSize)
            && (n % sector == 0 ==> size == n)
  {
    Rounded(n, sector, bufSize);
    RequestWraps(bufSize, target, wb + WholeSectors(n, sector));
    NextSector(wb, WholeSectors(n, sector), sector);
  }

  lemma {:induction false} Rounded(n: nat, sector: nat, bufSize: nat)
    requires 0 < sector && n <= bufSize && bufSize % sector == 0
    ensures n <= WholeSectors(n, sector) <= bufSize && WholeSectors(n, sector) % sector == 0
    ensures WholeSectors(n, sector) < n + sector && (n == 0 <==> WholeSectors(n, sector) == 0)
  {
    MultiplesApart(WholeSectors(n, sector), bufSize, sector);
  }
}
