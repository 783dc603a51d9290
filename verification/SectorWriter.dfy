/**
 The write override of src/format.c for image streams that do not come in whole
 sectors: a sector buffer in front of a device that only takes multiples of the
 sector size.
 */
module SectorWriter {
  import opened Common

  const GB := 0x4000_0000
  const MAX_SECTOR := 0x1_0000

  /** A device written at its end; the oracle says how much of each write it takes (negative for an error). */
  class Device {
    const accepts: (nat, nat) -> int
    var data: seq<Byte>
    var clock: nat
    ghost var requests: seq<nat>    // the size of every write so far

    constructor (accepts: (nat, nat) -> int)
      ensures this.accepts == accepts && data == [] && clock == 0 && requests == []
    {
      this.accepts := accepts;
      data, clock, requests := [], 0, [];
    }

    method Write(buf: seq<Byte>) returns (r: int)
      modifies this
      ensures r == Taken(accepts(old(clock), |buf|), |buf|)
      ensures data == old(data) + buf[..Accepted(r)]
      ensures clock == old(clock) + 1 && requests == old(requests) + [|buf|]
    {
      r := Taken(accepts(clock, |buf|), |buf|);
      data := data + buf[..Accepted(r)];
      clock := clock + 1;
      requests := requests + [|buf|];
    }
  }

  /** What _write returns: -1, or a count up to the size. */
  function Taken(a: int, n: nat): (r: int)
    ensures -1 <= r <= n
  {
    if a < 0 then -1 else if a > n then n else a
  }

  /** The device takes whole sectors or reports an error. */
  ghost predicate WholeSectors(d: Device, sec: nat)
    requires sec > 0
  {
    forall t: nat, n: nat :: Multiple(n, sec) ==> Multiple(Accepted(Taken(d.accepts(t, n), n)), sec)
  }

  /** The device takes all that is offered. */
  ghost predicate TakesAll(d: Device) {
    forall t: nat, n: nat :: Taken(d.accepts(t, n), n) == n
  }

  /** The device takes all of a write that is not of one sector. */
  ghost predicate TakesOthers(d: Device, sec: nat) {
    forall t: nat, n: nat :: n != sec ==> Taken(d.accepts(t, n), n) == n
  }

  ghost predicate Multiple(n: nat, sec: nat)
    requires sec > 0
  {
    n % sec == 0
  }

  /** The bytes that reached the device when a write returned r. */
  function Accepted(r: int): nat {
    if r < 0 then 0 else r
  }

  lemma {:induction false} MultipleOf(k: nat, sec: nat)
    requires sec > 0
    ensures k * sec >= 0 && Multiple(k * sec, sec)
  {
    DivUnique(k * sec, sec, k, 0);
  }

  lemma {:induction false} MultipleSum(a: nat, b: nat, sec: nat)
    requires sec > 0 && Multiple(a, sec) && Multiple(b, sec)
    ensures Multiple(a + b, sec)
  {
    DivUnique(a + b, sec, a / sec + b / sec, 0);
  }

  ghost predicate AllMultiples(sizes: seq<nat>, sec: nat)
    requires sec > 0
  {
    forall i :: 0 <= i < |sizes| ==> Multiple(sizes[i], sec)
  }

  lemma {:induction false} SmallMultiple(n: nat, sec: nat)
    requires sec > 0 && n % sec == 0
    ensures n < sec ==> n == 0
  {
  }

  lemma {:induction false} SplitStream(d: seq<Byte>, rest: seq<Byte>, k: nat)
    requires k <= |rest|
    ensures d + rest[..k][..k] + rest[k..] == d + rest
  {
    assert rest[..k][..k] + rest[k..] == rest;
  }

  method CopyInto(a: array<Byte>, at: nat, src: seq<Byte>)
    requires at + |src| <= a.Length
    modifies a
    ensures a[..at + |src|] == old(a[..at]) + src
  {
    ghost var before := a[..at];
    for i := 0 to |src|
      invariant a[..at + i] == before + src[..i]
    {
      a[at + i] := src[i];
      assert a[..at + i + 1] == a[..at + i] + [src[i]];
      assert before + src[..i] + [src[i]] == before + src[..i + 1];
    }
    assert src[..|src|] == src;
  }

  class Writer {
    const sec: nat                // sector size, after the default of 512 for a size of 0
    const secBuf: array<Byte>
    const device: Device
    var pos: nat                  // bytes waiting in the buffer

    ghost predicate Valid()
      reads this, device
    {
      0 < sec && secBuf.Length == sec && pos < sec && AllMultiples(device.requests, sec)
    }

    /** Everything handed over so far: what the device has, then what waits in the buffer. */
    ghost function Stream(): seq<Byte>
      requires pos <= secBuf.Length
      reads this, device, secBuf
    {
      device.data + secBuf[..pos]
    }

    constructor (sectorSize: nat, device: Device)
      requires device.requests == []
      ensures Valid() && this.device == device && pos == 0 && sec == (if sectorSize == 0 then 512 else sectorSize)
      ensures fresh(secBuf)
    {
      sec := if sectorSize == 0 then 512 else sectorSize;
      secBuf := new Byte[if sectorSize == 0 then 512 else sectorSize](_ => 0);
      this.device := device;
      pos := 0;
    }

    /** One write to the device. */
    method Send(bytes: seq<Byte>) returns (r: int)
      requires 0 < sec && AllMultiples(device.requests, sec) && Multiple(|bytes|, sec)
      modifies device
      ensures r == Taken(device.accepts(old(device.clock), |bytes|), |bytes|)
      ensures device.data == old(device.data) + bytes[..Accepted(r)]
      ensures AllMultiples(device.requests, sec)
      ensures WholeSectors(device, sec) ==> Multiple(Accepted(r), sec)
      ensures WholeSectors(device, sec) && Multiple(old(|device.data|), sec) ==> Multiple(|device.data|, sec)
      ensures TakesAll(device) || (TakesOthers(device, sec) && |bytes| != sec) ==> r == |bytes|
    {
      ghost var before := |device.data|;
      r := device.Write(bytes);
      if WholeSectors(device, sec) && Multiple(before, sec) {
        MultipleSum(before, Accepted(r), sec);
      }
    }

    /** Copy the first bytes of buf behind the waiting ones. */
    method TopUp(buf: seq<Byte>) returns (fill: nat)
      requires secBuf.Length == sec && pos <= sec
      modifies this`pos, secBuf
      ensures fill == Min(sec - old(pos), |buf|) && pos == old(pos) + fill
      ensures secBuf[..pos] == old(secBuf[..pos]) + buf[..fill]
    {
      fill := Min(sec - pos, |buf|);
      CopyInto(secBuf, pos, buf[..fill]);
      pos := pos + fill;
    }

    /** Write the full buffer. */
    method SendSector() returns (r: int)
      requires 0 < sec && secBuf.Length == sec && pos == sec && AllMultiples(device.requests, sec)
      modifies this`pos, device
      ensures Valid() && pos == 0
      ensures r == Taken(device.accepts(old(device.clock), sec), sec)
      ensures r == sec ==> device.data == old(Stream())
      ensures |device.data| == old(|device.data|) + Accepted(r)
      ensures WholeSectors(device, sec) ==> Multiple(Accepted(r), sec)
      ensures WholeSectors(device, sec) && Multiple(old(|device.data|), sec) ==> Multiple(|device.data|, sec)
      ensures TakesAll(device) ==> r == sec
    {
      pos := 0;
      assert secBuf[..sec] == secBuf[..];
      r := Send(secBuf[..]);
      if r == sec {
        assert secBuf[..][..sec] == secBuf[..];
      }
    }

    /** Whole sectors of rest to the device, what is left over to the buffer. */
    method SendRest(rest: seq<Byte>) returns (r: int)
      requires Valid() && pos == 0
      modifies this`pos, secBuf, device
      ensures Valid() && -1 <= r <= |rest|
      ensures r == |rest| ==> Stream() == old(device.data) + rest
      ensures r < |rest| ==> pos == 0 && |device.data| == old(|device.data|) + Accepted(r)
      ensures WholeSectors(device, sec) && Multiple(old(|device.data|), sec) ==> Multiple(|device.data|, sec)
      ensures TakesAll(device) || (TakesOthers(device, sec) && |rest| < sec) ==> r == |rest|
      ensures |rest| < sec ==> device.data == old(device.data)
    {
      var whole := (|rest| / sec) * sec;
      MultipleOf(|rest| / sec, sec);
      assert |rest| == whole + |rest| % sec;
      if |rest| < sec {
        DivUnique(|rest|, sec, 0, |rest|);
        assert whole == 0;
      }
      r := Send(rest[..whole]);
      if |rest| < sec {
        ConcatNil(old(device.data));
        assert rest[..whole][..Accepted(r)] == [];
      }
      if r == whole {
        pos := |rest| - whole;
        CopyInto(secBuf, 0, rest[whole..]);
        assert secBuf[..pos] == rest[whole..];
        r := |rest|;
        SplitStream(old(device.data), rest, whole);
      }
    }

    /** What the device answers to a write of one sector. */
    function Answer(t: nat): int {
      Taken(device.accepts(t, sec), sec)
    }

    /** The write override. */
    method SectorWrite(buf: seq<Byte>) returns (r: int)
      requires Valid()
      modifies this`pos, secBuf, device
      ensures Valid()
      ensures sec > MAX_SECTOR || |buf| > GB ==> r == -1 && Stream() == old(Stream())
      ensures sec <= MAX_SECTOR && |buf| <= GB && r == |buf| ==>
                (Stream() == old(Stream()) + buf <==> !Misleading(sec, old(pos), |buf|, Answer(old(device.clock))))
      ensures WholeSectors(device, sec) && Multiple(old(|device.data|), sec) ==> Multiple(|device.data|, sec)
      ensures TakesAll(device) && sec <= MAX_SECTOR && |buf| <= GB ==> r == |buf|
      ensures TakesOthers(device, sec) && sec <= MAX_SECTOR && |buf| <= GB && old(pos) + |buf| < sec ==> r == |buf|
      ensures old(pos) + |buf| < sec ==> device.data == old(device.data)
      ensures sec <= MAX_SECTOR && Misleading(sec, old(pos), |buf|, Answer(old(device.clock))) ==> r == |buf|
    {
      if sec > MAX_SECTOR || |buf| > GB {
        return -1;
      }
      if pos == 0 && |buf| % sec == 0 {
        r := Send(buf);
        SmallMultiple(|buf|, sec);
        ConcatNil(old(device.data));
        assert Stream() == device.data;
        return;
      }
      var fill := 0;
      if pos > 0 {
        fill := TopUp(buf);
        if pos < sec {
          return |buf|;
        }
        r := SendSector();
        if r != sec {
          return;
        }
      }
      var rest := SendRest(buf[fill..]);
      r := if rest < 0 then rest else fill + rest;
    }

    /** The decompressor's use of the override: chunk by chunk until one is not taken whole. */
    method WriteChunks(chunks: seq<seq<Byte>>) returns (ok: bool)
      requires Valid() && pos == 0 && device.data == [] && WholeSectors(device, sec)
      modifies this`pos, secBuf, device
      ensures Valid() && Multiple(|device.data|, sec)
      ensures ok ==> Stream() == Concat(chunks)
      ensures TakesAll(device) && sec <= MAX_SECTOR && (forall c <- chunks :: |c| <= GB) ==> ok
    {
      ok := true;
      MultipleOf(0, sec);
      for i := 0 to |chunks|
        invariant Valid() && Multiple(|device.data|, sec)
        invariant ok && Stream() == Concat(chunks[..i])
      {
        NotMisleading(device, sec, device.clock, pos, |chunks[i]|);
        var r := SectorWrite(chunks[i]);
        ConcatSnoc(chunks, i);
        if r != |chunks[i]| {
          return false;
        }
      }
      assert chunks[..|chunks|] == chunks;
    }

    /** Hand over a whole stream, then flush the partial sector without looking at the result. */
    method WriteStream(chunks: seq<seq<Byte>>) returns (ok: bool)
      requires Valid() && pos == 0 && device.data == [] && WholeSectors(device, sec)
      modifies this`pos, secBuf, device
      ensures Valid() && Multiple(|device.data|, sec)
      ensures TakesAll(device) && sec <= MAX_SECTOR && (forall c <- chunks :: |c| <= GB) ==> ok
      ensures ok ==> |device.data| < |Concat(chunks)| + sec
      ensures ok && TakesAll(device) ==> |Concat(chunks)| <= |device.data|
      ensures ok && |Concat(chunks)| <= |device.data| ==> device.data[..|Concat(chunks)|] == Concat(chunks)
    {
      ok := WriteChunks(chunks);
      if ok && pos != 0 {
        var _ := Send(secBuf[..]);
      }
    }
  }

  /**
   A short write of the topped-up sector whose byte count happens to be the size of the caller's buffer:
   the caller reads it as success.
   */
  predicate Misleading(sec: nat, pos: nat, count: nat, answer: int) {
    0 < pos && sec <= pos + count && count < sec && answer == count
  }

  /** A run that is misled: 100 bytes wait, 500 are offered, and the device takes 500 of the 512. */
  method LostBytes(first: seq<Byte>, second: seq<Byte>) returns (w: Writer, a: int, b: int)
    requires |first| == 100 && |second| == 500
    ensures w.Valid() && a == |first| && b == |second| && w.Stream() != first + second
  {
    var device := new Device((t, n) => if n == 512 then 500 else n);
    w := new Writer(512, device);
    a := w.SectorWrite(first);
    ghost var stream := w.Stream();
    b := w.SectorWrite(second);
    assert w.Stream() != stream + second;
  }

  lemma {:induction false} NotMisleading(d: Device, sec: nat, t: nat, pos: nat, count: nat)
    requires 0 < sec && pos < sec && WholeSectors(d, sec)
    ensures !Misleading(sec, pos, count, Taken(d.accepts(t, sec), sec))
  {
    MultipleOf(1, sec);
    assert Multiple(Accepted(Taken(d.accepts(t, sec), sec)), sec);
  }

  function Concat(chunks: seq<seq<Byte>>): seq<Byte>
  {
    if chunks == [] then [] else Concat(chunks[..|chunks| - 1]) + chunks[|chunks| - 1]
  }

  lemma {:induction false} ConcatSnoc(chunks: seq<seq<Byte>>, i: nat)
    requires i < |chunks|
    ensures Concat(chunks[..i + 1]) == Concat(chunks[..i]) + chunks[i]
  {
    assert chunks[..i + 1][..i] == chunks[..i];
  }
}
