/**
 The fixed patterns of src/badblocks.c: how they fill the buffer, and which blocks of the buffer are
 alike. A block that was written alone, from the start of the buffer, is compared as
 part of a batch with another block of it.
 */
module BadBlockFill {
  import opened Common
  import opened BadBlockList
  import opened BadBlockTest
  import opened BadBlockPace
  import opened BadBlockRun

  /** The bytes of a number, least significant first, without leading zeros. */
  function PatternBytes(pattern: nat, n: nat): (w: seq<Byte>)
    ensures |w| <= n
  {
    if pattern == 0 || n == 0 then [] else [pattern % 256] + PatternBytes(pattern / 256, n - 1)
  }

  /** The bytes of a 32-bit pattern as pattern_fill takes them apart; the pattern 0 has one. */
  function Pattern(pattern: nat): (w: seq<Byte>)
    ensures w != []
  {
    if pattern == 0 then [0] else PatternBytes(pattern, 4)
  }

  /** The x-th byte of the buffer: the pattern from its most significant byte down, over and over. */
  function PatternByte(w: seq<Byte>, x: nat): Byte
    requires w != []
  {
    w[|w| - 1 - x % |w|]
  }

  lemma {:induction false} Cycle(x: nat, n: nat)
    requires n > 0
    ensures (x + 1) % n == if x % n == n - 1 then 0 else x % n + 1
  {
    if x % n == n - 1 {
      DivUnique(x + 1, n, x / n + 1, 0);
    } else {
      DivUnique(x + 1, n, x / n, x % n + 1);
    }
  }

  /** The loop of pattern_fill over the buffer, with an index that counts down and starts over. */
  method PatternFill(w: seq<Byte>, size: nat) returns (buffer: array<Byte>)
    requires w != []
    ensures buffer.Length == size && forall x :: 0 <= x < size ==> buffer[x] == PatternByte(w, x)
  {
    buffer := new Byte[size];
    var i := |w| - 1;
    for x := 0 to size
      invariant i == |w| - 1 - x % |w|
      invariant forall k :: 0 <= k < x ==> buffer[k] == PatternByte(w, k)
    {
      buffer[x] := w[i];
      Cycle(x, |w|);
      i := if i == 0 then |w| - 1 else i - 1;
    }
  }

  /** The i-th block of the buffer. */
  function PatternBlock(w: seq<Byte>, size: nat, i: nat): Block
    requires w != []
  {
    seq<Byte>(size, j requires 0 <= j => PatternByte(w, i * size + j))
  }

  /** A pattern of one byte fills every block alike. */
  lemma {:induction false} OneByteAlike(w: seq<Byte>, size: nat, i: nat, k: nat)
    requires |w| == 1
    ensures PatternBlock(w, size, i) == PatternBlock(w, size, k)
  {
    assert forall x: nat :: PatternByte(w, x) == w[0];
  }

  /** Where a block of half a megabyte starts in a pattern of three bytes. */
  lemma {:induction false} StartsAt(i: nat, j: nat)
    ensures (i * BLOCK_SIZE + j) % 3 == (2 * i + j) % 3
  {
    assert i * BLOCK_SIZE + j == 3 * (i * 174762) + (2 * i + j);
  }

  lemma {:induction false} ByteOfBlock(w: seq<Byte>, i: nat, j: nat, r: nat)
    requires |w| == 3 && j < BLOCK_SIZE && r == (2 * i + j) % 3
    ensures PatternBlock(w, BLOCK_SIZE, i)[j] == w[2 - r]
  {
    StartsAt(i, j);
    ThreeBytes(w, i * BLOCK_SIZE + j);
  }

  lemma {:induction false} ThreeBytes(w: seq<Byte>, x: nat)
    requires |w| == 3
    ensures PatternByte(w, x) == w[2 - x % 3]
  {
  }

  /** A pattern of three bytes that are not all the same fills every third block alike, and no others. */
  lemma {:induction false} ThreeBytesAlike(w: seq<Byte>, i: nat)
    requires |w| == 3 && !(w[0] == w[1] == w[2])
    ensures PatternBlock(w, BLOCK_SIZE, i) == PatternBlock(w, BLOCK_SIZE, 0) <==> i % 3 == 0
  {
    if i % 3 == 0 {
      EveryThird(w, i);
    } else {
      ByteOfBlock(w, i, 0, 2 * i % 3);
      ByteOfBlock(w, i, 1, (2 * i + 1) % 3);
      ByteOfBlock(w, i, 2, (2 * i + 2) % 3);
      ByteOfBlock(w, 0, 0, 0);
      ByteOfBlock(w, 0, 1, 1);
      ByteOfBlock(w, 0, 2, 2);
    }
  }

  lemma {:induction false} ThirdPlace(i: nat, j: nat)
    requires i % 3 == 0
    ensures (2 * i + j) % 3 == j % 3
  {
    DivUnique(2 * i + j, 3, 2 * (i / 3) + j / 3, j % 3);
  }

  lemma {:induction false} EveryThird(w: seq<Byte>, i: nat)
    requires |w| == 3 && i % 3 == 0
    ensures PatternBlock(w, BLOCK_SIZE, i) == PatternBlock(w, BLOCK_SIZE, 0)
  {
    var a, b := PatternBlock(w, BLOCK_SIZE, i), PatternBlock(w, BLOCK_SIZE, 0);
    forall j | 0 <= j < BLOCK_SIZE ensures a[j] == b[j] {
      ThirdPlace(i, j);
      ByteOfBlock(w, i, j, j % 3);
      ByteOfBlock(w, 0, j, j % 3);
    }
  }

  /** A pass whose buffer is filled with a fixed pattern. */
  ghost predicate FilledWith(p: Pass, w: seq<Byte>)
    requires w != []
  {
    |p.fill| == BLOCKS_AT_ONCE && forall i :: 0 <= i < |p.fill| ==> p.fill[i] == PatternBlock(w, BLOCK_SIZE, i)
  }

  /** With a pattern of one byte all places of the buffer are alike, stamped or not. */
  lemma {:induction false} OneBytePass(p: Pass, w: seq<Byte>)
    requires |w| == 1 && FilledWith(p, w) && PassOk(p)
    ensures Alike(p)
  {
    forall b: nat | p.first <= b ensures Filled(p, 0, b) == Content(p, b) {
      OneByteAlike(w, BLOCK_SIZE, (b - p.first) % BLOCKS_AT_ONCE, 0);
    }
  }

  /**
   With a pattern of three bytes, a block that was written from the start of the buffer is taken for a corrupted one
   exactly if its place in the batch is not a multiple of three.
   */
  lemma {:induction false} ThreeBytePass(p: Pass, w: seq<Byte>, b: nat)
    requires |w| == 3 && !(w[0] == w[1] == w[2]) && FilledWith(p, w) && !p.stamped && PassOk(p) && p.first <= b
    ensures Filled(p, 0, b) != Content(p, b) <==> (b - p.first) % BLOCKS_AT_ONCE % 3 != 0
  {
    ThreeBytesAlike(w, (b - p.first) % BLOCKS_AT_ONCE);
  }

  /** A medium that takes single blocks only, and takes and returns every one of them. */
  ghost predicate TakesSingles(m: Medium) {
    RefusesBatches(m) && WritesFailAt(m, iset{}) && ReadsOk(m)
  }

  /** A set of numbers below n has at most n of them. */
  lemma {:induction false} FewBelow(s: set<nat>, n: nat)
    requires forall b :: b in s ==> b < n
    ensures |s| <= n
    decreases n
  {
    if n > 0 {
      FewBelow(s - {n - 1}, n - 1);
      SubsetSize(s, (s - {n - 1}) + {n - 1});
    } else {
      assert s == {};
    }
  }

  /** What such a medium and a three-byte pattern come to: every trace gives up nothing and misplaces these blocks. */
  lemma {:induction false} SinglesListed(p: Pass, w: seq<Byte>, tr: Trace, last: nat, reached: nat, b: nat)
    requires |w| == 3 && !(w[0] == w[1] == w[2]) && FilledWith(p, w) && !p.stamped && PassOk(p)
    requires Traces(tr, p.first, reached) && FailsAt(tr, p.first, reached, iset{})
    ensures b !in tr.fails && (b in tr.acks <==> p.first <= b < reached)
    ensures p.first <= b ==> (Filled(p, 0, b) != Content(p, b) <==> (b - p.first) % BLOCKS_AT_ONCE % 3 != 0)
  {
    if p.first <= b {
      ThreeBytePass(p, w, b);
    }
  }

  /** A test of few blocks on such a medium, with a three-byte pattern, lists two good blocks out of three. */
  method TestSingles(t: Tester, p: Pass, w: seq<Byte>)
    requires t.Valid() && t.bbCount == 0 && t.recover == None && !t.cancelled && t.Unattended()
    requires |w| == 3 && !(w[0] == w[1] == w[2]) && FilledWith(p, w) && !p.stamped && PassOk(p)
    requires p.first <= t.last < MAX_BB && t.last * t.blockSize < PB
    requires TakesSingles(t.medium) && t.NoneLost(p.first)
    modifies t, t.bb, t.bb.list, t.medium
    ensures t.Valid()
    ensures forall b: nat :: b in t.bb.Blocks() <==> p.first <= b < t.last && (b - p.first) % BLOCKS_AT_ONCE % 3 != 0
  {
    assert t.bb.Blocks() == {};
    var compared, aborted;
    ghost var tr, reached;
    compared, aborted, tr, reached := t.RunPass(p, iset{});
    forall b: nat
      ensures b !in tr.fails && (b in tr.acks <==> p.first <= b < reached)
      ensures p.first <= b ==> (Filled(p, 0, b) != Content(p, b) <==> (b - p.first) % BLOCKS_AT_ONCE % 3 != 0)
    {
      SinglesListed(p, w, tr, t.last, reached, b);
    }
    FewBelow(t.bb.Blocks(), t.last);
    CountIsLength(t.bb.list[..t.bb.num]);
  }

  /** Such a run: of two good blocks the second is listed. */
  method FalseAlarm() returns (t: Tester)
    ensures t.Valid() && t.last == 2 && TakesSingles(t.medium) && t.bb.Blocks() == {1}
  {
    var w := [0xc7, 0x71, 0x1c];
    var p := Pass(0, seq(BLOCKS_AT_ONCE, i requires 0 <= i => PatternBlock(w, BLOCK_SIZE, i)), false, 0);
    var medium := new Medium(b => b, (t, b, n) => if n == 1 then 1 else 0, (t, b, n) => n, (t, b, x) => x, []);
    var bb := new U64List(0);
    t := new Tester(bb, medium, 2, BLOCK_SIZE, _ => false);
    TestSingles(t, p, w);
  }

  /** The patterns for flash with three bits to a cell are such patterns; most others have one byte. */
  lemma {:induction false} FlashPatterns()
    ensures Pattern(0x1c71c7) == [0xc7, 0x71, 0x1c] && Pattern(0xe38e38) == [0x38, 0x8e, 0xe3]
    ensures Pattern(0) == [0] && Pattern(0xff) == [0xff] && Pattern(0x55) == [0x55]
  {
    assert PatternBytes(0x1c, 2) == [0x1c] && PatternBytes(0xe3, 2) == [0xe3];
    assert PatternBytes(0x1c71, 3) == [0x71, 0x1c] && PatternBytes(0xe38e, 3) == [0x8e, 0xe3];
  }
}
