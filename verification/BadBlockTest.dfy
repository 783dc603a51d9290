/**
 The write/read test of src/badblocks.c: batches that fall back to single
 blocks, and block numbers stamped into the first pass to find media that report
 more capacity than they have. The medium is an oracle: it decides how many blocks
 of each request it acknowledges, where a block is stored and what is read back.
 */
module BadBlockTest {
  import opened Common

  type Block = seq<Byte>

  const PB := 0x4_0000_0000_0000   // 2^50

  // ---------------------------------------------------------------- the medium

  /** The cells after `data` is stored for the blocks from `first` on. */
  function Stored(cell: nat -> nat, cells: map<nat, Block>, first: nat, data: seq<Block>): map<nat, Block> {
    if data == [] then cells
    else Stored(cell, cells, first, data[..|data| - 1])[cell(first + |data| - 1) := data[|data| - 1]]
  }

  /** The numbers from a up to b. */
  function Range(a: nat, b: nat): seq<nat>
    requires a <= b
  {
    seq(b - a, i requires 0 <= i => a + i)
  }

  class Medium {
    const cell: nat -> nat                    // where a block is stored
    const written: (nat, nat, nat) -> nat     // blocks acknowledged for a write (request number, first block, count)
    const readable: (nat, nat, nat) -> nat    // the same for a read
    const noise: (nat, nat, Block) -> Block   // what a read returns (request number, block, stored contents)
    const blank: Block
    var cells: map<nat, Block>
    var clock: nat                            // requests so far
    ghost var acked: seq<nat>                 // the blocks of all acknowledged writes, in order

    constructor (cell: nat -> nat, written: (nat, nat, nat) -> nat, readable: (nat, nat, nat) -> nat,
                 noise: (nat, nat, Block) -> Block, blank: Block)
      ensures this.cell == cell && this.written == written && this.readable == readable && this.noise == noise
      ensures this.blank == blank && cells == map[] && clock == 0 && acked == []
    {
      this.cell, this.written, this.readable, this.noise, this.blank := cell, written, readable, noise, blank;
      cells, clock, acked := map[], 0, [];
    }

    /** What the medium returns for a block when its cells hold this. */
    function HeldIn(cells: map<nat, Block>, b: nat): Block {
      if cell(b) in cells then cells[cell(b)] else blank
    }

    function Held(b: nat): Block
      reads this`cells
    {
      HeldIn(cells, b)
    }

    /** do_write */
    method Write(first: nat, data: seq<Block>) returns (got: nat)
      modifies this
      ensures got == Min(written(old(clock), first, |data|), |data|)
      ensures cells == Stored(cell, old(cells), first, data[..got])
      ensures clock == old(clock) + 1 && acked == old(acked) + Range(first, first + got)
    {
      got := Min(written(clock, first, |data|), |data|);
      acked := acked + Range(first, first + got);
      cells := Stored(cell, cells, first, data[..got]);
      clock := clock + 1;
    }

    /** do_read */
    method Read(first: nat, count: nat) returns (got: nat, data: seq<Block>)
      modifies this`clock
      ensures got == Min(readable(old(clock), first, count), count) == |data|
      ensures forall k :: 0 <= k < got ==> data[k] == noise(old(clock), first + k, Held(first + k))
      ensures clock == old(clock) + 1
    {
      got := Min(readable(clock, first, count), count);
      data := seq(got, k requires 0 <= k < got reads this => noise(clock, first + k, Held(first + k)));
      clock := clock + 1;
    }
  }

  /** Every write is acknowledged in full. */
  ghost predicate WritesOk(m: Medium) {
    forall t: nat, b: nat, n: nat :: m.written(t, b, n) >= n
  }

  /** Every read is acknowledged in full and returns what is held. */
  ghost predicate ReadsOk(m: Medium) {
    && (forall t: nat, b: nat, n: nat :: m.readable(t, b, n) >= n)
    && (forall t: nat, b: nat, x: Block :: m.noise(t, b, x) == x)
  }

  ghost predicate ErrorFree(m: Medium) {
    WritesOk(m) && ReadsOk(m)
  }

  /** Writes fail exactly at the bad blocks: never counted past one, and faithful one block at a time. */
  ghost predicate WritesFailAt(m: Medium, bad: iset<nat>) {
    && (forall t: nat, b: nat, n: nat, c: nat :: c in bad && b <= c < b + n ==> m.written(t, b, n) <= c - b)
    && (forall t: nat, b: nat :: b !in bad ==> m.written(t, b, 1) >= 1)
  }

  // ---------------------------------------------------------------- stamps

  /** A number as eight octets, least significant first. */
  function Octets(v: nat, n: nat): seq<Byte> {
    if n == 0 then [] else [v % 256] + Octets(v / 256, n - 1)
  }

  function Pow256(n: nat): nat {
    if n == 0 then 1 else 256 * Pow256(n - 1)
  }

  lemma {:induction false} OctetsLength(v: nat, n: nat)
    ensures |Octets(v, n)| == n
    decreases n
  {
    if n > 0 {
      OctetsLength(v / 256, n - 1);
    }
  }

  /** Different numbers have different octets. */
  lemma {:induction false} OctetsInjective(v: nat, w: nat, n: nat)
    requires v < Pow256(n) && w < Pow256(n) && Octets(v, n) == Octets(w, n)
    ensures v == w
    decreases n
  {
    if n > 0 {
      var a, b := Octets(v, n), Octets(w, n);
      assert a[0] == v % 256 && b[0] == w % 256;
      assert a[1..] == Octets(v / 256, n - 1) && b[1..] == Octets(w / 256, n - 1);
      OctetsInjective(v / 256, w / 256, n - 1);
    }
  }

  /** Eight octets at an offset of a block. */
  function Stamp(b: Block, off: nat, id: nat): Block
    requires off + 8 <= |b|
  {
    b[..off] + Octets(id, 8) + b[off + 8..]
  }

  /** Blocks with different stamps differ. */
  lemma {:induction false} StampsDiffer(a: Block, b: Block, off: nat, i: nat, j: nat)
    requires off + 8 <= |a| && off + 8 <= |b| && i < Pow256(8) && j < Pow256(8) && i != j
    ensures Stamp(a, off, i) != Stamp(b, off, j)
  {
    OctetsLength(i, 8);
    OctetsLength(j, 8);
    assert Stamp(a, off, i)[off..off + 8] == Octets(i, 8);
    assert Stamp(b, off, j)[off..off + 8] == Octets(j, 8);
    if Octets(i, 8) == Octets(j, 8) {
      OctetsInjective(i, j, 8);
    }
  }

  // ---------------------------------------------------------------- what the medium holds

  /** What a pass writes for block b: a block of the pattern buffer, with the block number stamped in if asked. */
  datatype Pass = Pass(first: nat, fill: seq<Block>, stamped: bool, off: nat)

  ghost predicate PassOk(p: Pass) {
    p.fill != [] && (p.stamped ==> forall i :: 0 <= i < |p.fill| ==> p.off + 8 <= |p.fill[i]|)
  }

  function Filled(p: Pass, i: nat, b: nat): Block
    requires PassOk(p) && i < |p.fill|
  {
    if p.stamped then Stamp(p.fill[i], p.off, b) else p.fill[i]
  }

  ghost function Content(p: Pass, b: nat): Block
    requires PassOk(p) && p.first <= b
  {
    Filled(p, (b - p.first) % |p.fill|, b)
  }

  /** No block after b, before `to`, is stored in the same cell. */
  ghost predicate Last(cell: nat -> nat, b: nat, to: nat) {
    forall c: nat :: b < c < to ==> cell(c) != cell(b)
  }

  /** Each block written so far is held, unless a later one took its cell. */
  ghost predicate Holds(cell: nat -> nat, cells: map<nat, Block>, p: Pass, to: nat)
    requires PassOk(p)
  {
    forall b: nat :: p.first <= b < to && Last(cell, b, to) ==> cell(b) in cells && cells[cell(b)] == Content(p, b)
  }

  lemma {:induction false} HoldsOne(cell: nat -> nat, cells: map<nat, Block>, p: Pass, to: nat)
    requires PassOk(p) && p.first <= to && Holds(cell, cells, p, to)
    ensures Holds(cell, cells[cell(to) := Content(p, to)], p, to + 1)
  {
    forall b: nat | p.first <= b < to && Last(cell, b, to + 1)
      ensures cell(b) in cells && cells[cell(b)] == Content(p, b) && cell(b) != cell(to)
    {
      assert Last(cell, b, to);
    }
  }

  /** Storing the next blocks of the pass keeps the invariant. */
  lemma {:induction false} HoldsMore(cell: nat -> nat, cells: map<nat, Block>, p: Pass, to: nat, data: seq<Block>)
    requires PassOk(p) && p.first <= to && Holds(cell, cells, p, to)
    requires forall k :: 0 <= k < |data| ==> data[k] == Content(p, to + k)
    ensures Holds(cell, Stored(cell, cells, to, data), p, to + |data|)
  {
    if data != [] {
      var n := |data| - 1;
      HoldsMore(cell, cells, p, to, data[..n]);
      HoldsOne(cell, Stored(cell, cells, to, data[..n]), p, to + n);
    }
  }

  /** The block whose contents a cell ends up with. */
  lemma {:induction false} LastSharer(cell: nat -> nat, b: nat, to: nat) returns (c: nat)
    requires b < to
    ensures b <= c < to && cell(c) == cell(b) && Last(cell, c, to)
  {
    c := b;
    var d := b + 1;
    while d < to
      invariant b <= c < d <= to && cell(c) == cell(b) && Last(cell, c, d)
    {
      if cell(d) == cell(b) {
        c := d;
      }
      d := d + 1;
    }
  }

  // ---------------------------------------------------------------- who attends to which block

  ghost predicate Increasing(s: seq<nat>) {
    forall i, j :: 0 <= i < j < |s| ==> s[i] < s[j]
  }

  /** Every block from one to another was acknowledged or given up, each once, in order, and none was both. */
  ghost predicate Attended(acks: seq<nat>, fails: seq<nat>, from: nat, to: nat) {
    && Increasing(acks) && Increasing(fails)
    && (forall b: nat :: b in acks || b in fails <==> from <= b < to)
    && (forall b: nat :: !(b in acks && b in fails))
  }

  lemma {:induction false} RangeHas(a: nat, b: nat, x: nat)
    requires a <= b
    ensures x in Range(a, b) <==> a <= x < b
  {
    if a <= x < b {
      assert Range(a, b)[x - a] == x;
    }
  }

  lemma {:induction false} AcksMore(acks: seq<nat>, fails: seq<nat>, from: nat, ct: nat, got: nat)
    requires from <= ct && Attended(acks, fails, from, ct)
    ensures Attended(acks + Range(ct, ct + got), fails, from, ct + got)
  {
    var r := Range(ct, ct + got);
    forall b: nat ensures b in acks + r <==> b in acks || ct <= b < ct + got {
      RangeHas(ct, ct + got, b);
    }
    forall i | 0 <= i < |acks| ensures acks[i] < ct {
      assert acks[i] in acks;
    }
    assert forall i :: 0 <= i < |r| ==> r[i] == ct + i;
  }

  lemma {:induction false} FailsMore(acks: seq<nat>, fails: seq<nat>, from: nat, ct: nat)
    requires from <= ct && Attended(acks, fails, from, ct)
    ensures Attended(acks, fails + Range(ct, ct + 1), from, ct + 1)
  {
    assert Range(ct, ct + 1) == [ct];
    forall i | 0 <= i < |fails| ensures fails[i] < ct {
      assert fails[i] in fails;
    }
    forall b: nat ensures b in fails + [ct] <==> b in fails || b == ct {
    }
  }

  // ---------------------------------------------------------------- which block of the buffer was written

  /** After a write of `got` blocks from ct on: the place in the buffer that each block was written from. */
  ghost function Placed(src: imap<nat, nat>, ct: nat, got: nat): (r: imap<nat, nat>)
    ensures forall b: nat :: b in r <==> b in src || ct <= b < ct + got
    ensures forall b: nat :: b in r ==> r[b] == if ct <= b < ct + got then b - ct else src[b]
  {
    imap b: nat | b in src || ct <= b < ct + got :: if ct <= b < ct + got then b - ct else src[b]
  }

  /** What a write loop did: the blocks acknowledged, the blocks given up, and the places in the buffer. */
  datatype Trace = Trace(acks: seq<nat>, fails: seq<nat>, src: imap<nat, nat>)

  /** The trace attends to the blocks from one to another, and has a place for each acknowledged one. */
  ghost predicate Traces(tr: Trace, from: nat, to: nat) {
    Attended(tr.acks, tr.fails, from, to) && forall b: nat :: b in tr.src <==> b in tr.acks
  }

  /** The trace after a turn that acknowledges the blocks up to ct + got and gives up those from there to next. */
  ghost function Traced(tr: Trace, ct: nat, got: nat, next: nat): Trace
    requires ct + got <= next
  {
    Trace(tr.acks + Range(ct, ct + got), tr.fails + Range(ct + got, next), Placed(tr.src, ct, got))
  }

  lemma {:induction false} TracesStart(from: nat)
    ensures Traces(Trace([], [], imap[]), from, from)
  {
  }

  lemma {:induction false} TracesMore(tr: Trace, from: nat, ct: nat, got: nat, next: nat)
    requires from <= ct && Traces(tr, from, ct) && (next == ct + got || (got == 0 && next == ct + 1))
    ensures Traces(Traced(tr, ct, got, next), from, next)
  {
    AcksMore(tr.acks, tr.fails, from, ct, got);
    var acks := tr.acks + Range(ct, ct + got);
    if next == ct + got {
      ConcatNil(tr.fails);
      assert Range(next, next) == [];
    } else {
      FailsMore(acks, tr.fails, from, ct);
    }
    forall b: nat ensures b in Placed(tr.src, ct, got) <==> b in acks {
      RangeHas(ct, ct + got, b);
    }
  }

  /** The blocks given up are the bad ones. */
  ghost predicate FailsAt(tr: Trace, from: nat, to: nat, bad: iset<nat>) {
    forall b: nat :: from <= b < to ==> (b in bad <==> b in tr.fails)
  }

  lemma {:induction false} FailsGrow(tr: Trace, from: nat, ct: nat, got: nat, next: nat, bad: iset<nat>)
    requires from <= ct && Traces(tr, from, ct) && ct + got <= next
    ensures forall b: nat :: b in Traced(tr, ct, got, next).fails <==> b in tr.fails || ct + got <= b < next
    ensures FailsAt(tr, from, ct, bad) && (forall b: nat :: ct <= b < next ==> (b in bad <==> ct + got <= b)) ==>
              FailsAt(Traced(tr, ct, got, next), from, next, bad)
    ensures next == ct + got && tr.fails == [] ==> Traced(tr, ct, got, next).fails == []
  {
    forall b: nat ensures b in Traced(tr, ct, got, next).fails <==> b in tr.fails || ct + got <= b < next {
      RangeHas(ct + got, next, b);
    }
    assert forall b: nat :: b in tr.fails ==> b < ct;
  }

  /** The test stores no two of its blocks in the same cell. */
  ghost predicate Apart(cell: nat -> nat, first: nat, last: nat) {
    forall b: nat, c: nat :: first <= b < c < last ==> cell(b) != cell(c)
  }

  /** What a cell holds for a block: what was written from its place in the buffer, or else what it held before. */
  ghost predicate CellKeeps(cells: map<nat, Block>, was: map<nat, Block>, at: nat, p: Pass, src: imap<nat, nat>, b: nat)
    requires PassOk(p)
  {
    if b in src then src[b] < |p.fill| && at in cells && cells[at] == Filled(p, src[b], b)
    else (at in cells <==> at in was) && (at in was ==> cells[at] == was[at])
  }

  ghost predicate Keeps(cell: nat -> nat, cells: map<nat, Block>, was: map<nat, Block>, p: Pass, src: imap<nat, nat>,
                        last: nat)
    requires PassOk(p)
  {
    forall b: nat :: p.first <= b < last ==> CellKeeps(cells, was, cell(b), p, src, b)
  }

  /** What storing blocks does to the cell of one block. */
  lemma {:induction false} StoredAt(cell: nat -> nat, cells: map<nat, Block>, lo: nat, last: nat, ct: nat,
                                    data: seq<Block>, b: nat)
    requires Apart(cell, lo, last) && lo <= b < last && lo <= ct && ct + |data| <= last
    ensures var s := Stored(cell, cells, ct, data);
            if ct <= b < ct + |data| then cell(b) in s && s[cell(b)] == data[b - ct]
            else (cell(b) in s <==> cell(b) in cells) && (cell(b) in cells ==> s[cell(b)] == cells[cell(b)])
    decreases |data|
  {
    if data != [] {
      var n := |data| - 1;
      StoredAt(cell, cells, lo, last, ct, data[..n], b);
      assert b != ct + n ==> cell(b) != cell(ct + n);
    }
  }

  /** Storing blocks of the buffer for the blocks from ct on. */
  lemma {:induction false} KeepsMore(cell: nat -> nat, cells: map<nat, Block>, was: map<nat, Block>, p: Pass,
                                     src: imap<nat, nat>,
                                     last: nat, ct: nat, data: seq<Block>)
    requires PassOk(p) && Apart(cell, p.first, last) && Keeps(cell, cells, was, p, src, last)
    requires p.first <= ct && ct + |data| <= last && |data| <= |p.fill|
    requires forall i :: 0 <= i < |data| ==> data[i] == Filled(p, i, ct + i)
    ensures Keeps(cell, Stored(cell, cells, ct, data), was, p, Placed(src, ct, |data|), last)
  {
    forall b: nat | p.first <= b < last
      ensures CellKeeps(Stored(cell, cells, ct, data), was, cell(b), p, Placed(src, ct, |data|), b)
    {
      assert CellKeeps(cells, was, cell(b), p, src, b);
      StoredAt(cell, cells, p.first, last, ct, data, b);
    }
  }

  /** The blocks that a later block of the test overwrites. */
  ghost predicate Overwritten(cell: nat -> nat, b: nat, last: nat) {
    exists c: nat :: b < c < last && cell(c) == cell(b)
  }

  /** No block is overwritten if and only if no two share a cell. */
  lemma {:induction false} LostIffShared(cell: nat -> nat, first: nat, last: nat)
    ensures (forall b: nat :: first <= b < last ==> !Overwritten(cell, b, last)) <==> Apart(cell, first, last)
  {
    if Apart(cell, first, last) {
      forall b: nat | first <= b < last ensures !Overwritten(cell, b, last) {
      }
    } else {
      var b: nat, c: nat :| first <= b < c < last && cell(b) == cell(c);
      assert Overwritten(cell, b, last);
    }
  }

  /** A stamped pass writes something different for every block. */
  lemma {:induction false} ContentsDiffer(p: Pass, b: nat, c: nat)
    requires PassOk(p) && p.stamped && p.first <= b < Pow256(8) && p.first <= c < Pow256(8) && b != c
    ensures Content(p, b) != Content(p, c)
  {
    var i, j := (b - p.first) % |p.fill|, (c - p.first) % |p.fill|;
    StampsDiffer(p.fill[i], p.fill[j], p.off, b, c);
  }

  /** In a stamped pass a block compares equal exactly when no later block took its cell. */
  lemma {:induction false} StampedCompare(cell: nat -> nat, cells: map<nat, Block>, p: Pass, last: nat, b: nat)
    requires PassOk(p) && p.stamped && p.first <= b < last <= Pow256(8) && Holds(cell, cells, p, last)
    ensures cell(b) in cells
    ensures cells[cell(b)] != Content(p, b) <==> Overwritten(cell, b, last)
  {
    var c := LastSharer(cell, b, last);
    assert cell(c) in cells && cells[cell(c)] == Content(p, c);
    if c != b {
      ContentsDiffer(p, b, c);
    }
  }

  /** In any pass, a block that no later block overwrites compares equal. */
  lemma {:induction false} PlainCompare(cell: nat -> nat, cells: map<nat, Block>, p: Pass, last: nat, b: nat)
    requires PassOk(p) && p.first <= b < last && Holds(cell, cells, p, last) && !Overwritten(cell, b, last)
    ensures cell(b) in cells && cells[cell(b)] == Content(p, b)
  {
    assert Last(cell, b, last);
  }

  /** A medium of a smaller capacity than it claims: block numbers wrap around. */
  ghost predicate Wraps(cell: nat -> nat, capacity: nat) {
    capacity > 0 && forall x: nat :: cell(x) == x % capacity
  }

  /**
   A medium that wraps around after `capacity` blocks overwrites exactly the blocks
   that lie more than a capacity before the end; one that stores blocks apart, none.
   */
  lemma {:induction false} WrapOverwrites(cell: nat -> nat, capacity: nat, b: nat, last: nat)
    requires Wraps(cell, capacity)
    ensures Overwritten(cell, b, last) <==> b + capacity < last
  {
    if b + capacity < last {
      ModShift(b, capacity);
      assert cell(b + capacity) == cell(b);
    }
    if c: nat :| b < c < last && cell(c) == cell(b) {
      ModGap(b, c, capacity);
    }
  }

  /** So such a medium loses a block exactly when it is tested past its capacity. */
  lemma {:induction false} WrapLoses(cell: nat -> nat, capacity: nat, last: nat)
    requires Wraps(cell, capacity)
    ensures (forall b: nat :: b < last ==> !Overwritten(cell, b, last)) <==> last <= capacity
  {
    WrapOverwrites(cell, capacity, 0, last);
    forall b: nat | b < last ensures Overwritten(cell, b, last) <==> b + capacity < last {
      WrapOverwrites(cell, capacity, b, last);
    }
  }

  lemma {:induction false} ModShift(b: nat, m: nat)
    requires m > 0
    ensures (b + m) % m == b % m
  {
    var q, r := b / m, b % m;
    assert b + m == (q + 1) * m + r;
    DivUnique(b + m, m, q + 1, r);
  }

  lemma {:induction false} ModGap(b: nat, c: nat, m: nat)
    requires m > 0 && b < c && c % m == b % m
    ensures b + m <= c
  {
    var e := c / m - b / m;
    assert c - b == e * m by {
      assert c == (c / m) * m + c % m && b == (b / m) * m + b % m;
    }
    assert e <= 0 ==> e * m <= 0;
    assert e >= 1 ==> e * m >= m;
  }
}
