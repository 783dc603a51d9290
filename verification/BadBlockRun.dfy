/** The passes of the test of src/badblocks.c, and the counts they report. */
module BadBlockRun {
  import opened Common
  import opened BadBlockList
  import opened BadBlockTest
  import opened BadBlockPace

  datatype ErrorType = ReadError | WriteError | CorruptionError

  const MAX_BB := 256          // more bad blocks than this abort the test
  const BLOCKS_AT_ONCE := 64
  const MAX_PASSES := 4
  const BLOCK_SIZE := 512 * 1024

  datatype Report = Report(bbCount: nat, numRead: nat, numWrite: nat, numCorruption: nat)

  /** The user never cancels. */
  ghost predicate Uncancelled(userCancel: nat -> bool) {
    forall t: nat :: !userCancel(t)
  }

  /** The passes of one test: batches of the same size from the same first block. */
  ghost predicate PassesOk(first: nat, passes: seq<Pass>) {
    forall i :: 0 <= i < |passes| ==>
                  PassOk(passes[i]) && passes[i].first == first && |passes[i].fill| == BLOCKS_AT_ONCE
  }

  class Tester {
    const bb: U64List
    const medium: Medium
    const last: nat
    const blockSize: nat
    const userCancel: nat -> bool   // whether the user has cancelled, by request number
    var bbCount: nat
    var numRead: nat
    var numWrite: nat
    var numCorruption: nat
    var recover: Option<nat>        // where to go back to full batches
    var cancelled: bool
    ghost var failed: seq<nat>      // the blocks that the write loops gave up, in order

    /** The list is in order, and the counts agree with it. */
    ghost predicate Valid()
      reads this, bb, bb.list
    {
      bb.Valid() && bbCount == numRead + numWrite + numCorruption == bb.num
    }

    /** The user never cancels. */
    ghost predicate Unattended() {
      Uncancelled(userCancel)
    }

    constructor (bb: U64List, medium: Medium, last: nat, blockSize: nat, userCancel: nat -> bool)
      requires bb.Valid() && bb.num == 0
      ensures this.bb == bb && this.medium == medium && this.last == last && this.blockSize == blockSize
      ensures this.userCancel == userCancel && Valid() && bbCount == 0 && recover == None && !cancelled && failed == []
    {
      this.bb, this.medium, this.last, this.blockSize, this.userCancel := bb, medium, last, blockSize, userCancel;
      bbCount, numRead, numWrite, numCorruption, recover, cancelled, failed := 0, 0, 0, 0, None, false, [];
    }

    /** bb_output: a block already listed is not counted again. */
    method Output(bad: nat, e: ErrorType)
      requires Valid()
      modifies this`bbCount, this`numRead, this`numWrite, this`numCorruption, bb, bb.list
      ensures Valid() && (bb.list == old(bb.list) || fresh(bb.list))
      ensures bb.Blocks() == old(bb.Blocks()) + {bad}
      ensures bbCount == old(bbCount) + if bad in old(bb.Blocks()) then 0 else 1
    {
      var at := bb.Find(bad);
      if at >= 0 {
        return;
      }
      bb.Add(bad);
      match e {
        case ReadError => numRead := numRead + 1;
        case WriteError => numWrite := numWrite + 1;
        case CorruptionError => numCorruption := numCorruption + 1;
      }
      bbCount := bbCount + 1;
    }

    /** Whether the loops stop here: the user cancelled, or there are too many bad blocks. */
    method CheckStop() returns (stop: bool)
      modifies this`cancelled
      ensures !stop ==> bbCount < MAX_BB && cancelled == old(cancelled) == false
      ensures stop ==> cancelled
      ensures stop && Unattended() && !old(cancelled) ==> bbCount >= MAX_BB
    {
      if userCancel(medium.clock) {
        cancelled := true;
      }
      if !cancelled && bbCount >= MAX_BB {
        cancelled := true;
      }
      stop := cancelled;
    }

    /** The end of a turn: fall back to single blocks on a short count, and return to full batches past the trouble. */
    method Adapt(ct: nat, got: nat, tryout: nat, full: nat) returns (tryout': nat)
      requires got <= ct && full > 0 && 1 <= tryout <= full
      modifies this`recover
      ensures tryout' == NextTryout(old(recover), ct, got, tryout, full)
      ensures recover == NextRecover(old(recover), ct, got, tryout, full)
    {
      tryout' := tryout;
      if got != tryout {
        tryout' := 1;
        if recover == None {
          recover := Some(ct - got + full);
        }
      } else if recover == Some(ct) {
        tryout' := full;
        recover := None;
      }
    }

    /**
     After a write of `tryout` blocks of which n were acknowledged: give up a single block that failed, and
     move on.
     */
    method Settle(ct: nat, n: nat, tryout: nat, full: nat) returns (ct': nat, tryout': nat)
      requires Valid() && n <= tryout && 1 <= tryout <= full
      modifies this, bb, bb.list
      ensures Valid() && (bb.list == old(bb.list) || fresh(bb.list)) && cancelled == old(cancelled)
      ensures ct' == NextBlock(ct, n, tryout)
      ensures tryout' == NextTryout(old(recover), ct', n, tryout, full)
      ensures recover == NextRecover(old(recover), ct', n, tryout, full)
      ensures old(bbCount) <= bbCount <= old(bbCount) + 1
      ensures failed == old(failed) + Range(ct + n, ct')
      ensures forall b: nat :: b in bb.Blocks() <==> b in old(bb.Blocks()) || ct + n <= b < ct'
    {
      ct' := ct;
      if n == 0 && tryout == 1 {
        Output(ct, WriteError);
        ct' := ct' + 1;
      }
      ct' := ct' + n;
      failed := failed + Range(ct + n, ct');
      tryout' := Adapt(ct', n, tryout, full);
    }

    /** One turn of the write loop, on `data` for the blocks from ct on; `got` of them are acknowledged. */
    method WriteTurn(ct: nat, data: seq<Block>, full: nat, ghost bad: iset<nat>)
      returns (ct': nat, tryout': nat, ghost got: nat)
      requires Valid() && 1 <= |data| <= full && ct + |data| <= last
      modifies this, bb, bb.list, medium
      ensures Valid() && (bb.list == old(bb.list) || fresh(bb.list)) && cancelled == old(cancelled)
      ensures got <= |data| && ct' == NextBlock(ct, got, |data|)
      ensures tryout' == NextTryout(old(recover), ct', got, |data|, full)
      ensures recover == NextRecover(old(recover), ct', got, |data|, full)
      ensures old(bbCount) <= bbCount <= old(bbCount) + 1
      ensures Now() == Entered(medium, old(Now()), ct, data, got, ct')
      ensures forall b: nat :: b in bb.Blocks() <==> b in old(bb.Blocks()) || ct + got <= b < ct'
      ensures WritesFailAt(medium, bad) ==> BadFrom(bad, ct, ct + got, ct')
      ensures WritesOk(medium) ==> got == |data|
      ensures RefusesBatches(medium) ==> got <= 1
    {
      ghost var t := medium.clock;
      var n := medium.Write(ct, data);
      got := n;
      AnswerFits(medium, bad, t, ct, |data|, n);
      ct', tryout' := Settle(ct, n, |data|, full);
    }

    /** No trouble so far: the medium holds what was written, in full batches. */
    ghost predicate Clean(p: Pass, ct: nat, tryout: nat)
      requires PassOk(p)
      reads medium
    {
      Holds(medium.cell, medium.cells, p, ct) && (ct == last || (tryout == |p.fill| && AtBatch(p, ct)))
    }

    /** A turn of the write loop, on blocks of the pass. */
    method WriteBatch(p: Pass, ct: nat, data: seq<Block>, ghost tryout: nat, ghost bad: iset<nat>)
      returns (ct': nat, tryout': nat, ghost got: nat)
      requires Valid() && PassOk(p) && p.first <= ct < last && 1 <= tryout <= |p.fill|
      requires |data| == Min(tryout, last - ct) && forall i :: 0 <= i < |data| ==> data[i] == Filled(p, i, ct + i)
      modifies this, bb, bb.list, medium
      ensures Valid() && (bb.list == old(bb.list) || fresh(bb.list)) && cancelled == old(cancelled)
      ensures ct <= ct' <= last && 1 <= tryout' <= |p.fill| && (ct' > ct || tryout' < |data|)
      ensures got <= |data| && (ct' == ct + got || (got == 0 && ct' == ct + 1))
      ensures old(bbCount) <= bbCount <= old(bbCount) + 1
      ensures Now() == Entered(medium, old(Now()), ct, data, got, ct')
      ensures forall b: nat :: b in bb.Blocks() <==> b in old(bb.Blocks()) || ct + got <= b < ct'
      ensures WritesFailAt(medium, bad) ==> BadFrom(bad, ct, ct + got, ct')
      ensures WritesOk(medium) ==> got == |data|
      ensures RefusesBatches(medium) ==> got <= 1
      ensures WritesOk(medium) && old(Clean(p, ct, tryout)) ==> Clean(p, ct', tryout')
      ensures Paced(p, last, ct, tryout, old(recover)) ==> Paced(p, last, ct', tryout', recover)
    {
      ghost var cells, before := medium.cells, recover;
      ct', tryout', got := WriteTurn(ct, data, |p.fill|, bad);
      if WritesOk(medium) && old(Clean(p, ct, tryout)) {
        WholeBatch(medium.cell, cells, p, ct, data, got);
      }
      if Paced(p, last, ct, tryout, before) {
        PacedNext(p, last, ct, |data|, got, tryout, before);
      }
    }

    /** What the loop changes, as it is now. */
    ghost function Now(): Ledger
      reads this`failed, medium
    {
      Ledger(medium.acked, failed, medium.cells)
    }

    /** The list holds what it held and the blocks given up. */
    ghost predicate Lists(blocks: set<nat>, fails: seq<nat>)
      requires bb.num <= bb.list.Length
      reads bb, bb.list
    {
      forall b: nat :: b in bb.Blocks() <==> b in blocks || b in fails
    }

    /** The pace is kept, and the places that blocks were written from are those the pace allows. */
    ghost predicate InPlace(p: Pass, ct: nat, tryout: nat, tr: Trace)
      requires PassOk(p)
      reads this`recover
    {
      Paced(p, last, ct, tryout, recover) && PlacesOk(p, tr.src)
    }

    /** A turn of the write loop, and what it adds to the trace. */
    method TraceBatch(p: Pass, ct: nat, data: seq<Block>, ghost tryout: nat, ghost bad: iset<nat>,
                      ghost tr: Trace, ghost was: Ledger, ghost blocks: set<nat>)
      returns (ct': nat, tryout': nat, ghost tr': Trace, ghost got: nat)
      requires Valid() && PassOk(p) && p.first <= ct < last && 1 <= tryout <= |p.fill|
      requires |data| == Min(tryout, last - ct) && forall i :: 0 <= i < |data| ==> data[i] == Filled(p, i, ct + i)
      requires Told(medium, p, last, bad, tr, was, Now(), ct) && Lists(blocks, tr.fails)
      modifies this, bb, bb.list, medium
      ensures Valid() && (bb.list == old(bb.list) || fresh(bb.list)) && cancelled == old(cancelled)
      ensures ct <= ct' <= last && 1 <= tryout' <= |p.fill| && (ct' > ct || tryout' < |data|)
      ensures old(bbCount) <= bbCount <= old(bbCount) + 1
      ensures Told(medium, p, last, bad, tr', was, Now(), ct') && Lists(blocks, tr'.fails)
      ensures got <= |data| && tr'.src == Placed(tr.src, ct, got)
      ensures WritesOk(medium) && old(Clean(p, ct, tryout)) ==> Clean(p, ct', tryout')
      ensures Paced(p, last, ct, tryout, old(recover)) ==> Paced(p, last, ct', tryout', recover)
    {
      ghost var now := Now();
      ct', tryout', got := WriteBatch(p, ct, data, tryout, bad);
      tr' := Traced(tr, ct, got, ct');
      ToldMore(medium, p, last, bad, tr, was, now, ct, data, got, ct');
      FailsGrow(tr, p.first, ct, got, ct', bad);
    }

    /** All that the write loop keeps. */
    ghost predicate Writing(p: Pass, ct: nat, tryout: nat, tr: Trace, was: Ledger, blocks: set<nat>, bad: iset<nat>,
                            resumes: bool)
      requires PassOk(p)
      reads this`failed, this`recover, bb, bb.list, medium
    {
      && bb.num <= bb.list.Length && Lists(blocks, tr.fails)
      && Told(medium, p, last, bad, tr, was, Now(), ct)
      && (WritesOk(medium) ==> Clean(p, ct, tryout))
      && (resumes ==> InPlace(p, ct, tryout, tr))
    }

    /** The rest of a turn: cut the batch at the last block, stamp the buffer and write. */
    method WriteRound(p: Pass, ct: nat, tryout: nat, buffer: seq<Block>, ghost bad: iset<nat>,
                      ghost tr: Trace, ghost was: Ledger, ghost blocks: set<nat>, ghost resumes: bool)
      returns (ct': nat, tryout': nat, buffer': seq<Block>, ghost tr': Trace)
      requires Valid() && PassOk(p) && p.first <= ct < last && 1 <= tryout <= |p.fill| && Buffered(p, buffer)
      requires Writing(p, ct, tryout, tr, was, blocks, bad, resumes)
      modifies this, bb, bb.list, medium
      ensures Valid() && (bb.list == old(bb.list) || fresh(bb.list)) && cancelled == old(cancelled)
      ensures Buffered(p, buffer')
      ensures ct <= ct' <= last && 1 <= tryout' <= |p.fill| && (ct' > ct || tryout' < tryout)
      ensures old(bbCount) <= bbCount <= old(bbCount) + 1
      ensures Writing(p, ct', tryout', tr', was, blocks, bad, resumes)
    {
      var n := if ct + tryout > last then last - ct else tryout;
      buffer' := StampBuffer(p, buffer, ct);
      ghost var got, r := 0, recover;
      ct', tryout', tr', got := TraceBatch(p, ct, buffer'[..n], tryout, bad, tr, was, blocks);
      if resumes {
        PlacesMore(p, last, ct, n, got, tryout, r, tr.src);
      }
    }

    /** The write loop itself, from a trace to a trace. */
    method WriteRounds(p: Pass, ghost bad: iset<nat>, ghost start: Trace, ghost was: Ledger, ghost blocks: set<nat>,
                       ghost resumes: bool)
      returns (ct: nat, ghost tryout': nat, ghost tr: Trace)
      requires Valid() && PassOk(p) && p.first <= last
      requires Writing(p, p.first, |p.fill|, start, was, blocks, bad, resumes)
      modifies this, bb, bb.list, medium
      ensures Valid() && (bb.list == old(bb.list) || fresh(bb.list))
      ensures p.first <= ct <= last && (!cancelled ==> ct == last)
      ensures old(bbCount) <= bbCount && (old(bbCount) < MAX_BB + |p.fill| ==> bbCount < MAX_BB + |p.fill|)
      ensures cancelled && Unattended() && !old(cancelled) ==> bbCount >= MAX_BB
      ensures Writing(p, ct, tryout', tr, was, blocks, bad, resumes)
    {
      ct, tr := p.first, start;
      var tryout, buffer := |p.fill|, p.fill;
      tryout' := tryout;
      while ct < last
        invariant Valid() && (bb.list == old(bb.list) || fresh(bb.list))
        invariant p.first <= ct <= last && 1 <= tryout <= |p.fill| && tryout' == tryout && Buffered(p, buffer)
        invariant old(bbCount) <= bbCount && (old(bbCount) < MAX_BB + |p.fill| ==> bbCount < MAX_BB + |p.fill|)
        invariant !old(cancelled) ==> !cancelled
        invariant Writing(p, ct, tryout, tr, was, blocks, bad, resumes)
        decreases last - ct, tryout
      {
        var stop := CheckStop();
        if stop {
          return;
        }
        ct, tryout, buffer, tr := WriteRound(p, ct, tryout, buffer, bad, tr, was, blocks, resumes);
        tryout' := tryout;
      }
    }

    /**
     The write loop of a pass. Whatever the medium does, the list stays in order and the counts stay right, and
     every block before the current position was either acknowledged, once and in order, or given up and
     listed, once and in order; where writes fail exactly at the bad blocks, those given up are the bad
     ones. Each acknowledged block was written from its place in a batch or from the start of the buffer, and from
     the start if the medium takes single blocks only. A medium that stores every block apart then holds for each
     what stood at its place, and without write errors it holds the pass.
     */
    method WriteLoop(p: Pass, ghost bad: iset<nat>) returns (ct: nat, ghost tr: Trace)
      requires Valid() && PassOk(p) && p.first <= last
      modifies this, bb, bb.list, medium
      ensures Valid() && (bb.list == old(bb.list) || fresh(bb.list))
      ensures p.first <= ct <= last && (!cancelled ==> ct == last)
      ensures old(bbCount) <= bbCount && (old(bbCount) < MAX_BB + |p.fill| ==> bbCount < MAX_BB + |p.fill|)
      ensures cancelled && Unattended() && !old(cancelled) ==> bbCount >= MAX_BB
      ensures Told(medium, p, last, bad, tr, old(Now()), Now(), ct) && Lists(old(bb.Blocks()), tr.fails)
      ensures WritesOk(medium) ==> Holds(medium.cell, medium.cells, p, ct)
      ensures Resumes(p, last, old(recover)) ==> Resumes(p, last, recover) && PlacesOk(p, tr.src)
    {
      ghost var start, resumes := Trace([], [], imap[]), Resumes(p, last, recover);
      ToldStart(medium, p, last, bad, Now());
      ghost var tryout;
      ct, tryout, tr := WriteRounds(p, bad, start, Now(), bb.Blocks(), resumes);
    }

    /** The comparison loop: every block that differs from the buffer is a corruption. */
    method Compare(ct: nat, data: seq<Block>, buffer: seq<Block>) returns (aborted: bool)
      requires Valid() && |data| <= |buffer|
      modifies this`bbCount, this`numRead, this`numWrite, this`numCorruption, bb, bb.list
      ensures Valid() && (bb.list == old(bb.list) || fresh(bb.list))
      ensures old(bbCount) <= bbCount <= old(bbCount) + |data|
      ensures (ct + |data|) * blockSize < PB ==> !aborted
      ensures !aborted ==> forall b: nat ::
                  b in bb.Blocks() <==>
                       b in old(bb.Blocks()) || (ct <= b < ct + |data| && data[b - ct] != buffer[b - ct])
    {
      var i := 0;
      while i < |data|
        invariant 0 <= i <= |data| && Valid() && (bb.list == old(bb.list) || fresh(bb.list))
        invariant old(bbCount) <= bbCount <= old(bbCount) + i
        invariant forall b: nat ::
                    b in bb.Blocks() <==> b in old(bb.Blocks()) || (ct <= b < ct + i && data[b - ct] != buffer[b - ct])
      {
        if data[i] != buffer[i] {
          if (ct + |data|) * blockSize >= PB {
            return true;
          }
          Output(ct + i, CorruptionError);
        }
        i := i + 1;
      }
      return false;
    }

    /** One turn of the read loop, against `buffer` for the blocks from ct on. */
    method ReadTurn(ct: nat, tryout: nat, buffer: seq<Block>)
      returns (ct': nat, tryout': nat, aborted: bool, ghost n: nat)
      requires Valid() && 1 <= tryout <= |buffer| && ct + tryout <= last
      modifies this, bb, bb.list, medium`clock
      ensures Valid() && (bb.list == old(bb.list) || fresh(bb.list)) && cancelled == old(cancelled)
      ensures n <= tryout && ct' == NextBlock(ct, n, tryout) && failed == old(failed)
      ensures tryout' == NextTryout(old(recover), ct', n, tryout, |buffer|)
      ensures recover == NextRecover(old(recover), ct', n, tryout, |buffer|)
      ensures old(bbCount) <= bbCount <= old(bbCount) + tryout
      ensures last * blockSize < PB ==> !aborted
      ensures ReadsOk(medium) ==> n == tryout
      ensures ReadsOk(medium) && !aborted ==> forall b: nat ::
                  b in bb.Blocks() <==> b in old(bb.Blocks()) || (ct <= b < ct' && medium.Held(b) != buffer[b - ct])
    {
      ghost var t := medium.clock;
      var got, data := medium.Read(ct, tryout);
      n, aborted, ct' := got, false, ct;
      assert ReadsOk(medium) ==> medium.readable(t, ct, tryout) >= tryout;
      if got == 0 && tryout == 1 {
        Output(ct, ReadError);
        ct' := ct' + 1;
      }
      ct' := ct' + got;
      tryout' := Adapt(ct', got, tryout, |buffer|);
      if got == tryout {
        if last * blockSize < PB {
          BelowLimit(ct + got, last, blockSize);
        }
        aborted := Compare(ct, data, buffer);
      }
    }

    /** Without errors, full batches. */
    ghost predicate Steady(p: Pass, ct: nat, tryout: nat)
      requires PassOk(p)
    {
      (ct == last || (tryout == |p.fill| && AtBatch(p, ct)))
    }

    /** A turn of the read loop, against the buffer of the pass. */
    method ReadBatch(p: Pass, ct: nat, n: nat, buffer: seq<Block>, ghost tryout: nat)
      returns (ct': nat, tryout': nat, aborted: bool)
      requires Valid() && PassOk(p) && p.first <= ct < last && 1 <= tryout <= |p.fill| == |buffer|
      requires n == Min(tryout, last - ct) && forall i :: 0 <= i < |buffer| ==> buffer[i] == Filled(p, i, ct + i)
      modifies this, bb, bb.list, medium`clock
      ensures Valid() && (bb.list == old(bb.list) || fresh(bb.list)) && cancelled == old(cancelled)
      ensures ct <= ct' <= last && 1 <= tryout' <= |p.fill| && (ct' > ct || tryout' < n) && failed == old(failed)
      ensures old(bbCount) <= bbCount <= old(bbCount) + |p.fill|
      ensures last * blockSize < PB ==> !aborted
      ensures ReadsOk(medium) && Steady(p, ct, tryout) && !aborted ==>
                && Steady(p, ct', tryout')
                && forall b: nat ::
                     b in bb.Blocks() <==> b in old(bb.Blocks()) || (ct <= b < ct' && medium.Held(b) != Content(p, b))
      ensures Paced(p, last, ct, tryout, old(recover)) ==> Paced(p, last, ct', tryout', recover)
    {
      ghost var got, before := 0, recover;
      ct', tryout', aborted, got := ReadTurn(ct, n, buffer);
      if Paced(p, last, ct, tryout, before) {
        PacedNext(p, last, ct, n, got, tryout, before);
      }
      if ReadsOk(medium) && Steady(p, ct, tryout) {
        BatchContents(p, ct, buffer);
      }
    }

    /** The read loop of a pass. */
    method ReadLoop(p: Pass) returns (ct: nat, aborted: bool)
      requires Valid() && PassOk(p) && p.first <= last
      modifies this, bb, bb.list, medium`clock
      ensures Valid() && (bb.list == old(bb.list) || fresh(bb.list))
      ensures p.first <= ct <= last && (!cancelled && !aborted ==> ct == last) && failed == old(failed)
      ensures last * blockSize < PB ==> !aborted
      ensures old(bbCount) <= bbCount && (old(bbCount) < MAX_BB + |p.fill| ==> bbCount < MAX_BB + |p.fill|)
      ensures cancelled && Unattended() && !old(cancelled) ==> bbCount >= MAX_BB
      ensures ReadsOk(medium) && !aborted ==> ListsDiffering(old(bb.Blocks()), p, ct)
      ensures Resumes(p, last, old(recover)) ==> Resumes(p, last, recover)
    {
      ct, aborted := p.first, false;
      var tryout, buffer := |p.fill|, p.fill;
      while ct < last
        invariant Valid() && (bb.list == old(bb.list) || fresh(bb.list)) && !aborted && failed == old(failed)
        invariant p.first <= ct <= last && 1 <= tryout <= |p.fill| && Buffered(p, buffer)
        invariant old(bbCount) <= bbCount && (old(bbCount) < MAX_BB + |p.fill| ==> bbCount < MAX_BB + |p.fill|)
        invariant !old(cancelled) ==> !cancelled
        invariant Resumes(p, last, old(recover)) ==> Paced(p, last, ct, tryout, recover)
        invariant ReadsOk(medium) ==>
                    && Steady(p, ct, tryout)
                    && forall b: nat ::
                         b in bb.Blocks() <==>
                              b in old(bb.Blocks()) || (p.first <= b < ct && medium.Held(b) != Content(p, b))
        decreases last - ct, tryout
      {
        var stop := CheckStop();
        if stop {
          return;
        }
        var n := if ct + tryout > last then last - ct else tryout;
        buffer := StampBuffer(p, buffer, ct);
        ct, tryout, aborted := ReadBatch(p, ct, n, buffer, tryout);
        if aborted {
          return;
        }
      }
    }

    /** No block of the test overwrites an earlier one. */
    ghost predicate NoneLost(first: nat) {
      forall b: nat :: first <= b < last ==> !Overwritten(medium.cell, b, last)
    }

    /**
     A block compares unequal: the place it was written from, or what it held before, is not what the
     comparison expects.
     */
    ghost predicate Mismatch(p: Pass, tr: Trace, was: map<nat, Block>, b: nat)
      requires PassOk(p) && p.first <= b
    {
      if b in tr.src then tr.src[b] < |p.fill| && Filled(p, tr.src[b], b) != Content(p, b)
      else medium.HeldIn(was, b) != Content(p, b)
    }

    /** The list holds what it held, the blocks given up, and those compared that mismatch. */
    ghost predicate ListsMismatches(blocks: set<nat>, p: Pass, tr: Trace, was: map<nat, Block>, compared: nat)
      requires bb.num <= bb.list.Length && PassOk(p)
      reads bb, bb.list
    {
      forall b: nat ::
        b in bb.Blocks() <==> b in blocks || b in tr.fails || (p.first <= b < compared && Mismatch(p, tr, was, b))
    }

    /** The list holds what it held and the blocks compared that a later block of the test overwrote. */
    ghost predicate ListsOverwritten(blocks: set<nat>, first: nat, compared: nat)
      requires bb.num <= bb.list.Length
      reads bb, bb.list
    {
      forall b: nat ::
        b in bb.Blocks() <==> b in blocks || (first <= b < compared && Overwritten(medium.cell, b, last))
    }

    /** The list holds what it held and the blocks compared that the medium holds otherwise. */
    ghost predicate ListsDiffering(blocks: set<nat>, p: Pass, compared: nat)
      requires bb.num <= bb.list.Length && PassOk(p)
      reads bb, bb.list, medium
    {
      forall b: nat ::
        b in bb.Blocks() <==> b in blocks || (p.first <= b < compared && medium.Held(b) != Content(p, b))
    }

    /** A pass and its trace: write, then read and compare. */
    method TracePass(p: Pass, ghost bad: iset<nat>)
      returns (compared: nat, aborted: bool, ghost tr: Trace, ghost reached: nat)
      requires Valid() && PassOk(p) && p.first <= last
      modifies this, bb, bb.list, medium
      ensures Valid() && (bb.list == old(bb.list) || fresh(bb.list))
      ensures p.first <= compared <= reached <= last && (!cancelled && !aborted ==> compared == last)
      ensures last * blockSize < PB ==> !aborted
      ensures old(bbCount) <= bbCount && (old(bbCount) < MAX_BB + |p.fill| ==> bbCount < MAX_BB + |p.fill|)
      ensures cancelled && Unattended() && !old(cancelled) ==> bbCount >= MAX_BB
      ensures Told(medium, p, last, bad, tr, old(Now()), Now(), reached)
      ensures Resumes(p, last, old(recover)) ==> Resumes(p, last, recover) && PlacesOk(p, tr.src)
      ensures ReadsOk(medium) && !aborted && NoneLost(p.first) ==>
                ListsMismatches(old(bb.Blocks()), p, tr, old(medium.cells), compared)
      ensures ErrorFree(medium) && !aborted && p.stamped && last <= Pow256(8) ==>
                ListsOverwritten(old(bb.Blocks()), p.first, compared)
      ensures ErrorFree(medium) && !aborted && NoneLost(p.first) ==> bb.Blocks() == old(bb.Blocks())
    {
      reached, tr := WriteLoop(p, bad);
      compared, aborted := p.first, false;
      if cancelled {
        return;
      }
      compared, aborted := CompareAll(p, old(bb.Blocks()), tr, old(medium.cells));
    }

    /** The read loop after a write loop that told its trace. */
    method CompareAll(p: Pass, ghost blocks: set<nat>, ghost tr: Trace, ghost was: map<nat, Block>)
      returns (compared: nat, aborted: bool)
      requires Valid() && PassOk(p) && p.first <= last
      requires Lists(blocks, tr.fails) && (WritesOk(medium) ==> tr.fails == [])
      requires WritesOk(medium) ==> Holds(medium.cell, medium.cells, p, last)
      requires Apart(medium.cell, p.first, last) ==> Keeps(medium.cell, medium.cells, was, p, tr.src, last)
      modifies this, bb, bb.list, medium`clock
      ensures Valid() && (bb.list == old(bb.list) || fresh(bb.list)) && failed == old(failed)
      ensures p.first <= compared <= last && (!cancelled && !aborted ==> compared == last)
      ensures last * blockSize < PB ==> !aborted
      ensures old(bbCount) <= bbCount && (old(bbCount) < MAX_BB + |p.fill| ==> bbCount < MAX_BB + |p.fill|)
      ensures cancelled && Unattended() && !old(cancelled) ==> bbCount >= MAX_BB
      ensures Resumes(p, last, old(recover)) ==> Resumes(p, last, recover)
      ensures ReadsOk(medium) && !aborted && NoneLost(p.first) ==> ListsMismatches(blocks, p, tr, was, compared)
      ensures ErrorFree(medium) && !aborted && p.stamped && last <= Pow256(8) ==>
                ListsOverwritten(blocks, p.first, compared)
      ensures ErrorFree(medium) && !aborted && NoneLost(p.first) ==> bb.Blocks() == blocks
    {
      compared, aborted := ReadLoop(p);
      if ReadsOk(medium) && !aborted {
        WhatDiffers(old(bb.Blocks()), blocks, p, tr, was, compared);
      }
    }

    /** What the blocks that compared unequal are, after a write loop that told its trace. */
    lemma {:induction false} WhatDiffers(before: set<nat>, blocks: set<nat>, p: Pass, tr: Trace,
                                         was: map<nat, Block>, compared: nat)
      requires Valid() && PassOk(p) && p.first <= compared <= last && ListsDiffering(before, p, compared)
      requires forall b: nat :: b in before <==> b in blocks || b in tr.fails
      requires WritesOk(medium) ==> tr.fails == [] && Holds(medium.cell, medium.cells, p, last)
      requires Apart(medium.cell, p.first, last) ==> Keeps(medium.cell, medium.cells, was, p, tr.src, last)
      ensures NoneLost(p.first) ==> ListsMismatches(blocks, p, tr, was, compared)
      ensures WritesOk(medium) && p.stamped && last <= Pow256(8) ==> ListsOverwritten(blocks, p.first, compared)
      ensures WritesOk(medium) && NoneLost(p.first) ==> bb.Blocks() == blocks
    {
      if NoneLost(p.first) {
        DifferingMismatch(before, blocks, p, tr, was, compared);
      }
      if WritesOk(medium) {
        assert before == blocks;
        DifferingOverwritten(blocks, p, compared);
      }
    }

    lemma {:induction false} DifferingMismatch(before: set<nat>, blocks: set<nat>, p: Pass, tr: Trace,
                                               was: map<nat, Block>, compared: nat)
      requires Valid() && PassOk(p) && NoneLost(p.first) && compared <= last && ListsDiffering(before, p, compared)
      requires forall b: nat :: b in before <==> b in blocks || b in tr.fails
      requires Apart(medium.cell, p.first, last) ==> Keeps(medium.cell, medium.cells, was, p, tr.src, last)
      ensures ListsMismatches(blocks, p, tr, was, compared)
    {
      PlacesCompare(p, tr, was);
    }

    lemma {:induction false} DifferingOverwritten(blocks: set<nat>, p: Pass, compared: nat)
      requires Valid() && PassOk(p) && p.first <= compared <= last && ListsDiffering(blocks, p, compared)
      requires Holds(medium.cell, medium.cells, p, last)
      ensures p.stamped && last <= Pow256(8) ==> ListsOverwritten(blocks, p.first, compared)
      ensures NoneLost(p.first) ==> bb.Blocks() == blocks
    {
      PassCompares(medium, p, last);
    }

    /** What the comparison of every block comes to, once each is on the medium as it was written. */
    lemma {:induction false} PlacesCompare(p: Pass, tr: Trace, was: map<nat, Block>)
      requires PassOk(p) && NoneLost(p.first)
      requires Apart(medium.cell, p.first, last) ==> Keeps(medium.cell, medium.cells, was, p, tr.src, last)
      ensures forall b: nat :: p.first <= b < last ==> (medium.Held(b) != Content(p, b) <==> Mismatch(p, tr, was, b))
    {
      LostIffShared(medium.cell, p.first, last);
      forall b: nat | p.first <= b < last
        ensures medium.Held(b) != Content(p, b) <==> Mismatch(p, tr, was, b)
      {
        assert CellKeeps(medium.cells, was, medium.cell(b), p, tr.src, b);
      }
    }

    /** What a mismatch means, by the places that the pace allows. */
    lemma {:induction false} MismatchMeans(p: Pass, tr: Trace, was: map<nat, Block>, b: nat, reached: nat)
      requires PassOk(p) && p.first <= b < reached && Traces(tr, p.first, reached) && PlacesOk(p, tr.src)
      ensures b in tr.fails || (Mismatch(p, tr, was, b) ==> Misplaced(p, tr, b))
      ensures AllFirst(tr.src) ==> b in tr.fails || (Mismatch(p, tr, was, b) <==> Misplaced(p, tr, b))
    {
      assert b in tr.acks || b in tr.fails;
    }

    /** An acknowledged block for which the start of the buffer is not what the comparison expects. */
    ghost predicate Misplaced(p: Pass, tr: Trace, b: nat)
      requires PassOk(p) && p.first <= b
    {
      b in tr.acks && Filled(p, 0, b) != Content(p, b)
    }

    /** The list holds what it held, the blocks given up, and those compared that are misplaced. */
    ghost predicate ListsMisplaced(blocks: set<nat>, p: Pass, tr: Trace, compared: nat)
      requires bb.num <= bb.list.Length && PassOk(p)
      reads bb, bb.list
    {
      forall b: nat ::
        b in bb.Blocks() <==> b in blocks || b in tr.fails || (p.first <= b < compared && Misplaced(p, tr, b))
    }

    /** Reads make no errors, and the medium stores every block apart. */
    ghost predicate Faithful(first: nat) {
      ReadsOk(medium) && NoneLost(first)
    }

    /**
     A pass. If reads make no errors and the medium stores every block apart, then whatever the writes do, the pass
     lists what it gave up and what differs from where it was written from, the start of the buffer or its place: no
     acknowledged block is listed unless the start of the buffer is not what it is compared with; if all places
     of the buffer are alike, the pass lists exactly the blocks it gave up; and if the medium takes single blocks
     only, it lists those and, over the part compared, exactly the acknowledged blocks that are misplaced. On an
     error-free medium a stamped pass lists, over the part compared, exactly the blocks that a later block of
     the test overwrites, and a pass over a medium that stores every block apart lists none.
     */
    method RunPass(p: Pass, ghost bad: iset<nat>)
      returns (compared: nat, aborted: bool, ghost tr: Trace, ghost reached: nat)
      requires Valid() && PassOk(p) && p.first <= last
      modifies this, bb, bb.list, medium
      ensures Valid() && (bb.list == old(bb.list) || fresh(bb.list))
      ensures p.first <= compared <= reached <= last && (!cancelled && !aborted ==> compared == last)
      ensures last * blockSize < PB ==> !aborted
      ensures old(bbCount) <= bbCount && (old(bbCount) < MAX_BB + |p.fill| ==> bbCount < MAX_BB + |p.fill|)
      ensures cancelled && Unattended() && !old(cancelled) ==> bbCount >= MAX_BB
      ensures Traces(tr, p.first, reached) && failed == old(failed) + tr.fails
      ensures WritesFailAt(medium, bad) ==> FailsAt(tr, p.first, reached, bad)
      ensures Resumes(p, last, old(recover)) ==> Resumes(p, last, recover)
      ensures Resumes(p, last, old(recover)) ==> PlacesOk(p, tr.src)
      ensures Faithful(p.first) && !aborted ==> ListsMismatches(old(bb.Blocks()), p, tr, old(medium.cells), compared)
      ensures Faithful(p.first) && !aborted && Resumes(p, last, old(recover)) ==>
                && (forall b: nat :: b in bb.Blocks() ==>
                                       || b in old(bb.Blocks()) || b in tr.fails
                                       || (p.first <= b < compared && Misplaced(p, tr, b)))
                && (Alike(p) ==> Lists(old(bb.Blocks()), tr.fails))
                && (RefusesBatches(medium) ==> ListsMisplaced(old(bb.Blocks()), p, tr, compared))
      ensures ErrorFree(medium) && !aborted && p.stamped && last <= Pow256(8) ==>
                ListsOverwritten(old(bb.Blocks()), p.first, compared)
      ensures ErrorFree(medium) && !aborted && NoneLost(p.first) ==> bb.Blocks() == old(bb.Blocks())
    {
      compared, aborted, tr, reached := TracePass(p, bad);
      if Resumes(p, last, old(recover)) {
        forall b: nat | p.first <= b < reached
          ensures b in tr.fails || (Mismatch(p, tr, old(medium.cells), b) ==> Misplaced(p, tr, b))
          ensures AllFirst(tr.src) ==> b in tr.fails || (Mismatch(p, tr, old(medium.cells), b) <==> Misplaced(p, tr, b))
        {
          MismatchMeans(p, tr, old(medium.cells), b, reached);
        }
      }
    }

    /** A stamped pass over a medium without errors that nobody cancels. */
    ghost predicate Revealing(p: Pass) {
      ErrorFree(medium) && Unattended() && last * blockSize < PB && last <= Pow256(8) && p.stamped
    }

    /** The list holds exactly the blocks that the write loops gave up. */
    ghost predicate ListsFailed()
      requires bb.num <= bb.list.Length
      reads this`failed, bb, bb.list
    {
      Lists({}, failed)
    }

    /** Only bad blocks of the test were given up. */
    ghost predicate FailedOnly(first: nat, bad: iset<nat>)
      reads this`failed
    {
      forall b: nat :: b in failed ==> first <= b < last && b in bad
    }

    /** All bad blocks of the test were given up. */
    ghost predicate FailedAll(first: nat, bad: iset<nat>)
      reads this`failed
    {
      forall b: nat :: first <= b < last && b in bad ==> b in failed
    }

    /** A pass, and what it adds to the list and to the blocks given up. */
    method CountPass(p: Pass, ghost bad: iset<nat>) returns (aborted: bool)
      requires Valid() && PassOk(p) && p.first <= last
      modifies this, bb, bb.list, medium
      ensures Valid() && (bb.list == old(bb.list) || fresh(bb.list)) && old(bbCount) <= bbCount
      ensures last * blockSize < PB ==> !aborted
      ensures old(bbCount) < MAX_BB + |p.fill| ==> bbCount < MAX_BB + |p.fill|
      ensures cancelled && Unattended() && !old(cancelled) ==> bbCount >= MAX_BB
      ensures Resumes(p, last, old(recover)) ==> Resumes(p, last, recover)
      ensures Faithful(p.first) && !aborted && Alike(p) && Resumes(p, last, old(recover)) && old(ListsFailed()) ==>
                ListsFailed()
      ensures WritesFailAt(medium, bad) && old(FailedOnly(p.first, bad)) ==>
                FailedOnly(p.first, bad) && (!cancelled && !aborted ==> FailedAll(p.first, bad))
      ensures ErrorFree(medium) && !aborted && NoneLost(p.first) && old(bbCount) == 0 ==> bbCount == 0
      ensures Revealing(p) && !NoneLost(p.first) && !old(cancelled) ==> bbCount > 0
    {
      var compared;
      ghost var tr, reached;
      CountIsLength(bb.list[..bb.num]);
      compared, aborted, tr, reached := RunPass(p, bad);
      CountIsLength(bb.list[..bb.num]);
      FailedGrow(old(failed), tr, p.first, reached, bad);
    }

    /**
     test_rw over the given passes. Whatever the medium does, the count returned is the
     number of listed blocks and stays below the threshold plus one batch. On a medium that
     makes no errors, a test that nobody cancels and that stamps its first pass lists something exactly if
     some block is overwritten by a later one, and any test lists nothing if none is. If only writes fail,
     the medium stores every block apart and each pattern is alike all over the buffer, the test lists exactly the
     blocks it gave up writing; if writes fail exactly at the bad blocks, those are bad, and all of the bad ones
     unless it is cut short.
     */
    method TestRw(first: nat, passes: seq<Pass>, ghost bad: iset<nat>) returns (count: nat)
      requires Valid() && bbCount == 0 && recover == None && !cancelled && first <= last && failed == []
      requires PassesOk(first, passes)
      modifies this, bb, bb.list, medium
      ensures Valid() && count == bbCount == bb.num <= MAX_BB - 1 + BLOCKS_AT_ONCE
      ensures Unattended() ==> (cancelled && count == 0 <==> !Accepts(first, passes))
      ensures Unattended() && cancelled && Accepts(first, passes) ==> count >= MAX_BB
      ensures ErrorFree(medium) && last * blockSize < PB && NoneLost(first) ==> count == 0
      ensures 1 <= |passes| <= MAX_PASSES && first * blockSize <= PB && Revealing(passes[0]) && !NoneLost(first) ==>
                count > 0
      ensures Faithful(first) && last * blockSize < PB && AllAlike(passes) ==> ListsFailed()
      ensures WritesFailAt(medium, bad) ==>
                FailedOnly(first, bad) && (!cancelled && last * blockSize < PB ==> FailedAll(first, bad))
    {
      if !Accepts(first, passes) {
        cancelled := true;
        return 0;
      }
      var i, aborted := 0, false;
      while i < |passes| && !cancelled && !aborted
        invariant 0 <= i <= |passes| && Valid() && (bb.list == old(bb.list) || fresh(bb.list))
        invariant (i == 0 ==> bbCount == 0 && !cancelled) && (cancelled && Unattended() ==> bbCount >= MAX_BB)
        invariant bbCount < MAX_BB + BLOCKS_AT_ONCE && (last * blockSize < PB ==> !aborted)
        invariant ErrorFree(medium) && last * blockSize < PB && NoneLost(first) ==> bbCount == 0
        invariant i >= 1 && Revealing(passes[0]) && !NoneLost(first) ==> bbCount > 0
        invariant Resumes(passes[0], last, recover)
        invariant Faithful(first) && last * blockSize < PB && AllAlike(passes) ==> ListsFailed()
        invariant WritesFailAt(medium, bad) ==>
                    FailedOnly(first, bad) && (i >= 1 && !cancelled && !aborted ==> FailedAll(first, bad))
        decreases |passes| - i
      {
        SamePace(passes[0], passes[i], last);
        aborted := CountPass(passes[i], bad);
        i := i + 1;
      }
      count := bbCount;
    }

    /** The guard: one to four passes, and blocks that end within 1 PB. */
    predicate Accepts(first: nat, passes: seq<Pass>) {
      1 <= |passes| <= MAX_PASSES && first * blockSize <= PB && last * blockSize <= PB
    }
  }

  /** The patterns of all passes are alike all over the buffer. */
  ghost predicate AllAlike(passes: seq<Pass>) {
    forall i :: 0 <= i < |passes| ==> PassOk(passes[i]) && Alike(passes[i])
  }

  /** Passes with batches of the same size from the same first block keep the same pace. */
  lemma {:induction false} SamePace(p: Pass, q: Pass, last: nat)
    requires PassOk(p) && PassOk(q) && p.first == q.first && |p.fill| == |q.fill|
    ensures forall r: Option<nat> :: Resumes(p, last, r) <==> Resumes(q, last, r)
  {
  }

  /** What a trace adds to the blocks given up. */
  lemma {:induction false} FailedGrow(before: seq<nat>, tr: Trace, from: nat, to: nat, bad: iset<nat>)
    requires Traces(tr, from, to)
    ensures forall b: nat :: b in before + tr.fails <==> b in before || b in tr.fails
    ensures forall b: nat :: b in tr.fails ==> from <= b < to
  {
  }

  /** What the answer to a write says about the blocks. */
  lemma {:induction false} AnswerFits(m: Medium, bad: iset<nat>, t: nat, ct: nat, n: nat, got: nat)
    requires n > 0 && got == Min(m.written(t, ct, n), n)
    ensures WritesOk(m) ==> got == n
    ensures WritesFailAt(m, bad) ==> BadFrom(bad, ct, ct + got, NextBlock(ct, got, n))
    ensures RefusesBatches(m) ==> got <= 1
  {
    if WritesFailAt(m, bad) {
      assert forall b: nat :: b in bad && ct <= b < ct + n ==> m.written(t, ct, n) <= b - ct;
    }
  }

  /** The stamping loop: the block numbers from ct on, over whatever was stamped before. */
  method StampBuffer(p: Pass, buffer: seq<Block>, ct: nat) returns (buffer': seq<Block>)
    requires PassOk(p) && Buffered(p, buffer)
    ensures Buffered(p, buffer') && forall i :: 0 <= i < |buffer'| ==> buffer'[i] == Filled(p, i, ct + i)
  {
    buffer' := buffer;
    if p.stamped {
      for i := 0 to |buffer|
        invariant Buffered(p, buffer')
        invariant forall k :: 0 <= k < i ==> buffer'[k] == Filled(p, k, ct + k)
      {
        Restamp(p, buffer', i, ct + i);
        buffer' := buffer'[i := Stamp(buffer'[i], p.off, ct + i)];
      }
    }
  }

  /** The write buffer of a pass: the pattern, up to stamps. */
  ghost predicate Buffered(p: Pass, buffer: seq<Block>)
    requires PassOk(p)
  {
    && |buffer| == |p.fill|
    && (!p.stamped ==> buffer == p.fill)
    && (p.stamped ==> forall i :: 0 <= i < |buffer| ==>
                                    |buffer[i]| == |p.fill[i]| && buffer[i][..p.off] == p.fill[i][..p.off] &&
                                    buffer[i][p.off + 8..] == p.fill[i][p.off + 8..])
  }

  lemma {:induction false} Restamp(p: Pass, buffer: seq<Block>, i: nat, id: nat)
    requires PassOk(p) && p.stamped && Buffered(p, buffer) && i < |buffer|
    ensures p.off + 8 <= |buffer[i]| && Stamp(buffer[i], p.off, id) == Filled(p, i, id)
    ensures Buffered(p, buffer[i := Stamp(buffer[i], p.off, id)])
  {
    OctetsLength(id, 8);
    var s := Stamp(buffer[i], p.off, id);
    assert |s| == |buffer[i]| && s[..p.off] == buffer[i][..p.off] && s[p.off + 8..] == buffer[i][p.off + 8..];
  }

  /** A batch stores the contents of the pass. */
  lemma {:induction false} BatchHolds(cell: nat -> nat, cells: map<nat, Block>, p: Pass, ct: nat, data: seq<Block>)
    requires PassOk(p) && AtBatch(p, ct) && |data| <= |p.fill|
    requires Holds(cell, cells, p, ct) && forall i :: 0 <= i < |data| ==> data[i] == Filled(p, i, ct + i)
    ensures Holds(cell, Stored(cell, cells, ct, data), p, ct + |data|)
    ensures AtBatch(p, ct + |p.fill|)
  {
    ModShift(ct - p.first, |p.fill|);
    forall k | 0 <= k < |data|
      ensures data[k] == Content(p, ct + k)
    {
      InBatch(ct - p.first, |p.fill|, k);
    }
    HoldsMore(cell, cells, p, ct, data);
  }

  lemma {:induction false} WholeBatch(cell: nat -> nat, cells: map<nat, Block>, p: Pass, ct: nat, data: seq<Block>,
                                      got: nat)
    requires PassOk(p) && AtBatch(p, ct) && |data| <= |p.fill| && got == |data|
    requires Holds(cell, cells, p, ct) && forall i :: 0 <= i < |data| ==> data[i] == Filled(p, i, ct + i)
    ensures Holds(cell, Stored(cell, cells, ct, data[..got]), p, ct + got)
    ensures got == |p.fill| ==> AtBatch(p, ct + got)
  {
    assert data[..got] == data;
    BatchHolds(cell, cells, p, ct, data);
  }

  lemma {:induction false} BelowLimit(a: nat, b: nat, size: nat)
    requires a <= b && b * size < PB
    ensures a * size < PB
  {
    assert a * size <= b * size;
  }

  /** The buffer at the start of a batch holds the contents of the pass. */
  lemma {:induction false} BatchContents(p: Pass, ct: nat, buffer: seq<Block>)
    requires PassOk(p) && |buffer| == |p.fill| && forall i :: 0 <= i < |buffer| ==> buffer[i] == Filled(p, i, ct + i)
    ensures AtBatch(p, ct) ==> AtBatch(p, ct + |p.fill|)
    ensures AtBatch(p, ct) ==> forall b: nat :: ct <= b < ct + |p.fill| ==> buffer[b - ct] == Content(p, b)
  {
    if AtBatch(p, ct) {
      ModShift(ct - p.first, |p.fill|);
      forall b: nat | ct <= b < ct + |p.fill|
        ensures buffer[b - ct] == Content(p, b)
      {
        InBatch(ct - p.first, |p.fill|, b - ct);
      }
    }
  }

  /** What comparing every block with the medium comes to, once the medium holds the pass. */
  lemma {:induction false} PassCompares(m: Medium, p: Pass, last: nat)
    requires PassOk(p) && p.first <= last && Holds(m.cell, m.cells, p, last)
    ensures p.stamped && last <= Pow256(8) ==>
              forall b: nat :: p.first <= b < last ==> (m.Held(b) != Content(p, b) <==> Overwritten(m.cell, b, last))
    ensures forall b: nat :: p.first <= b < last && !Overwritten(m.cell, b, last) ==> m.Held(b) == Content(p, b)
  {
    forall b: nat | p.first <= b < last
      ensures p.stamped && last <= Pow256(8) ==> (m.Held(b) != Content(p, b) <==> Overwritten(m.cell, b, last))
      ensures !Overwritten(m.cell, b, last) ==> m.Held(b) == Content(p, b)
    {
      if p.stamped && last <= Pow256(8) {
        StampedCompare(m.cell, m.cells, p, last, b);
      }
      if !Overwritten(m.cell, b, last) {
        PlainCompare(m.cell, m.cells, p, last, b);
      }
    }
  }

  /** The whole blocks of a disk of less than 1 PB, and their numbers as eight octets. */
  lemma {:induction false} BlocksFit(diskSize: nat)
    ensures diskSize / BLOCK_SIZE * BLOCK_SIZE <= diskSize
    ensures diskSize < PB ==> diskSize / BLOCK_SIZE <= Pow256(8)
  {
    assert Pow256(4) == 0x1_0000_0000;
    assert Pow256(8) == 0x1_0000_0000 * Pow256(4);
  }

  /** The bad blocks of a medium on which nothing but writes fail, and these exactly at the bad blocks. */
  ghost predicate BadExactly(m: Medium, bad: set<nat>, last: nat) {
    && ReadsOk(m) && Apart(m.cell, 0, last)
    && (forall b :: b in bad ==> b < last) && WritesFailAt(m, iset b: nat | b in bad)
  }

  lemma {:induction false} SubsetSize(a: set<nat>, b: set<nat>)
    requires a <= b
    ensures |a| <= |b|
  {
    assert b == a + (b - a);
  }

  /** A test that lists exactly the blocks it gave up, of a medium with few bad blocks, lists all of these. */
  lemma {:induction false} ListsBad(blocks: set<nat>, failed: seq<nat>, bad: set<nat>, last: nat, cancelled: bool)
    requires (forall b: nat :: b in blocks <==> b in failed) && (forall b: nat :: b in failed ==> b in bad)
    requires !cancelled ==> forall b: nat :: b < last && b in bad ==> b in failed
    requires (forall b :: b in bad ==> b < last) && |bad| < MAX_BB && (cancelled ==> |blocks| >= MAX_BB)
    ensures blocks == bad
  {
    assert blocks <= bad;
    SubsetSize(blocks, bad);
  }

  /**
   BadBlocks: the report adds up, and a call that the user does not cancel fails exactly when its arguments are
   refused. It finds out a medium that wraps around, and it counts the bad blocks of one whose writes fail at
   them, if the patterns are alike all over the buffer.
   */
  method BadBlocks(medium: Medium, diskSize: nat, passes: seq<Pass>, userCancel: nat -> bool, ghost bad: set<nat>)
    returns (ok: bool, report: Report)
    requires PassesOk(0, passes)
    modifies medium
    ensures report.bbCount == report.numRead + report.numWrite + report.numCorruption <= MAX_BB - 1 + BLOCKS_AT_ONCE
    ensures !ok ==> report.bbCount == 0
    ensures Uncancelled(userCancel) ==>
              (ok <==> 1 <= |passes| <= MAX_PASSES && diskSize / BLOCK_SIZE * BLOCK_SIZE <= PB)
    ensures ErrorFree(medium) && diskSize < PB && 1 <= |passes| <= MAX_PASSES && Uncancelled(userCancel) ==>
              passes[0].stamped ==>
                forall capacity: nat :: Wraps(medium.cell, capacity) ==>
                                          (report.bbCount > 0 <==> capacity < diskSize / BLOCK_SIZE)
    ensures ErrorFree(medium) && diskSize < PB && Apart(medium.cell, 0, diskSize / BLOCK_SIZE) ==> report.bbCount == 0
    ensures BadExactly(medium, bad, diskSize / BLOCK_SIZE) && diskSize < PB && Uncancelled(userCancel) ==>
              1 <= |passes| <= MAX_PASSES && AllAlike(passes) && |bad| < MAX_BB ==> report.bbCount == |bad|
  {
    var bb := new U64List(0);
    var t := new Tester(bb, medium, diskSize / BLOCK_SIZE, BLOCK_SIZE, userCancel);
    BlocksFit(diskSize);
    var count := t.TestRw(0, passes, iset b: nat | b in bad);
    report := Report(count, t.numRead, t.numWrite, t.numCorruption);
    ok := !(t.cancelled && count == 0);
    forall capacity: nat | Wraps(medium.cell, capacity)
      ensures t.NoneLost(0) <==> diskSize / BLOCK_SIZE <= capacity
    {
      WrapLoses(medium.cell, capacity, diskSize / BLOCK_SIZE);
    }
    LostIffShared(medium.cell, 0, diskSize / BLOCK_SIZE);
    CountIsLength(bb.list[..bb.num]);
    if BadExactly(medium, bad, t.last) && diskSize < PB && Uncancelled(userCancel) {
      if 1 <= |passes| <= MAX_PASSES && AllAlike(passes) && |bad| < MAX_BB {
        ListsBad(bb.Blocks(), t.failed, bad, t.last, t.cancelled);
      }
    }
  }
}
