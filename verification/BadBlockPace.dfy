/**
 The pace of the loops of src/badblocks.c: a batch from a batch start, or single blocks after a short count until
 the next batch start is reached; and what that means for the place in the buffer that a block is written from.
 */
module BadBlockPace {
  import opened Common
  import opened BadBlockTest

  /** The size of the next request, after one of `tryout` blocks of which `got` were done; ct is already moved on. */
  function NextTryout(recover: Option<nat>, ct: nat, got: nat, tryout: nat, full: nat): nat {
    if got != tryout then 1 else if recover == Some(ct) then full else tryout
  }

  /** Where to go back to full batches: set by the first short count, cleared when a request ends exactly there. */
  function NextRecover(recover: Option<nat>, ct: nat, got: nat, tryout: nat, full: nat): Option<nat>
    requires got <= ct
  {
    if got != tryout then (if recover == None then Some(ct - got + full) else recover)
    else if recover == Some(ct) then None
    else recover
  }

  /** The position after a request: a single block that fails is passed over. */
  function NextBlock(ct: nat, got: nat, tryout: nat): nat {
    if got == 0 && tryout == 1 then ct + 1 else ct + got
  }

  /** A position at which a full batch starts. */
  ghost predicate AtBatch(p: Pass, ct: nat)
    requires PassOk(p)
  {
    p.first <= ct && (ct - p.first) % |p.fill| == 0
  }

  /** Full batches are resumed at a batch start, or never. */
  ghost predicate Resumes(p: Pass, last: nat, recover: Option<nat>)
    requires PassOk(p)
  {
    recover == None || recover.value >= last || AtBatch(p, recover.value)
  }

  /** Requests are single blocks, or batches from a batch start; single ones only while a return is set. */
  ghost predicate Paced(p: Pass, last: nat, ct: nat, tryout: nat, recover: Option<nat>)
    requires PassOk(p)
  {
    && Resumes(p, last, recover)
    && (ct < last ==> tryout == 1 || (tryout == |p.fill| && AtBatch(p, ct)))
    && (ct < last && recover == None ==> tryout == |p.fill| && AtBatch(p, ct))
  }

  lemma {:induction false} PacedStart(p: Pass, last: nat, recover: Option<nat>)
    requires PassOk(p) && Resumes(p, last, recover)
    ensures Paced(p, last, p.first, |p.fill|, recover)
  {
  }

  lemma {:induction false} NextBatch(p: Pass, ct: nat)
    requires PassOk(p) && AtBatch(p, ct)
    ensures AtBatch(p, ct + |p.fill|)
  {
    ModShift(ct - p.first, |p.fill|);
  }

  lemma {:induction false} AnyBatch(p: Pass, ct: nat)
    requires PassOk(p) && |p.fill| == 1 && p.first <= ct
    ensures AtBatch(p, ct)
  {
  }

  /** Whatever the medium answers, the loops keep their pace. */
  lemma {:induction false} PacedNext(p: Pass, last: nat, ct: nat, n: nat, got: nat, tryout: nat, recover: Option<nat>)
    requires PassOk(p) && p.first <= ct < last && 1 <= tryout && Paced(p, last, ct, tryout, recover)
    requires n == Min(tryout, last - ct) && got <= n
    ensures var next, full := NextBlock(ct, got, n), |p.fill|;
            Paced(p, last, next, NextTryout(recover, next, got, n, full), NextRecover(recover, next, got, n, full))
  {
    if |p.fill| == 1 {
      AnyBatch(p, NextBlock(ct, got, n));
      AnyBatch(p, NextBlock(ct, got, n) - got + 1);
    } else if AtBatch(p, ct) {
      NextBatch(p, ct);
    }
  }

  /** A block in a batch is written from the place it has in the batch. */
  lemma {:induction false} PlaceInBatch(p: Pass, ct: nat, b: nat)
    requires PassOk(p) && AtBatch(p, ct) && ct <= b < ct + |p.fill|
    ensures b - ct == (b - p.first) % |p.fill|
  {
    InBatch(ct - p.first, |p.fill|, b - ct);
  }

  lemma {:induction false} InBatch(d: nat, m: nat, k: nat)
    requires m > 0 && d % m == 0 && k < m
    ensures (d + k) % m == k
  {
    DivUnique(d + k, m, d / m, k);
  }

  /** Every block was written from the start of the buffer or from the place it is compared with. */
  ghost predicate PlacesOk(p: Pass, src: imap<nat, nat>)
    requires PassOk(p)
  {
    forall b: nat :: b in src ==> p.first <= b && (src[b] == 0 || src[b] == (b - p.first) % |p.fill|)
  }

  lemma {:induction false} PlacesMore(p: Pass, last: nat, ct: nat, n: nat, got: nat, tryout: nat, recover: Option<nat>,
                                      src: imap<nat, nat>)
    requires PassOk(p) && p.first <= ct < last && 1 <= tryout && Paced(p, last, ct, tryout, recover)
    requires n == Min(tryout, last - ct) && got <= n && PlacesOk(p, src)
    ensures PlacesOk(p, Placed(src, ct, got))
  {
    forall b: nat | b in Placed(src, ct, got)
      ensures p.first <= b && (Placed(src, ct, got)[b] == 0 || Placed(src, ct, got)[b] == (b - p.first) % |p.fill|)
    {
      if ct <= b < ct + got && tryout > 1 {
        PlaceInBatch(p, ct, b);
      }
    }
  }

  /** Every block was written from the start of the buffer. */
  ghost predicate AllFirst(src: imap<nat, nat>) {
    forall b: nat :: b in src ==> src[b] == 0
  }

  /** The medium takes single blocks only. */
  ghost predicate RefusesBatches(m: Medium) {
    forall t: nat, b: nat, n: nat :: n > 1 ==> m.written(t, b, n) == 0
  }

  lemma {:induction false} FirstsMore(src: imap<nat, nat>, ct: nat, got: nat)
    requires AllFirst(src) && got <= 1
    ensures AllFirst(Placed(src, ct, got))
  {
  }

  /** All places of the buffer hold the same for a block. */
  ghost predicate Alike(p: Pass)
    requires PassOk(p)
  {
    forall b: nat :: p.first <= b ==> Filled(p, 0, b) == Content(p, b)
  }

  // ---------------------------------------------------------------- what a write loop has done

  /** What the write loop changes: the blocks acknowledged and given up so far, and what the medium holds. */
  datatype Ledger = Ledger(acked: seq<nat>, failed: seq<nat>, cells: map<nat, Block>)

  /** From one ledger to another: the trace tells the blocks acknowledged and given up, and what the medium holds. */
  ghost predicate Told(m: Medium, p: Pass, last: nat, bad: iset<nat>, tr: Trace, was: Ledger, now: Ledger, ct: nat)
    requires PassOk(p)
  {
    && Traces(tr, p.first, ct)
    && now.acked == was.acked + tr.acks && now.failed == was.failed + tr.fails
    && (WritesFailAt(m, bad) ==> FailsAt(tr, p.first, ct, bad))
    && (Apart(m.cell, p.first, last) ==> Keeps(m.cell, now.cells, was.cells, p, tr.src, last))
    && (WritesOk(m) ==> tr.fails == [])
    && (RefusesBatches(m) ==> AllFirst(tr.src))
  }

  lemma {:induction false} ToldStart(m: Medium, p: Pass, last: nat, bad: iset<nat>, was: Ledger)
    requires PassOk(p)
    ensures Told(m, p, last, bad, Trace([], [], imap[]), was, was, p.first)
  {
    TracesStart(p.first);
    ConcatNil(was.acked);
    ConcatNil(was.failed);
  }

  /** Of the blocks from ct to next, those from mid on are bad. */
  ghost predicate BadFrom(bad: iset<nat>, ct: nat, mid: nat, next: nat) {
    forall b: nat :: ct <= b < next ==> (b in bad <==> mid <= b)
  }

  /** The ledger after a turn. */
  ghost function Entered(m: Medium, now: Ledger, ct: nat, data: seq<Block>, got: nat, next: nat): Ledger
    requires got <= |data| && ct + got <= next
  {
    Ledger(now.acked + Range(ct, ct + got), now.failed + Range(ct + got, next),
           Stored(m.cell, now.cells, ct, data[..got]))
  }

  /** What a turn adds. */
  lemma {:induction false} ToldMore(m: Medium, p: Pass, last: nat, bad: iset<nat>, tr: Trace, was: Ledger, now: Ledger,
                                    ct: nat, data: seq<Block>, got: nat, next: nat)
    requires PassOk(p) && p.first <= ct && ct + |data| <= last && |data| <= |p.fill| && got <= |data|
    requires forall i :: 0 <= i < |data| ==> data[i] == Filled(p, i, ct + i)
    requires next == ct + got || (got == 0 && next == ct + 1)
    requires WritesFailAt(m, bad) ==> BadFrom(bad, ct, ct + got, next)
    requires (WritesOk(m) ==> next == ct + got) && (RefusesBatches(m) ==> got <= 1)
    requires Told(m, p, last, bad, tr, was, now, ct)
    ensures Told(m, p, last, bad, Traced(tr, ct, got, next), was, Entered(m, now, ct, data, got, next), next)
  {
    TracesMore(tr, p.first, ct, got, next);
    ConcatAssoc(was.acked, tr.acks, Range(ct, ct + got));
    ConcatAssoc(was.failed, tr.fails, Range(ct + got, next));
    FailsGrow(tr, p.first, ct, got, next, bad);
    if Apart(m.cell, p.first, last) {
      KeepsMore(m.cell, now.cells, was.cells, p, tr.src, last, ct, data[..got]);
    }
    if RefusesBatches(m) {
      FirstsMore(tr.src, ct, got);
    }
  }
}
