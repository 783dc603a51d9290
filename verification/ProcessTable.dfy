/** The shared record of src/process.c and its table of processes found so far. */
module ProcessTable {
  import opened ProcessSearch

  const SLOTS := 16

  /** The three access bits, as a set: read is 1, write is 2, execute is 4. */
  datatype Access = Read | Write | Execute
  type Rights = set<Access>

  /** A slot; a pid of 0 marks a free one. */
  datatype Entry = Entry(pid: nat, rights: Rights, seen: nat, cmdline: string)

  /** No pid other than 0 stands in two slots. */
  ghost predicate Distinct(t: seq<Entry>) {
    forall i, j :: 0 <= i < j < |t| && t[i].pid != 0 ==> t[i].pid != t[j].pid
  }

  /** The oldest pass whose entries are kept; the subtraction is unsigned. */
  function OldestKept(pass: nat): nat {
    (pass - 1) % U32
  }

  /** A slot after the pruning. */
  function Pruned(e: Entry, pass: nat): Entry {
    if e.pid != 0 && e.seen < OldestKept(pass) then e.(pid := 0) else e
  }

  /** The first slot for a pid: one that has it already, else a free one, else none. */
  ghost predicate IsSlotFor(t: seq<Entry>, pid: nat, slot: nat) {
    && slot <= |t|
    && (slot < |t| ==> t[slot].pid == pid || (t[slot].pid == 0 && forall i :: 0 <= i < |t| ==> t[i].pid != pid))
    && (slot == |t| ==> forall i :: 0 <= i < |t| ==> t[i].pid != pid && t[i].pid != 0)
  }

  ghost function AllPruned(t: seq<Entry>, pass: nat): (r: seq<Entry>)
    ensures |r| == |t| && forall i :: 0 <= i < |t| ==> r[i] == Pruned(t[i], pass)
  {
    seq(|t|, i requires 0 <= i < |t| => Pruned(t[i], pass))
  }

  lemma {:induction false} PruningKeepsDistinct(t: seq<Entry>, pass: nat)
    requires Distinct(t)
    ensures Distinct(AllPruned(t, pass))
  {
  }

  lemma {:induction false} StoringKeepsDistinct(t: seq<Entry>, slot: nat, e: Entry)
    requires Distinct(t) && slot < |t| && IsSlotFor(t, e.pid, slot)
    ensures Distinct(t[slot := e])
  {
  }

  /** The position of the first slot with a pid. */
  method FindPid(t: array<Entry>, pid: nat) returns (j: nat)
    ensures j <= t.Length && (j < t.Length ==> t[j].pid == pid) && forall i :: 0 <= i < j ==> t[i].pid != pid
  {
    j := 0;
    while j < t.Length && t[j].pid != pid
      invariant j <= t.Length && forall i :: 0 <= i < j ==> t[i].pid != pid
    {
      j := j + 1;
    }
  }

  /** Drop the entries that were not seen lately. */
  method Prune(t: array<Entry>, pass: nat)
    modifies t
    ensures t[..] == AllPruned(old(t[..]), pass)
  {
    for j := 0 to t.Length
      invariant forall i :: 0 <= i < j ==> t[i] == Pruned(old(t[i]), pass)
      invariant forall i :: j <= i < t.Length ==> t[i] == old(t[i])
    {
      if t[j].pid != 0 && t[j].seen < OldestKept(pass) {
        t[j] := t[j].(pid := 0);
      }
    }
  }

  /**
   What storing a process keeps of the others: from pass 1 on, exactly what was seen on this pass or the one
   before; during pass 0, where the subtraction wraps, nothing at all of what earlier passes below
   2^32 - 1 and this pass itself have found.
   */
  lemma {:induction false} KeptIff(t: seq<Entry>, pass: nat, i: nat)
    requires i < |t| && t[i].pid != 0 && t[i].seen < U32 && pass < U32
    ensures AllPruned(t, pass)[i].pid != 0 <==> if pass == 0 then t[i].seen == U32 - 1 else t[i].seen + 1 >= pass
  {
    assert AllPruned(t, pass)[i] == Pruned(t[i], pass);
  }

  /** An entry as it is stored for a process found on a pass. */
  function Seen(e: Entry, pass: nat): Entry {
    Entry(e.pid, e.rights, pass, e.cmdline)
  }

  /** No entry is as new as the last pass before the counter starts over. */
  ghost predicate Young(t: seq<Entry>) {
    forall k :: 0 <= k < |t| ==> t[k].seen < U32 - 1
  }

  /** The table holds no process but this one. */
  ghost predicate Alone(t: seq<Entry>, e: Entry) {
    forall i :: 0 <= i < |t| && t[i].pid != 0 ==> t[i] == e
  }

  /** After a store during pass 0, which always finds a slot, the stored process is alone in the table. */
  lemma {:induction false} FirstPassForgets(t: seq<Entry>, slot: nat, e: Entry)
    requires t != [] && Young(t) && e.seen < U32 - 1 && IsSlotFor(AllPruned(t, 0), e.pid, slot)
    ensures slot < |t| && Alone(AllPruned(t, 0)[slot := e], e) && Young(AllPruned(t, 0)[slot := e])
  {
    var q := AllPruned(t, 0);
    forall i | 0 <= i < |t| ensures q[i].pid == 0 && q[i].seen < U32 - 1 {
      if t[i].pid != 0 {
        KeptIff(t, 0, i);
      }
    }
    assert q[0].pid == 0;
  }

  /** The table holds a process that was seen on a pass. */
  ghost predicate Holds(t: seq<Entry>, pid: nat, pass: nat) {
    exists i :: 0 <= i < |t| && t[i].pid == pid && t[i].seen == pass
  }

  /** The slots in use. */
  ghost function InUse(t: seq<Entry>): nat {
    if t == [] then 0 else InUse(t[..|t| - 1]) + if t[|t| - 1].pid != 0 then 1 else 0
  }

  lemma {:induction false} FreeSlot(t: seq<Entry>)
    ensures InUse(t) <= |t|
    ensures InUse(t) < |t| ==> exists i :: 0 <= i < |t| && t[i].pid == 0
    decreases |t|
  {
    if t != [] {
      var init := t[..|t| - 1];
      FreeSlot(init);
      if InUse(init) < |init| {
        var i :| 0 <= i < |init| && init[i].pid == 0;
        assert t[i].pid == 0;
      }
    }
  }

  lemma {:induction false} PrunedInUse(t: seq<Entry>, pass: nat)
    ensures InUse(AllPruned(t, pass)) <= InUse(t)
    decreases |t|
  {
    if t != [] {
      PrunedInUse(t[..|t| - 1], pass);
      assert AllPruned(t, pass)[..|t| - 1] == AllPruned(t[..|t| - 1], pass);
    }
  }

  lemma {:induction false} StoredInUse(t: seq<Entry>, slot: nat, e: Entry)
    requires slot < |t|
    ensures InUse(t[slot := e]) <= InUse(t) + 1
    decreases |t|
  {
    var n := |t| - 1;
    if slot == n {
      assert t[slot := e][..n] == t[..n];
    } else {
      assert t[slot := e][..n] == t[..n][slot := e];
      StoredInUse(t[..n], slot, e);
    }
  }

  /** From pass 1 on, a store with a slot to spare finds one, and keeps every process seen on the same pass. */
  lemma {:induction false} StoreKeeps(t: seq<Entry>, pass: nat, slot: nat, e: Entry)
    requires 1 <= pass < U32 && InUse(t) < |t| && IsSlotFor(AllPruned(t, pass), e.pid, slot) && e.seen == pass
    ensures slot < |t| && InUse(AllPruned(t, pass)[slot := e]) <= InUse(t) + 1
    ensures Holds(AllPruned(t, pass)[slot := e], e.pid, pass)
    ensures forall pid: nat :: pid != 0 && Holds(t, pid, pass) ==> Holds(AllPruned(t, pass)[slot := e], pid, pass)
  {
    var q := AllPruned(t, pass);
    PrunedInUse(t, pass);
    FreeSlot(q);
    var r := q[slot := e];
    StoredInUse(q, slot, e);
    assert r[slot] == e;
    forall pid: nat | pid != 0 && Holds(t, pid, pass) ensures Holds(r, pid, pass) {
      var i :| 0 <= i < |t| && t[i].pid == pid && t[i].seen == pass;
      assert q[i] == t[i];
      assert r[if i == slot then slot else i].pid == pid;
    }
  }

  /** An entry that GetProcessSearch lists. */
  predicate Listed(e: Entry, mask: Rights, ignoreStale: bool, running: nat -> bool) {
    e.pid != 0 && e.rights * mask != {} && (ignoreStale ==> running(e.pid))
  }

  class BlockingProcess {
    var current: nat
    var copied: nat
    var pass: nat
    var shared: Names
    var own: Names
    var phase: Phase
    const process: array<Entry>

    ghost predicate Valid()
      reads this, process
    {
      && process.Length == SLOTS && pass < U32 && Distinct(process[..])
      && forall i :: 0 <= i < SLOTS ==> process[i].seen < U32
    }

    /** The protocol state. */
    ghost function Machine(): State
      reads this
    {
      State(current, copied, pass, shared, own, phase)
    }

    constructor ()
      ensures Valid() && Machine() == Start && fresh(process) && forall i :: 0 <= i < SLOTS ==> process[i].pid == 0
    {
      current, copied, pass, shared, own, phase := 0, 0, 0, [], [], Idle;
      process := new Entry[SLOTS](_ => Entry(0, {}, 0, ""));
    }

    /** SetProcessSearch, under the lock. */
    method SetSearch(names: Names)
      requires Valid()
      modifies this
      ensures Valid() && Machine() == Step(old(Machine()), Event.SetSearch(names))
    {
      shared := names;
      current := (current + 1) % U32;
    }

    /** The top of the thread's loop. */
    method BeginPass(enumerated: bool)
      requires Valid() && phase == Idle
      modifies this
      ensures Valid() && Machine() == Step(old(Machine()), Begin(enumerated))
    {
      if shared == [] {
        return;
      }
      if current != copied {
        own := shared;
        copied := current;
        pass := 0;
      }
      if enumerated {
        phase := Searching;
      }
    }

    /** The end of the thread's loop. */
    method FinishPass()
      requires Valid() && phase == Searching
      modifies this
      ensures Valid() && Machine() == Step(old(Machine()), EndPass)
    {
      pass := (pass + 1) % U32;
      phase := Idle;
    }

    /** Store a process that was found to have a matching handle. */
    method StoreFound(pid: nat, rights: Rights, cmdline: string) returns (slot: nat)
      requires Valid()
      modifies process
      ensures Valid()
      ensures IsSlotFor(AllPruned(old(process[..]), pass), pid, slot)
      ensures slot == SLOTS ==> process[..] == AllPruned(old(process[..]), pass)
      ensures slot < SLOTS ==>
                process[..] == AllPruned(old(process[..]), pass)[slot := Entry(pid, rights, pass, cmdline)]
    {
      ghost var was := process[..];
      Prune(process, pass);
      PruningKeepsDistinct(was, pass);
      slot := FindPid(process, pid);
      if slot == SLOTS {
        slot := FindPid(process, 0);
      }
      ghost var t := process[..];
      assert IsSlotFor(t, pid, slot);
      if slot != SLOTS {
        StoringKeepsDistinct(t, slot, Entry(pid, rights, pass, cmdline));
        process[slot] := Entry(pid, rights, pass, cmdline);
        assert process[..] == t[slot := Entry(pid, rights, pass, cmdline)];
      }
    }

    /** The loop of a pass over the processes found. */
    method StoreAll(found: seq<Entry>)
      requires Valid()
      modifies process
      ensures Valid()
      ensures pass == 0 && old(Young(process[..])) && found != [] ==>
                Alone(process[..], Seen(found[|found| - 1], 0)) && Holds(process[..], found[|found| - 1].pid, 0)
      ensures pass >= 1 && old(InUse(process[..])) + |found| <= SLOTS ==>
                forall k :: 0 <= k < |found| && found[k].pid != 0 ==> Holds(process[..], found[k].pid, pass)
      ensures found == [] ==> process[..] == old(process[..])
    {
      ghost var young, room := Young(process[..]), pass >= 1 && InUse(process[..]) + |found| <= SLOTS;
      for k := 0 to |found|
        invariant Valid() && (k == 0 ==> process[..] == old(process[..]))
        invariant pass == 0 && young ==> Young(process[..])
        invariant pass == 0 && young && k > 0 ==>
            Alone(process[..], Seen(found[k - 1], 0)) && Holds(process[..], found[k - 1].pid, 0)
        invariant room ==> InUse(process[..]) + |found| <= SLOTS + k
        invariant room ==> forall m :: 0 <= m < k && found[m].pid != 0 ==> Holds(process[..], found[m].pid, pass)
      {
        ghost var t := process[..];
        var e := found[k];
        var slot := StoreFound(e.pid, e.rights, e.cmdline);
        if pass == 0 && young {
          FirstPassForgets(t, slot, Seen(e, 0));
          assert process[..][slot] == Seen(e, 0);
        }
        if room {
          StoreKeeps(t, pass, slot, Seen(e, pass));
        }
      }
    }

    /**
     A whole pass of the thread, with the processes found in it one after the other. If the names are new, the pass
     is numbered 0, and whatever it finds, the last process found and no other is in the table when the first
     report becomes possible. A pass with a higher number keeps every process it finds, as long as there are slots
     for all of them beside those in use.
     */
    method SearchPass(found: seq<Entry>)
      requires Valid() && phase == Idle && shared != []
      modifies this, process
      ensures Valid() && Machine() == Step(Step(old(Machine()), Begin(true)), EndPass)
      ensures old(current != copied) ==> Reports(Machine())
      ensures old(current != copied) && old(Young(process[..])) && found != [] ==>
                && Holds(process[..], found[|found| - 1].pid, 0)
                && forall i :: 0 <= i < SLOTS && process[i].pid != 0 ==> process[i].pid == found[|found| - 1].pid
      ensures old(current == copied) && old(pass) >= 1 && old(InUse(process[..])) + |found| <= SLOTS ==>
                forall k :: 0 <= k < |found| && found[k].pid != 0 ==> Holds(process[..], found[k].pid, old(pass))
      ensures found == [] ==> process[..] == old(process[..])
    {
      BeginPass(true);
      StoreAll(found);
      FinishPass();
    }

    /**
     GetProcessSearch, under the lock: nothing unless a pass with the current names is over; then the pids of
     the listed entries and what they have in common with the mask.
     */
    method Report(mask: Rights, ignoreStale: bool, running: nat -> bool)
      returns (ready: bool, pids: seq<nat>, rights: Rights)
      requires Valid()
      ensures ready == Reports(Machine())
      ensures pids == if ready then ListedPids(process[..], SLOTS, mask, ignoreStale, running) else []
      ensures rights == if ready then ListedRights(process[..], SLOTS, mask, ignoreStale, running) * mask else {}
    {
      pids, rights := [], {};
      ready := current == copied && pass >= 1;
      if !ready {
        return;
      }
      ghost var t := process[..];
      for i := 0 to SLOTS
        invariant pids == ListedPids(t, i, mask, ignoreStale, running)
        invariant rights == ListedRights(t, i, mask, ignoreStale, running)
      {
        if Listed(process[i], mask, ignoreStale, running) {
          rights := rights + process[i].rights;
          pids := pids + [process[i].pid];
        }
      }
      rights := rights * mask;
    }
  }

  /** The pids of the listed entries among the first n. */
  function ListedPids(t: seq<Entry>, n: nat, mask: Rights, ignoreStale: bool, running: nat -> bool): seq<nat>
    requires n <= |t|
  {
    if n == 0 then []
    else
      var before := ListedPids(t, n - 1, mask, ignoreStale, running);
      if Listed(t[n - 1], mask, ignoreStale, running) then before + [t[n - 1].pid] else before
  }

  /** A pid is reported exactly when a listed entry has it. */
  lemma {:induction false} ReportedIff(t: seq<Entry>, n: nat, mask: Rights, ignoreStale: bool, running: nat -> bool,
                                       p: nat)
    requires n <= |t|
    ensures p in ListedPids(t, n, mask, ignoreStale, running) <==>
            exists i :: 0 <= i < n && t[i].pid == p && Listed(t[i], mask, ignoreStale, running)
  {
    if n > 0 {
      ReportedIff(t, n - 1, mask, ignoreStale, running, p);
    }
  }

  /** In a table without repeated pids, no pid is reported twice. */
  lemma {:induction false} ReportedOnce(t: seq<Entry>, n: nat, mask: Rights, ignoreStale: bool, running: nat -> bool)
    requires n <= |t| && Distinct(t)
    ensures var pids := ListedPids(t, n, mask, ignoreStale, running);
            forall k, m :: 0 <= k < m < |pids| ==> pids[k] != pids[m]
  {
    if n > 0 {
      ReportedOnce(t, n - 1, mask, ignoreStale, running);
      ReportedIff(t, n - 1, mask, ignoreStale, running, t[n - 1].pid);
    }
  }

  /** All access rights of the listed entries among the first n. */
  function ListedRights(t: seq<Entry>, n: nat, mask: Rights, ignoreStale: bool, running: nat -> bool): Rights
    requires n <= |t|
  {
    if n == 0 then {}
    else
      var before := ListedRights(t, n - 1, mask, ignoreStale, running);
      if Listed(t[n - 1], mask, ignoreStale, running) then before + t[n - 1].rights else before
  }

  /** The returned mask is zero exactly when no process is listed. */
  lemma {:induction false} MaskIff(t: seq<Entry>, n: nat, mask: Rights, ignoreStale: bool, running: nat -> bool)
    requires n <= |t|
    ensures ListedRights(t, n, mask, ignoreStale, running) * mask != {} <==>
            ListedPids(t, n, mask, ignoreStale, running) != []
  {
    if n > 0 {
      MaskIff(t, n - 1, mask, ignoreStale, running);
      var before := ListedRights(t, n - 1, mask, ignoreStale, running);
      assert (before + t[n - 1].rights) * mask == before * mask + t[n - 1].rights * mask;
    }
  }
}
