/**
 The protocol of src/process.c between the thread that searches for processes
 and the clients that set what to search for and ask for the outcome: a
 state machine whose events are the sections that run under the lock, in any order.
 */
module ProcessSearch {
  const U32 := 0x1_0000_0000

  /** What the search looks for: a list of handle names. */
  type Names = seq<string>

  datatype Phase = Idle | Searching

  /** The shared record, and the search thread's own copy of the names. */
  datatype State = State(current: nat, copied: nat, pass: nat, shared: Names, own: Names, phase: Phase)

  /**
   SetSearch is SetProcessSearch; Begin is the top of the thread's loop, down to the enumeration of
   all handles, which may fail; EndPass is the end of the loop's body.
   */
  datatype Event = SetSearch(names: Names) | Begin(enumerated: bool) | EndPass

  const Start := State(0, 0, 0, [], [], Idle)

  /** The thread takes a new copy at the start of this pass. */
  predicate Copies(s: State, e: Event) {
    e.Begin? && s.phase == Idle && s.shared != [] && s.current != s.copied
  }

  function Step(s: State, e: Event): State {
    match e
    case SetSearch(names) => s.(shared := names, current := (s.current + 1) % U32)
    case Begin(enumerated) =>
      if s.phase == Searching || s.shared == [] then s
      else
        var t := if s.current != s.copied then s.(copied := s.current, own := s.shared, pass := 0) else s;
        if enumerated then t.(phase := Searching) else t
    case EndPass => if s.phase == Searching then s.(pass := (s.pass + 1) % U32, phase := Idle) else s
  }

  /** GetProcessSearch goes on to report. */
  predicate Reports(s: State) {
    s.current == s.copied && s.pass >= 1
  }

  /** The state after the first n events of a run. */
  function After(run: seq<Event>, n: nat): State
    requires n <= |run|
  {
    if n == 0 then Start else Step(After(run, n - 1), run[n - 1])
  }

  /** The calls of SetProcessSearch since the last copy. */
  function SetsSince(run: seq<Event>, n: nat): nat
    requires n <= |run|
  {
    if n == 0 || Copies(After(run, n - 1), run[n - 1]) then 0
    else SetsSince(run, n - 1) + if run[n - 1].SetSearch? then 1 else 0
  }

  /** The events from i to j are one whole pass that searched for the given names throughout. */
  ghost predicate WholePass(run: seq<Event>, i: nat, j: nat, names: Names) {
    i < j < |run| && run[i] == Begin(true) && run[j] == EndPass && SearchesFor(run, i, j, names)
  }

  /** From the event i on, up to the state after n events, the thread searches for the given names. */
  ghost predicate SearchesFor(run: seq<Event>, i: nat, n: nat, names: Names)
    requires n <= |run|
  {
    forall k :: i < k <= n ==> After(run, k).phase == Searching && After(run, k).own == names
  }

  /** No call of SetProcessSearch among the events from i to n. */
  ghost predicate Undisturbed(run: seq<Event>, i: nat, n: nat)
    requires n <= |run|
  {
    forall k :: i <= k < n ==> !run[k].SetSearch?
  }

  /** The versions count the calls since the last copy, modulo 2^32; without any, the copy is current. */
  lemma {:induction false} VersionsCount(run: seq<Event>, n: nat)
    requires n <= |run|
    ensures var s := After(run, n);
            s.current < U32 && s.copied < U32 && s.current == (s.copied + SetsSince(run, n)) % U32
            && (SetsSince(run, n) == 0 ==> s.own == s.shared)
  {
    if n > 0 {
      VersionsCount(run, n - 1);
      VersionStep(After(run, n - 1), run[n - 1], SetsSince(run, n - 1));
    }
  }

  lemma {:induction false} VersionStep(s: State, e: Event, sets: nat)
    requires s.current < U32 && s.copied < U32 && s.current == (s.copied + sets) % U32
    requires (sets == 0 ==> s.own == s.shared)
    ensures var t := Step(s, e);
            var now := if Copies(s, e) then 0 else sets + if e.SetSearch? then 1 else 0;
            t.current < U32 && t.copied < U32 && t.current == (t.copied + now) % U32 && (now == 0 ==> t.own == t.shared)
  {
    match e
    case SetSearch(_) => OneMore(s.copied + sets);
    case Begin(_) =>
    case EndPass =>
  }

  lemma {:induction false} OneMore(x: nat)
    ensures (x % U32 + 1) % U32 == (x + 1) % U32
  {
  }

  /** While the thread searches, its pass began after the last copy, with the names it has now. */
  lemma {:induction false} PassUnderWay(run: seq<Event>, n: nat) returns (i: nat)
    requires n <= |run| && After(run, n).phase == Searching
    ensures i < n && run[i] == Begin(true) && SearchesFor(run, i, n, After(run, n).own)
    ensures SetsSince(run, n) == 0 ==> Undisturbed(run, i, n)
  {
    if After(run, n - 1).phase == Searching {
      i := PassUnderWay(run, n - 1);
    } else {
      i := n - 1;
    }
  }

  /** Once a pass is counted, there was a whole one since the last copy, with the names the thread has now. */
  lemma {:induction false} PassCounted(run: seq<Event>, n: nat) returns (i: nat, j: nat)
    requires n <= |run| && After(run, n).pass >= 1
    ensures j < n && WholePass(run, i, j, After(run, n).own)
    ensures SetsSince(run, n) == 0 ==> Undisturbed(run, i, n)
  {
    var s := After(run, n - 1);
    if run[n - 1].EndPass? && s.phase == Searching {
      i := PassUnderWay(run, n - 1);
      j := n - 1;
    } else {
      i, j := PassCounted(run, n - 1);
    }
  }

  /**
   In every run: with fewer than 2^32 calls of SetProcessSearch since the last copy, a report means that the
   thread's names are the shared ones and that a whole pass has searched for them, with no
   call since it began.
   */
  lemma {:induction false} ReportIsCurrent(run: seq<Event>, n: nat)
    requires n <= |run| && Reports(After(run, n)) && SetsSince(run, n) < U32
    ensures After(run, n).own == After(run, n).shared
    ensures exists i: nat, j: nat :: j < n && WholePass(run, i, j, After(run, n).shared) && Undisturbed(run, i, n)
  {
    VersionsCount(run, n);
    var i, j := PassCounted(run, n);
    assert WholePass(run, i, j, After(run, n).shared) && Undisturbed(run, i, n);
  }

  /** Once a pass is counted, a report is given exactly when the calls since the last copy are a multiple of 2^32. */
  lemma {:induction false} ReportsExactly(run: seq<Event>, n: nat)
    requires n <= |run|
    ensures Reports(After(run, n)) <==> After(run, n).pass >= 1 && SetsSince(run, n) % U32 == 0
  {
    VersionsCount(run, n);
    SameVersion(After(run, n).copied, SetsSince(run, n));
  }

  lemma {:induction false} SameVersion(copied: nat, sets: nat)
    requires copied < U32
    ensures (copied + sets) % U32 == copied <==> sets % U32 == 0
  {
  }

  /** So 2^32 calls in a row bring back a report, for names that nobody asks for any more. */
  lemma {:induction false} StaleReport(a: string, b: string) returns (run: seq<Event>)
    requires a != b
    ensures |run| == 3 + U32 && Reports(After(run, |run|)) && After(run, |run|).own != After(run, |run|).shared
  {
    run := [SetSearch([a]), Begin(true), EndPass] + seq(U32, _ => SetSearch([b]));
    OnlySets(run, U32, a, b);
  }

  lemma {:induction false} OnlySets(run: seq<Event>, m: nat, a: string, b: string)
    requires 3 + m <= |run| && run[..3] == [SetSearch([a]), Begin(true), EndPass]
    requires forall k :: 3 <= k < |run| ==> run[k] == SetSearch([b])
    ensures After(run, 3 + m) == State((1 + m) % U32, 1, 1, if m == 0 then [a] else [b], [a], Idle)
  {
    if m == 0 {
      assert run[0] == run[..3][0] && run[1] == run[..3][1] && run[2] == run[..3][2];
      assert After(run, 1) == State(1, 0, 0, [a], [], Idle);
      assert After(run, 2) == State(1, 1, 0, [a], [a], Searching);
    } else {
      OnlySets(run, m - 1, a, b);
      OneMore(m);
    }
  }
}
