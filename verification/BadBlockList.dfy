/** The sorted list of bad blocks of src/badblocks.c, kept in a growing array. */
module BadBlockList {

  predicate StrictlyIncreasing(s: seq<nat>) {
    forall i, j :: 0 <= i < j < |s| ==> s[i] < s[j]
  }

  function Elements(s: seq<nat>): set<nat> {
    set i | 0 <= i < |s| :: s[i]
  }

  /** s with blk put in at position j. */
  function InsertAt(s: seq<nat>, j: nat, blk: nat): seq<nat>
    requires j <= |s|
  {
    s[..j] + [blk] + s[j..]
  }

  /** Inserting between smaller and larger elements adds one element and keeps the order. */
  lemma {:induction false} InsertKeepsOrder(s: seq<nat>, j: nat, blk: nat)
    requires StrictlyIncreasing(s) && j <= |s|
    requires (j > 0 ==> s[j - 1] < blk) && (j < |s| ==> blk < s[j])
    ensures StrictlyIncreasing(InsertAt(s, j, blk))
    ensures Elements(InsertAt(s, j, blk)) == Elements(s) + {blk}
    ensures blk !in Elements(s)
  {
    assert forall i :: 0 <= i < j ==> s[i] < blk;
    assert forall i :: j <= i < |s| ==> blk < s[i];
    InsertOrdered(s, j, blk);
    InsertElements(s, j, blk);
  }

  /** Where the elements are after an insertion. */
  lemma {:induction false} InsertPlaces(s: seq<nat>, j: nat, blk: nat)
    requires j <= |s|
    ensures var t := InsertAt(s, j, blk);
            && |t| == |s| + 1
            && forall i :: 0 <= i < |t| ==> t[i] == if i < j then s[i] else if i == j then blk else s[i - 1]
  {
  }

  lemma {:induction false} InsertOrdered(s: seq<nat>, j: nat, blk: nat)
    requires StrictlyIncreasing(s) && j <= |s|
    requires (forall i :: 0 <= i < j ==> s[i] < blk) && (forall i :: j <= i < |s| ==> blk < s[i])
    ensures StrictlyIncreasing(InsertAt(s, j, blk))
  {
    InsertPlaces(s, j, blk);
  }

  lemma {:induction false} InsertElements(s: seq<nat>, j: nat, blk: nat)
    requires j <= |s|
    ensures Elements(InsertAt(s, j, blk)) == Elements(s) + {blk}
  {
    var t := InsertAt(s, j, blk);
    InsertPlaces(s, j, blk);
    forall x
      ensures x in Elements(t) <==> x in Elements(s) + {blk}
    {
      if x in Elements(s) {
        var i :| 0 <= i < |s| && s[i] == x;
        assert t[if i < j then i else i + 1] == x;
      }
      if x == blk {
        assert t[j] == blk;
      }
    }
  }

  /** A strictly increasing list has as many elements as it is long. */
  lemma {:induction false} CountIsLength(s: seq<nat>)
    requires StrictlyIncreasing(s)
    ensures |Elements(s)| == |s|
    decreases |s|
  {
    if s != [] {
      var init, last := s[..|s| - 1], s[|s| - 1];
      CountIsLength(init);
      assert Elements(s) == Elements(init) + {last} by {
        assert forall i :: 0 <= i < |init| ==> init[i] == s[i];
      }
      assert last !in Elements(init);
    }
  }

  class U64List {
    var list: array<nat>
    var num: nat

    ghost predicate Valid()
      reads this, list
    {
      num <= list.Length && StrictlyIncreasing(list[..num])
    }

    /** The blocks on the list. */
    ghost function Blocks(): set<nat>
      requires num <= list.Length
      reads this, list
    {
      Elements(list[..num])
    }

    constructor (size: nat)
      ensures Valid() && num == 0 && fresh(list) && Blocks() == {}
    {
      list := new nat[if size == 0 then 10 else size](_ => 0);
      num := 0;
    }

    /** Make room for one more block: 100 more slots when the array is full. */
    method Grow()
      requires Valid()
      modifies this`list
      ensures Valid() && num < list.Length && list[..num] == old(list[..num]) && (list == old(list) || fresh(list))
    {
      if num >= list.Length {
        var bigger := new nat[list.Length + 100](_ => 0);
        for i := 0 to num
          invariant forall k :: 0 <= k < i ==> bigger[k] == list[k]
          modifies bigger
        {
          bigger[i] := list[i];
        }
        assert bigger[..num] == list[..num];
        list := bigger;
      }
    }

    /** Shift the blocks from j on by one slot and store blk at j. */
    method Insert(j: nat, blk: nat)
      requires Valid() && num < list.Length && j <= num
      requires (j > 0 ==> list[j - 1] < blk) && (j < num ==> blk < list[j])
      modifies this`num, list
      ensures num == old(num) + 1 <= list.Length && list[..num] == InsertAt(old(list[..num]), j, blk)
    {
      ghost var before := list[..num];
      var i := num;
      while i > j
        invariant j <= i <= num && list[..i] == before[..i]
        invariant forall k :: i < k <= num ==> list[k] == before[k - 1]
        modifies list
      {
        list[i] := list[i - 1];
        i := i - 1;
      }
      list[j] := blk;
      num := num + 1;
      assert list[..num] == InsertAt(before, j, blk);
    }

    /** bb_u64_list_add: afterwards the list holds blk too, once, and in order. */
    method Add(blk: nat)
      requires Valid()
      modifies this, list
      ensures Valid() && (list == old(list) || fresh(list))
      ensures Blocks() == old(Blocks()) + {blk}
      ensures num == old(num) + if blk in old(Blocks()) then 0 else 1
    {
      Grow();
      ghost var s := list[..num];
      if num != 0 && list[num - 1] == blk {
        assert s[num - 1] == blk;
        return;
      }
      if num == 0 || list[num - 1] < blk {
        InsertKeepsOrder(s, num, blk);
        Insert(num, blk);
        return;
      }
      var j := 0;
      while j < num && list[j] <= blk
        invariant 0 <= j <= num && forall k :: 0 <= k < j ==> list[k] < blk
      {
        if list[j] == blk {
          assert s[j] == blk;
          return;
        }
        j := j + 1;
      }
      InsertKeepsOrder(s, j, blk);
      Insert(j, blk);
    }

    /** bb_u64_list_find: the position of a block, or -1. */
    method Find(blk: nat) returns (r: int)
      requires Valid()
      ensures r >= 0 ==> r < num && list[r] == blk
      ensures r >= 0 <==> blk in Blocks()
    {
      ghost var s := list[..num];
      if num == 0 {
        return -1;
      }
      var low, high := 0, num - 1;
      if blk == list[low] {
        assert s[low] == blk;
        return low;
      }
      if blk == list[high] {
        assert s[high] == blk;
        return high;
      }
      while low < high
        invariant 0 <= low <= high < num
        invariant blk != list[low] && blk != list[high]
        invariant forall k :: 0 <= k < num && !(low < k < high) ==> s[k] != blk
      {
        var mid := (low + high) / 2;
        if mid == low || mid == high {
          break;
        }
        if blk == list[mid] {
          assert s[mid] == blk;
          return mid;
        }
        if blk < list[mid] {
          high := mid;
        } else {
          low := mid;
        }
      }
      assert forall k :: 0 <= k < num ==> s[k] != blk;
      return -1;
    }
  }
}
