/** The public ASN.1 search of src/parser.c: an OID string, a type, and a buffer of less than 64 KB. */
module Asn1Search {
  import opened Common
  import opened Asn1
  import Oid

  function DataOf(o: Outcome): Option<(nat, nat)> {
    if o.Done? then o.data else None
  }

  /** What is found in a buffer: the offset and length of the data, if any. */
  function Search(buf: seq<Byte>, oidStr: string, wanted: nat, max: nat): Option<(nat, nat)> {
    if |buf| >= 65536 then None
    else if oidStr == "" then DataOf(Walk(buf, 0, |buf|, Query([], wanted), true))
    else
      match Oid.Encoding(oidStr, max)
      case None => None
      case Some(oid) => DataOf(Walk(buf, 0, |buf|, Query(oid, wanted), false))
  }

  /** get_data_from_asn1 */
  method GetDataFromAsn1(buf: seq<Byte>, oidStr: string, wanted: nat, max: nat) returns (data: Option<(nat, nat)>)
    requires max >= Oid.MIN_ULONG_MAX
    ensures data == Search(buf, oidStr, wanted, max)
  {
    var matched := oidStr == "";
    var oid: seq<Byte> := [];
    if |buf| >= 65536 {
      return None;
    }
    if !matched {
      var r := Oid.OidFromStr(oidStr, max);
      if r.None? {
        return None;
      }
      oid := r.value;
    }
    var o := GetDataInternal(buf, 0, |buf|, Query(oid, wanted), matched);
    return DataOf(o);
  }

  /** r names the contents in buf of the first wanted leaf of ls from index `from` on. */
  ghost predicate FirstWanted(buf: seq<Byte>, ls: seq<Leaf>, from: nat, wanted: nat, r: Option<(nat, nat)>) {
    match r
    case None => forall j :: from <= j < |ls| ==> !IsWanted(ls[j], wanted)
    case Some((start, len)) =>
      exists j :: from <= j < |ls| && IsWanted(ls[j], wanted)
                  && (forall i :: from <= i < j ==> !IsWanted(ls[i], wanted))
                  && start == ls[j].start && start + len <= |buf| && buf[start..start + len] == ls[j].content
  }

  lemma {:induction false} ScanFirst(buf: seq<Byte>, ls: seq<Leaf>, from: nat, q: Query)
    requires from <= |ls| && LeavesAt(buf, ls)
    ensures FirstWanted(buf, ls, from, q.wanted, DataOf(OutcomeOf(Scan(ls[from..], q, true))))
  {
    var t := ls[from..];
    ScanFindsFirst(t, q);
    match Scan(t, q, true).1
    case None =>
      forall j | from <= j < |ls|
        ensures !IsWanted(ls[j], q.wanted)
      {
        assert ls[j] == t[j - from];
      }
    case Some(l) =>
      var j :| && 0 <= j < |t| && l == t[j] && IsWanted(t[j], q.wanted)
               && forall i :: 0 <= i < j ==> !IsWanted(t[i], q.wanted);
      assert ls[from + j] == l && LeafAt(buf, ls[from + j]);
      forall i | from <= i < from + j
        ensures !IsWanted(ls[i], q.wanted)
      {
        assert ls[i] == t[i - from];
      }
  }

  lemma {:induction false} WholeBuffer(vs: seq<Value>, q: Query, matched: bool)
    requires AllEncodable(vs)
    ensures
      var buf := EncodeAll(vs);
      && LeavesAt(buf, Leaves(vs, 0))
      && Walk(buf, 0, |buf|, q, matched) == OutcomeOf(Scan(Leaves(vs, 0), q, matched))
  {
    var buf := EncodeAll(vs);
    HasAtPrefix([], buf);
    NilConcat(buf);
    LeavesInBuffer(buf, 0, vs);
    WalkIsScan(buf, 0, |buf|, vs, q);
  }

  /** Without an OID, the search finds the first non-empty universal value of the type. */
  lemma {:induction false} FindsFirstOfType(vs: seq<Value>, wanted: nat, max: nat)
    requires AllEncodable(vs) && |EncodeAll(vs)| < 65536
    ensures FirstWanted(EncodeAll(vs), Leaves(vs, 0), 0, wanted, Search(EncodeAll(vs), "", wanted, max))
  {
    var q := Query([], wanted);
    WholeBuffer(vs, q, true);
    assert Leaves(vs, 0)[0..] == Leaves(vs, 0);
    ScanFirst(EncodeAll(vs), Leaves(vs, 0), 0, q);
  }

  /** With an OID, it finds the first such value after the first occurrence of the OID, and nothing without one. */
  lemma {:induction false} FindsFirstAfterOid(vs: seq<Value>, oidStr: string, wanted: nat, max: nat)
    requires AllEncodable(vs) && |EncodeAll(vs)| < 65536 && oidStr != "" && Oid.Encoding(oidStr, max).Some?
    ensures
      var ls, oid, r := Leaves(vs, 0), Oid.Encoding(oidStr, max).value, Search(EncodeAll(vs), oidStr, wanted, max);
      && ((forall k :: 0 <= k < |ls| ==> !IsOid(ls[k], oid)) ==> r == None)
      && forall i: nat :: FirstOid(ls, oid, i) ==> FirstWanted(EncodeAll(vs), ls, i + 1, wanted, r)
  {
    var buf, ls, oid := EncodeAll(vs), Leaves(vs, 0), Oid.Encoding(oidStr, max).value;
    WholeBuffer(vs, Query(oid, wanted), false);
    AfterOid(buf, ls, Query(oid, wanted));
  }

  /** The scan of the leaves, once an OID is asked for. */
  lemma {:induction false} AfterOid(buf: seq<Byte>, ls: seq<Leaf>, q: Query)
    requires LeavesAt(buf, ls)
    ensures
      var r := DataOf(OutcomeOf(Scan(ls, q, false)));
      && ((forall k :: 0 <= k < |ls| ==> !IsOid(ls[k], q.oid)) ==> r == None)
      && forall i: nat :: FirstOid(ls, q.oid, i) ==> FirstWanted(buf, ls, i + 1, q.wanted, r)
  {
    ScanNeedsOid(ls, q);
    forall i: nat | FirstOid(ls, q.oid, i)
      ensures FirstWanted(buf, ls, i + 1, q.wanted, DataOf(OutcomeOf(Scan(ls, q, false))))
    {
      ScanFirst(buf, ls, i + 1, q);
    }
  }
}
