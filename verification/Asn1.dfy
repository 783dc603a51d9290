/**
 The ASN.1 search of src/parser.c: a loop over the elements of a buffer that
 recurses into constructed elements, looking for the data that follows an OID.
 */
module Asn1 {
  import opened Common

  /** What an identifier and its length say about an element: its contents are buf[start..start + len]. */
  datatype Header =
    | Element(constructed: bool, universal: bool, tag: nat, start: nat, len: nat)
    | Unsupported   // long-form tag, more than two length octets, or a length past the end
    | Overrun       // the header itself is cut short

  /** A search: the OID to meet first and the type of the data wanted after it. */
  datatype Query = Query(oid: seq<Byte>, wanted: nat)

  /** How a walk over a buffer ends; `data` is the offset and length of what was found. */
  datatype Outcome = Done(matched: bool, data: Option<(nat, nat)>) | Rejected | CutShort

  const TAG_NULL := 5
  const TAG_OID := 6

  function LengthHeader(buf: seq<Byte>, pos: nat, hi: nat, constructed: bool, universal: bool, tag: nat): Header
    requires hi <= |buf|
  {
    if pos >= hi then Overrun
    else
      var octets := if buf[pos] >= 128 then buf[pos] % 128 else 0;
      if octets > 2 then Unsupported
      else if pos + 1 + octets > hi then Overrun
      else
        var len: int :=
          if buf[pos] < 128 then buf[pos]
          else if octets == 0 then 0
          else if octets == 1 then buf[pos + 1]
          else (buf[pos + 1] as int) * 256 + buf[pos + 2];
        if len > hi - (pos + 1 + octets) then Unsupported
        else Element(constructed, universal, tag, pos + 1 + octets, len)
  }

  /** The element at pos of the window that ends at hi; a universal NULL is two bytes whatever they hold. */
  function HeaderAt(buf: seq<Byte>, pos: nat, hi: nat): (h: Header)
    requires pos < hi <= |buf|
    ensures h.Element? ==> pos + 2 <= h.start && (h.len > 0 ==> h.start + h.len <= hi)
  {
    var constructed := (buf[pos] / 32) % 2 == 1;
    var universal := buf[pos] / 64 == 0;
    var tag := buf[pos] % 32;
    if tag == 31 then Unsupported
    else if universal && tag == TAG_NULL then Element(constructed, universal, tag, pos + 2, 0)
    else LengthHeader(buf, pos + 1, hi, constructed, universal, tag)
  }

  /** The walk over buf[pos..hi]. */
  function Walk(buf: seq<Byte>, pos: nat, hi: nat, q: Query, matched: bool): Outcome
    requires hi <= |buf|
    decreases hi - pos
  {
    if pos >= hi then Done(matched, None)
    else
      match HeaderAt(buf, pos, hi)
      case Unsupported => Rejected
      case Overrun => CutShort
      case Element(constructed, universal, tag, start, len) =>
        if len == 0 then Walk(buf, start, hi, q, matched)
        else if constructed then
          var inner := Walk(buf, start, start + len, q, matched);
          if inner.Done? && inner.data.None? then Walk(buf, start + len, hi, q, inner.matched) else inner
        else if universal && !matched && tag == TAG_OID && buf[start..start + len] == q.oid then
          Walk(buf, start + len, hi, q, true)
        else if universal && matched && tag == q.wanted then Done(matched, Some((start, len)))
        else Walk(buf, start + len, hi, q, matched)
  }

  /** get_data_from_asn1_internal on the window buf[lo..hi]. */
  method GetDataInternal(buf: seq<Byte>, lo: nat, hi: nat, q: Query, matched: bool) returns (r: Outcome)
    requires lo <= hi <= |buf|
    ensures r == Walk(buf, lo, hi, q, matched)
    decreases hi - lo
  {
    var pos, m := lo, matched;
    ghost var whole := Walk(buf, lo, hi, q, matched);
    while pos < hi
      invariant lo <= pos && whole == Walk(buf, pos, hi, q, m)
      decreases hi - pos
    {
      match HeaderAt(buf, pos, hi) {
        case Unsupported => return Rejected;
        case Overrun => return CutShort;
        case Element(constructed, universal, tag, start, len) =>
          if len != 0 {
            if constructed {
              var inner := GetDataInternal(buf, start, start + len, q, m);
              if !inner.Done? || inner.data.Some? {
                return inner;
              }
              m := inner.matched;
            } else if universal {
              if !m && tag == TAG_OID && buf[start..start + len] == q.oid {
                m := true;
              } else if m && tag == q.wanted {
                return Done(m, Some((start, len)));
              }
            }
          }
          pos := start + len;
      }
    }
    return Done(m, None);
  }

  // ---------------------------------------------------------------- encodings

  /**
   An ASN.1 value in definite-length form (section 8.1.3 of X.690); lenOctets is 0
   for the short form, else how many octets follow in the long form.
   */
  datatype Value =
    | Primitive(cls: nat, tag: nat, lenOctets: nat, content: seq<Byte>)
    | Constructed(cls: nat, tag: nat, lenOctets: nat, children: seq<Value>)

  function Contents(v: Value): seq<Byte>
    decreases v, 0
  {
    match v
    case Primitive(_, _, _, c) => c
    case Constructed(_, _, _, vs) => EncodeAll(vs)
  }

  function HeaderLength(v: Value): nat {
    2 + v.lenOctets
  }

  function EncodeHeader(v: Value, n: nat): seq<int> {
    var id := v.cls * 64 + (if v.Constructed? then 32 else 0) + v.tag;
    match v.lenOctets
    case 0 => [id, n]
    case 1 => [id, 129, n]
    case _ => [id, 130, n / 256, n % 256]
  }

  /** Low tag number, a length that fits its form, and NULL empty in the short form. */
  predicate HeaderOk(v: Value, n: nat) {
    && v.cls < 4 && v.tag < 31
    && (match v.lenOctets case 0 => n < 128 case 1 => n < 256 case 2 => n < 65536 case _ => false)
    && (v.cls == 0 && v.tag == TAG_NULL ==> v.Primitive? && v.lenOctets == 0 && n == 0)
  }

  function Encode(v: Value): seq<Byte>
    decreases v, 1
  {
    var c := Contents(v);
    if HeaderOk(v, |c|) then
      HeaderBytes(v, |c|);
      EncodeHeader(v, |c|) + c
    else c
  }

  lemma {:induction false} HeaderBytes(v: Value, n: nat)
    requires HeaderOk(v, n)
    ensures |EncodeHeader(v, n)| == HeaderLength(v)
    ensures forall k :: 0 <= k < HeaderLength(v) ==> 0 <= EncodeHeader(v, n)[k] < 256
  {
  }

  function EncodeAll(vs: seq<Value>): seq<Byte>
    decreases vs, 0
  {
    if vs == [] then [] else Encode(vs[0]) + EncodeAll(vs[1..])
  }

  predicate Encodable(v: Value)
    decreases v, 1
  {
    HeaderOk(v, |Contents(v)|) && (v.Constructed? ==> AllEncodable(v.children))
  }

  predicate AllEncodable(vs: seq<Value>)
    decreases vs, 0
  {
    vs == [] || (Encodable(vs[0]) && AllEncodable(vs[1..]))
  }

  /** Reading the header of an encoded value gives back its parts. */
  lemma {:induction false} HeaderRead(buf: seq<Byte>, pos: nat, hi: nat, v: Value)
    requires Encodable(v) && hi <= |buf| && pos + |Encode(v)| <= hi && HasAt(buf, pos, Encode(v))
    ensures pos < hi && |Encode(v)| == HeaderLength(v) + |Contents(v)|
    ensures HeaderAt(buf, pos, hi) == Element(v.Constructed?, v.cls == 0, v.tag, pos + HeaderLength(v), |Contents(v)|)
    ensures HasAt(buf, pos + HeaderLength(v), Contents(v))
  {
    var n, h, e := |Contents(v)|, HeaderLength(v), Encode(v);
    HeaderBytes(v, n);
    var head: seq<Byte> := EncodeHeader(v, n);
    HasAtConcat(buf, pos, head, Contents(v));
    HasAtIndex(buf, pos, head, 0);
    HasAtIndex(buf, pos, head, 1);
    if v.lenOctets >= 1 {
      HasAtIndex(buf, pos, head, 2);
    }
    if v.lenOctets == 2 {
      HasAtIndex(buf, pos, head, 3);
    }
    IdentifierRead(v.cls, v.Constructed?, v.tag);
  }

  lemma {:induction false} IdentifierRead(cls: nat, constructed: bool, tag: nat)
    requires cls < 4 && tag < 31
    ensures
      var id := cls * 64 + (if constructed then 32 else 0) + tag;
      id % 32 == tag && id / 64 == cls && ((id / 32) % 2 == 1 <==> constructed)
  {
  }

  // ---------------------------------------------------------------- what is searched for

  /** A primitive value of the encoding and where its contents start. */
  datatype Leaf = Leaf(universal: bool, tag: nat, start: nat, content: seq<Byte>)

  /** The primitive values of v in preorder, for an encoding that starts at base. */
  function LeavesOf(v: Value, base: nat): seq<Leaf>
    decreases v, 1
  {
    match v
    case Primitive(cls, tag, _, c) => [Leaf(cls == 0, tag, base + HeaderLength(v), c)]
    case Constructed(_, _, _, children) => Leaves(children, base + HeaderLength(v))
  }

  function Leaves(vs: seq<Value>, base: nat): seq<Leaf>
    decreases vs, 0
  {
    if vs == [] then [] else LeavesOf(vs[0], base) + Leaves(vs[1..], base + |Encode(vs[0])|)
  }

  predicate IsOid(l: Leaf, oid: seq<Byte>) {
    l.universal && l.tag == TAG_OID && l.content != [] && l.content == oid
  }

  predicate IsWanted(l: Leaf, tag: nat) {
    l.universal && l.tag == tag && l.content != []
  }

  /** The same search, over the list of leaves. */
  function Scan(ls: seq<Leaf>, q: Query, matched: bool): (bool, Option<Leaf>) {
    if ls == [] then (matched, None)
    else if !matched && IsOid(ls[0], q.oid) then Scan(ls[1..], q, true)
    else if matched && IsWanted(ls[0], q.wanted) then (matched, Some(ls[0]))
    else Scan(ls[1..], q, matched)
  }

  function OutcomeOf(r: (bool, Option<Leaf>)): Outcome {
    Done(r.0, match r.1 case None => None case Some(l) => Some((l.start, |l.content|)))
  }

  lemma {:induction false} ScanConcat(a: seq<Leaf>, b: seq<Leaf>, q: Query, matched: bool)
    ensures Scan(a + b, q, matched) ==
            var r := Scan(a, q, matched);
            if r.1.Some? then r else Scan(b, q, r.0)
    decreases |a|
  {
    if a == [] {
      assert a + b == b;
    } else {
      assert (a + b)[1..] == a[1..] + b;
      ScanConcat(a[1..], b, q, matched || IsOid(a[0], q.oid));
      ScanConcat(a[1..], b, q, matched);
    }
  }

  /** An encoding of some values is the encoding of the first, with its contents inside, and then of the others. */
  lemma {:induction false} SplitFirst(buf: seq<Byte>, pos: nat, hi: nat, vs: seq<Value>)
    requires vs != [] && AllEncodable(vs) && HasAt(buf, pos, EncodeAll(vs)) && hi == pos + |EncodeAll(vs)|
    ensures hi <= |buf| && Encodable(vs[0]) && HasAt(buf, pos, Encode(vs[0]))
    ensures AllEncodable(vs[1..]) && HasAt(buf, pos + |Encode(vs[0])|, EncodeAll(vs[1..]))
    ensures hi == pos + |Encode(vs[0])| + |EncodeAll(vs[1..])|
  {
    HasAtLength(buf, pos, EncodeAll(vs));
    HasAtConcat(buf, pos, Encode(vs[0]), EncodeAll(vs[1..]));
  }

  lemma {:induction false} OpenValue(buf: seq<Byte>, pos: nat, v: Value)
    requires Encodable(v) && HasAt(buf, pos, Encode(v))
    ensures pos + |Encode(v)| <= |buf| && |Encode(v)| == HeaderLength(v) + |Contents(v)|
    ensures HasAt(buf, pos + HeaderLength(v), Contents(v))
    ensures v.Constructed? ==> AllEncodable(v.children) && (Contents(v) == [] ==> v.children == [])
  {
    HasAtLength(buf, pos, Encode(v));
    HeaderRead(buf, pos, |buf|, v);
    if v.Constructed? {
      NoLeaves(v.children);
    }
  }

  /** From either state of the flag, the walk over a window is the scan of the leaves. */
  ghost predicate Scans(buf: seq<Byte>, pos: nat, hi: nat, q: Query, ls: seq<Leaf>)
    requires hi <= |buf|
  {
    forall matched: bool :: Walk(buf, pos, hi, q, matched) == OutcomeOf(Scan(ls, q, matched))
  }

  /** The walk over an encoding is the scan of its primitive values. */
  lemma {:induction false} WalkIsScan(buf: seq<Byte>, pos: nat, hi: nat, vs: seq<Value>, q: Query)
    requires AllEncodable(vs) && HasAt(buf, pos, EncodeAll(vs)) && hi == pos + |EncodeAll(vs)| <= |buf|
    ensures Scans(buf, pos, hi, q, Leaves(vs, pos))
    decreases vs, 1
  {
    if vs != [] {
      var next := pos + |Encode(vs[0])|;
      SplitFirst(buf, pos, hi, vs);
      WalkIsScan(buf, next, hi, vs[1..], q);
      WalkValue(buf, pos, next, vs[0], Leaves(vs[1..], next), hi, q);
    }
  }

  lemma {:induction false} WalkValue(buf: seq<Byte>, pos: nat, next: nat, v: Value, rest: seq<Leaf>, hi: nat, q: Query)
    requires Encodable(v) && HasAt(buf, pos, Encode(v)) && next == pos + |Encode(v)| <= hi <= |buf|
    requires Scans(buf, next, hi, q, rest)
    ensures Scans(buf, pos, hi, q, LeavesOf(v, pos) + rest)
    decreases v, 0
  {
    OpenValue(buf, pos, v);
    if v.Primitive? {
      WalkPrimitive(buf, pos, next, v, rest, hi, q);
    } else {
      var start := pos + HeaderLength(v);
      WalkIsScan(buf, start, next, v.children, q);
      forall matched: bool {
        WalkConstructed(buf, pos, start, next, v, LeavesOf(v, pos), rest, hi, q, matched);
      }
    }
  }

  /** Over a primitive value the walk does what the scan does with its leaf. */
  lemma {:induction false} WalkPrimitive(buf: seq<Byte>, pos: nat, next: nat, v: Value, rest: seq<Leaf>,
                                         hi: nat, q: Query)
    requires v.Primitive? && Encodable(v) && HasAt(buf, pos, Encode(v)) && next == pos + |Encode(v)| <= hi <= |buf|
    requires Scans(buf, next, hi, q, rest)
    ensures Scans(buf, pos, hi, q, LeavesOf(v, pos) + rest)
  {
    var l := Leaf(v.cls == 0, v.tag, pos + HeaderLength(v), v.content);
    LeafRead(buf, pos, next, v, l, hi);
    WalkLeaf(buf, pos, next, l, rest, hi, q);
  }

  /** The element at pos is the leaf l, and ends at next. */
  ghost predicate IsLeaf(buf: seq<Byte>, pos: nat, next: nat, l: Leaf, hi: nat) {
    && pos < hi <= |buf| && next == l.start + |l.content| <= hi && buf[l.start..next] == l.content
    && HeaderAt(buf, pos, hi) == Element(false, l.universal, l.tag, l.start, |l.content|)
  }

  lemma {:induction false} LeafRead(buf: seq<Byte>, pos: nat, next: nat, v: Value, l: Leaf, hi: nat)
    requires v.Primitive? && Encodable(v) && HasAt(buf, pos, Encode(v)) && next == pos + |Encode(v)| <= hi <= |buf|
    requires l == Leaf(v.cls == 0, v.tag, pos + HeaderLength(v), v.content)
    ensures IsLeaf(buf, pos, next, l, hi)
  {
    HeaderRead(buf, pos, hi, v);
    HasAtSlice(buf, l.start, l.content);
  }

  lemma {:induction false} WalkLeaf(buf: seq<Byte>, pos: nat, next: nat, l: Leaf, rest: seq<Leaf>, hi: nat, q: Query)
    requires IsLeaf(buf, pos, next, l, hi) && Scans(buf, next, hi, q, rest)
    ensures Scans(buf, pos, hi, q, [l] + rest)
  {
    forall matched: bool
      ensures Walk(buf, pos, hi, q, matched) == OutcomeOf(Scan([l] + rest, q, matched))
    {
      ScanOne(l, rest, q, matched);
    }
  }

  lemma {:induction false} ScanOne(l: Leaf, rest: seq<Leaf>, q: Query, matched: bool)
    ensures Scan([l] + rest, q, matched) ==
            if !matched && IsOid(l, q.oid) then Scan(rest, q, true)
            else if matched && IsWanted(l, q.wanted) then (matched, Some(l))
            else Scan(rest, q, matched)
  {
    assert ([l] + rest)[1..] == rest;
  }

  /** Over a constructed value the walk is a walk over its contents, and then over the rest. */
  lemma {:induction false} WalkConstructed(buf: seq<Byte>, pos: nat, start: nat, next: nat, v: Value,
                                           ls: seq<Leaf>, rest: seq<Leaf>, hi: nat, q: Query, matched: bool)
    requires v.Constructed? && Encodable(v) && HasAt(buf, pos, Encode(v)) && next == pos + |Encode(v)| <= hi <= |buf|
    requires start == pos + HeaderLength(v) <= next && (start == next ==> ls == [])
    requires Scans(buf, start, next, q, ls) && Scans(buf, next, hi, q, rest)
    ensures Walk(buf, pos, hi, q, matched) == OutcomeOf(Scan(ls + rest, q, matched))
  {
    HeaderRead(buf, pos, hi, v);
    ScanConcat(ls, rest, q, matched);
  }

  /** Only an empty list of values has an empty encoding. */
  lemma {:induction false} NoLeaves(vs: seq<Value>)
    requires AllEncodable(vs)
    ensures vs != [] ==> |EncodeAll(vs)| >= 2
  {
    if vs != [] {
      HeaderBytes(vs[0], |Contents(vs[0])|);
    }
  }

  // ---------------------------------------------------------------- what the scan finds

  /** With no OID to meet first, the scan finds the first wanted leaf. */
  lemma {:induction false} ScanFindsFirst(ls: seq<Leaf>, q: Query)
    ensures
      match Scan(ls, q, true).1
      case None => forall j :: 0 <= j < |ls| ==> !IsWanted(ls[j], q.wanted)
      case Some(l) => exists j :: 0 <= j < |ls| && l == ls[j] && IsWanted(ls[j], q.wanted)
                                  && forall i :: 0 <= i < j ==> !IsWanted(ls[i], q.wanted)
    decreases |ls|
  {
    if ls != [] && !IsWanted(ls[0], q.wanted) {
      ScanFindsFirst(ls[1..], q);
      match Scan(ls[1..], q, true).1
      case None =>
        assert forall j :: 1 <= j < |ls| ==> ls[j] == ls[1..][j - 1];
      case Some(l) =>
        var j :| 0 <= j < |ls[1..]| && l == ls[1..][j] && IsWanted(ls[1..][j], q.wanted)
                 && forall i :: 0 <= i < j ==> !IsWanted(ls[1..][i], q.wanted);
        assert l == ls[j + 1] && forall i :: 1 <= i < j + 1 ==> ls[i] == ls[1..][i - 1];
    }
  }

  /** The first OID leaf, if there is one. */
  ghost predicate FirstOid(ls: seq<Leaf>, oid: seq<Byte>, i: nat) {
    i < |ls| && IsOid(ls[i], oid) && forall k :: 0 <= k < i ==> !IsOid(ls[k], oid)
  }

  /** Before the first OID nothing counts; after it the scan is the one for the first wanted leaf. */
  lemma {:induction false} ScanNeedsOid(ls: seq<Leaf>, q: Query)
    ensures (forall k :: 0 <= k < |ls| ==> !IsOid(ls[k], q.oid)) ==> Scan(ls, q, false).1 == None
    ensures forall i: nat :: FirstOid(ls, q.oid, i) ==> Scan(ls, q, false) == Scan(ls[i + 1..], q, true)
    decreases |ls|
  {
    if ls != [] {
      ScanNeedsOid(ls[1..], q);
      assert forall k :: 1 <= k < |ls| ==> ls[k] == ls[1..][k - 1];
      forall i: nat | FirstOid(ls, q.oid, i)
        ensures Scan(ls, q, false) == Scan(ls[i + 1..], q, true)
      {
        if i > 0 {
          assert forall k :: 0 <= k < |ls[1..]| ==> ls[1..][k] == ls[k + 1];
          assert FirstOid(ls[1..], q.oid, i - 1);
          assert ls[1..][i..] == ls[i + 1..];
        }
      }
    }
  }

  ghost predicate LeafAt(buf: seq<Byte>, l: Leaf) {
    l.start + |l.content| <= |buf| && buf[l.start..l.start + |l.content|] == l.content
  }

  ghost predicate LeavesAt(buf: seq<Byte>, ls: seq<Leaf>) {
    forall k :: 0 <= k < |ls| ==> LeafAt(buf, ls[k])
  }

  /** Every leaf of an encoding lies in the buffer where the leaf says. */
  lemma {:induction false} LeavesInBuffer(buf: seq<Byte>, pos: nat, vs: seq<Value>)
    requires AllEncodable(vs) && HasAt(buf, pos, EncodeAll(vs))
    ensures LeavesAt(buf, Leaves(vs, pos))
    decreases vs
  {
    if vs != [] {
      var next := pos + |Encode(vs[0])|;
      SplitFirst(buf, pos, pos + |EncodeAll(vs)|, vs);
      LeavesOfInBuffer(buf, pos, vs[0]);
      LeavesInBuffer(buf, next, vs[1..]);
      LeavesAtConcat(buf, LeavesOf(vs[0], pos), Leaves(vs[1..], next));
    }
  }

  lemma {:induction false} LeavesOfInBuffer(buf: seq<Byte>, pos: nat, v: Value)
    requires Encodable(v) && HasAt(buf, pos, Encode(v))
    ensures LeavesAt(buf, LeavesOf(v, pos))
    decreases v
  {
    OpenValue(buf, pos, v);
    if v.Constructed? {
      LeavesInBuffer(buf, pos + HeaderLength(v), v.children);
    } else {
      PrimitiveLeafAt(buf, pos, v);
    }
  }

  lemma {:induction false} PrimitiveLeafAt(buf: seq<Byte>, pos: nat, v: Value)
    requires v.Primitive? && HasAt(buf, pos + HeaderLength(v), v.content)
    ensures LeavesAt(buf, LeavesOf(v, pos))
  {
    HasAtSlice(buf, pos + HeaderLength(v), v.content);
  }

  lemma {:induction false} LeavesAtConcat(buf: seq<Byte>, a: seq<Leaf>, b: seq<Leaf>)
    requires LeavesAt(buf, a) && LeavesAt(buf, b)
    ensures LeavesAt(buf, a + b)
  {
  }
}
