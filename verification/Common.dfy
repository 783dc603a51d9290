/** Small definitions shared by the models. */
module Common {

  datatype Option<+T> = None | Some(value: T)

  /** The value of an 8-bit unsigned field. */
  type Byte = b: int | 0 <= b < 256

  function Min(a: int, b: int): int {
    if a <= b then a else b
  }

  /** t stands in s at position i. */
  ghost predicate HasAt<T>(s: seq<T>, i: nat, t: seq<T>)
    decreases |t|
  {
    if t == [] then i <= |s| else i < |s| && s[i] == t[0] && HasAt(s, i + 1, t[1..])
  }

  lemma {:induction false} HasAtConcat<T>(s: seq<T>, i: nat, a: seq<T>, b: seq<T>)
    ensures HasAt(s, i, a + b) <==> HasAt(s, i, a) && HasAt(s, i + |a|, b)
    decreases |a|
  {
    if a == [] {
      assert a + b == b;
      HasAtLength(s, i, b);
    } else {
      assert (a + b)[1..] == a[1..] + b;
      HasAtConcat(s, i + 1, a[1..], b);
    }
  }

  lemma {:induction false} HasAtIndex<T>(s: seq<T>, i: nat, t: seq<T>, k: nat)
    requires HasAt(s, i, t) && k < |t|
    ensures i + k < |s| && s[i + k] == t[k]
    decreases |t|
  {
    if k > 0 {
      HasAtIndex(s, i + 1, t[1..], k - 1);
    }
  }

  lemma {:induction false} HasAtLength<T>(s: seq<T>, i: nat, t: seq<T>)
    ensures HasAt(s, i, t) ==> i + |t| <= |s|
    decreases |t|
  {
    if t != [] {
      HasAtLength(s, i + 1, t[1..]);
    }
  }

  lemma {:induction false} HasAtSlice<T>(s: seq<T>, i: nat, t: seq<T>)
    requires HasAt(s, i, t)
    ensures i + |t| <= |s| && s[i..i + |t|] == t
    decreases |t|
  {
    if t != [] {
      HasAtSlice(s, i + 1, t[1..]);
      assert s[i..i + |t|] == [s[i]] + s[i + 1..i + |t|];
    }
  }

  lemma {:induction false} HasAtPrefix<T>(head: seq<T>, t: seq<T>)
    ensures HasAt(head + t, |head|, t)
    decreases |t|
  {
    if t != [] {
      assert head + t == (head + [t[0]]) + t[1..];
      HasAtPrefix(head + [t[0]], t[1..]);
    }
  }

  lemma {:induction false} ConcatAssoc<T>(a: seq<T>, b: seq<T>, c: seq<T>)
    ensures a + b + c == a + (b + c)
  {
  }

  lemma {:induction false} ConcatNil<T>(s: seq<T>)
    ensures s + [] == s
  {
  }

  lemma {:induction false} NilConcat<T>(s: seq<T>)
    ensures [] + s == s
  {
  }

  /** Quotient and remainder are unique. */
  lemma {:induction false} DivUnique(v: nat, u: nat, q: nat, r: nat)
    requires u > 0 && v == q * u + r && r < u
    ensures v / u == q && v % u == r
  {
    assert v == (v / u) * u + v % u;
    assert (v / u - q) * u == r - v % u;
    MultipleBelow(v / u - q, u, r - v % u);
  }

  /** The only multiple of u strictly between -u and u is zero. */
  lemma {:induction false} MultipleBelow(e: int, u: int, m: int)
    requires e * u == m && -u < m < u
    ensures e == 0
  {
    assert e >= 1 ==> e * u >= u;
    assert e <= -1 ==> e * u <= -u;
  }

  lemma {:induction false} ProductGrows(a: nat, b: nat, c: nat)
    requires a >= b
    ensures a * c >= b * c
  {
  }
}
