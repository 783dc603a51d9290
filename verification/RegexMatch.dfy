/**
 The matcher of src/re.c: a compiled pattern is a flat array of nodes that ends
 in an UNUSED sentinel, and character classes are NUL-terminated strings inside
 one shared buffer.
 */
module RegexMatch {

  datatype Node =
    | Unused | Dot | Begin | End | Question | Star | Plus
    | Char(ch: char)
    | Class(ccl: nat) | InvClass(ccl: nat)   // offset of the class text in the class buffer
    | Dangling(inverted: bool)               // a class that failed to compile: its text pointer is left over
    | Digit | NotDigit | Alpha | NotAlpha | Space | NotSpace

  // ---------------------------------------------------------------- characters

  /** A character a NUL-terminated byte string can hold. */
  predicate IsChar(c: char) {
    0 < c as int < 256
  }

  /** The contents of a C string, without its terminator. */
  predicate IsText(s: string) {
    forall i :: 0 <= i < |s| ==> IsChar(s[i])
  }

  /** The value of a byte read through a (signed) C `char`. */
  function Signed(c: char): int {
    if (c as int) < 128 then c as int else c as int - 256
  }

  predicate IsDigitChar(c: char) { '0' <= c <= '9' }
  predicate IsAlphaChar(c: char) { 'a' <= c <= 'z' || 'A' <= c <= 'Z' }
  predicate IsSpaceChar(c: char) { c == ' ' || 9 <= c as int <= 13 }
  predicate IsAlphaNum(c: char) { c == '_' || IsAlphaChar(c) || IsDigitChar(c) }

  predicate IsMetaChar(c: char) {
    c == 's' || c == 'S' || c == 'w' || c == 'W' || c == 'd' || c == 'D'
  }

  /** What follows a backslash: a class letter, or else the character itself. */
  predicate MatchMetaChar(c: char, m: char) {
    match m
    case 'd' => IsDigitChar(c)
    case 'D' => !IsDigitChar(c)
    case 'w' => IsAlphaNum(c)
    case 'W' => !IsAlphaNum(c)
    case 's' => IsSpaceChar(c)
    case 'S' => !IsSpaceChar(c)
    case _ => c == m
  }

  /** The range test at position p of a class text. */
  predicate MatchRange(c: char, s: string, p: nat) {
    && c != '-'
    && p + 2 < |s|
    && s[p] != '-'
    && s[p + 1] == '-'
    && Signed(s[p]) <= Signed(c) <= Signed(s[p + 2])
  }

  /** The class scan, from position p of the class text on. */
  predicate ClassAccepts(c: char, s: string, p: nat)
    decreases |s| - p
  {
    if p >= |s| then false
    else if MatchRange(c, s, p) then true
    else if s[p] == '\\' then
      p + 1 < |s| && (MatchMetaChar(c, s[p + 1]) || ClassAccepts(c, s, p + 2))
    else if c == s[p] then
      c != '-' || p == 0 || p + 1 == |s|
    else ClassAccepts(c, s, p + 1)
  }

  // ---------------------------------------------------------------- class buffer

  /** The C string that starts at offset off. */
  function StringAt(buf: seq<char>, off: nat): string
    decreases |buf| - off
  {
    if off >= |buf| || buf[off] == '\0' then [] else [buf[off]] + StringAt(buf, off + 1)
  }

  /** A class text: preceded by a NUL and closed by one inside the buffer. */
  predicate IsClassAt(buf: seq<char>, off: nat) {
    1 <= off <= |buf| && buf[off - 1] == '\0' && off + |StringAt(buf, off)| < |buf|
  }

  lemma {:induction false} StringAtContents(buf: seq<char>, off: nat, k: nat)
    requires off <= |buf| && k <= |StringAt(buf, off)|
    ensures off + |StringAt(buf, off)| <= |buf|
    ensures k < |StringAt(buf, off)| ==> StringAt(buf, off)[k] == buf[off + k] && buf[off + k] != '\0'
    ensures off + |StringAt(buf, off)| < |buf| ==> buf[off + |StringAt(buf, off)|] == '\0'
    decreases |buf| - off
  {
    if off < |buf| && buf[off] != '\0' {
      StringAtContents(buf, off + 1, if k > 0 then k - 1 else 0);
    }
  }

  /**
   matchcharclass: a loop over the class text, which looks one character behind
   and two ahead and never leaves the buffer.
   */
  method MatchCharClass(c: char, buf: seq<char>, off: nat) returns (r: bool)
    requires c != '\0'
    requires IsClassAt(buf, off)
    ensures r == ClassAccepts(c, StringAt(buf, off), 0)
  {
    ghost var s := StringAt(buf, off);
    forall k | off <= k <= off + |s|
      ensures if k < off + |s| then buf[k] == s[k - off] && buf[k] != '\0' else buf[k] == '\0'
    {
      StringAtContents(buf, off, k - off);
    }
    var p := off;
    while true
      invariant off <= p <= off + |s|
      invariant ClassAccepts(c, s, 0) == ClassAccepts(c, s, p - off)
      decreases off + |s| - p
    {
      if && c != '-' && buf[p] != '\0' && buf[p] != '-' && buf[p + 1] == '-' && buf[p + 2] != '\0'
         && Signed(c) >= Signed(buf[p]) && Signed(c) <= Signed(buf[p + 2]) {
        assert s[p - off] != '-' && s[p + 1 - off] == '-';
        return true;
      } else if buf[p] == '\\' {
        p := p + 1;
        if MatchMetaChar(c, buf[p]) {
          assert buf[p] == '\0' ==> MatchMetaChar(c, '\0') == (c == '\0');
          return true;
        } else if c == buf[p] && !IsMetaChar(c) {
          return true;
        }
      } else if c == buf[p] {
        if c == '-' {
          return buf[p - 1] == '\0' || buf[p + 1] == '\0';
        } else {
          return true;
        }
      }
      if buf[p] == '\0' {
        return false;
      }
      p := p + 1;
    }
  }

  // ---------------------------------------------------------------- atoms

  predicate IsAtom(n: Node) {
    n.Dot? || n.Char? || n.Class? || n.InvClass? || n.Digit? || n.NotDigit?
    || n.Alpha? || n.NotAlpha? || n.Space? || n.NotSpace?
  }

  /** The characters an atom stands for. */
  predicate AtomAccepts(buf: seq<char>, n: Node, c: char)
    requires IsAtom(n)
  {
    match n
    case Dot => true
    case Class(off) => ClassAccepts(c, StringAt(buf, off), 0)
    case InvClass(off) => !ClassAccepts(c, StringAt(buf, off), 0)
    case Digit => IsDigitChar(c)
    case NotDigit => !IsDigitChar(c)
    case Alpha => IsAlphaNum(c)
    case NotAlpha => !IsAlphaNum(c)
    case Space => IsSpaceChar(c)
    case NotSpace => !IsSpaceChar(c)
    case Char(ch) => ch as int == Signed(c)
  }

  predicate AtomOk(buf: seq<char>, n: Node) {
    IsAtom(n) && (n.Class? || n.InvClass? ==> IsClassAt(buf, n.ccl))
  }

  method MatchOne(buf: seq<char>, n: Node, c: char) returns (r: bool)
    requires AtomOk(buf, n) && c != '\0'
    ensures r == AtomAccepts(buf, n, c)
  {
    match n
    case Dot => r := true;
    case Class(off) => r := MatchCharClass(c, buf, off);
    case InvClass(off) => r := MatchCharClass(c, buf, off); r := !r;
    case Digit => r := IsDigitChar(c);
    case NotDigit => r := !IsDigitChar(c);
    case Alpha => r := IsAlphaNum(c);
    case NotAlpha => r := !IsAlphaNum(c);
    case Space => r := IsSpaceChar(c);
    case NotSpace => r := !IsSpaceChar(c);
    case Char(ch) => r := ch as int == Signed(c);
  }

  // ---------------------------------------------------------------- the declarative relation

  datatype Quantifier = Once | Optional | Any | Many

  /** A set of characters and how often it may repeat. */
  datatype Piece = Piece(chars: iset<char>, quant: Quantifier)

  /** A sequence of pieces, possibly tied to the end of the text. */
  datatype Body = Body(pieces: seq<Piece>, atEnd: bool)

  /** The words of one piece. */
  ghost predicate PieceWord(p: Piece, w: string) {
    && (forall i :: 0 <= i < |w| ==> w[i] in p.chars)
    && match p.quant
       case Once => |w| == 1
       case Optional => |w| <= 1
       case Any => true
       case Many => |w| >= 1
  }

  /** The language of a sequence of pieces: concatenations of words of each. */
  ghost predicate InLanguage(ps: seq<Piece>, w: string)
    decreases |ps|
  {
    if ps == [] then w == []
    else exists k :: 0 <= k <= |w| && PieceWord(ps[0], w[..k]) && InLanguage(ps[1..], w[k..])
  }

  /** Some word of the language stands in the text at position i. */
  ghost predicate MatchesAt(b: Body, text: string, i: nat)
    requires i <= |text|
  {
    exists j :: i <= j <= |text| && (b.atEnd ==> j == |text|) && InLanguage(b.pieces, text[i..j])
  }

  /** Matching a body is matching its first piece and then the rest. */
  lemma {:induction false} MatchesFirst(b: Body, text: string, i: nat)
    requires i <= |text| && b.pieces != []
    ensures MatchesAt(b, text, i) <==>
            exists k :: i <= k <= |text| && PieceWord(b.pieces[0], text[i..k])
                        && MatchesAt(Body(b.pieces[1..], b.atEnd), text, k)
  {
    var rest := Body(b.pieces[1..], b.atEnd);
    if MatchesAt(b, text, i) {
      var j :| i <= j <= |text| && (b.atEnd ==> j == |text|) && InLanguage(b.pieces, text[i..j]);
      var w := text[i..j];
      var k :| 0 <= k <= |w| && PieceWord(b.pieces[0], w[..k]) && InLanguage(rest.pieces, w[k..]);
      assert w[..k] == text[i..i + k] && w[k..] == text[i + k..j];
      assert MatchesAt(rest, text, i + k);
    }
    if k :| i <= k <= |text| && PieceWord(b.pieces[0], text[i..k]) && MatchesAt(rest, text, k) {
      var j :| k <= j <= |text| && (b.atEnd ==> j == |text|) && InLanguage(rest.pieces, text[k..j]);
      var w := text[i..j];
      assert w[..k - i] == text[i..k] && w[k - i..] == text[k..j];
      assert InLanguage(b.pieces, w);
    }
  }

  // ---------------------------------------------------------------- node arrays

  predicate IsQuantifier(n: Node) {
    n.Question? || n.Star? || n.Plus?
  }

  /** From pi on: atoms, each with at most one quantifier, an optional END, the sentinel. */
  predicate WellFormed(nodes: seq<Node>, buf: seq<char>, pi: nat)
    decreases |nodes| - pi
  {
    && pi < |nodes|
    && (nodes[pi] != Unused ==>
          && pi + 1 < |nodes|
          && (nodes[pi] == End ==> nodes[pi + 1] == Unused)
          && (nodes[pi] != End ==>
                && AtomOk(buf, nodes[pi])
                && WellFormed(nodes, buf, if IsQuantifier(nodes[pi + 1]) then pi + 2 else pi + 1)))
  }

  ghost function NodePiece(buf: seq<char>, atom: Node, next: Node): Piece
    requires IsAtom(atom)
  {
    Piece(iset c: char | IsChar(c) && AtomAccepts(buf, atom, c),
          match next case Question => Optional case Star => Any case Plus => Many case _ => Once)
  }

  ghost function NodeBody(nodes: seq<Node>, buf: seq<char>, pi: nat): (b: Body)
    requires WellFormed(nodes, buf, pi)
    decreases |nodes| - pi
  {
    if nodes[pi] == Unused then Body([], false)
    else if nodes[pi] == End then Body([], true)
    else
      var rest := NodeBody(nodes, buf, if IsQuantifier(nodes[pi + 1]) then pi + 2 else pi + 1);
      Body([NodePiece(buf, nodes[pi], nodes[pi + 1])] + rest.pieces, rest.atEnd)
  }

  lemma {:induction false} EmptyBody(b: Body, text: string, i: nat)
    requires i <= |text| && b.pieces == []
    ensures MatchesAt(b, text, i) <==> (b.atEnd ==> i == |text|)
  {
    assert text[i..i] == [];
  }

  /** The run of accepted characters that the greedy loops consume. */
  ghost predicate AllAccepted(buf: seq<char>, p: Node, text: string, from: nat, to: nat)
    requires IsAtom(p)
    requires from <= to <= |text|
  {
    forall i :: from <= i < to ==> AtomAccepts(buf, p, text[i])
  }

  /** The first piece of a body read off an atom, in terms of the text. */
  lemma {:induction false} AtomFirst(nodes: seq<Node>, buf: seq<char>, pi: nat, text: string, i: nat)
    requires WellFormed(nodes, buf, pi) && IsAtom(nodes[pi]) && IsText(text) && i <= |text|
    ensures
      var next := nodes[pi + 1];
      var rest := NodeBody(nodes, buf, if IsQuantifier(next) then pi + 2 else pi + 1);
      MatchesAt(NodeBody(nodes, buf, pi), text, i) <==>
      exists k :: i <= k <= |text| && AllAccepted(buf, nodes[pi], text, i, k)
                  && (next.Question? ==> k <= i + 1) && (next.Plus? ==> k > i)
                  && (!IsQuantifier(next) ==> k == i + 1) && MatchesAt(rest, text, k)
  {
    var b := NodeBody(nodes, buf, pi);
    MatchesFirst(b, text, i);
    assert b.pieces[1..] == NodeBody(nodes, buf, if IsQuantifier(nodes[pi + 1]) then pi + 2 else pi + 1).pieces;
    forall k | i <= k <= |text|
      ensures PieceWord(b.pieces[0], text[i..k]) <==>
              AllAccepted(buf, nodes[pi], text, i, k) && (nodes[pi + 1].Question? ==> k <= i + 1)
              && (nodes[pi + 1].Plus? ==> k > i) && (!IsQuantifier(nodes[pi + 1]) ==> k == i + 1)
    {
      var w := text[i..k];
      assert forall m :: i <= m < k ==> w[m - i] == text[m];
      assert forall m :: 0 <= m < |w| ==> w[m] == text[i + m];
    }
  }

  // ---------------------------------------------------------------- the matcher

  /** matchpattern: the loop over single atoms, leaving to a helper at the first quantifier. */
  method MatchPattern(nodes: seq<Node>, buf: seq<char>, pi: nat, text: string, ti: nat) returns (r: bool)
    requires WellFormed(nodes, buf, pi) && IsText(text) && ti <= |text|
    ensures r <==> MatchesAt(NodeBody(nodes, buf, pi), text, ti)
    decreases |nodes| - pi, 1
  {
    var p: nat, t: nat := pi, ti;
    while true
      invariant pi <= p && t <= |text| && WellFormed(nodes, buf, p)
      invariant MatchesAt(NodeBody(nodes, buf, pi), text, ti) <==> MatchesAt(NodeBody(nodes, buf, p), text, t)
      decreases |nodes| - p
    {
      if nodes[p].Unused? || nodes[p + 1].Question? {
        r := MatchQuestion(nodes, buf, p, text, t);
        return;
      } else if nodes[p + 1].Star? {
        AtomFirst(nodes, buf, p, text, t);
        r := MatchStar(nodes[p], nodes, buf, p + 2, text, t);
        return;
      } else if nodes[p + 1].Plus? {
        AtomFirst(nodes, buf, p, text, t);
        r := MatchPlus(nodes[p], nodes, buf, p + 2, text, t);
        return;
      } else if nodes[p].End? && nodes[p + 1].Unused? {
        EmptyBody(NodeBody(nodes, buf, p), text, t);
        return t == |text|;
      }
      AtomFirst(nodes, buf, p, text, t);
      if t == |text| {
        return false;
      }
      var one := MatchOne(buf, nodes[p], text[t]);
      if !one {
        return false;
      }
      assert AllAccepted(buf, nodes[p], text, t, t + 1);
      p, t := p + 1, t + 1;
    }
  }

  /** matchstar: as many as possible, then back off one character at a time. */
  method MatchStar(p: Node, nodes: seq<Node>, buf: seq<char>, pi: nat, text: string, ti: nat) returns (r: bool)
    requires AtomOk(buf, p) && WellFormed(nodes, buf, pi) && IsText(text) && ti <= |text|
    ensures r <==> exists k :: ti <= k <= |text| && AllAccepted(buf, p, text, ti, k)
                               && MatchesAt(NodeBody(nodes, buf, pi), text, k)
    decreases |nodes| - pi, 2
  {
    var t := Consume(p, buf, text, ti);
    var back: int := t;
    while back >= ti
      invariant ti - 1 <= back <= t
      invariant forall k :: back < k <= t ==> !MatchesAt(NodeBody(nodes, buf, pi), text, k)
    {
      r := MatchPattern(nodes, buf, pi, text, back);
      if r {
        return true;
      }
      back := back - 1;
    }
    return false;
  }

  /** matchplus: the same, but never backing off to zero characters. */
  method MatchPlus(p: Node, nodes: seq<Node>, buf: seq<char>, pi: nat, text: string, ti: nat) returns (r: bool)
    requires AtomOk(buf, p) && WellFormed(nodes, buf, pi) && IsText(text) && ti <= |text|
    ensures r <==> exists k :: ti < k <= |text| && AllAccepted(buf, p, text, ti, k)
                               && MatchesAt(NodeBody(nodes, buf, pi), text, k)
    decreases |nodes| - pi, 2
  {
    var t := Consume(p, buf, text, ti);
    var back := t;
    while back > ti
      invariant ti <= back <= t
      invariant forall k :: back < k <= t ==> !MatchesAt(NodeBody(nodes, buf, pi), text, k)
    {
      r := MatchPattern(nodes, buf, pi, text, back);
      if r {
        return true;
      }
      back := back - 1;
    }
    return false;
  }

  /** The loop both helpers start with: the longest accepted run. */
  method Consume(p: Node, buf: seq<char>, text: string, ti: nat) returns (t: nat)
    requires AtomOk(buf, p) && IsText(text) && ti <= |text|
    ensures ti <= t <= |text| && AllAccepted(buf, p, text, ti, t)
    ensures t < |text| ==> !AtomAccepts(buf, p, text[t])
  {
    t := ti;
    while t < |text|
      invariant ti <= t <= |text| && AllAccepted(buf, p, text, ti, t)
    {
      var one := MatchOne(buf, p, text[t]);
      if !one {
        return;
      }
      t := t + 1;
    }
  }

  /** matchquestion, also reached at the sentinel: skip the atom, or take it once. */
  method MatchQuestion(nodes: seq<Node>, buf: seq<char>, pi: nat, text: string, ti: nat) returns (r: bool)
    requires WellFormed(nodes, buf, pi) && IsText(text) && ti <= |text|
    requires nodes[pi].Unused? || nodes[pi + 1].Question?
    ensures r <==> MatchesAt(NodeBody(nodes, buf, pi), text, ti)
    decreases |nodes| - pi, 0
  {
    if nodes[pi].Unused? {
      EmptyBody(NodeBody(nodes, buf, pi), text, ti);
      return true;
    }
    AtomFirst(nodes, buf, pi, text, ti);
    r := MatchPattern(nodes, buf, pi + 2, text, ti);
    if r {
      assert AllAccepted(buf, nodes[pi], text, ti, ti);
      return true;
    }
    if ti < |text| {
      var one := MatchOne(buf, nodes[pi], text[ti]);
      if one {
        assert AllAccepted(buf, nodes[pi], text, ti, ti + 1);
        r := MatchPattern(nodes, buf, pi + 2, text, ti + 1);
        return;
      }
    }
    return false;
  }

  /**
   re_matchp: with a leading BEGIN only position 0 is tried; otherwise the least
   matching position, which counts only if it lies before the end of the text.
   */
  method MatchFrom(nodes: seq<Node>, buf: seq<char>, text: string) returns (idx: int)
    requires IsText(text)
    requires nodes != [] && if nodes[0] == Begin then WellFormed(nodes, buf, 1) else WellFormed(nodes, buf, 0)
    ensures nodes[0] == Begin ==>
              idx == if MatchesAt(NodeBody(nodes, buf, 1), text, 0) then 0 else -1
    ensures nodes[0] != Begin ==>
              if 0 <= idx then
                && idx < |text| && MatchesAt(NodeBody(nodes, buf, 0), text, idx)
                && forall i :: 0 <= i < idx ==> !MatchesAt(NodeBody(nodes, buf, 0), text, i)
              else idx == -1 && forall i :: 0 <= i < |text| ==> !MatchesAt(NodeBody(nodes, buf, 0), text, i)
  {
    if nodes[0] == Begin {
      var r := MatchPattern(nodes, buf, 1, text, 0);
      return if r then 0 else -1;
    }
    idx := 0;
    while true
      invariant 0 <= idx <= |text|
      invariant forall i :: 0 <= i < idx ==> !MatchesAt(NodeBody(nodes, buf, 0), text, i)
      decreases |text| - idx
    {
      var r := MatchPattern(nodes, buf, 0, text, idx);
      if r {
        return if idx == |text| then -1 else idx;
      }
      if idx == |text| {
        return -1;
      }
      idx := idx + 1;
    }
  }
}
