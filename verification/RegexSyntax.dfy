/**
 Regular expressions as syntax trees: how a tree is written as pattern text, which
 nodes it flattens to, and which words it stands for. Compiling the text gives the
 nodes, and matching the nodes decides the words.
 */
module RegexSyntax {
  import opened Common
  import opened RegexMatch
  import opened RegexCompile

  datatype ClassItem = Single(c: char) | Range(lo: char, hi: char) | Escaped(e: char)

  /** A character class; `lead` and `trail` say whether it starts or ends with a dash. */
  datatype CharSet = CharSet(lead: bool, items: seq<ClassItem>, trail: bool)

  datatype Atom = Literal(c: char) | AnyChar | Meta(m: char) | OneOf(cs: CharSet) | NoneOf(cs: CharSet)

  datatype Term = Term(atom: Atom, quant: Quantifier)

  datatype Regex = Regex(atStart: bool, terms: seq<Term>, atEnd: bool)

  // ---------------------------------------------------------------- rendering

  predicate IsSpecial(c: char) {
    c in "^$.*+?\\["
  }

  function ItemText(i: ClassItem): string {
    match i
    case Single(c) => [c]
    case Range(lo, hi) => [lo, '-', hi]
    case Escaped(e) => ['\\', e]
  }

  /** The items from here on, and the trailing dash. */
  function TailText(items: seq<ClassItem>, trail: bool): string {
    if items == [] then (if trail then "-" else "") else ItemText(items[0]) + TailText(items[1..], trail)
  }

  function SetText(cs: CharSet): string {
    if cs.lead then "-" + TailText(cs.items, cs.trail) else TailText(cs.items, cs.trail)
  }

  function AtomText(a: Atom): string {
    match a
    case Literal(c) => if IsSpecial(c) then ['\\', c] else [c]
    case AnyChar => "."
    case Meta(m) => ['\\', m]
    case OneOf(cs) => "[" + SetText(cs) + "]"
    case NoneOf(cs) => "[^" + SetText(cs) + "]"
  }

  function QuantText(q: Quantifier): string {
    match q
    case Once => ""
    case Optional => "?"
    case Any => "*"
    case Many => "+"
  }

  function TermText(t: Term): string {
    AtomText(t.atom) + QuantText(t.quant)
  }

  function TermsText(ts: seq<Term>, atEnd: bool): string {
    if ts == [] then (if atEnd then "$" else "") else TermText(ts[0]) + TermsText(ts[1..], atEnd)
  }

  function Render(re: Regex): string {
    if re.atStart then "^" + TermsText(re.terms, re.atEnd) else TermsText(re.terms, re.atEnd)
  }

  // ---------------------------------------------------------------- well-formed trees

  predicate PlainClassChar(c: char) {
    IsChar(c) && c != '\\' && c != '-' && c != ']'
  }

  predicate ItemOk(i: ClassItem) {
    match i
    case Single(c) => PlainClassChar(c)
    case Range(lo, hi) => PlainClassChar(lo) && PlainClassChar(hi)
    case Escaped(e) => IsChar(e)
  }

  predicate SetOk(cs: CharSet) {
    forall k :: 0 <= k < |cs.items| ==> ItemOk(cs.items[k])
  }

  predicate AtomTreeOk(a: Atom) {
    match a
    case Literal(c) => IsChar(c)
    case AnyChar => true
    case Meta(m) => IsMetaChar(m)
    case OneOf(cs) => SetOk(cs) && (SetText(cs) != "" ==> SetText(cs)[0] != '^')
    case NoneOf(cs) => SetOk(cs)
  }

  predicate TermsOk(ts: seq<Term>) {
    ts == [] || (AtomTreeOk(ts[0].atom) && TermsOk(ts[1..]))
  }

  predicate RegexOk(re: Regex) {
    TermsOk(re.terms)
  }

  // ---------------------------------------------------------------- flattening

  predicate IsSet(a: Atom) {
    a.OneOf? || a.NoneOf?
  }

  /** A class in the buffer: its text and the closing NUL. */
  function SetBytes(cs: CharSet): seq<char> {
    SetText(cs) + ['\0']
  }

  /** The class buffer after an atom. */
  function ClassesAfter(a: Atom, classes: seq<char>): seq<char> {
    if IsSet(a) then classes + SetBytes(a.cs) else classes
  }

  /** The class buffer contents of a list of terms. */
  function TermsClasses(ts: seq<Term>): seq<char> {
    if ts == [] then []
    else if IsSet(ts[0].atom) then SetBytes(ts[0].atom.cs) + TermsClasses(ts[1..])
    else TermsClasses(ts[1..])
  }

  function UsedAfter(a: Atom, used: nat): nat {
    if IsSet(a) then used + |SetBytes(a.cs)| else used
  }

  function AtomNode(a: Atom, used: nat): Node {
    match a
    case Literal(c) => Char(c)
    case AnyChar => Dot
    case Meta(m) => EscapedNode(m)
    case OneOf(_) => Class(used)
    case NoneOf(_) => InvClass(used)
  }

  function QuantNodes(q: Quantifier): seq<Node> {
    match q
    case Once => []
    case Optional => [Question]
    case Any => [Star]
    case Many => [Plus]
  }

  function TermNodes(t: Term, used: nat): seq<Node> {
    [AtomNode(t.atom, used)] + QuantNodes(t.quant)
  }

  /** The end anchor, if any, and the sentinel. */
  function Ending(atEnd: bool): seq<Node> {
    if atEnd then [End, Unused] else [Unused]
  }

  function TermsNodes(ts: seq<Term>, used: nat, atEnd: bool): seq<Node> {
    if ts == [] then Ending(atEnd)
    else TermNodes(ts[0], used) + TermsNodes(ts[1..], UsedAfter(ts[0].atom, used), atEnd)
  }

  function Flatten(re: Regex): Compiled {
    var nodes := TermsNodes(re.terms, 1, re.atEnd);
    Compiled(if re.atStart then [Begin] + nodes else nodes, ['\0'] + TermsClasses(re.terms))
  }

  /** The static arrays are large enough. */
  predicate Fits(re: Regex) {
    |Flatten(re).nodes| <= MAX_REGEXP_OBJECTS && |Flatten(re).classes| <= MAX_CHAR_CLASS_LEN
  }

  // ---------------------------------------------------------------- compiling the rendering

  /** Class text in which every backslash is followed by the character it escapes. */
  predicate WellEscaped(t: string) {
    t == "" || if t[0] == '\\' then |t| >= 2 && WellEscaped(t[2..]) else t[0] != ']' && WellEscaped(t[1..])
  }

  lemma {:induction false} TailWellEscaped(items: seq<ClassItem>, trail: bool)
    requires forall k :: 0 <= k < |items| ==> ItemOk(items[k])
    ensures WellEscaped(TailText(items, trail)) && IsText(TailText(items, trail))
  {
    if items != [] {
      TailWellEscaped(items[1..], trail);
      var rest := TailText(items[1..], trail);
      var t := TailText(items, trail);
      match items[0]
      case Single(c) => PlainFirst(c, rest);
      case Range(lo, hi) =>
        assert t == [lo] + (['-'] + ([hi] + rest));
        PlainFirst(hi, rest);
        PlainFirst('-', [hi] + rest);
        PlainFirst(lo, ['-'] + ([hi] + rest));
      case Escaped(e) => assert t[2..] == rest;
    }
  }

  lemma {:induction false} PlainFirst(c: char, t: string)
    requires WellEscaped(t) && IsText(t) && IsChar(c) && c != '\\' && c != ']'
    ensures WellEscaped([c] + t) && IsText([c] + t)
  {
    assert ([c] + t)[1..] == t;
  }

  lemma {:induction false} SetTextWellEscaped(cs: CharSet)
    requires SetOk(cs)
    ensures WellEscaped(SetText(cs)) && IsText(SetText(cs))
  {
    TailWellEscaped(cs.items, cs.trail);
    if cs.lead {
      assert SetText(cs)[1..] == TailText(cs.items, cs.trail);
    } else {
      assert SetText(cs) == TailText(cs.items, cs.trail);
    }
  }

  /** The copy loop takes over a whole class text and stops at its bracket. */
  lemma {:induction false} CopyClassTakes(t: string, rest: string, classes: seq<char>)
    requires WellEscaped(t) && rest != "" && rest[0] == ']' && |classes| + |t| < MAX_CHAR_CLASS_LEN
    ensures CopyClass(t + rest, classes) == Some((rest, classes + t))
    decreases |t|
  {
    if t == "" {
      NilConcat(rest);
      ConcatNil(classes);
    } else {
      var n := if t[0] == '\\' then 2 else 1;
      CopyClassTakes(t[n..], rest, classes + t[..n]);
      assert (t + rest)[n..] == t[n..] + rest && (t + rest)[..n] == t[..n];
      assert classes + t[..n] + t[n..] == classes + t;
    }
  }

  lemma {:induction false} ClassCompiles(cs: CharSet, rest: string, classes: seq<char>, node: Node)
    requires SetOk(cs) && |classes| + |SetBytes(cs)| <= MAX_CHAR_CLASS_LEN
    ensures CompileClass(SetText(cs) + ("]" + rest), classes, node) == Some(Symbol(rest, node, classes + SetBytes(cs)))
  {
    SetTextWellEscaped(cs);
    CopyClassTakes(SetText(cs), "]" + rest, classes);
    assert ("]" + rest)[1..] == rest;
    ConcatAssoc(classes, SetText(cs), ['\0']);
  }

  lemma {:induction false} OneOfCompiles(cs: CharSet, rest: string, classes: seq<char>, stale: Node)
    requires AtomTreeOk(OneOf(cs)) && |classes| + |SetBytes(cs)| <= MAX_CHAR_CLASS_LEN
    ensures CompileSymbol("[" + (SetText(cs) + ("]" + rest)), classes, stale)
         == Some(Symbol(rest, Class(|classes|), classes + SetBytes(cs)))
  {
    var body := SetText(cs) + ("]" + rest);
    assert body[0] == if SetText(cs) == "" then ']' else SetText(cs)[0];
    assert ("[" + body)[1..] == body && ("[" + body)[1] == body[0];
    ClassCompiles(cs, rest, classes, Class(|classes|));
  }

  lemma {:induction false} NoneOfCompiles(cs: CharSet, rest: string, classes: seq<char>, stale: Node)
    requires AtomTreeOk(NoneOf(cs)) && |classes| + |SetBytes(cs)| <= MAX_CHAR_CLASS_LEN
    ensures CompileSymbol("[^" + (SetText(cs) + ("]" + rest)), classes, stale)
         == Some(Symbol(rest, InvClass(|classes|), classes + SetBytes(cs)))
  {
    var body := SetText(cs) + ("]" + rest);
    assert ("[^" + body)[2..] == body;
    ClassCompiles(cs, rest, classes, InvClass(|classes|));
  }

  /** One atom of the rendering compiles to its node. */
  lemma {:induction false} AtomCompiles(a: Atom, rest: string, classes: seq<char>, stale: Node)
    requires AtomTreeOk(a) && |ClassesAfter(a, classes)| <= MAX_CHAR_CLASS_LEN
    ensures CompileSymbol(AtomText(a) + rest, classes, stale)
         == Some(Symbol(rest, AtomNode(a, |classes|), ClassesAfter(a, classes)))
  {
    match a
    case OneOf(cs) =>
      Bracket("[", SetText(cs), rest);
      OneOfCompiles(cs, rest, classes, stale);
    case NoneOf(cs) =>
      Bracket("[^", SetText(cs), rest);
      NoneOfCompiles(cs, rest, classes, stale);
    case _ =>
      SimpleCompiles(a, rest, classes, stale);
  }

  lemma {:induction false} Bracket(open: string, t: string, rest: string)
    ensures open + t + "]" + rest == open + (t + ("]" + rest))
  {
  }

  lemma {:induction false} SimpleCompiles(a: Atom, rest: string, classes: seq<char>, stale: Node)
    requires AtomTreeOk(a) && !IsSet(a) && |classes| <= MAX_CHAR_CLASS_LEN
    ensures CompileSymbol(AtomText(a) + rest, classes, stale) == Some(Symbol(rest, AtomNode(a, |classes|), classes))
  {
    assert (AtomText(a) + rest)[|AtomText(a)|..] == rest;
  }

  /** One symbol that is not a class or an escape compiles into the next slot. */
  lemma {:induction false} PlainCompiles(c: char, rest: string, nodes: seq<Node>, classes: seq<char>, stale: seq<Node>)
    requires c != '\\' && c != '['
    requires |nodes| + 1 < MAX_REGEXP_OBJECTS == |stale| && |classes| <= MAX_CHAR_CLASS_LEN
    ensures CompileRest([c] + rest, nodes, classes, stale) == CompileRest(rest, nodes + [PlainNode(c)], classes, stale)
  {
    assert ([c] + rest)[1..] == rest;
  }

  lemma {:induction false} QuantCompiles(q: Quantifier, rest: string, nodes: seq<Node>, classes: seq<char>,
                                         stale: seq<Node>)
    requires |nodes| + |QuantNodes(q)| < MAX_REGEXP_OBJECTS == |stale| && |classes| <= MAX_CHAR_CLASS_LEN
    ensures CompileRest(QuantText(q) + rest, nodes, classes, stale)
         == CompileRest(rest, nodes + QuantNodes(q), classes, stale)
  {
    if q == Once {
      NilConcat(rest);
      ConcatNil(nodes);
    } else {
      PlainCompiles(QuantText(q)[0], rest, nodes, classes, stale);
    }
  }

  lemma {:induction false} TermCompiles(t: Term, rest: string, nodes: seq<Node>, classes: seq<char>, stale: seq<Node>)
    requires AtomTreeOk(t.atom) && |ClassesAfter(t.atom, classes)| <= MAX_CHAR_CLASS_LEN
    requires |nodes| + |TermNodes(t, |classes|)| < MAX_REGEXP_OBJECTS == |stale|
    ensures CompileRest(TermText(t) + rest, nodes, classes, stale)
         == CompileRest(rest, nodes + TermNodes(t, |classes|), ClassesAfter(t.atom, classes), stale)
  {
    var after := QuantText(t.quant) + rest;
    ConcatAssoc(AtomText(t.atom), QuantText(t.quant), rest);
    AtomCompiles(t.atom, after, classes, stale[|nodes|]);
    ConcatAssoc(nodes, [AtomNode(t.atom, |classes|)], QuantNodes(t.quant));
    QuantCompiles(t.quant, rest, nodes + [AtomNode(t.atom, |classes|)], ClassesAfter(t.atom, classes), stale);
  }

  /** The rest of a rendering compiles to the rest of the nodes. */
  lemma {:induction false} TermsCompile(ts: seq<Term>, atEnd: bool, nodes: seq<Node>, classes: seq<char>,
                                        stale: seq<Node>)
    requires TermsOk(ts) && |classes| + |TermsClasses(ts)| <= MAX_CHAR_CLASS_LEN
    requires |nodes| + |TermsNodes(ts, |classes|, atEnd)| <= MAX_REGEXP_OBJECTS == |stale|
    ensures |nodes| < MAX_REGEXP_OBJECTS
    ensures CompileRest(TermsText(ts, atEnd), nodes, classes, stale)
         == Some(Compiled(nodes + TermsNodes(ts, |classes|, atEnd), classes + TermsClasses(ts)))
    decreases |ts|
  {
    if ts == [] {
      ConcatNil(classes);
      EndCompiles(atEnd, nodes, classes, stale);
    } else {
      TermsUnfold(ts, atEnd, nodes, classes);
      var n, c := TermNodes(ts[0], |classes|), ClassesAfter(ts[0].atom, classes);
      TermsCompile(ts[1..], atEnd, nodes + n, c, stale);
      TermCompiles(ts[0], TermsText(ts[1..], atEnd), nodes, classes, stale);
    }
  }

  lemma {:induction false} EndCompiles(atEnd: bool, nodes: seq<Node>, classes: seq<char>, stale: seq<Node>)
    requires |nodes| + |Ending(atEnd)| <= MAX_REGEXP_OBJECTS == |stale| && |classes| <= MAX_CHAR_CLASS_LEN
    ensures CompileRest(TermsText([], atEnd), nodes, classes, stale) == Some(Compiled(nodes + Ending(atEnd), classes))
  {
    if atEnd {
      ConcatNil("$");
      PlainCompiles('$', "", nodes, classes, stale);
      assert nodes + [End] + [Unused] == nodes + Ending(true);
    }
  }

  lemma {:induction false} TermsUnfold(ts: seq<Term>, atEnd: bool, nodes: seq<Node>, classes: seq<char>)
    requires ts != []
    ensures
      var n, c := TermNodes(ts[0], |classes|), ClassesAfter(ts[0].atom, classes);
      var rn, rc := TermsNodes(ts[1..], |c|, atEnd), TermsClasses(ts[1..]);
      && classes + TermsClasses(ts) == c + rc && |classes| + |TermsClasses(ts)| == |c| + |rc|
      && nodes + TermsNodes(ts, |classes|, atEnd) == nodes + n + rn
      && |TermsNodes(ts, |classes|, atEnd)| == |n| + |rn| && |rn| > 0
  {
    var n, c := TermNodes(ts[0], |classes|), ClassesAfter(ts[0].atom, classes);
    assert |c| == UsedAfter(ts[0].atom, |classes|);
    ConcatAssoc(nodes, n, TermsNodes(ts[1..], |c|, atEnd));
    if IsSet(ts[0].atom) {
      ConcatAssoc(classes, SetBytes(ts[0].atom.cs), TermsClasses(ts[1..]));
    }
    FirstNode(ts[1..], |c|, atEnd);
  }

  /** Compiling the rendering of a tree gives back the flattened tree, whatever the arrays held before. */
  lemma {:induction false} RenderCompiles(re: Regex, stale: seq<Node>)
    requires RegexOk(re) && Fits(re) && |stale| == MAX_REGEXP_OBJECTS
    ensures CompileRest(Render(re), [], ['\0'], stale) == Some(Flatten(re))
  {
    if re.atStart {
      PlainCompiles('^', TermsText(re.terms, re.atEnd), [], ['\0'], stale);
      NilConcat([Begin]);
      TermsCompile(re.terms, re.atEnd, [Begin], ['\0'], stale);
    } else {
      NilConcat(Flatten(re).nodes);
      TermsCompile(re.terms, re.atEnd, [], ['\0'], stale);
    }
  }

  /**
   The compiler gets to a backslash that is the last character of the pattern: not one that is itself
   escaped or inside a class, not past the slots it fills, and not behind an invalid class.
   */
  predicate ReachesLoneBackslash(s: string, slots: nat, classes: seq<char>)
    requires |classes| <= MAX_CHAR_CLASS_LEN
    decreases |s|
  {
    s != "" && slots + 1 < MAX_REGEXP_OBJECTS &&
    (s == "\\" ||
     match CompileSymbol(s, classes, Unused)
     case None => false
     case Some(sym) => ReachesLoneBackslash(sym.rest, slots + 1, sym.classes))
  }

  /** Only a lone backslash looks at the node already in its slot. */
  lemma {:induction false} SymbolIgnoresStale(s: string, classes: seq<char>, a: Node, b: Node)
    requires s != "" && s != "\\" && |classes| <= MAX_CHAR_CLASS_LEN
    ensures CompileSymbol(s, classes, a) == CompileSymbol(s, classes, b)
  {
    assert |s| == 1 ==> s == [s[0]];
  }

  /** Without a lone backslash, what the node array held before does not matter. */
  lemma {:induction false} PatternAlone(s: string, nodes: seq<Node>, classes: seq<char>, a: seq<Node>, b: seq<Node>)
    requires |nodes| < MAX_REGEXP_OBJECTS == |a| == |b| && |classes| <= MAX_CHAR_CLASS_LEN
    requires !ReachesLoneBackslash(s, |nodes|, classes)
    ensures CompileRest(s, nodes, classes, a) == CompileRest(s, nodes, classes, b)
    decreases |s|
  {
    if s != "" && |nodes| + 1 < MAX_REGEXP_OBJECTS {
      SymbolIgnoresStale(s, classes, a[|nodes|], Unused);
      SymbolIgnoresStale(s, classes, b[|nodes|], Unused);
      var r := CompileSymbol(s, classes, Unused);
      if r.Some? {
        PatternAlone(r.value.rest, nodes + [r.value.node], r.value.classes, a, b);
      }
    }
  }

  /** With one, the pattern compiles, and its last node is what its slot held before. */
  lemma {:induction false} StaleNodeStays(s: string, nodes: seq<Node>, classes: seq<char>, stale: seq<Node>)
    requires |nodes| < MAX_REGEXP_OBJECTS == |stale| && |classes| <= MAX_CHAR_CLASS_LEN
    requires ReachesLoneBackslash(s, |nodes|, classes)
    ensures var r := CompileRest(s, nodes, classes, stale);
            && r.Some? && |nodes| + 2 <= |r.value.nodes|
            && r.value.nodes[|r.value.nodes| - 2] == stale[|r.value.nodes| - 2]
    decreases |s|
  {
    if s == "\\" {
      var kept := nodes + [stale[|nodes|]];
      assert CompileSymbol(s, classes, stale[|nodes|]) == Some(Symbol("", stale[|nodes|], classes));
      assert CompileRest("", kept, classes, stale) == Some(Compiled(kept + [Unused], classes));
    } else {
      SymbolIgnoresStale(s, classes, stale[|nodes|], Unused);
      var sym := CompileSymbol(s, classes, Unused).value;
      StaleNodeStays(sym.rest, nodes + [sym.node], sym.classes, stale);
    }
  }

  /** What a pattern compiles to depends on the pattern alone if and only if it has no lone backslash. */
  lemma {:induction false} DependsOnPatternAlone(s: string)
    ensures (forall a: seq<Node>, b: seq<Node> :: |a| == MAX_REGEXP_OBJECTS == |b| ==>
                                                    CompileRest(s, [], ['\0'], a) == CompileRest(s, [], ['\0'], b))
       <==> !ReachesLoneBackslash(s, 0, ['\0'])
  {
    if ReachesLoneBackslash(s, 0, ['\0']) {
      var a, b := seq(MAX_REGEXP_OBJECTS, _ => Dot), seq(MAX_REGEXP_OBJECTS, _ => Digit);
      StaleNodeStays(s, [], ['\0'], a);
      StaleNodeStays(s, [], ['\0'], b);
      assert CompileRest(s, [], ['\0'], a) != CompileRest(s, [], ['\0'], b);
    } else {
      forall a: seq<Node>, b: seq<Node> | |a| == MAX_REGEXP_OBJECTS == |b|
        ensures CompileRest(s, [], ['\0'], a) == CompileRest(s, [], ['\0'], b)
      {
        PatternAlone(s, [], ['\0'], a, b);
      }
    }
  }

  /** The shortest such pattern; a pattern that ends in an escaped backslash is not one. */
  lemma {:induction false} LoneBackslashes()
    ensures ReachesLoneBackslash("\\", 0, ['\0']) && ReachesLoneBackslash("a\\", 0, ['\0'])
    ensures !ReachesLoneBackslash("\\\\", 0, ['\0'])
  {
    assert CompileSymbol("a\\", ['\0'], Unused) == Some(Symbol("\\", Char('a'), ['\0']));
    assert CompileSymbol("\\\\", ['\0'], Unused) == Some(Symbol("", Char('\\'), ['\0']));
  }

  // ---------------------------------------------------------------- what a tree stands for

  /** Between two characters, as signed bytes compare. */
  predicate InRange(c: char, lo: char, hi: char) {
    Signed(lo) <= Signed(c) <= Signed(hi)
  }

  /** The end points of a range always belong to it, even if they are out of order. */
  predicate ItemAccepts(i: ClassItem, c: char) {
    match i
    case Single(s) => c == s
    case Range(lo, hi) => InRange(c, lo, hi) || c == lo || c == hi
    case Escaped(e) => MatchMetaChar(c, e)
  }

  /** An escaped dash is also read as a range: from the backslash before it to the character after it. */
  predicate StrayRange(item: ClassItem, after: string, c: char) {
    item == Escaped('-') && after != "" && InRange(c, '\\', after[0])
  }

  /** The k-th item accepts a character other than the dash. */
  predicate ItemTakes(items: seq<ClassItem>, k: nat, trail: bool, c: char)
    requires k < |items|
  {
    ItemAccepts(items[k], c) || StrayRange(items[k], TailText(items[k + 1..], trail), c)
  }

  /**
   The union of the items; for the dash itself, a leading dash, a trailing dash
   or an escaped class counts only while no range stands before it.
   */
  ghost predicate SetAccepts(cs: CharSet, c: char) {
    if c != '-' then exists k :: 0 <= k < |cs.items| && ItemTakes(cs.items, k, cs.trail, c)
    else cs.lead || DashReached(cs.items, cs.trail)
  }

  ghost predicate DashReached(items: seq<ClassItem>, trail: bool) {
    || (trail && forall k :: 0 <= k < |items| ==> !items[k].Range?)
    || exists k :: 0 <= k < |items| && items[k].Escaped? && ItemAccepts(items[k], '-')
                   && forall m :: 0 <= m < k ==> !items[m].Range?
  }

  /** A literal stands for itself, except that a byte above 127 never compares equal to itself. */
  ghost predicate AtomMeans(a: Atom, c: char) {
    match a
    case Literal(l) => c == l && c as int < 128
    case AnyChar => true
    case Meta(m) => MatchMetaChar(c, m)
    case OneOf(cs) => SetAccepts(cs, c)
    case NoneOf(cs) => !SetAccepts(cs, c)
  }

  ghost function TermPiece(t: Term): Piece {
    Piece((iset c: char | IsChar(c) && AtomMeans(t.atom, c)), t.quant)
  }

  ghost function TermPieces(ts: seq<Term>): seq<Piece> {
    seq(|ts|, k requires 0 <= k < |ts| => TermPiece(ts[k]))
  }

  // ---------------------------------------------------------------- classes

  lemma {:induction false} TailStart(items: seq<ClassItem>, trail: bool)
    requires forall k :: 0 <= k < |items| ==> ItemOk(items[k])
    ensures TailText(items, trail) != "" && TailText(items, trail)[0] == '-' ==> |TailText(items, trail)| == 1
  {
  }

  /** The text of the first item, then that of the rest. */
  lemma {:induction false} FirstItem(s: string, p: nat, items: seq<ClassItem>, trail: bool)
    requires items != [] && p <= |s| && s[p..] == TailText(items, trail)
    ensures var n := |ItemText(items[0])|;
            && p + n <= |s| && s[p + n..] == TailText(items[1..], trail)
            && forall k :: 0 <= k < n ==> s[p + k] == ItemText(items[0])[k]
    ensures s[p] == ItemText(items[0])[0] && (!items[0].Single? ==> s[p + 1] == ItemText(items[0])[1])
  {
    var n := |ItemText(items[0])|;
    assert s[p..] == ItemText(items[0]) + TailText(items[1..], trail);
    assert s[p + n..] == s[p..][n..];
    assert forall k :: 0 <= k < n ==> s[p + k] == s[p..][k];
  }

  /** What the scan reads at an item: the item's own text, and that no range starts by accident. */
  lemma {:induction false} ScanItem(c: char, s: string, p: nat, items: seq<ClassItem>, trail: bool)
    requires items != [] && forall k :: 0 <= k < |items| ==> ItemOk(items[k])
    requires p <= |s| && s[p..] == TailText(items, trail) && IsChar(c) && c != '-'
    ensures
      var next := p + |ItemText(items[0])|;
      && next <= |s| && s[next..] == TailText(items[1..], trail)
      && ClassAccepts(c, s, p) == (ItemTakes(items, 0, trail, c) || ClassAccepts(c, s, next))
  {
    var n, rest := |ItemText(items[0])|, TailText(items[1..], trail);
    TailStart(items[1..], trail);
    FirstItem(s, p, items, trail);
    assert rest != "" ==> s[p + n] == rest[0];
    match items[0]
    case Single(x) =>
      assert s[p] == x && !MatchRange(c, s, p);
    case Escaped(e) =>
      assert s[p] == '\\' && s[p + 1] == e;
      assert MatchRange(c, s, p) == StrayRange(items[0], rest, c);
    case Range(lo, hi) =>
      assert s[p] == lo && s[p + 1] == '-' && s[p + 2] == hi;
      assert MatchRange(c, s, p) == InRange(c, lo, hi);
      assert !MatchRange(c, s, p + 1) && !MatchRange(c, s, p + 2);
      assert ClassAccepts(c, s, p) == (InRange(c, lo, hi) || c == lo || ClassAccepts(c, s, p + 1));
      assert ClassAccepts(c, s, p + 1) == ClassAccepts(c, s, p + 2);
      assert ClassAccepts(c, s, p + 2) == (c == hi || ClassAccepts(c, s, p + 3));
  }

  lemma {:induction false} ScanItems(c: char, s: string, p: nat, items: seq<ClassItem>, trail: bool)
    requires forall k :: 0 <= k < |items| ==> ItemOk(items[k])
    requires p <= |s| && s[p..] == TailText(items, trail) && IsChar(c) && c != '-'
    ensures ClassAccepts(c, s, p) <==> exists k :: 0 <= k < |items| && ItemTakes(items, k, trail, c)
    decreases |items|
  {
    if items == [] {
      assert trail ==> s[p] == s[p..][0] && !MatchRange(c, s, p);
      assert trail ==> !ClassAccepts(c, s, p + 1);
    } else {
      ScanItem(c, s, p, items, trail);
      var next := p + |ItemText(items[0])|;
      ScanItems(c, s, next, items[1..], trail);
      forall k | 1 <= k < |items|
        ensures ItemTakes(items, k, trail, c) == ItemTakes(items[1..], k - 1, trail, c)
      {
        assert items[1..][k..] == items[k + 1..];
      }
      if k :| 0 <= k < |items| && ItemTakes(items, k, trail, c) {
        assert k > 0 ==> ItemTakes(items[1..], k - 1, trail, c);
      }
      if k :| 0 <= k < |items[1..]| && ItemTakes(items[1..], k, trail, c) {
        assert ItemTakes(items, k + 1, trail, c);
      }
    }
  }

  /** The scan for a dash, which ends at the first dash it meets. */
  lemma {:induction false} ScanDash(s: string, p: nat, items: seq<ClassItem>, trail: bool)
    requires forall k :: 0 <= k < |items| ==> ItemOk(items[k])
    requires p <= |s| && s[p..] == TailText(items, trail)
    ensures ClassAccepts('-', s, p) <==> DashReached(items, trail)
    decreases |items|
  {
    if items == [] {
      assert trail ==> s[p] == s[p..][0];
    } else {
      FirstItem(s, p, items, trail);
      ScanDash(s, p + |ItemText(items[0])|, items[1..], trail);
      if items[0].Range? {
        assert !ClassAccepts('-', s, p + 1);
      } else {
        DashSkips(items, trail);
      }
    }
  }

  lemma {:induction false} DashSkips(items: seq<ClassItem>, trail: bool)
    requires items != [] && !items[0].Range?
    ensures DashReached(items, trail) <==>
            (items[0].Escaped? && ItemAccepts(items[0], '-')) || DashReached(items[1..], trail)
  {
    var rest := items[1..];
    assert forall k :: 0 <= k < |rest| ==> rest[k] == items[k + 1];
    assert forall k :: 1 <= k < |items| ==> items[k] == rest[k - 1];
    if k :| && 0 <= k < |rest| && rest[k].Escaped? && ItemAccepts(rest[k], '-')
            && forall m :: 0 <= m < k ==> !rest[m].Range? {
      assert items[k + 1].Escaped? && forall m :: 0 <= m < k + 1 ==> !items[m].Range?;
    }
    if k :| && 1 <= k < |items| && items[k].Escaped? && ItemAccepts(items[k], '-')
            && forall m :: 0 <= m < k ==> !items[m].Range? {
      assert rest[k - 1].Escaped? && forall m :: 0 <= m < k - 1 ==> !rest[m].Range?;
    }
  }

  /** The compiled class accepts exactly what the class tree stands for. */
  lemma {:induction false} ClassMeaning(cs: CharSet, c: char)
    requires SetOk(cs) && IsChar(c)
    ensures ClassAccepts(c, SetText(cs), 0) <==> SetAccepts(cs, c)
  {
    var s := SetText(cs);
    if cs.lead {
      assert s[0] == '-' && s[1..] == TailText(cs.items, cs.trail);
      if c != '-' {
        assert !MatchRange(c, s, 0);
        ScanItems(c, s, 1, cs.items, cs.trail);
      }
    } else {
      assert s[0..] == TailText(cs.items, cs.trail);
      if c == '-' {
        ScanDash(s, 0, cs.items, cs.trail);
      } else {
        ScanItems(c, s, 0, cs.items, cs.trail);
      }
    }
  }

  /** What a class is meant to stand for: the union of what it lists. */
  ghost predicate Union(cs: CharSet, c: char) {
    || (c == '-' && (cs.lead || cs.trail))
    || exists k :: 0 <= k < |cs.items| && Means(cs.items[k], c)
  }

  predicate Means(i: ClassItem, c: char) {
    match i
    case Single(x) => c == x
    case Range(lo, hi) => lo <= c <= hi
    case Escaped(e) => MatchMetaChar(c, e)
  }

  predicate OrderedRange(i: ClassItem) {
    i.Range? ==> i.lo <= i.hi && (i.lo < 128 as char <==> i.hi < 128 as char)
  }

  /** Ranges are ordered and do not mix characters below and above 128, and nothing follows an escaped dash. */
  ghost predicate Orderly(cs: CharSet) {
    && (forall k :: 0 <= k < |cs.items| ==> OrderedRange(cs.items[k]))
    && (forall k :: 0 <= k < |cs.items| && cs.items[k] == Escaped('-') ==> k == |cs.items| - 1 && !cs.trail)
  }

  /** An orderly class accepts the union of what it lists; the dash itself if it leads or if there is no range. */
  lemma {:induction false} UnionOfItems(cs: CharSet, c: char)
    requires SetOk(cs) && IsChar(c) && Orderly(cs)
    requires c == '-' && !cs.lead ==> forall k :: 0 <= k < |cs.items| ==> !cs.items[k].Range?
    ensures SetAccepts(cs, c) <==> Union(cs, c)
  {
    if c != '-' {
      forall k | 0 <= k < |cs.items| ensures ItemTakes(cs.items, k, cs.trail, c) == Means(cs.items[k], c) {
        if cs.items[k] == Escaped('-') {
          assert TailText(cs.items[k + 1..], cs.trail) == "";
        }
      }
    } else if !cs.lead {
      forall k | 0 <= k < |cs.items|
        ensures Means(cs.items[k], c) <==> cs.items[k].Escaped? && ItemAccepts(cs.items[k], c)
      {
        assert ItemOk(cs.items[k]);
      }
    }
  }

  /** A range out of order still accepts its two ends, and one from below 128 to above only these. */
  lemma {:induction false} DisorderlyRange(lo: char, hi: char, c: char)
    requires PlainClassChar(lo) && PlainClassChar(hi) && IsChar(c) && Signed(hi) < Signed(lo)
    ensures ClassAccepts(c, [lo, '-', hi], 0) <==> c == lo || c == hi
  {
    var cs := CharSet(false, [Range(lo, hi)], false);
    assert TailText(cs.items[1..], false) == "";
    assert SetText(cs) == [lo, '-', hi];
    ClassMeaning(cs, c);
    assert cs.items[0].Range?;
    assert c != '-' ==> (SetAccepts(cs, c) <==> ItemTakes(cs.items, 0, false, c));
  }

  /** "[\-z]" accepts the dash and every character from the backslash to 'z'; "[\-]" is only the dash. */
  lemma {:induction false} EscapedDash(c: char)
    requires IsChar(c)
    ensures ClassAccepts(c, "\\-z", 0) <==> c == '-' || '\\' <= c <= 'z'
    ensures ClassAccepts(c, "\\-", 0) <==> c == '-'
  {
    assert ClassAccepts(c, "\\-z", 2) == (c == 'z');
    assert !ClassAccepts(c, "\\-", 2);
  }

  /** A class that lists a dash after a range does not accept it: "[a-z-]" rejects '-'. */
  lemma {:induction false} TrailingDashAfterRange()
    ensures !ClassAccepts('-', "a-z-", 0)
    ensures ClassAccepts('-', "a-", 0)
  {
    assert !ClassAccepts('-', "a-z-", 1);
    assert ClassAccepts('-', "a-", 1);
  }

  // ---------------------------------------------------------------- nodes and trees agree

  lemma {:induction false} StringAtIs(buf: seq<char>, off: nat, t: string)
    requires IsText(t) && HasAt(buf, off, t + ['\0'])
    ensures StringAt(buf, off) == t && off + |t| < |buf| && buf[off + |t|] == '\0'
    decreases |t|
  {
    if t != "" {
      assert (t + ['\0'])[1..] == t[1..] + ['\0'];
      StringAtIs(buf, off + 1, t[1..]);
    }
  }

  lemma {:induction false} SetAgrees(buf: seq<char>, cs: CharSet, used: nat)
    requires SetOk(cs) && 1 <= used <= |buf| && buf[used - 1] == '\0' && HasAt(buf, used, SetBytes(cs))
    ensures IsClassAt(buf, used)
    ensures forall c :: IsChar(c) ==> (ClassAccepts(c, StringAt(buf, used), 0) <==> SetAccepts(cs, c))
    ensures used + |SetBytes(cs)| <= |buf| && buf[used + |SetBytes(cs)| - 1] == '\0'
  {
    SetTextWellEscaped(cs);
    StringAtIs(buf, used, SetText(cs));
    forall c | IsChar(c)
      ensures ClassAccepts(c, StringAt(buf, used), 0) <==> SetAccepts(cs, c)
    {
      ClassMeaning(cs, c);
    }
  }

  lemma {:induction false} AtomAgrees(buf: seq<char>, a: Atom, used: nat)
    requires AtomTreeOk(a) && 1 <= used <= |buf| && buf[used - 1] == '\0'
    requires IsSet(a) ==> HasAt(buf, used, SetBytes(a.cs))
    ensures AtomOk(buf, AtomNode(a, used))
    ensures forall c :: IsChar(c) ==> (AtomAccepts(buf, AtomNode(a, used), c) <==> AtomMeans(a, c))
    ensures UsedAfter(a, used) <= |buf| && buf[UsedAfter(a, used) - 1] == '\0'
  {
    if IsSet(a) {
      SetAgrees(buf, a.cs, used);
    }
  }

  /** The nodes of a list of terms are at pi, and the text of its classes at used. */
  ghost predicate Placed(nodes: seq<Node>, buf: seq<char>, pi: nat, ts: seq<Term>, atEnd: bool, used: nat) {
    && 1 <= used <= |buf| && buf[used - 1] == '\0' && HasAt(buf, used, TermsClasses(ts))
    && HasAt(nodes, pi, TermsNodes(ts, used, atEnd))
  }

  ghost predicate Agrees(nodes: seq<Node>, buf: seq<char>, pi: nat, ts: seq<Term>, atEnd: bool) {
    WellFormed(nodes, buf, pi) && NodeBody(nodes, buf, pi) == Body(TermPieces(ts), atEnd)
  }

  lemma {:induction false} TermsAgree(nodes: seq<Node>, buf: seq<char>, pi: nat, ts: seq<Term>, atEnd: bool, used: nat)
    requires TermsOk(ts) && Placed(nodes, buf, pi, ts, atEnd, used)
    ensures Agrees(nodes, buf, pi, ts, atEnd)
    decreases |ts|
  {
    if ts == [] {
      EndingAgrees(nodes, buf, pi, atEnd);
      assert TermPieces(ts) == [];
    } else {
      RestPlaced(nodes, buf, pi, ts, atEnd, used);
      TermsAgree(nodes, buf, pi + |TermNodes(ts[0], used)|, ts[1..], atEnd, UsedAfter(ts[0].atom, used));
      TermAgrees(nodes, buf, pi, ts, atEnd, used);
    }
  }

  lemma {:induction false} RestPlaced(nodes: seq<Node>, buf: seq<char>, pi: nat, ts: seq<Term>, atEnd: bool, used: nat)
    requires ts != [] && TermsOk(ts) && Placed(nodes, buf, pi, ts, atEnd, used)
    ensures Placed(nodes, buf, pi + |TermNodes(ts[0], used)|, ts[1..], atEnd, UsedAfter(ts[0].atom, used))
  {
    ClassesSplit(buf, ts, used);
    NodesSplit(nodes, pi, ts, used, atEnd);
    AtomAgrees(buf, ts[0].atom, used);
  }

  lemma {:induction false} TermAgrees(nodes: seq<Node>, buf: seq<char>, pi: nat, ts: seq<Term>, atEnd: bool, used: nat)
    requires ts != [] && TermsOk(ts) && Placed(nodes, buf, pi, ts, atEnd, used)
    requires Agrees(nodes, buf, pi + |TermNodes(ts[0], used)|, ts[1..], atEnd)
    ensures Agrees(nodes, buf, pi, ts, atEnd)
  {
    ClassesSplit(buf, ts, used);
    NodesSplit(nodes, pi, ts, used, atEnd);
    AtomAgrees(buf, ts[0].atom, used);
    TermHead(nodes, pi, ts, used, atEnd);
    FirstAgrees(nodes, buf, pi, ts, used, atEnd);
  }

  lemma {:induction false} EndingAgrees(nodes: seq<Node>, buf: seq<char>, pi: nat, atEnd: bool)
    requires HasAt(nodes, pi, Ending(atEnd))
    ensures WellFormed(nodes, buf, pi) && NodeBody(nodes, buf, pi) == Body([], atEnd)
  {
    HasAtIndex(nodes, pi, Ending(atEnd), 0);
    if atEnd {
      HasAtIndex(nodes, pi, Ending(atEnd), 1);
    }
  }

  /** The class text of the first term, if it has one, then that of the rest. */
  lemma {:induction false} ClassesSplit(buf: seq<char>, ts: seq<Term>, used: nat)
    requires ts != [] && HasAt(buf, used, TermsClasses(ts))
    ensures IsSet(ts[0].atom) ==> HasAt(buf, used, SetBytes(ts[0].atom.cs))
    ensures HasAt(buf, UsedAfter(ts[0].atom, used), TermsClasses(ts[1..]))
  {
    if IsSet(ts[0].atom) {
      HasAtConcat(buf, used, SetBytes(ts[0].atom.cs), TermsClasses(ts[1..]));
    }
  }

  /** The nodes of the first term, then those of the rest. */
  lemma {:induction false} NodesSplit(nodes: seq<Node>, pi: nat, ts: seq<Term>, used: nat, atEnd: bool)
    requires ts != [] && HasAt(nodes, pi, TermsNodes(ts, used, atEnd))
    ensures HasAt(nodes, pi, TermNodes(ts[0], used))
    ensures HasAt(nodes, pi + |TermNodes(ts[0], used)|, TermsNodes(ts[1..], UsedAfter(ts[0].atom, used), atEnd))
  {
    HasAtConcat(nodes, pi, TermNodes(ts[0], used), TermsNodes(ts[1..], UsedAfter(ts[0].atom, used), atEnd));
  }

  /** The first two nodes of a term, and that what follows it never starts with a quantifier. */
  lemma {:induction false} TermHead(nodes: seq<Node>, pi: nat, ts: seq<Term>, used: nat, atEnd: bool)
    requires ts != [] && TermsOk(ts)
    requires HasAt(nodes, pi, TermNodes(ts[0], used))
    requires HasAt(nodes, pi + |TermNodes(ts[0], used)|, TermsNodes(ts[1..], UsedAfter(ts[0].atom, used), atEnd))
    ensures pi + 1 < |nodes| && nodes[pi] == AtomNode(ts[0].atom, used)
    ensures if ts[0].quant == Once then !IsQuantifier(nodes[pi + 1]) else [nodes[pi + 1]] == QuantNodes(ts[0].quant)
  {
    HasAtIndex(nodes, pi, TermNodes(ts[0], used), 0);
    FirstNode(ts[1..], UsedAfter(ts[0].atom, used), atEnd);
    HasAtIndex(nodes, pi + |TermNodes(ts[0], used)|, TermsNodes(ts[1..], UsedAfter(ts[0].atom, used), atEnd), 0);
    if ts[0].quant != Once {
      HasAtIndex(nodes, pi, TermNodes(ts[0], used), 1);
    }
  }

  lemma {:induction false} FirstNode(ts: seq<Term>, used: nat, atEnd: bool)
    ensures var n := TermsNodes(ts, used, atEnd); n != [] && !IsQuantifier(n[0]) && n[0] != Begin
  {
    if ts != [] {
      assert TermsNodes(ts, used, atEnd)[0] == AtomNode(ts[0].atom, used);
    }
  }

  /** The first term of a list, once the rest agrees. */
  lemma {:induction false} FirstAgrees(nodes: seq<Node>, buf: seq<char>, pi: nat, ts: seq<Term>, used: nat, atEnd: bool)
    requires ts != [] && pi + 1 < |nodes| && nodes[pi] == AtomNode(ts[0].atom, used) && AtomOk(buf, nodes[pi])
    requires forall c :: IsChar(c) ==> (AtomAccepts(buf, nodes[pi], c) <==> AtomMeans(ts[0].atom, c))
    requires if ts[0].quant == Once then !IsQuantifier(nodes[pi + 1]) else [nodes[pi + 1]] == QuantNodes(ts[0].quant)
    requires WellFormed(nodes, buf, pi + |TermNodes(ts[0], used)|)
    requires NodeBody(nodes, buf, pi + |TermNodes(ts[0], used)|) == Body(TermPieces(ts[1..]), atEnd)
    ensures WellFormed(nodes, buf, pi)
    ensures NodeBody(nodes, buf, pi) == Body(TermPieces(ts), atEnd)
  {
    assert NodePiece(buf, nodes[pi], nodes[pi + 1]).chars == TermPiece(ts[0]).chars;
    PiecesSplit(ts);
  }

  lemma {:induction false} PiecesSplit(ts: seq<Term>)
    requires ts != []
    ensures [TermPiece(ts[0])] + TermPieces(ts[1..]) == TermPieces(ts)
  {
  }

  /** The flattened tree is a well-formed node array with the tree's own language. */
  lemma {:induction false} FlattenAgrees(re: Regex)
    requires RegexOk(re)
    ensures
      var f := Flatten(re);
      var start := if re.atStart then 1 else 0;
      && f.nodes != [] && (f.nodes[0] == Begin <==> re.atStart)
      && WellFormed(f.nodes, f.classes, start)
      && NodeBody(f.nodes, f.classes, start) == Body(TermPieces(re.terms), re.atEnd)
  {
    var f, n := Flatten(re), TermsNodes(re.terms, 1, re.atEnd);
    HasAtPrefix(['\0'], TermsClasses(re.terms));
    FirstNode(re.terms, 1, re.atEnd);
    if re.atStart {
      HasAtPrefix([Begin], n);
      TermsAgree(f.nodes, f.classes, 1, re.terms, re.atEnd, 1);
    } else {
      HasAtPrefix([], n);
      NilConcat(n);
      TermsAgree(f.nodes, f.classes, 0, re.terms, re.atEnd, 1);
    }
  }

  /** The compiled pattern is an array the matcher is made for. */
  predicate Matchable(c: Compiled) {
    c.nodes != [] && WellFormed(c.nodes, c.classes, if c.nodes[0] == Begin then 1 else 0)
  }

  /**
   idx is the outcome of looking for a body in a text: the least position before the end, or 0 or none if
   anchored.
   */
  ghost predicate IsFirst(b: Body, atStart: bool, text: string, idx: int) {
    if atStart then idx == if MatchesAt(b, text, 0) then 0 else -1
    else if 0 <= idx then
      && idx < |text| && MatchesAt(b, text, idx)
      && forall i :: 0 <= i < idx ==> !MatchesAt(b, text, i)
    else idx == -1 && forall i :: 0 <= i < |text| ==> !MatchesAt(b, text, i)
  }

  /** re_match, for every pattern that does not compile or compiles to a well-formed array. */
  method ReMatch(engine: Engine, pattern: string, text: string) returns (idx: int)
    requires engine.Valid() && IsText(text)
    requires var c := CompileRest(pattern, [], ['\0'], engine.nodes[..]); c.Some? ==> Matchable(c.value)
    modifies engine.nodes, engine.classes
    ensures engine.Valid()
    ensures var c := CompileRest(pattern, [], ['\0'], old(engine.nodes[..]));
            if c.None? then idx == -1
            else
              var start := if c.value.nodes[0] == Begin then 1 else 0;
              IsFirst(NodeBody(c.value.nodes, c.value.classes, start), c.value.nodes[0] == Begin, text, idx)
  {
    var ok, count, used := engine.Compile(pattern);
    if !ok {
      return -1;
    }
    idx := MatchFrom(engine.nodes[..count], engine.classes[..used], text);
  }

  /**
   re_match on the rendering of a tree: the least position before the end of the
   text at which the tree's language is found, position 0 only for an anchored tree.
   */
  method Match(engine: Engine, pattern: string, text: string, ghost re: Regex) returns (idx: int)
    requires engine.Valid() && IsText(text)
    requires pattern == Render(re) && RegexOk(re) && Fits(re)
    modifies engine.nodes, engine.classes
    ensures engine.Valid()
    ensures IsFirst(Body(TermPieces(re.terms), re.atEnd), re.atStart, text, idx)
  {
    RenderCompiles(re, engine.nodes[..]);
    FlattenAgrees(re);
    idx := ReMatch(engine, pattern, text);
  }
}
