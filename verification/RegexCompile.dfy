/**
 The compiler of src/re.c: one pass over the pattern text that fills a static
 node array and a static class buffer, both of which keep what the previous
 compilation left in them.
 */
module RegexCompile {
  import opened Common
  import opened RegexMatch

  const MAX_REGEXP_OBJECTS := 30
  const MAX_CHAR_CLASS_LEN := 40

  /** What a compilation leaves: the nodes with their sentinel, and the used part of the class buffer. */
  datatype Compiled = Compiled(nodes: seq<Node>, classes: seq<char>)

  function PlainNode(c: char): Node {
    match c
    case '^' => Begin
    case '$' => End
    case '.' => Dot
    case '*' => Star
    case '+' => Plus
    case '?' => Question
    case _ => Char(c)
  }

  function EscapedNode(c: char): Node {
    match c
    case 'd' => Digit
    case 'D' => NotDigit
    case 'w' => Alpha
    case 'W' => NotAlpha
    case 's' => Space
    case 'S' => NotSpace
    case _ => Char(c)
  }

  /** Copy class characters up to the closing bracket or the end; what is left starts there. */
  function CopyClass(s: string, classes: seq<char>): (r: Option<(string, seq<char>)>)
    requires |classes| <= MAX_CHAR_CLASS_LEN
    ensures r.Some? ==> |r.value.0| <= |s| && |classes| <= |r.value.1| <= MAX_CHAR_CLASS_LEN
    ensures r.Some? ==> r.value.0 == "" || r.value.0[0] == ']'
    decreases |s|
  {
    if s == "" || s[0] == ']' then Some((s, classes))
    else if s[0] == '\\' then
      if |classes| >= MAX_CHAR_CLASS_LEN - 1 || |s| == 1 then None
      else CopyClass(s[2..], classes + s[..2])
    else if |classes| >= MAX_CHAR_CLASS_LEN then None
    else CopyClass(s[1..], classes + s[..1])
  }

  /** One symbol of the pattern: what follows it, its node, and the class buffer after it. */
  datatype Symbol = Symbol(rest: string, node: Node, classes: seq<char>)

  function CompileClass(s: string, classes: seq<char>, node: Node): (r: Option<Symbol>)
    requires |classes| <= MAX_CHAR_CLASS_LEN
    ensures r.Some? ==> |r.value.rest| < |s| && |classes| <= |r.value.classes| <= MAX_CHAR_CLASS_LEN
  {
    var copied := CopyClass(s, classes);
    if copied.None? || |copied.value.1| >= MAX_CHAR_CLASS_LEN || copied.value.0 == "" then None
    else Some(Symbol(copied.value.0[1..], node, copied.value.1 + ['\0']))
  }

  /** `stale` is the node already in this slot, which a trailing backslash leaves in place. */
  function CompileSymbol(s: string, classes: seq<char>, stale: Node): (r: Option<Symbol>)
    requires s != "" && |classes| <= MAX_CHAR_CLASS_LEN
    ensures r.Some? ==> |r.value.rest| < |s| && |classes| <= |r.value.classes| <= MAX_CHAR_CLASS_LEN
  {
    if s[0] == '\\' then
      if |s| > 1 then Some(Symbol(s[2..], EscapedNode(s[1]), classes))
      else Some(Symbol("", stale, classes))
    else if s[0] == '[' then
      if |s| > 1 && s[1] == '^' then
        if |s| == 2 then None else CompileClass(s[2..], classes, InvClass(|classes|))
      else CompileClass(s[1..], classes, Class(|classes|))
    else Some(Symbol(s[1..], PlainNode(s[0]), classes))
  }

  /** Compile the rest of a pattern after `nodes` and `classes`; `stale` is the node array as it was before. */
  function CompileRest(s: string, nodes: seq<Node>, classes: seq<char>, stale: seq<Node>): (r: Option<Compiled>)
    requires |nodes| < MAX_REGEXP_OBJECTS == |stale| && |classes| <= MAX_CHAR_CLASS_LEN
    ensures r.Some? ==> |nodes| < |r.value.nodes| <= MAX_REGEXP_OBJECTS
    ensures r.Some? ==> |classes| <= |r.value.classes| <= MAX_CHAR_CLASS_LEN
    decreases |s|
  {
    if s == "" || |nodes| + 1 >= MAX_REGEXP_OBJECTS then Some(Compiled(nodes + [Unused], classes))
    else
      match CompileSymbol(s, classes, stale[|nodes|])
      case None => None
      case Some(sym) => CompileRest(sym.rest, nodes + [sym.node], sym.classes, stale)
  }

  /** The nodes compiled before the symbol that fails. */
  function CompiledBefore(s: string, nodes: seq<Node>, classes: seq<char>, stale: seq<Node>): seq<Node>
    requires |nodes| < MAX_REGEXP_OBJECTS == |stale| && |classes| <= MAX_CHAR_CLASS_LEN
    decreases |s|
  {
    if s == "" || |nodes| + 1 >= MAX_REGEXP_OBJECTS then nodes
    else
      match CompileSymbol(s, classes, stale[|nodes|])
      case None => nodes
      case Some(sym) => CompiledBefore(sym.rest, nodes + [sym.node], sym.classes, stale)
  }

  /** The static arrays of the module and the two public entry points. */
  class Engine {
    const nodes: array<Node>
    const classes: array<char>

    ghost predicate Valid()
      reads this, classes
    {
      nodes.Length == MAX_REGEXP_OBJECTS && classes.Length == MAX_CHAR_CLASS_LEN && classes[0] == '\0'
    }

    constructor ()
      ensures Valid() && fresh(nodes) && fresh(classes)
    {
      nodes := new Node[MAX_REGEXP_OBJECTS](_ => Unused);
      classes := new char[MAX_CHAR_CLASS_LEN](_ => '\0');
    }

    /** The copy loop for one class; `ok` is false when the buffer would overflow or the class is cut short. */
    method CopyClassText(s: string, used: nat) returns (ok: bool, rest: string, used': nat)
      requires Valid() && 1 <= used <= MAX_CHAR_CLASS_LEN
      modifies classes
      ensures Valid()
      ensures ok == CopyClass(s, old(classes[..used])).Some?
      ensures ok ==> used' <= MAX_CHAR_CLASS_LEN && CopyClass(s, old(classes[..used])) == Some((rest, classes[..used']))
    {
      rest, used' := s, used;
      while rest != "" && rest[0] != ']'
        invariant used <= used' <= MAX_CHAR_CLASS_LEN && Valid()
        invariant CopyClass(s, old(classes[..used])) == CopyClass(rest, classes[..used'])
        decreases |rest|
      {
        ghost var before := classes[..used'];
        if rest[0] == '\\' {
          if used' >= MAX_CHAR_CLASS_LEN - 1 || |rest| == 1 {
            return false, rest, used';
          }
          classes[used'] := rest[0];
          classes[used' + 1] := rest[1];
          assert classes[..used' + 2] == before + rest[..2];
          rest, used' := rest[2..], used' + 2;
        } else if used' >= MAX_CHAR_CLASS_LEN {
          return false, rest, used';
        } else {
          classes[used'] := rest[0];
          assert classes[..used' + 1] == before + rest[..1];
          rest, used' := rest[1..], used' + 1;
        }
      }
      ok := true;
    }

    /** A class from its first character on: its text, the closing NUL, and the bracket. */
    method CompileClassText(s: string, used: nat, ghost node: Node) returns (ok: bool, rest: string, used': nat)
      requires Valid() && 1 <= used <= MAX_CHAR_CLASS_LEN
      modifies classes
      ensures Valid()
      ensures ok == CompileClass(s, old(classes[..used]), node).Some?
      ensures ok ==> 1 <= used' <= MAX_CHAR_CLASS_LEN
                     && CompileClass(s, old(classes[..used]), node) == Some(Symbol(rest, node, classes[..used']))
    {
      ok, rest, used' := CopyClassText(s, used);
      if !ok || used' >= MAX_CHAR_CLASS_LEN {
        return false, rest, used';
      }
      ghost var text := classes[..used'];
      classes[used'] := '\0';
      used' := used' + 1;
      assert classes[..used'] == text + ['\0'];
      if rest == "" {
        return false, rest, used';
      }
      rest := rest[1..];
    }

    /** The body of the main loop: compile the first symbol of what is left of the pattern into slot j. */
    method CompileOne(s: string, j: nat, used: nat) returns (ok: bool, rest: string, used': nat)
      requires Valid() && s != "" && j < MAX_REGEXP_OBJECTS && 1 <= used <= MAX_CHAR_CLASS_LEN
      modifies nodes, classes
      ensures Valid() && nodes[..j] == old(nodes[..j]) && nodes[j + 1..] == old(nodes[j + 1..])
      ensures ok == CompileSymbol(s, old(classes[..used]), old(nodes[j])).Some?
      ensures !ok ==> s[0] == '[' && nodes[j] == Dangling(|s| > 1 && s[1] == '^')
      ensures ok ==> 1 <= used' <= MAX_CHAR_CLASS_LEN
                     && CompileSymbol(s, old(classes[..used]), old(nodes[j])) ==
                        Some(Symbol(rest, nodes[j], classes[..used']))
    {
      ok, rest, used' := true, s[1..], used;
      if s[0] == '\\' {
        if |s| > 1 {
          nodes[j] := EscapedNode(s[1]);
          rest := s[2..];
        } else {
          assert s[1..] == "";
        }
      } else if s[0] == '[' {
        if |s| > 1 && s[1] == '^' {
          nodes[j] := Dangling(true);
          if |s| == 2 {
            return false, rest, used;
          }
          ok, rest, used' := CompileClassText(s[2..], used, InvClass(used));
          if ok {
            nodes[j] := InvClass(used);
          }
        } else {
          nodes[j] := Dangling(false);
          ok, rest, used' := CompileClassText(s[1..], used, Class(used));
          if ok {
            nodes[j] := Class(used);
          }
        }
      } else {
        nodes[j] := PlainNode(s[0]);
      }
    }

    /** Compiled so far: j nodes, and `used` bytes of the class buffer, with this much of the pattern left. */
    ghost predicate Partly(s: string, stale: seq<Node>, rest: string, j: nat, used: nat)
      requires |stale| == nodes.Length == MAX_REGEXP_OBJECTS && classes.Length == MAX_CHAR_CLASS_LEN
      reads nodes, classes
    {
      && j < MAX_REGEXP_OBJECTS && 1 <= used <= MAX_CHAR_CLASS_LEN && nodes[j..] == stale[j..]
      && CompileRest(s, [], ['\0'], stale) == CompileRest(rest, nodes[..j], classes[..used], stale)
      && CompiledBefore(s, [], ['\0'], stale) == CompiledBefore(rest, nodes[..j], classes[..used], stale)
    }

    /** One turn of the main loop. */
    method CompileTurn(s: string, ghost stale: seq<Node>, left: string, j: nat, used: nat)
      returns (ok: bool, rest: string, used': nat)
      requires Valid() && |stale| == MAX_REGEXP_OBJECTS && left != "" && j + 1 < MAX_REGEXP_OBJECTS
      requires Partly(s, stale, left, j, used)
      modifies nodes, classes
      ensures Valid() && (ok ==> |rest| < |left| && Partly(s, stale, rest, j + 1, used'))
      ensures !ok ==> CompileRest(s, [], ['\0'], stale) == None && nodes[j].Dangling?
      ensures !ok ==> nodes[j + 1..] == stale[j + 1..] && nodes[..j] == CompiledBefore(s, [], ['\0'], stale)
    {
      ghost var done := nodes[..j];
      assert nodes[j] == nodes[j..][0] == stale[j];
      assert nodes[j + 1..] == nodes[j..][1..] == stale[j..][1..] == stale[j + 1..];
      ok, rest, used' := CompileOne(left, j, used);
      assert nodes[..j + 1] == done + [nodes[j]];
    }

    /**
     re_compile: `count` nodes and `used` buffer bytes are valid when `ok`, and slot `count` is the one
     of the class that failed when not.
     */
    method Compile(p: string) returns (ok: bool, count: nat, used: nat)
      requires Valid()
      modifies nodes, classes
      ensures Valid()
      ensures ok == CompileRest(p, [], ['\0'], old(nodes[..])).Some?
      ensures ok ==> count <= MAX_REGEXP_OBJECTS && used <= MAX_CHAR_CLASS_LEN
                     && CompileRest(p, [], ['\0'], old(nodes[..])) == Some(Compiled(nodes[..count], classes[..used]))
      ensures ok ==> nodes[count..] == old(nodes[count..])
      ensures !ok ==>
                count < MAX_REGEXP_OBJECTS && nodes[count].Dangling? && nodes[count + 1..] == old(nodes[count + 1..])
                && nodes[..count] == CompiledBefore(p, [], ['\0'], old(nodes[..]))
    {
      var rest: string, j: nat := p, 0;
      used := 1;
      ghost var stale := nodes[..];
      assert classes[..1] == ['\0'] && nodes[..0] == [];
      while rest != "" && j + 1 < MAX_REGEXP_OBJECTS
        invariant Valid() && Partly(p, stale, rest, j, used)
        decreases |rest|
      {
        ok, rest, used := CompileTurn(p, stale, rest, j, used);
        if !ok {
          return false, j, used;
        }
        j := j + 1;
      }
      ghost var done := nodes[..j];
      assert nodes[j + 1..] == nodes[j..][1..] == stale[j..][1..] == stale[j + 1..];
      nodes[j] := Unused;
      assert nodes[..j + 1] == done + [Unused];
      return true, j + 1, used;
    }
  }
}
