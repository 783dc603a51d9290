/**
 A token file as a map: what one write does to every read, for whole files and
 whole runs of writes.
 */
module TokenMap {
  import opened Common
  import opened TokenFile

  // ---------------------------------------------------------------- files

  /** Rewrite every line of a token; `any` says whether there was one. */
  function RewriteAll(lines: seq<string>, token: string, data: string): (seq<string>, bool) {
    if lines == [] then ([], false)
    else
      var (rest, any) := RewriteAll(lines[1..], token, data);
      match Rewritten(token, data, lines[0])
      case None => ([lines[0]] + rest, any)
      case Some(l) => ([l] + rest, true)
  }

  function AppendedLine(token: string, data: string): string {
    token + " = " + data + "\n"
  }

  /** The file after a write: all lines of the token rewritten, or one line appended. */
  function Write(lines: seq<string>, token: string, data: string): seq<string> {
    if token == "" || data == "" then lines
    else
      var (out, any) := RewriteAll(lines, token, data);
      if any then out else out + [AppendedLine(token, data)]
  }

  /** The index-th value of a token in a file. */
  function Read(lines: seq<string>, token: string, index: int): Option<string> {
    if lines == [] || token == "" then None
    else
      match LineValue(token, lines[0])
      case None => Read(lines[1..], token, index)
      case Some(v) => if index == 1 then Some(v) else Read(lines[1..], token, index - 1)
  }

  /** set_token_data_file on the lines of a file. */
  method SetTokenDataFile(lines: seq<string>, token: string, data: string) returns (out: seq<string>)
    ensures out == Write(lines, token, data)
  {
    if token == "" || data == "" {
      return lines;
    }
    out := [];
    var any, i := false, 0;
    WholeFile(lines, token, data);
    while i < |lines|
      invariant 0 <= i <= |lines|
      invariant
        var (rest, more) := RewriteAll(lines[i..], token, data);
        RewriteAll(lines, token, data) == (out + rest, any || more)
    {
      RewriteStep(lines, i, token, data, out, any);
      var r := SetLine(token, data, lines[i]);
      if r.None? {
        out := out + [lines[i]];
      } else {
        out, any := out + [r.value], true;
      }
      i := i + 1;
    }
    ConcatNil(out);
    if !any {
      out := out + [AppendedLine(token, data)];
    }
  }

  lemma {:induction false} WholeFile(lines: seq<string>, token: string, data: string)
    ensures var (rest, more) := RewriteAll(lines[0..], token, data); RewriteAll(lines, token, data) == ([] + rest, more)
  {
    assert lines[0..] == lines;
    NilConcat(RewriteAll(lines, token, data).0);
  }

  lemma {:induction false} RewriteStep(lines: seq<string>, i: nat, token: string, data: string, out: seq<string>,
                                       any: bool)
    requires i < |lines|
    ensures
      var (rest, more) := RewriteAll(lines[i..], token, data);
      var (rest', more') := RewriteAll(lines[i + 1..], token, data);
      match Rewritten(token, data, lines[i])
      case None => out + rest == out + [lines[i]] + rest' && more == more'
      case Some(l) => out + rest == out + [l] + rest' && more
  {
    assert lines[i..][1..] == lines[i + 1..];
    var rest' := RewriteAll(lines[i + 1..], token, data).0;
    var l := match Rewritten(token, data, lines[i]) case None => lines[i] case Some(l) => l;
    ConcatAssoc(out, [l], rest');
  }

  /** get_token_data_file_indexed on the lines of a file. */
  method GetTokenDataFileIndexed(lines: seq<string>, token: string, index: int) returns (v: Option<string>)
    ensures v == Read(lines, token, index)
  {
    if token == "" {
      return None;
    }
    var found, rest := 0, lines;
    while rest != []
      invariant Read(lines, token, index) == Read(rest, token, index - found)
      decreases |rest|
    {
      v := GetTokenDataLine(token, rest[0]);
      if v.Some? {
        found := found + 1;
        if found == index {
          return;
        }
      }
      rest := rest[1..];
    }
    return None;
  }

  // ---------------------------------------------------------------- keys, values and lines

  /** A key character: no blank, separator, comment or section mark, or line break. */
  predicate KeyChar(c: char) {
    !IsBlank(c) && !IsEol(c) && c != '=' && c != '<' && c != '>' && c != ';' && c != '['
  }

  predicate KeyOk(k: string) {
    k != "" && forall i :: 0 <= i < |k| ==> KeyChar(k[i])
  }

  predicate OneLine(s: string) {
    forall i :: 0 <= i < |s| ==> s[i] != '\n'
  }

  /**
   A value that a line can carry: not empty, on one line, with no leading blank or quote and no carriage return at
   its end.
   */
  predicate ValueOk(v: string) {
    v != "" && OneLine(v) && !IsBlank(v[0]) && v[0] != '"' && v[|v| - 1] != '\r'
  }

  /** The same key, whatever the case. */
  predicate SameKey(a: string, b: string) {
    |a| == |b| && (a == "" || (Lower(a[0]) == Lower(b[0]) && SameKey(a[1..], b[1..])))
  }

  /** What follows the first word of a text. */
  function AfterWord(s: string): (r: string)
    ensures |r| <= |s|
  {
    if s == "" || !KeyChar(s[0]) then s else AfterWord(s[1..])
  }

  /** The sign that follows the first word of a text and its blanks. */
  function SignAfterWord(s: string): Option<char> {
    var v := Skip(AfterWord(s));
    if |AfterWord(s)| < |s| && (StartsWith(v, '=') || StartsWith(v, '>')) then Some(v[0]) else None
  }

  /** A line that is not in the XML form: no `<word =`, no `<word >` and no `word >`. */
  predicate PlainLine(l: string) {
    var s := Skip(l);
    if StartsWith(s, '<') then SignAfterWord(Skip(s[1..])) == None else SignAfterWord(s) != Some('>')
  }

  predicate LineOk(l: string) {
    l != "" && l[|l| - 1] == '\n' && PlainLine(l)
  }

  predicate FileOk(lines: seq<string>) {
    lines == [] || (LineOk(lines[0]) && FileOk(lines[1..]))
  }

  // ---------------------------------------------------------------- one line

  /** A text that starts with a key has the same end of its first word as what follows the key. */
  lemma {:induction false} TokenInWord(k: string, s: string)
    requires (forall i :: 0 <= i < |k| ==> KeyChar(k[i])) && AfterToken(k, s).Some?
    ensures AfterWord(s) == AfterWord(AfterToken(k, s).value)
    decreases |k|
  {
    if k != "" {
      assert KeyChar(k[0]) && KeyChar(s[0]);
      TokenInWord(k[1..], s[1..]);
    }
  }

  /** If a sign follows a key, the key is the first word and the sign is the one after it. */
  lemma {:induction false} SignIsAfterWord(k: string, s: string)
    requires KeyOk(k) && AfterToken(k, s).Some? && AfterSign(AfterToken(k, s).value).Some?
    ensures SignAfterWord(s) == Some(Skip(AfterToken(k, s).value)[0])
  {
    var t := AfterToken(k, s).value;
    TokenInWord(k, s);
    assert t != "" && !KeyChar(t[0]);
  }

  /** Reading a plain line: the data after the key, in the plain form. */
  lemma {:induction false} PlainRead(k: string, l: string)
    requires KeyOk(k) && PlainLine(l)
    ensures LineValue(k, l) ==
            match AfterKey(k, Skip(l)) case None => None case Some(rest) => DataValue(rest, false)
  {
    var w := FirstWord(l);
    assert KeyChar(k[0]);
    if AfterToken(k, w).Some? && AfterSign(AfterToken(k, w).value).Some? {
      SignIsAfterWord(k, w);
    }
  }

  /** The first word of a text, if it has one, is a key that the text starts with. */
  lemma {:induction false} WordIsKey(s: string)
    ensures var w := s[..|s| - |AfterWord(s)|];
            AfterToken(w, s) == Some(AfterWord(s)) && forall i :: 0 <= i < |w| ==> KeyChar(w[i])
    decreases |s|
  {
    if s != "" && KeyChar(s[0]) {
      var w := s[..|s| - |AfterWord(s)|];
      WordIsKey(s[1..]);
      assert w[1..] == s[1..][..|s[1..]| - |AfterWord(s[1..])|];
      assert forall i :: 1 <= i < |w| ==> w[i] == w[1..][i - 1];
    }
  }

  /** The reader sees the same data for a key as the writer. */
  ghost predicate ReadsAsWritten(k: string, l: string) {
    LineData(k, l) == match AfterKey(k, Skip(l)) case None => None case Some(rest) => Some((rest, false))
  }

  /** A line is plain if and only if, for every key, the reader and the writer agree on it. */
  lemma {:induction false} PlainIff(l: string)
    ensures PlainLine(l) <==> forall k :: KeyOk(k) ==> ReadsAsWritten(k, l)
  {
    var w := FirstWord(l);
    if PlainLine(l) {
      forall k | KeyOk(k) ensures ReadsAsWritten(k, l) {
        assert KeyChar(k[0]);
        if AfterToken(k, w).Some? && AfterSign(AfterToken(k, w).value).Some? {
          SignIsAfterWord(k, w);
        }
      }
    } else {
      var k := w[..|w| - |AfterWord(w)|];
      WordIsKey(w);
      assert KeyChar(k[0]) && KeyOk(k) && !ReadsAsWritten(k, l);
    }
  }

  /** Comments and section headers are plain, whatever they hold. */
  lemma {:induction false} CommentPlain(l: string)
    requires StartsWith(Skip(l), ';') || StartsWith(Skip(l), '[')
    ensures PlainLine(l)
  {
    assert !KeyChar(Skip(l)[0]);
  }

  /** A line for a key is plain. */
  lemma {:induction false} KeyLinePlain(k: string, l: string)
    requires KeyOk(k) && AfterKey(k, Skip(l)).Some?
    ensures PlainLine(l)
  {
    assert KeyChar(k[0]);
    SignIsAfterWord(k, Skip(l));
  }

  /** Writing a line: comments and sections never carry a key. */
  lemma {:induction false} PlainWrite(k: string, v: string, l: string)
    requires KeyOk(k)
    ensures Rewritten(k, v, l) ==
            match AfterKey(k, Skip(l)) case None => None case Some(rest) => Some(l[..|l| - |rest|] + v + "\n")
  {
    var s := Skip(l);
    if StartsWith(s, ';') || StartsWith(s, '[') {
      assert KeyChar(k[0]);
      assert AfterToken(k, s) == None;
    }
  }

  /** Two keys that both start a line are the same key. */
  lemma {:induction false} KeyUnique(a: string, b: string, s: string)
    requires (forall i :: 0 <= i < |a| ==> KeyChar(a[i])) && (forall i :: 0 <= i < |b| ==> KeyChar(b[i]))
    requires AfterKey(a, s).Some? && AfterKey(b, s).Some?
    ensures SameKey(a, b)
    decreases |a|
  {
    KeyAtSign(a, s);
    KeyAtSign(b, s);
    if a != "" && b != "" {
      KeyUnique(a[1..], b[1..], s[1..]);
    }
  }

  /** A text that goes on with the sign does not go on with a key. */
  lemma {:induction false} KeyAtSign(k: string, s: string)
    requires forall i :: 0 <= i < |k| ==> KeyChar(k[i])
    ensures k != "" && AfterKey("", s).Some? ==> AfterToken(k, s) == None
  {
    if k != "" {
      assert KeyChar(k[0]);
    }
  }

  /** The case of a key does not matter. */
  lemma {:induction false} KeyFold(a: string, b: string, s: string)
    requires SameKey(a, b)
    ensures AfterToken(a, s) == AfterToken(b, s)
    decreases |a|
  {
    if a != "" && s != "" {
      KeyFold(a[1..], b[1..], s[1..]);
    }
  }

  // ---------------------------------------------------------------- the rewritten line

  /** Blanks in front of a text do not matter. */
  lemma {:induction false} SkipPrefix(s: string, x: string)
    ensures Skip(s) == s[|s| - |Skip(s)|..]
    ensures Skip(s[..|s| - |Skip(s)|] + x) == Skip(x)
    decreases |s|
  {
    var n := |s| - |Skip(s)|;
    if s != "" && IsBlank(s[0]) {
      SkipPrefix(s[1..], x);
      DropFirst(s, n, x);
      SuffixOfRest(s, n);
    } else {
      NoPrefix(s, x);
    }
  }

  lemma {:induction false} DropFirst(s: string, n: nat, x: string)
    requires 1 <= n <= |s|
    ensures s[..n] + x != "" && (s[..n] + x)[0] == s[0] && (s[..n] + x)[1..] == s[1..][..n - 1] + x
  {
  }

  lemma {:induction false} SuffixOfRest(s: string, n: nat)
    requires 1 <= n <= |s|
    ensures s[1..][n - 1..] == s[n..]
  {
  }

  lemma {:induction false} NoPrefix(s: string, x: string)
    ensures s[..0] + x == x && s[0..] == s
  {
  }

  lemma {:induction false} TokenPrefix(k: string, s: string, x: string)
    requires AfterToken(k, s).Some?
    ensures s == s[..|k|] + AfterToken(k, s).value
    ensures AfterToken(k, s[..|k|] + x) == Some(x)
    decreases |k|
  {
    if k == "" {
      assert s[..0] + x == x;
    } else {
      TokenPrefix(k[1..], s[1..], x);
      assert (s[..|k|] + x)[1..] == s[1..][..|k| - 1] + x;
      assert s == [s[0]] + s[1..];
    }
  }

  /** A text that starts with a key character starts with itself once blanks are skipped. */
  lemma {:induction false} KeyNotBlank(k: string, s: string)
    requires KeyOk(k) && AfterToken(k, s).Some?
    ensures s != "" && !IsBlank(s[0]) && Skip(s) == s && s[0] != '<' && s[0] != ';' && s[0] != '['
  {
    assert KeyChar(k[0]);
  }

  /** A text whose first word is the sign: blanks, the sign, the rest. */
  lemma {:induction false} SignSplit(t: string)
    requires StartsWith(Skip(t), '=')
    ensures t == t[..|t| - |Skip(t)|] + ("=" + Skip(t)[1..])
  {
    SkipPrefix(t, "");
    assert Skip(t) == "=" + Skip(t)[1..];
    assert t == t[..|t| - |Skip(t)|] + t[|t| - |Skip(t)|..];
  }

  /** Whatever follows the sign can be exchanged. */
  lemma {:induction false} SignPrefix(t: string, u: string, x: string)
    requires StartsWith(Skip(t), '=') && u == Skip(t)[1..]
    ensures
      var y := t[..|t| - |Skip(t)|] + ("=" + (u[..|u| - |Skip(u)|] + x));
      StartsWith(Skip(y), '=') && Skip(Skip(y)[1..]) == Skip(x)
  {
    var z := u[..|u| - |Skip(u)|] + x;
    SkipPrefix(t, "=" + z);
    SkipPrefix(u, x);
    assert ("=" + z)[1..] == z;
  }

  /** Whatever follows the sign of a key line can be exchanged. */
  lemma {:induction false} KeyPrefix(k: string, s: string, x: string)
    requires AfterKey(k, s).Some?
    ensures
      var n := |s| - |AfterKey(k, s).value|;
      AfterKey(k, s[..n] + x) == Some(Skip(x))
  {
    var t := AfterToken(k, s).value;
    var u := Skip(t)[1..];
    var b2, b3 := t[..|t| - |Skip(t)|], u[..|u| - |Skip(u)|];
    SignSplit(t);
    SignPrefix(t, u, x);
    TokenPrefix(k, s, b2 + ("=" + (b3 + x)));
    PrefixParts(s, s[..|k|], t, b2, u, b3, x);
  }

  lemma {:induction false} PrefixParts(s: string, tk: string, t: string, b2: string, u: string, b3: string, x: string)
    requires s == tk + t && t == b2 + ("=" + u) && |b3| <= |u| && b3 == u[..|b3|]
    ensures s[..|s| - (|u| - |b3|)] + x == tk + (b2 + ("=" + (b3 + x)))
  {
    var n := |s| - (|u| - |b3|);
    assert s == tk + b2 + "=" + u;
    assert s[..n] == tk + b2 + "=" + b3;
  }

  /** After a write, the line is still one for the key, and what follows the sign is the new text. */
  lemma {:induction false} RewrittenKey(k: string, v: string, l: string)
    requires KeyOk(k) && AfterKey(k, Skip(l)).Some?
    ensures
      var l' := l[..|l| - |AfterKey(k, Skip(l)).value|] + v + "\n";
      AfterKey(k, Skip(l')) == Some(Skip(v + "\n")) && !StartsWith(Skip(l'), '<')
  {
    var s := Skip(l);
    var rest, x := AfterKey(k, s).value, v + "\n";
    var n := |s| - |rest|;
    SkipPrefix(l, s[..n] + x);
    SplitLine(l, s, n, v);
    KeyPrefix(k, s, x);
    KeyNotBlank(k, s[..n] + x);
  }

  /** A line cut inside its tail, with something put after it. */
  lemma {:induction false} SplitLine(l: string, s: string, n: nat, v: string)
    requires |s| <= |l| && s == l[|l| - |s|..] && n <= |s|
    ensures l[..|l| - (|s| - n)] + v + "\n" == l[..|l| - |s|] + (s[..n] + (v + "\n"))
  {
    var m := |l| - |s|;
    CutTail(l, m, n);
    ConcatAssoc(l[..m + n], v, "\n");
    ConcatAssoc(l[..m], s[..n], v + "\n");
  }

  lemma {:induction false} CutTail(l: string, m: nat, n: nat)
    requires m + n <= |l|
    ensures l[..m + n] == l[..m] + l[m..][..n]
  {
  }

  // ---------------------------------------------------------------- what a value reads back as

  lemma {:induction false} DataTextPlain(s: string)
    ensures DataText(s, false, false) == s
    decreases |s|
  {
    if s != "" {
      DataTextPlain(s[1..]);
      assert s == [s[0]] + s[1..];
    }
  }

  lemma {:induction false} DataTextLength(s: string, quoted: bool)
    ensures |DataText(s, quoted, false)| <= |s|
    ensures |DataText(s, quoted, false)| == |s| ==> DataText(s, quoted, false) == s
    decreases |s|
  {
    if s != "" {
      DataTextLength(s[1..], quoted);
      assert s == [s[0]] + s[1..];
    }
  }

  lemma {:induction false} StripEolLength(s: string)
    ensures |StripEol(s)| <= |s|
    decreases |s|
  {
    if s != "" {
      StripEolLength(s[..|s| - 1]);
    }
  }

  /** A line's data never includes its newline. */
  lemma {:induction false} DataShorter(s: string, quoted: bool)
    requires s != "" && s[|s| - 1] == '\n'
    ensures |StripEol(DataText(s, quoted, false))| < |s|
  {
    var d := DataText(s, quoted, false);
    DataTextLength(s, quoted);
    StripEolLength(d);
    if |d| == |s| {
      StripEolLength(d[..|d| - 1]);
    }
  }

  lemma {:induction false} SkipEnds(s: string)
    requires s != "" && s[|s| - 1] == '\n'
    ensures Skip(s) != "" && Skip(s)[|Skip(s)| - 1] == '\n'
    decreases |s|
  {
    if IsBlank(s[0]) {
      SkipEnds(s[1..]);
    }
  }

  /**
   A one-line value reads back as itself exactly when it starts with neither a blank nor a quote and does not end in a
   carriage return.
   */
  lemma {:induction false} ValueReads(v: string)
    requires v != "" && OneLine(v)
    ensures DataValue(Skip(v + "\n"), false) == Some(v) <==> ValueOk(v)
  {
    var s := v + "\n";
    if IsBlank(v[0]) || v[0] == '"' {
      SkipEnds(s);
      var t := Skip(s);
      if StartsWith(t, '"') {
        DataShorter(t[1..], true);
      } else {
        assert |t| <= |v|;
        DataShorter(t, false);
      }
    } else {
      DataTextPlain(s);
      StripLine(v);
    }
  }

  /** What is left of a line once its end is dropped. */
  lemma {:induction false} StripLine(v: string)
    requires v != "" && OneLine(v)
    ensures StripEol(v + "\n") == v <==> v[|v| - 1] != '\r'
  {
    var s := v + "\n";
    assert s[..|s| - 1] == v;
    assert StripEol(s) == StripEol(v);
    if v[|v| - 1] == '\r' {
      StripEolLength(v[..|v| - 1]);
    }
  }

  // ---------------------------------------------------------------- one write, every read

  /** What a rewritten line holds for any key. */
  lemma {:induction false} RewrittenReads(l: string, k: string, v: string, k2: string)
    requires LineOk(l) && KeyOk(k) && ValueOk(v) && KeyOk(k2) && AfterKey(k, Skip(l)).Some?
    ensures
      var l' := l[..|l| - |AfterKey(k, Skip(l)).value|] + v + "\n";
      && LineOk(l')
      && LineValue(k2, l') == (if SameKey(k, k2) then Some(v) else None)
      && (!SameKey(k, k2) ==> LineValue(k2, l) == None)
  {
    var l' := l[..|l| - |AfterKey(k, Skip(l)).value|] + v + "\n";
    RewrittenKey(k, v, l);
    KeyLinePlain(k, l');
    PlainRead(k2, l);
    PlainRead(k2, l');
    if SameKey(k, k2) {
      KeyFold(k, k2, Skip(l'));
      ValueReads(v);
    } else {
      OtherKey(k, k2, Skip(l));
      OtherKey(k, k2, Skip(l'));
    }
  }

  lemma {:induction false} OtherKey(k: string, k2: string, s: string)
    requires KeyOk(k) && KeyOk(k2) && !SameKey(k, k2) && AfterKey(k, s).Some?
    ensures AfterKey(k2, s) == None
  {
    if AfterKey(k2, s).Some? {
      KeyUnique(k, k2, s);
    }
  }

  /** A line that is not one for a key holds nothing for it. */
  lemma {:induction false} UntouchedReads(l: string, k: string, k2: string)
    requires LineOk(l) && KeyOk(k) && KeyOk(k2) && AfterKey(k, Skip(l)) == None && SameKey(k, k2)
    ensures LineValue(k2, l) == None
  {
    PlainRead(k2, l);
    KeyFold(k, k2, Skip(l));
  }

  /** The lines for a key. */
  function KeyLines(lines: seq<string>, k: string): nat {
    if lines == [] then 0 else KeyLines(lines[1..], k) + if AfterKey(k, Skip(lines[0])).Some? then 1 else 0
  }

  /** A line after the loop. */
  function NewLine(l: string, k: string, v: string): string {
    match AfterKey(k, Skip(l)) case None => l case Some(r) => l[..|l| - |r|] + v + "\n"
  }

  /** The loop on the first line and on the rest. */
  lemma {:induction false} RewriteFirst(lines: seq<string>, k: string, v: string, l': string, rest: seq<string>,
                                        any: bool)
    requires lines != [] && KeyOk(k) && RewriteAll(lines[1..], k, v) == (rest, any)
    requires l' == NewLine(lines[0], k, v)
    ensures RewriteAll(lines, k, v) == ([l'] + rest, any || AfterKey(k, Skip(lines[0])).Some?)
    ensures ([l'] + rest)[0] == l' && ([l'] + rest)[1..] == rest
  {
    PlainWrite(k, v, lines[0]);
  }

  /** After the loop, other keys read as before at every index. */
  lemma {:induction false} OthersRead(lines: seq<string>, k: string, v: string, k2: string, index: int)
    requires FileOk(lines) && KeyOk(k) && ValueOk(v) && KeyOk(k2) && !SameKey(k, k2)
    ensures Read(RewriteAll(lines, k, v).0, k2, index) == Read(lines, k2, index)
    decreases |lines|
  {
    if lines != [] {
      var l := lines[0];
      var (rest, any) := RewriteAll(lines[1..], k, v);
      var l' := NewLine(l, k, v);
      OthersRead(lines[1..], k, v, k2, index);
      OthersRead(lines[1..], k, v, k2, index - 1);
      RewriteFirst(lines, k, v, l', rest, any);
      FirstLineOther(l, k, v, l', k2);
      ReadFirst(l', rest, k2, index, LineValue(k2, l));
      ReadFirst(l, lines[1..], k2, index, LineValue(k2, l));
      assert lines == [l] + lines[1..];
    }
  }

  /** What the first line holds for another key after the loop. */
  lemma {:induction false} FirstLineOther(l: string, k: string, v: string, l': string, k2: string)
    requires LineOk(l) && KeyOk(k) && ValueOk(v) && KeyOk(k2) && !SameKey(k, k2) && l' == NewLine(l, k, v)
    ensures LineValue(k2, l') == LineValue(k2, l)
  {
    if AfterKey(k, Skip(l)).Some? {
      RewrittenReads(l, k, v, k2);
    }
  }

  /** The key reads as the new value, once for each of its lines. */
  lemma {:induction false} KeyReads(lines: seq<string>, k: string, v: string, k2: string, index: int)
    requires FileOk(lines) && KeyOk(k) && ValueOk(v) && KeyOk(k2) && SameKey(k, k2)
    ensures Read(RewriteAll(lines, k, v).0, k2, index) == if 1 <= index <= KeyLines(lines, k) then Some(v) else None
    decreases |lines|
  {
    if lines != [] {
      var l := lines[0];
      var (rest, any) := RewriteAll(lines[1..], k, v);
      var l' := NewLine(l, k, v);
      KeyReads(lines[1..], k, v, k2, index);
      KeyReads(lines[1..], k, v, k2, index - 1);
      RewriteFirst(lines, k, v, l', rest, any);
      FirstLineReads(l, k, v, l', k2);
      ReadFirst(l', rest, k2, index, if AfterKey(k, Skip(l)).Some? then Some(v) else None);
    }
  }

  /** What the first line holds for the key after the loop. */
  lemma {:induction false} FirstLineReads(l: string, k: string, v: string, l': string, k2: string)
    requires LineOk(l) && KeyOk(k) && ValueOk(v) && KeyOk(k2) && SameKey(k, k2)
    requires l' == NewLine(l, k, v)
    ensures LineValue(k2, l') == if AfterKey(k, Skip(l)).Some? then Some(v) else None
  {
    if AfterKey(k, Skip(l)).Some? {
      RewrittenReads(l, k, v, k2);
    } else {
      UntouchedReads(l, k, k2);
    }
  }

  lemma {:induction false} ReadFirst(l: string, rest: seq<string>, k: string, index: int, v: Option<string>)
    requires k != "" && LineValue(k, l) == v
    ensures Read([l] + rest, k, index) ==
            if v.None? then Read(rest, k, index) else if index == 1 then v else Read(rest, k, index - 1)
  {
    assert ([l] + rest)[1..] == rest;
  }

  /** The file stays well-formed, and some line was rewritten exactly if there is one for the key. */
  lemma {:induction false} RewriteKeepsForm(lines: seq<string>, k: string, v: string)
    requires FileOk(lines) && KeyOk(k) && ValueOk(v)
    ensures var (out, any) := RewriteAll(lines, k, v); FileOk(out) && (any <==> KeyLines(lines, k) > 0)
    decreases |lines|
  {
    if lines != [] {
      var l := lines[0];
      var (rest, any) := RewriteAll(lines[1..], k, v);
      var l' := NewLine(l, k, v);
      RewriteKeepsForm(lines[1..], k, v);
      RewriteFirst(lines, k, v, l', rest, any);
      if AfterKey(k, Skip(l)).Some? {
        RewrittenReads(l, k, v, k);
      }
    }
  }

  /**
   After the loop: other keys read as before, at every index; the key reads as the new value, once for each of
   its lines.
   */
  lemma {:induction false} RewriteAllReads(lines: seq<string>, k: string, v: string, k2: string, index: int)
    requires FileOk(lines) && KeyOk(k) && ValueOk(v) && KeyOk(k2)
    ensures
      var (out, any) := RewriteAll(lines, k, v);
      && FileOk(out)
      && (any <==> KeyLines(lines, k) > 0)
      && (!SameKey(k, k2) ==> Read(out, k2, index) == Read(lines, k2, index))
      && (SameKey(k, k2) ==> Read(out, k2, index) == if 1 <= index <= KeyLines(lines, k) then Some(v) else None)
  {
    RewriteKeepsForm(lines, k, v);
    if SameKey(k, k2) {
      KeyReads(lines, k, v, k2, index);
    } else {
      OthersRead(lines, k, v, k2, index);
    }
  }

  /** The appended line holds the value for the key and nothing for any other. */
  lemma {:induction false} AppendedReads(k: string, v: string, k2: string)
    requires KeyOk(k) && ValueOk(v) && KeyOk(k2)
    ensures LineOk(AppendedLine(k, v))
    ensures LineValue(k2, AppendedLine(k, v)) == if SameKey(k, k2) then Some(v) else None
  {
    // The appended line is the rewriting of "token =" with a blank and a line break.
    var l := k + " = " + "\n";
    assert k + (" = " + "\n") == l;
    AppendedParts(k, "\n");
    RewrittenReads(l, k, v, k2);
  }

  lemma {:induction false} AppendedParts(k: string, x: string)
    requires KeyOk(k) && x == "\n"
    ensures
      var l := k + " = " + x;
      LineOk(l) && AfterKey(k, Skip(l)) == Some(x)
  {
    var l := k + " = " + x;
    var r := " = " + x;
    assert l == k + r;
    assert KeyChar(k[0]);
    TokenItself(k, r);
    assert r[1..] == "= " + x && Skip(r) == "= " + x;
    assert ("= " + x)[1..] == " " + x && (" " + x)[1..] == x;
    assert Skip(" " + x) == x;
    KeyLinePlain(k, l);
  }

  lemma {:induction false} TokenItself(k: string, x: string)
    ensures AfterToken(k, k + x) == Some(x)
    decreases |k|
  {
    if k == "" {
      assert k + x == x;
    } else {
      assert (k + x)[1..] == k[1..] + x;
      TokenItself(k[1..], x);
    }
  }

  lemma {:induction false} ReadAppend(lines: seq<string>, l: string, k: string, index: int)
    requires FileOk(lines) && LineOk(l) && k != ""
    ensures FileOk(lines + [l])
    ensures LineValue(k, l) == None ==> Read(lines + [l], k, index) == Read(lines, k, index)
    ensures Read(lines, k, 1) == None && LineValue(k, l).Some? ==>
              Read(lines + [l], k, index) == if index == 1 then LineValue(k, l) else None
    decreases |lines|
  {
    if lines == [] {
      assert lines + [l] == [l] && [l][1..] == [];
    } else {
      assert (lines + [l])[1..] == lines[1..] + [l];
      ReadAppend(lines[1..], l, k, index);
      ReadAppend(lines[1..], l, k, index - 1);
    }
  }

  /**
   A write is an update of a case-insensitive map: the key then reads as the new
   value, once for each line it had and at least once, every other key reads as before, at every
   index, and the file stays well-formed.
   */
  lemma {:induction false} WriteThenRead(lines: seq<string>, k: string, v: string, k2: string, index: int)
    requires FileOk(lines) && KeyOk(k) && ValueOk(v) && KeyOk(k2)
    ensures FileOk(Write(lines, k, v))
    ensures SameKey(k, k2) ==>
              Read(Write(lines, k, v), k2, index) ==
              if index == 1 || 1 <= index <= KeyLines(lines, k) then Some(v) else None
    ensures !SameKey(k, k2) ==> Read(Write(lines, k, v), k2, index) == Read(lines, k2, index)
  {
    var (out, any) := RewriteAll(lines, k, v);
    RewriteAllReads(lines, k, v, k2, index);
    RewriteAllReads(lines, k, v, k2, 1);
    if !any {
      AppendedReads(k, v, k2);
      ReadAppend(out, AppendedLine(k, v), k2, index);
    }
  }

  lemma {:induction false} KeyLinesFold(lines: seq<string>, a: string, b: string)
    requires SameKey(a, b)
    ensures KeyLines(lines, a) == KeyLines(lines, b)
    decreases |lines|
  {
    if lines != [] {
      KeyLinesFold(lines[1..], a, b);
      KeyFold(a, b, Skip(lines[0]));
    }
  }

  /** Rewriting lines leaves every key with as many lines as it had. */
  lemma {:induction false} KeyLinesRewritten(lines: seq<string>, k: string, v: string, k2: string)
    requires FileOk(lines) && KeyOk(k) && ValueOk(v) && KeyOk(k2)
    ensures KeyLines(RewriteAll(lines, k, v).0, k2) == KeyLines(lines, k2)
    decreases |lines|
  {
    if lines != [] {
      var l := lines[0];
      var (rest, more) := RewriteAll(lines[1..], k, v);
      var l' := NewLine(l, k, v);
      KeyLinesRewritten(lines[1..], k, v, k2);
      RewriteFirst(lines, k, v, l', rest, more);
      if AfterKey(k, Skip(l)).Some? {
        RewrittenLineKeys(l, k, v, k2);
      }
    }
  }

  lemma {:induction false} RewrittenLineKeys(l: string, k: string, v: string, k2: string)
    requires KeyOk(k) && KeyOk(k2) && AfterKey(k, Skip(l)).Some?
    ensures var l' := l[..|l| - |AfterKey(k, Skip(l)).value|] + v + "\n";
            AfterKey(k2, Skip(l')).Some? <==> AfterKey(k2, Skip(l)).Some?
  {
    var l' := l[..|l| - |AfterKey(k, Skip(l)).value|] + v + "\n";
    RewrittenKey(k, v, l);
    if SameKey(k, k2) {
      KeyFold(k, k2, Skip(l));
      KeyFold(k, k2, Skip(l'));
    } else {
      OtherKey(k, k2, Skip(l));
      OtherKey(k, k2, Skip(l'));
    }
  }

  lemma {:induction false} KeyLinesAppend(lines: seq<string>, l: string, k: string)
    ensures KeyLines(lines + [l], k) == KeyLines(lines, k) + if AfterKey(k, Skip(l)).Some? then 1 else 0
    decreases |lines|
  {
    if lines == [] {
      assert lines + [l] == [l] && [l][1..] == [];
    } else {
      assert (lines + [l])[1..] == lines[1..] + [l];
      KeyLinesAppend(lines[1..], l, k);
    }
  }

  function AtLeastOne(n: nat): nat {
    if n == 0 then 1 else n
  }

  /** A write gives its key a line if it had none, and no other key gains or loses one. */
  lemma {:induction false} KeyLinesWritten(lines: seq<string>, k: string, v: string, k2: string)
    requires FileOk(lines) && KeyOk(k) && ValueOk(v) && KeyOk(k2)
    ensures KeyLines(Write(lines, k, v), k2) ==
            if SameKey(k, k2) then AtLeastOne(KeyLines(lines, k2)) else KeyLines(lines, k2)
  {
    var (out, any) := RewriteAll(lines, k, v);
    KeyLinesRewritten(lines, k, v, k2);
    RewriteAllReads(lines, k, v, k2, 1);
    if !any {
      var l := AppendedLine(k, v);
      KeyLinesAppend(out, l, k2);
      AppendedKey(k, v, k2);
    }
    if SameKey(k, k2) {
      KeyLinesFold(lines, k, k2);
    }
  }

  lemma {:induction false} AppendedKey(k: string, v: string, k2: string)
    requires KeyOk(k) && ValueOk(v) && KeyOk(k2)
    ensures AfterKey(k2, Skip(AppendedLine(k, v))).Some? <==> SameKey(k, k2)
  {
    var l := k + " = " + "\n";
    AppendedParts(k, "\n");
    assert l[..|l| - 1] + v + "\n" == AppendedLine(k, v);
    RewrittenLineKeys(l, k, v, k2);
    if SameKey(k, k2) {
      KeyFold(k, k2, Skip(l));
    } else {
      OtherKey(k, k2, Skip(l));
    }
  }

  // ---------------------------------------------------------------- runs

  /** The file after a run of writes. */
  function WriteRun(lines: seq<string>, writes: seq<(string, string)>): seq<string> {
    if writes == [] then lines
    else Write(WriteRun(lines, writes[..|writes| - 1]), writes[|writes| - 1].0, writes[|writes| - 1].1)
  }

  /** The last value a run writes for a key. */
  function LastWritten(writes: seq<(string, string)>, k: string): Option<string> {
    if writes == [] then None
    else
      var (key, value) := writes[|writes| - 1];
      if SameKey(key, k) then Some(value) else LastWritten(writes[..|writes| - 1], k)
  }

  predicate WritesOk(writes: seq<(string, string)>) {
    || writes == []
    || (KeyOk(writes[|writes| - 1].0) && ValueOk(writes[|writes| - 1].1) && WritesOk(writes[..|writes| - 1]))
  }

  /** Every run of writes refines a case-insensitive map, at every index. */
  lemma {:induction false} RunRefinesMap(lines: seq<string>, writes: seq<(string, string)>, k: string, index: int)
    requires FileOk(lines) && WritesOk(writes) && KeyOk(k)
    ensures FileOk(WriteRun(lines, writes))
    ensures KeyLines(WriteRun(lines, writes), k) ==
            if LastWritten(writes, k).Some? then AtLeastOne(KeyLines(lines, k)) else KeyLines(lines, k)
    ensures Read(WriteRun(lines, writes), k, index) ==
            match LastWritten(writes, k)
            case None => Read(lines, k, index)
            case Some(v) => if 1 <= index <= AtLeastOne(KeyLines(lines, k)) then Some(v) else None
    decreases |writes|
  {
    if writes != [] {
      var init := writes[..|writes| - 1];
      var (key, value) := writes[|writes| - 1];
      var before := WriteRun(lines, init);
      RunRefinesMap(lines, init, k, index);
      WriteThenRead(before, key, value, k, index);
      KeyLinesWritten(before, key, value, k);
      if SameKey(key, k) {
        KeyLinesFold(before, key, k);
      }
    }
  }
}
