/**
 The key/value text files of src/parser.c: lines of the form `token = data`,
 read and rewritten line by line. A file is the sequence of its lines, each with
 its newline.
 */
module TokenFile {
  import opened Common

  // ---------------------------------------------------------------- scanning

  predicate IsBlank(c: char) { c == ' ' || c == '\t' }

  predicate IsEol(c: char) { c == '\r' || c == '\n' }

  /** Case folding, as far as ASCII letters go. */
  function Lower(c: char): char {
    if 'A' <= c <= 'Z' then (c as int + 32) as char else c
  }

  /** What follows the leading blanks. */
  function Skip(s: string): (r: string)
    ensures |r| <= |s|
  {
    if s != "" && IsBlank(s[0]) then Skip(s[1..]) else s
  }

  /** What follows the token, if the text starts with it whatever the case. */
  function AfterToken(token: string, s: string): (r: Option<string>)
    ensures r.Some? ==> |r.value| + |token| == |s|
  {
    if token == "" then Some(s)
    else if s == "" || Lower(s[0]) != Lower(token[0]) then None
    else AfterToken(token[1..], s[1..])
  }

  predicate StartsWith(s: string, c: char) {
    s != "" && s[0] == c
  }

  /** What follows `token = `, with any blanks around the sign. */
  function AfterKey(token: string, s: string): (r: Option<string>)
    ensures r.Some? ==> |r.value| <= |s|
  {
    match AfterToken(token, s)
    case None => None
    case Some(t) => if StartsWith(Skip(t), '=') then Some(Skip(Skip(t)[1..])) else None
  }

  // ---------------------------------------------------------------- reading a line

  function StripEol(s: string): string {
    if s != "" && IsEol(s[|s| - 1]) then StripEol(s[..|s| - 1]) else s
  }

  /** The data text: up to a closing quote if it was quoted, up to '<' in the XML form. */
  function DataText(s: string, quoted: bool, xml: bool): string {
    if s == "" || (s[0] == '"' && quoted) || (s[0] == '<' && xml) then ""
    else [s[0]] + DataText(s[1..], quoted, xml)
  }

  function DataValue(s: string, xml: bool): Option<string> {
    var quoted := StartsWith(s, '"');
    var d := StripEol(DataText(if quoted then s[1..] else s, quoted, xml));
    if d == "" then None else Some(d)
  }

  /** A line from its first word on, after blanks and an opening '<'. */
  function FirstWord(line: string): string {
    var s := Skip(line);
    if StartsWith(s, '<') then Skip(s[1..]) else s
  }

  /** What follows the sign after a token, and whether it is the XML one. */
  function AfterSign(s: string): Option<(string, bool)> {
    var v := Skip(s);
    if StartsWith(v, '>') || StartsWith(v, '=') then Some((Skip(v[1..]), v[0] == '>')) else None
  }

  /** Where the data of a line for a token starts, and whether the line is in the XML form. */
  function LineData(token: string, line: string): Option<(string, bool)> {
    match AfterToken(token, FirstWord(line))
    case None => None
    case Some(u) => AfterSign(u)
  }

  /** The data a line holds for a token, in either form. */
  function LineValue(token: string, line: string): Option<string> {
    match LineData(token, line)
    case None => None
    case Some((rest, xml)) => DataValue(rest, xml)
  }

  lemma {:induction false} SkipAt(s: string, i: nat)
    requires i <= |s|
    ensures Skip(s[i..]) == if i < |s| && IsBlank(s[i]) then Skip(s[i + 1..]) else s[i..]
  {
    if i < |s| {
      assert s[i..][1..] == s[i + 1..];
    }
  }

  /** wcsspn: move past blanks. */
  method SkipBlanks(s: string, i: nat) returns (j: nat)
    requires i <= |s|
    ensures i <= j <= |s| && s[j..] == Skip(s[i..])
  {
    j := i;
    while j < |s| && IsBlank(s[j])
      invariant i <= j <= |s| && Skip(s[i..]) == Skip(s[j..])
    {
      SkipAt(s, j);
      j := j + 1;
    }
    SkipAt(s, j);
  }

  /** _wcsnicmp against a token at a position. */
  method MatchToken(token: string, s: string, i: nat) returns (ok: bool)
    requires i <= |s|
    ensures ok == AfterToken(token, s[i..]).Some?
    ensures ok ==> i + |token| <= |s| && AfterToken(token, s[i..]) == Some(s[i + |token|..])
  {
    var k := 0;
    TokenWhole(token, s, i);
    while k < |token|
      invariant 0 <= k <= |token| && i + k <= |s|
      invariant AfterToken(token, s[i..]) == AfterToken(token[k..], s[i + k..])
    {
      TokenStep(token, s, i, k);
      if i + k == |s| || Lower(s[i + k]) != Lower(token[k]) {
        return false;
      }
      k := k + 1;
    }
    return true;
  }

  lemma {:induction false} TokenWhole(token: string, s: string, i: nat)
    requires i <= |s|
    ensures AfterToken(token, s[i..]) == AfterToken(token[0..], s[i + 0..])
  {
    assert token[0..] == token;
  }

  lemma {:induction false} TokenStep(token: string, s: string, i: nat, k: nat)
    requires k < |token| && i + k <= |s|
    ensures AfterToken(token[k..], s[i + k..]) ==
            if i + k == |s| || Lower(s[i + k]) != Lower(token[k]) then None
            else AfterToken(token[k + 1..], s[i + k + 1..])
  {
    assert token[k..][1..] == token[k + 1..];
    if i + k < |s| {
      assert s[i + k..][1..] == s[i + k + 1..];
    }
  }

  /** The loop that finds the end of the data that starts at r. */
  method FindEnd(line: string, r: nat, quoted: bool, xml: bool) returns (i: nat)
    requires r <= |line|
    ensures r <= i <= |line| && line[r..i] == DataText(line[r..], quoted, xml)
  {
    i := r;
    DataStart(line, r, quoted, xml);
    while i < |line| && ((line[i] != '"' && line[i] != '<') || (line[i] == '"' && !quoted) || (line[i] == '<' && !xml))
      invariant r <= i <= |line|
      invariant DataText(line[r..], quoted, xml) == line[r..i] + DataText(line[i..], quoted, xml)
    {
      DataStep(line, r, i, quoted, xml);
      i := i + 1;
    }
    DataEnd(line, r, i, quoted, xml);
  }

  lemma {:induction false} DataStart(line: string, r: nat, quoted: bool, xml: bool)
    requires r <= |line|
    ensures line[r..r] + DataText(line[r..], quoted, xml) == DataText(line[r..], quoted, xml)
  {
    assert line[r..r] == [];
    NilConcat(DataText(line[r..], quoted, xml));
  }

  lemma {:induction false} DataEnd(line: string, r: nat, i: nat, quoted: bool, xml: bool)
    requires r <= i <= |line| && (i == |line| || (line[i] == '"' && quoted) || (line[i] == '<' && xml))
    ensures line[r..i] + DataText(line[i..], quoted, xml) == line[r..i]
  {
    ConcatNil(line[r..i]);
  }

  lemma {:induction false} DataStep(line: string, r: nat, i: nat, quoted: bool, xml: bool)
    requires r <= i < |line| && !(line[i] == '"' && quoted) && !(line[i] == '<' && xml)
    ensures line[r..i] + DataText(line[i..], quoted, xml) == line[r..i + 1] + DataText(line[i + 1..], quoted, xml)
  {
    DataFirst(line, i, quoted, xml);
    SliceMore(line, r, i);
    ConcatAssoc(line[r..i], [line[i]], DataText(line[i + 1..], quoted, xml));
  }

  lemma {:induction false} DataFirst(line: string, i: nat, quoted: bool, xml: bool)
    requires i < |line| && !(line[i] == '"' && quoted) && !(line[i] == '<' && xml)
    ensures DataText(line[i..], quoted, xml) == [line[i]] + DataText(line[i + 1..], quoted, xml)
  {
    DropAt(line, i);
  }

  lemma {:induction false} SliceMore(s: string, r: nat, i: nat)
    requires r <= i < |s|
    ensures s[r..i + 1] == s[r..i] + [s[i]]
  {
  }

  /** The loop that drops end-of-line characters. */
  method TrimEol(s: string) returns (d: string)
    ensures d == StripEol(s)
  {
    d := s;
    while d != "" && IsEol(d[|d| - 1])
      invariant StripEol(s) == StripEol(d)
      decreases |d|
    {
      d := d[..|d| - 1];
    }
  }

  lemma {:induction false} WholeLine(line: string)
    ensures Skip(line[0..]) == Skip(line)
  {
    assert line[0..] == line;
  }

  method SkipLeading(line: string) returns (i: nat)
    ensures i <= |line| && line[i..] == Skip(line)
  {
    WholeLine(line);
    i := SkipBlanks(line, 0);
  }

  method FindFirstWord(line: string) returns (i: nat)
    ensures i <= |line| && line[i..] == FirstWord(line)
  {
    i := SkipLeading(line);
    if i < |line| && line[i] == '<' {
      DropAt(line, i);
      i := SkipBlanks(line, i + 1);
    }
  }

  method PassSign(line: string, from: nat) returns (found: bool, i: nat, xml: bool)
    requires from <= |line|
    ensures found == AfterSign(line[from..]).Some?
    ensures found ==> i <= |line| && AfterSign(line[from..]) == Some((line[i..], xml))
  {
    i := SkipBlanks(line, from);
    found := i < |line| && (line[i] == '>' || line[i] == '=');
    xml := found && line[i] == '>';
    if found {
      DropAt(line, i);
      i := SkipBlanks(line, i + 1);
    }
  }

  /** The first part of get_token_data_line: move to the data of the token. */
  method FindData(token: string, line: string) returns (found: bool, i: nat, xml: bool)
    ensures found == LineData(token, line).Some?
    ensures found ==> i <= |line| && LineData(token, line) == Some((line[i..], xml))
  {
    xml := false;
    i := FindFirstWord(line);
    found := MatchToken(token, line, i);
    if found {
      found, i, xml := PassSign(line, i + |token|);
    }
  }

  lemma {:induction false} DropAt(s: string, i: nat)
    requires i < |s|
    ensures s[i..][1..] == s[i + 1..] && s[i..][0] == s[i]
  {
  }

  /** get_token_data_line */
  method GetTokenDataLine(token: string, line: string) returns (v: Option<string>)
    ensures v == LineValue(token, line)
  {
    var found, r, xml := FindData(token, line);
    if !found {
      return None;
    }
    var quoted := r < |line| && line[r] == '"';
    if quoted {
      DropAt(line, r);
      r := r + 1;
    }
    var end := FindEnd(line, r, quoted, xml);
    var d := TrimEol(line[r..end]);
    return if d == "" then None else Some(d);
  }

  // ---------------------------------------------------------------- rewriting a line

  /** The rewritten line, if the line is one for the token. */
  function Rewritten(token: string, data: string, line: string): Option<string> {
    var s := Skip(line);
    if StartsWith(s, ';') || StartsWith(s, '[') then None
    else
      match AfterKey(token, s)
      case None => None
      case Some(rest) => Some(line[..|line| - |rest|] + data + "\n")
  }

  /** The token, the sign and the blanks around it, from a position on. */
  method FindKey(token: string, line: string, i: nat) returns (found: bool, j: nat)
    requires i <= |line|
    ensures found == AfterKey(token, line[i..]).Some?
    ensures found ==> j <= |line| && AfterKey(token, line[i..]) == Some(line[j..])
  {
    j := i;
    found := MatchToken(token, line, i);
    if !found {
      return;
    }
    j := SkipBlanks(line, i + |token|);
    if j == |line| || line[j] != '=' {
      return false, j;
    }
    DropAt(line, j);
    j := SkipBlanks(line, j + 1);
  }

  /** The body of the loop of set_token_data_file. */
  method SetLine(token: string, data: string, line: string) returns (r: Option<string>)
    ensures r == Rewritten(token, data, line)
  {
    var i := SkipLeading(line);
    if i < |line| && (line[i] == ';' || line[i] == '[') {
      return None;
    }
    var found, j := FindKey(token, line, i);
    return if found then Some(line[..j] + data + "\n") else None;
  }
}
