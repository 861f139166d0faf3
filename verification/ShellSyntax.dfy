/** The grammar of sh.c as functions of the text s and a position in it. A token is the
    pair of pointers (q, eq) that gettoken sets; panic("...") is a failure. */
module ShellSyntax {

  const MAXARGS: nat := 10
  const O_RDONLY: nat := 0
  const O_WRONLY_CREATE: nat := 0x201

  function At(s: string, i: nat): char {
    if i < |s| then s[i] else '\0'
  }

  /** The text is a C string: its only NUL is the terminator at |s|. */
  ghost predicate IsCString(s: string) { '\0' !in s }

  predicate IsSpace(c: char) { c == ' ' || c == '\t' || c == '\r' || c == '\n' || c == 11 as char }
  predicate IsSymbol(c: char) { c == '<' || c == '|' || c == '>' || c == '&' || c == ';' || c == '(' || c == ')' }
  predicate IsWordChar(c: char) { !IsSpace(c) && !IsSymbol(c) && c != '\0' }

  // ------------------------------------------------------------------ tokens

  function SkipSpace(s: string, i: nat): (j: nat)
    requires i <= |s|
    ensures i <= j <= |s| && (j < |s| ==> !IsSpace(s[j]))
    decreases |s| - i
  {
    if i < |s| && IsSpace(s[i]) then SkipSpace(s, i + 1) else i
  }

  function WordEnd(s: string, i: nat): (j: nat)
    requires i <= |s|
    ensures i <= j <= |s|
    decreases |s| - i
  {
    if i < |s| && !IsSpace(s[i]) && !IsSymbol(s[i]) then WordEnd(s, i + 1) else i
  }

  datatype Token = Token(ret: char, q: nat, eq: nat, next: nat)

  /** gettoken: '\\0' at the end, 'a' for a word, '+' for ">>", else the symbol itself. */
  function GetToken(s: string, i: nat): (t: Token)
    requires i <= |s|
    ensures i <= t.q <= t.eq <= t.next <= |s|
  {
    var q := SkipSpace(s, i);
    var c := At(s, q);
    if c == '\0' then Token('\0', q, q, SkipSpace(s, q))
    else if c == '>' && At(s, q + 1) == '>' then Token('+', q, q + 2, SkipSpace(s, q + 2))
    else if IsSymbol(c) then Token(c, q, q + 1, SkipSpace(s, q + 1))
    else Token('a', q, WordEnd(s, q), SkipSpace(s, WordEnd(s, q)))
  }

  /** Every token but the end has at least one character. */
  lemma TokenAdvances(s: string, i: nat)
    requires i <= |s| && IsCString(s)
    ensures GetToken(s, i).ret != '\0' ==> GetToken(s, i).next > i
    ensures GetToken(s, i).ret == '\0' <==> SkipSpace(s, i) == |s|
  {
  }

  /** peek: the next character that is not a space is one of toks. */
  predicate Peek(s: string, i: nat, toks: string)
    requires i <= |s|
  {
    var c := At(s, SkipSpace(s, i));
    c != '\0' && c in toks
  }

  // ---------------------------------------------------------------- commands

  datatype Word = Word(q: nat, eq: nat)
  datatype Redirection<W> = Redirection(file: W, mode: nat, fd: nat)

  /** struct cmd, over tokens as the parser builds it or over their texts. */
  datatype Cmd<W> =
    | Exec(argv: seq<W>)
    | Redir(cmd: Cmd<W>, file: W, mode: nat, fd: nat)
    | Pipe(left: Cmd<W>, right: Cmd<W>)
    | List(left: Cmd<W>, right: Cmd<W>)
    | Back(cmd: Cmd<W>)

  datatype Result<T> = Ok(value: T, pos: nat) | Panic(why: string)

  /** redircmd around cmd, once for each redirection in order. */
  function Wrap<W>(cmd: Cmd<W>, rs: seq<Redirection<W>>): Cmd<W> {
    if rs == [] then cmd
    else
      var r := rs[|rs| - 1];
      Redir(Wrap(cmd, rs[..|rs| - 1]), r.file, r.mode, r.fd)
  }

  function RedirectionOf(tok: char, q: nat, eq: nat): Redirection<Word> {
    if tok == '<' then Redirection(Word(q, eq), O_RDONLY, 0) else Redirection(Word(q, eq), O_WRONLY_CREATE, 1)
  }

  /** The loop of parseredirs, with the redirections read so far. */
  function Redirs(s: string, i: nat, rs: seq<Redirection<Word>>): (r: Result<seq<Redirection<Word>>>)
    requires i <= |s|
    ensures r.Ok? ==> i <= r.pos <= |s|
    decreases |s| - i
  {
    if !Peek(s, i, "<>") then Ok(rs, SkipSpace(s, i))
    else
      var t := GetToken(s, i);
      var f := GetToken(s, t.next);
      if f.ret != 'a' then Panic("missing file for redirection")
      else Redirs(s, f.next, rs + [RedirectionOf(t.ret, f.q, f.eq)])
  }

  datatype Simple = Simple(argv: seq<Word>, rs: seq<Redirection<Word>>)

  /** The loop of parseexec, with the arguments and redirections read so far. */
  function Args(s: string, i: nat, argv: seq<Word>, rs: seq<Redirection<Word>>): (r: Result<Simple>)
    requires i <= |s| && IsCString(s)
    ensures r.Ok? ==> i <= r.pos <= |s| && (|argv| < MAXARGS ==> |r.value.argv| < MAXARGS)
    decreases |s| - i
  {
    TokenAdvances(s, i);
    if Peek(s, i, "|)&;") then Ok(Simple(argv, rs), SkipSpace(s, i))
    else
      var t := GetToken(s, i);
      if t.ret == '\0' then Ok(Simple(argv, rs), t.next)
      else if t.ret != 'a' then Panic("syntax")
      else if |argv| + 1 >= MAXARGS then Panic("too many args")
      else
        var more := Redirs(s, t.next, rs);
        if more.Panic? then Panic(more.why)
        else Args(s, more.pos, argv + [Word(t.q, t.eq)], more.value)
  }

  function ParseExec(s: string, i: nat): (r: Result<Cmd<Word>>)
    requires i <= |s| && IsCString(s)
    ensures r.Ok? ==> i <= r.pos <= |s|
    decreases |s| - i, 1
  {
    if Peek(s, i, "(") then ParseBlock(s, i)
    else
      var rs := Redirs(s, i, []);
      if rs.Panic? then Panic(rs.why)
      else
        var a := Args(s, rs.pos, [], rs.value);
        if a.Panic? then Panic(a.why) else Ok(Wrap(Exec(a.value.argv), a.value.rs), a.pos)
  }

  function ParseBlock(s: string, i: nat): (r: Result<Cmd<Word>>)
    requires i <= |s| && IsCString(s) && Peek(s, i, "(")
    ensures r.Ok? ==> i <= r.pos <= |s|
    decreases |s| - i, 0
  {
    TokenAdvances(s, i);
    var body := ParseLine(s, GetToken(s, i).next);
    if body.Panic? then body
    else if !Peek(s, body.pos, ")") then Panic("syntax - missing )")
    else
      var rs := Redirs(s, GetToken(s, body.pos).next, []);
      if rs.Panic? then Panic(rs.why) else Ok(Wrap(body.value, rs.value), rs.pos)
  }

  function ParsePipe(s: string, i: nat): (r: Result<Cmd<Word>>)
    requires i <= |s| && IsCString(s)
    ensures r.Ok? ==> i <= r.pos <= |s|
    decreases |s| - i, 2
  {
    var left := ParseExec(s, i);
    if left.Panic? then left
    else if !Peek(s, left.pos, "|") then Ok(left.value, SkipSpace(s, left.pos))
    else
      TokenAdvances(s, left.pos);
      var right := ParsePipe(s, GetToken(s, left.pos).next);
      if right.Panic? then right else Ok(Pipe(left.value, right.value), right.pos)
  }

  /** The loop of parseline over '&'. */
  function Backs(s: string, i: nat, cmd: Cmd<Word>): (r: Result<Cmd<Word>>)
    requires i <= |s| && IsCString(s)
    ensures r.Ok? && i <= r.pos <= |s|
    decreases |s| - i
  {
    TokenAdvances(s, i);
    if Peek(s, i, "&") then Backs(s, GetToken(s, i).next, Back(cmd)) else Ok(cmd, SkipSpace(s, i))
  }

  function ParseLine(s: string, i: nat): (r: Result<Cmd<Word>>)
    requires i <= |s| && IsCString(s)
    ensures r.Ok? ==> i <= r.pos <= |s|
    decreases |s| - i, 3
  {
    var first := ParsePipe(s, i);
    if first.Panic? then first
    else
      var cmd := Backs(s, first.pos, first.value);
      if !Peek(s, cmd.pos, ";") then cmd
      else
        TokenAdvances(s, cmd.pos);
        var rest := ParseLine(s, GetToken(s, cmd.pos).next);
        if rest.Panic? then rest else Ok(List(cmd.value, rest.value), rest.pos)
  }

  /** parsecmd before nulterminate. */
  function ParseCmd(s: string): (r: Result<Cmd<Word>>)
    requires IsCString(s)
  {
    var line := ParseLine(s, 0);
    if line.Panic? then line
    else if SkipSpace(s, line.pos) != |s| then Panic("syntax")
    else line
  }
}
