/** The parser of sh.c with its loops and its moving cursor: ps is *ps, es is |s|. Each
    method computes the function of ShellSyntax it is named after. */
module Shell {
  import opened ShellSyntax
  import opened ShellWords

  lemma SkipTwice(s: string, i: nat)
    requires i <= |s|
    ensures SkipSpace(s, SkipSpace(s, i)) == SkipSpace(s, i)
  {
  }

  /** Where the cursor stands among leading spaces does not matter. */
  lemma SkipFirst(s: string, i: nat)
    requires i <= |s|
    ensures GetToken(s, SkipSpace(s, i)) == GetToken(s, i)
    ensures forall toks :: Peek(s, SkipSpace(s, i), toks) == Peek(s, i, toks)
  {
    SkipTwice(s, i);
  }

  /** A character that peek found is a token of its own, or the start of one. */
  lemma TokenOfPeek(s: string, i: nat, toks: string)
    requires i <= |s| && IsCString(s) && Peek(s, i, toks)
    ensures GetToken(s, i).next > i
  {
  }

  /** gettoken; it returns the cursor too. */
  method Gettoken(s: string, ps: nat) returns (ret: char, q: nat, eq: nat, next: nat)
    requires ps <= |s| && IsCString(s)
    ensures Token(ret, q, eq, next) == GetToken(s, ps)
    ensures next <= |s| && (ret != '\0' ==> next > ps)
  {
    TokenAdvances(s, ps);
    var p := ps;
    while p < |s| && IsSpace(s[p])
      invariant ps <= p <= |s| && SkipSpace(s, p) == SkipSpace(s, ps)
    {
      p := p + 1;
    }
    q := p;
    ret := At(s, p);
    if ret == '\0' {
    } else if ret == '|' || ret == '(' || ret == ')' || ret == ';' || ret == '&' || ret == '<' {
      p := p + 1;
    } else if ret == '>' {
      p := p + 1;
      if At(s, p) == '>' {
        ret := '+';
        p := p + 1;
      }
    } else {
      ret := 'a';
      while p < |s| && !IsSpace(s[p]) && !IsSymbol(s[p])
        invariant q <= p <= |s| && WordEnd(s, p) == WordEnd(s, q)
      {
        p := p + 1;
      }
    }
    eq := p;
    while p < |s| && IsSpace(s[p])
      invariant eq <= p <= |s| && SkipSpace(s, p) == SkipSpace(s, eq)
    {
      p := p + 1;
    }
    next := p;
  }

  /** peek; it returns the cursor too. */
  method PeekAt(s: string, ps: nat, toks: string) returns (hit: bool, next: nat)
    requires ps <= |s| && IsCString(s)
    ensures hit == Peek(s, ps, toks) && next == SkipSpace(s, ps) && next <= |s|
  {
    next := ps;
    while next < |s| && IsSpace(s[next])
      invariant ps <= next <= |s| && SkipSpace(s, next) == SkipSpace(s, ps)
    {
      next := next + 1;
    }
    hit := At(s, next) != '\0' && At(s, next) in toks;
  }

  method Parseredirs(s: string, ps: nat, given: seq<Redirection<Word>>) returns (r: Result<seq<Redirection<Word>>>)
    requires ps <= |s| && IsCString(s)
    ensures r == Redirs(s, ps, given)
  {
    hide GetToken, Peek, SkipSpace;
    var rs := given;
    var p := ps;
    while true
      invariant ps <= p <= |s| && Redirs(s, ps, given) == Redirs(s, p, rs)
      decreases |s| - p
    {
      SkipFirst(s, p);
      var hit, next := PeekAt(s, p, "<>");
      if !hit {
        return Ok(rs, next);
      }
      var tok, _, _, p1 := Gettoken(s, next);
      var ret, q, eq, p2 := Gettoken(s, p1);
      if ret != 'a' {
        return Panic("missing file for redirection");
      }
      TokenAdvances(s, p1);
      rs := rs + [RedirectionOf(tok, q, eq)];
      p := p2;
    }
  }

  /** parseexec after its test for '(': argv is the fixed array of the exec node. */
  method Parsesimple(s: string, ps: nat) returns (r: Result<Cmd<Word>>)
    requires ps <= |s| && IsCString(s)
    ensures Peek(s, ps, "(") || r == ParseExec(s, ps)
  {
    hide GetToken, Peek, SkipSpace, Redirs;
    var argv := new Word[MAXARGS](_ => Word(0, 0));
    var argc := 0;
    var rs := Parseredirs(s, ps, []);
    if rs.Panic? {
      return Panic(rs.why);
    }
    var p := rs.pos;
    while true
      invariant argc < MAXARGS && p <= |s| && rs.Ok? && rs.pos == p
      invariant Args(s, Redirs(s, ps, []).pos, [], Redirs(s, ps, []).value) == Args(s, p, argv[..argc], rs.value)
      decreases |s| - p
    {
      SkipFirst(s, p);
      TokenAdvances(s, p);
      var stop, next := PeekAt(s, p, "|)&;");
      if stop {
        return Ok(Wrap(Exec(argv[..argc]), rs.value), next);
      }
      var tok, q, eq, p1 := Gettoken(s, next);
      if tok == '\0' {
        return Ok(Wrap(Exec(argv[..argc]), rs.value), p1);
      }
      if tok != 'a' {
        return Panic("syntax");
      }
      argv[argc] := Word(q, eq);
      argc := argc + 1;
      if argc >= MAXARGS {
        return Panic("too many args");
      }
      assert argv[..argc] == argv[..argc - 1] + [Word(q, eq)];
      rs := Parseredirs(s, p1, rs.value);
      if rs.Panic? {
        return Panic(rs.why);
      }
      p := rs.pos;
    }
  }

  method Parseexec(s: string, ps: nat) returns (r: Result<Cmd<Word>>)
    requires ps <= |s| && IsCString(s)
    ensures r == ParseExec(s, ps)
    decreases |s| - ps, 1
  {
    var block, _ := PeekAt(s, ps, "(");
    if block {
      r := Parseblock(s, ps);
    } else {
      r := Parsesimple(s, ps);
    }
  }

  method Parseblock(s: string, ps: nat) returns (r: Result<Cmd<Word>>)
    requires ps <= |s| && IsCString(s) && Peek(s, ps, "(")
    ensures r == ParseBlock(s, ps)
    decreases |s| - ps, 0
  {
    hide GetToken, SkipSpace, Redirs, ParseLine;
    SkipFirst(s, ps);
    TokenOfPeek(s, ps, "(");
    var _, p0 := PeekAt(s, ps, "(");
    var _, _, _, p1 := Gettoken(s, p0);
    var body := Parseline(s, p1);
    if body.Panic? {
      return body;
    }
    SkipFirst(s, body.pos);
    var shut, p2 := PeekAt(s, body.pos, ")");
    if !shut {
      return Panic("syntax - missing )");
    }
    var _, _, _, p3 := Gettoken(s, p2);
    var rs := Parseredirs(s, p3, []);
    if rs.Panic? {
      return Panic(rs.why);
    }
    return Ok(Wrap(body.value, rs.value), rs.pos);
  }

  method Parsepipe(s: string, ps: nat) returns (r: Result<Cmd<Word>>)
    requires ps <= |s| && IsCString(s)
    ensures r == ParsePipe(s, ps)
    decreases |s| - ps, 2
  {
    hide GetToken, Peek, SkipSpace, ParseExec;
    var left := Parseexec(s, ps);
    if left.Panic? {
      return left;
    }
    SkipFirst(s, left.pos);
    var hit, next := PeekAt(s, left.pos, "|");
    if !hit {
      return Ok(left.value, next);
    }
    TokenOfPeek(s, left.pos, "|");
    var _, _, _, p1 := Gettoken(s, next);
    var right := Parsepipe(s, p1);
    if right.Panic? {
      return right;
    }
    return Ok(Pipe(left.value, right.value), right.pos);
  }

  method Parseline(s: string, ps: nat) returns (r: Result<Cmd<Word>>)
    requires ps <= |s| && IsCString(s)
    ensures r == ParseLine(s, ps)
    decreases |s| - ps, 3
  {
    hide GetToken, Peek, SkipSpace, ParsePipe;
    var first := Parsepipe(s, ps);
    if first.Panic? {
      return first;
    }
    var cmd, p := first.value, first.pos;
    while true
      invariant first.pos <= p <= |s| && Backs(s, first.pos, first.value) == Backs(s, p, cmd)
      decreases |s| - p
    {
      SkipFirst(s, p);
      var hit, next := PeekAt(s, p, "&");
      if !hit {
        SkipTwice(s, p);
        p := next;
        break;
      }
      TokenOfPeek(s, p, "&");
      var _, _, _, p1 := Gettoken(s, next);
      cmd := Back(cmd);
      p := p1;
    }
    SkipFirst(s, p);
    var more, next := PeekAt(s, p, ";");
    if !more {
      return Ok(cmd, next);
    }
    TokenOfPeek(s, p, ";");
    var _, _, _, p1 := Gettoken(s, next);
    var rest := Parseline(s, p1);
    if rest.Panic? {
      return rest;
    }
    return Ok(List(cmd, rest.value), rest.pos);
  }

  /** What is in the buffer once every position of ends holds a NUL. */
  ghost predicate Cut(was: seq<char>, now: seq<char>, ends: set<nat>) {
    |now| == |was| && forall k: nat :: k < |was| ==> now[k] == if k in ends then '\0' else was[k]
  }

  ghost predicate Inside(cmd: Cmd<Word>, n: nat) {
    forall k :: k in Ends(cmd) ==> k < n
  }

  method Nulterminate(buf: array<char>, cmd: Cmd<Word>)
    requires Inside(cmd, buf.Length)
    modifies buf
    ensures Cut(old(buf[..]), buf[..], Ends(cmd))
    decreases cmd
  {
    match cmd
    case Exec(argv) =>
      var i := 0;
      assert argv[..|argv|] == argv;
      while i < |argv|
        invariant i <= |argv| && Cut(old(buf[..]), buf[..], EndsOf(argv[..i]))
      {
        assert argv[..i + 1][..i] == argv[..i];
        assert argv[i].eq in Ends(cmd) by {
          EndInside(argv, i);
        }
        buf[argv[i].eq] := '\0';
        i := i + 1;
      }
    case Redir(c, file, _, _) =>
      assert Ends(c) + {file.eq} == Ends(cmd);
      Nulterminate(buf, c);
      buf[file.eq] := '\0';
    case Pipe(l, r) =>
      assert Ends(l) + Ends(r) == Ends(cmd);
      Nulterminate(buf, l);
      Nulterminate(buf, r);
    case List(l, r) =>
      assert Ends(l) + Ends(r) == Ends(cmd);
      Nulterminate(buf, l);
      Nulterminate(buf, r);
    case Back(c) =>
      assert Ends(c) == Ends(cmd);
      Nulterminate(buf, c);
  }

  lemma {:induction false} EndInside(argv: seq<Word>, i: nat)
    requires i < |argv|
    ensures argv[i].eq in EndsOf(argv)
    decreases |argv|
  {
    if i < |argv| - 1 {
      EndInside(argv[..|argv| - 1], i);
    }
  }

  method Strlen(buf: array<char>) returns (n: nat)
    requires '\0' in buf[..]
    ensures n < buf.Length && buf[n] == '\0' && '\0' !in buf[..n]
  {
    ghost var end :| 0 <= end < buf.Length && buf[end] == '\0';
    n := 0;
    while buf[n] != '\0'
      invariant n <= end && '\0' !in buf[..n]
      decreases end - n
    {
      assert buf[..n + 1] == buf[..n] + [buf[n]];
      n := n + 1;
    }
  }

  /** What a caller of parsecmd gets: the tree the grammar gives to the text, whose tokens,
      read as C strings out of the buffer, are the words of that text. */
  ghost predicate Parsed(s: string, mem: seq<char>, r: Result<Cmd<Word>>)
    requires IsCString(s)
  {
    && r == ParseCmd(s)
    && (r.Ok? ==> forall w :: InTree(w, r.value) ==>
          w.q < w.eq <= |s| < |mem| && ReadString(mem, w.q) == s[w.q..w.eq])
  }

  method Parsecmd(buf: array<char>) returns (r: Result<Cmd<Word>>, ghost s: string)
    requires '\0' in buf[..]
    modifies buf
    ensures IsCString(s) && s + "\0" <= old(buf[..])
    ensures Parsed(s, buf[..], r)
    ensures r.Panic? ==> buf[..] == old(buf[..])
  {
    hide ParseLine, Ends, InTree, ReadString;
    var n := Strlen(buf);
    var text := buf[..n];
    s := text;
    var line := Parseline(text, 0);
    if line.Panic? {
      return line, s;
    }
    var _, p := PeekAt(text, line.pos, "");
    if p != n {
      return Panic("syntax"), s;
    }
    LineGood(text, 0);
    EndsMissWords(text, line.value);
    Nulterminate(buf, line.value);
    assert Terminated(buf[..], s, Ends(line.value));
    forall w | InTree(w, line.value)
      ensures w.q < w.eq <= |s| && ReadString(buf[..], w.q) == s[w.q..w.eq]
    {
      TokensReadBack(buf[..], s, line.value, w);
    }
    return line, s;
  }
}
