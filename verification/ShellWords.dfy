/** Which pieces of the text the parser keeps as tokens, and what those tokens read as
    once nulterminate has put its NULs into the same buffer. */
module ShellWords {
  import opened ShellSyntax

  /** A whole word: no longer word of the text contains it. */
  ghost predicate WholeWord(s: string, w: Word) {
    && w.q < w.eq <= |s|
    && (forall k :: w.q <= k < w.eq ==> IsWordChar(s[k]))
    && !IsWordChar(At(s, w.eq))
  }

  ghost predicate GoodMode(mode: nat, fd: nat) {
    (mode == O_RDONLY && fd == 0) || (mode == O_WRONLY_CREATE && fd == 1)
  }

  ghost predicate GoodWords(s: string, ws: seq<Word>) {
    |ws| < MAXARGS && forall w :: w in ws ==> WholeWord(s, w)
  }

  ghost predicate GoodRedirs(s: string, rs: seq<Redirection<Word>>) {
    forall r :: r in rs ==> WholeWord(s, r.file) && GoodMode(r.mode, r.fd)
  }

  /** Every token of the tree is a whole word, and every argv leaves room for its null. */
  ghost predicate GoodCmd(s: string, cmd: Cmd<Word>) {
    match cmd
    case Exec(argv) => GoodWords(s, argv)
    case Redir(c, file, mode, fd) => GoodCmd(s, c) && WholeWord(s, file) && GoodMode(mode, fd)
    case Pipe(l, r) => GoodCmd(s, l) && GoodCmd(s, r)
    case List(l, r) => GoodCmd(s, l) && GoodCmd(s, r)
    case Back(c) => GoodCmd(s, c)
  }

  lemma {:induction false} WordEndIsFirst(s: string, i: nat)
    requires i <= |s| && IsCString(s)
    ensures forall k :: i <= k < WordEnd(s, i) ==> IsWordChar(s[k])
    ensures !IsWordChar(At(s, WordEnd(s, i)))
    decreases |s| - i
  {
    if i < |s| && !IsSpace(s[i]) && !IsSymbol(s[i]) {
      WordEndIsFirst(s, i + 1);
    }
  }

  lemma WordToken(s: string, i: nat)
    requires i <= |s| && IsCString(s) && GetToken(s, i).ret == 'a'
    ensures WholeWord(s, Word(GetToken(s, i).q, GetToken(s, i).eq))
  {
    WordEndIsFirst(s, SkipSpace(s, i));
  }

  lemma {:induction false} RedirsGood(s: string, i: nat, rs: seq<Redirection<Word>>)
    requires i <= |s| && IsCString(s) && GoodRedirs(s, rs)
    ensures var r := Redirs(s, i, rs); r.Ok? ==> GoodRedirs(s, r.value)
    decreases |s| - i
  {
    hide WholeWord;
    if Peek(s, i, "<>") {
      var t := GetToken(s, i);
      var f := GetToken(s, t.next);
      if f.ret == 'a' {
        WordToken(s, t.next);
        RedirsGood(s, f.next, rs + [RedirectionOf(t.ret, f.q, f.eq)]);
      }
    }
  }

  lemma {:induction false} ArgsGood(s: string, i: nat, argv: seq<Word>, rs: seq<Redirection<Word>>)
    requires i <= |s| && IsCString(s) && GoodWords(s, argv) && GoodRedirs(s, rs)
    ensures var r := Args(s, i, argv, rs); r.Ok? ==> GoodWords(s, r.value.argv) && GoodRedirs(s, r.value.rs)
    decreases |s| - i
  {
    hide WholeWord, GetToken, Peek;
    TokenAdvances(s, i);
    var t := GetToken(s, i);
    if !Peek(s, i, "|)&;") && t.ret == 'a' && |argv| + 1 < MAXARGS {
      WordToken(s, i);
      RedirsGood(s, t.next, rs);
      var more := Redirs(s, t.next, rs);
      if more.Ok? {
        ArgsGood(s, more.pos, argv + [Word(t.q, t.eq)], more.value);
      }
    }
  }

  lemma {:induction false} WrapGood(s: string, cmd: Cmd<Word>, rs: seq<Redirection<Word>>)
    requires GoodCmd(s, cmd) && GoodRedirs(s, rs)
    ensures GoodCmd(s, Wrap(cmd, rs))
  {
    hide WholeWord;
    if rs != [] {
      WrapGood(s, cmd, rs[..|rs| - 1]);
      assert rs[|rs| - 1] in rs;
    }
  }

  lemma {:induction false} ExecGood(s: string, i: nat)
    requires i <= |s| && IsCString(s)
    ensures ParseExec(s, i).Ok? ==> GoodCmd(s, ParseExec(s, i).value)
    decreases |s| - i, 1
  {
    hide WholeWord, GetToken, SkipSpace, Redirs, Args, ParseLine;
    if Peek(s, i, "(") {
      hide ParseExec;
      TokenAdvances(s, i);
      var body := ParseLine(s, GetToken(s, i).next);
      BlockOpens(s, i);
      if body.Ok? {
        LineGood(s, GetToken(s, i).next);
        if Peek(s, body.pos, ")") {
          RedirsGood(s, GetToken(s, body.pos).next, []);
          var rs := Redirs(s, GetToken(s, body.pos).next, []);
          if rs.Ok? {
            WrapGood(s, body.value, rs.value);
          }
        }
      }
    } else {
      RedirsGood(s, i, []);
      var rs := Redirs(s, i, []);
      if rs.Ok? {
        ArgsGood(s, rs.pos, [], rs.value);
        var a := Args(s, rs.pos, [], rs.value);
        if a.Ok? {
          WrapGood(s, Exec(a.value.argv), a.value.rs);
        }
      }
    }
  }

  lemma BlockOpens(s: string, i: nat)
    requires i <= |s| && IsCString(s) && Peek(s, i, "(")
    ensures GetToken(s, i).next > i && ParseExec(s, i) == ParseBlock(s, i)
  {
  }

  lemma {:induction false} PipeGood(s: string, i: nat)
    requires i <= |s| && IsCString(s)
    ensures ParsePipe(s, i).Ok? ==> GoodCmd(s, ParsePipe(s, i).value)
    decreases |s| - i, 2
  {
    hide WholeWord, ParseExec;
    ExecGood(s, i);
    var left := ParseExec(s, i);
    if left.Ok? && Peek(s, left.pos, "|") {
      TokenAdvances(s, left.pos);
      PipeGood(s, GetToken(s, left.pos).next);
    }
  }

  lemma {:induction false} BacksGood(s: string, i: nat, cmd: Cmd<Word>)
    requires i <= |s| && IsCString(s) && GoodCmd(s, cmd)
    ensures GoodCmd(s, Backs(s, i, cmd).value)
    decreases |s| - i
  {
    hide WholeWord;
    TokenAdvances(s, i);
    if Peek(s, i, "&") {
      BacksGood(s, GetToken(s, i).next, Back(cmd));
    }
  }

  lemma {:induction false} LineGood(s: string, i: nat)
    requires i <= |s| && IsCString(s)
    ensures ParseLine(s, i).Ok? ==> GoodCmd(s, ParseLine(s, i).value)
    decreases |s| - i, 3
  {
    hide WholeWord, ParsePipe;
    PipeGood(s, i);
    var first := ParsePipe(s, i);
    if first.Ok? {
      BacksGood(s, first.pos, first.value);
      var cmd := Backs(s, first.pos, first.value);
      if Peek(s, cmd.pos, ";") {
        TokenAdvances(s, cmd.pos);
        LineGood(s, GetToken(s, cmd.pos).next);
      }
    }
  }

  // ------------------------------------------------------------ nulterminate

  /** Where nulterminate writes a NUL. */
  ghost function Ends(cmd: Cmd<Word>): set<nat> {
    match cmd
    case Exec(argv) => EndsOf(argv)
    case Redir(c, file, _, _) => Ends(c) + {file.eq}
    case Pipe(l, r) => Ends(l) + Ends(r)
    case List(l, r) => Ends(l) + Ends(r)
    case Back(c) => Ends(c)
  }

  ghost function EndsOf(ws: seq<Word>): set<nat> {
    if ws == [] then {} else EndsOf(ws[..|ws| - 1]) + {ws[|ws| - 1].eq}
  }

  ghost predicate InTree(w: Word, cmd: Cmd<Word>) {
    match cmd
    case Exec(argv) => w in argv
    case Redir(c, file, _, _) => InTree(w, c) || w == file
    case Pipe(l, r) => InTree(w, l) || InTree(w, r)
    case List(l, r) => InTree(w, l) || InTree(w, r)
    case Back(c) => InTree(w, c)
  }

  /** The C string that starts at i in memory. */
  function ReadString(mem: seq<char>, i: nat): string
    requires i <= |mem|
    decreases |mem| - i
  {
    if i == |mem| || mem[i] == '\0' then "" else [mem[i]] + ReadString(mem, i + 1)
  }

  lemma {:induction false} EndsOfWords(s: string, ws: seq<Word>)
    requires GoodWords(s, ws)
    ensures forall k :: k in EndsOf(ws) ==> k <= |s| && !IsWordChar(At(s, k))
    ensures forall w :: w in ws ==> w.eq in EndsOf(ws)
  {
    if ws != [] {
      assert ws[|ws| - 1] in ws;
      EndsOfWords(s, ws[..|ws| - 1]);
      forall w | w in ws ensures w.eq in EndsOf(ws) {
        var k :| 0 <= k < |ws| && ws[k] == w;
        if k < |ws| - 1 {
          assert ws[..|ws| - 1][k] == w;
        }
      }
    }
  }

  /** No NUL lands inside a word, and each word gets one just past its end. */
  lemma {:induction false} EndsMissWords(s: string, cmd: Cmd<Word>)
    requires GoodCmd(s, cmd)
    ensures forall k :: k in Ends(cmd) ==> k <= |s| && !IsWordChar(At(s, k))
    ensures forall w :: InTree(w, cmd) ==> WholeWord(s, w) && w.eq in Ends(cmd)
  {
    match cmd
    case Exec(argv) => EndsOfWords(s, argv);
    case Redir(c, _, _, _) => EndsMissWords(s, c);
    case Pipe(l, r) => EndsMissWords(s, l); EndsMissWords(s, r);
    case List(l, r) => EndsMissWords(s, l); EndsMissWords(s, r);
    case Back(c) => EndsMissWords(s, c);
  }

  ghost predicate Terminated(mem: seq<char>, s: string, ends: set<nat>) {
    && |mem| > |s|
    && (forall k :: 0 <= k < |s| ==> mem[k] == if k in ends then '\0' else s[k])
    && mem[|s|] == '\0'
  }

  lemma {:induction false} ReadUpTo(mem: seq<char>, s: string, i: nat, e: nat)
    requires i <= e <= |s| < |mem| && IsCString(s)
    requires mem[e] == '\0' && forall k :: i <= k < e ==> mem[k] == s[k]
    ensures ReadString(mem, i) == s[i..e]
    decreases e - i
  {
    if i < e {
      assert s[i] in s;
      ReadUpTo(mem, s, i + 1, e);
    }
  }

  /** After nulterminate every token of the tree reads, as a C string, as its own text. */
  lemma TokensReadBack(mem: seq<char>, s: string, cmd: Cmd<Word>, w: Word)
    requires IsCString(s) && GoodCmd(s, cmd) && Terminated(mem, s, Ends(cmd)) && InTree(w, cmd)
    ensures w.q < w.eq <= |s| && ReadString(mem, w.q) == s[w.q..w.eq]
  {
    EndsMissWords(s, cmd);
    assert WholeWord(s, w) && w.eq in Ends(cmd);
    forall k | w.q <= k < w.eq ensures mem[k] == s[k] {
      assert IsWordChar(s[k]) && At(s, k) == s[k];
    }
    ReadUpTo(mem, s, w.q, w.eq);
  }
}
