/** A text for every command tree, and the proof that sh.c's parser reads it back. */
module ShellPrint {
  import opened ShellSyntax
  import opened ShellWords

  // --------------------------------------------------------- trees of texts

  ghost function TextsOf(s: string, ws: seq<Word>): seq<string>
    requires GoodWords(s, ws)
    ensures |TextsOf(s, ws)| == |ws|
  {
    seq(|ws|, k requires 0 <= k < |ws| => assert ws[k] in ws; s[ws[k].q..ws[k].eq])
  }

  /** The tree with each token replaced by the text it stands for. */
  ghost function Text(s: string, cmd: Cmd<Word>): Cmd<string>
    requires GoodCmd(s, cmd)
  {
    match cmd
    case Exec(argv) => Exec(TextsOf(s, argv))
    case Redir(c, file, mode, fd) => Redir(Text(s, c), s[file.q..file.eq], mode, fd)
    case Pipe(l, r) => Pipe(Text(s, l), Text(s, r))
    case List(l, r) => List(Text(s, l), Text(s, r))
    case Back(c) => Back(Text(s, c))
  }

  ghost predicate IsWord(w: string) { w != "" && forall k :: 0 <= k < |w| ==> IsWordChar(w[k]) }

  /** The trees the parser can build. */
  ghost predicate Printable(t: Cmd<string>) {
    match t
    case Exec(args) => |args| < MAXARGS && forall w :: w in args ==> IsWord(w)
    case Redir(c, file, mode, fd) => Printable(c) && IsWord(file) && GoodMode(mode, fd)
    case Pipe(l, r) => Printable(l) && Printable(r)
    case List(l, r) => Printable(l) && Printable(r)
    case Back(c) => Printable(c)
  }

  // ---------------------------------------------------------------- printing

  function PrintArgs(args: seq<string>): string {
    if args == [] then "" else args[0] + " " + PrintArgs(args[1..])
  }

  function PrintRedir(r: Redirection<string>): string {
    (if r.mode == O_RDONLY then "<" else ">") + r.file + " "
  }

  function PrintRedirs(rs: seq<Redirection<string>>): string {
    if rs == [] then "" else PrintRedir(rs[0]) + PrintRedirs(rs[1..])
  }

  /** How tightly a tree binds: 0 a line, 1 a line without ';', 2 a pipeline, 3 a command. */
  function Binds(t: Cmd<string>): nat {
    match t case List(_, _) => 0 case Back(_) => 1 case Pipe(_, _) => 2 case _ => 3
  }

  /** The text of t where the grammar wants something that binds at least as tightly as level. */
  function Print(t: Cmd<string>, level: nat): string
    decreases t, if Binds(t) < level then 1 else 0
  {
    if Binds(t) < level then "(" + Print(t, 0) + ")"
    else
      match t
      case Exec(args) => PrintArgs(args)
      case Redir(c, file, mode, fd) => Print(c, 3) + PrintRedir(Redirection(file, mode, fd))
      case Pipe(l, r) => Print(l, 3) + "|" + Print(r, 2)
      case List(l, r) => Print(l, 1) + ";" + Print(r, 0)
      case Back(c) => Print(c, 1) + "&"
  }

  // ------------------------------------------------------------ text in place

  ghost predicate Here(s: string, i: nat, p: string) {
    i + |p| <= |s| && s[i..i + |p|] == p
  }

  lemma HereSplit(s: string, i: nat, p: string, q: string)
    requires Here(s, i, p + q)
    ensures Here(s, i, p) && Here(s, i + |p|, q)
  {
    assert s[i..i + |p + q|][..|p|] == p;
    assert s[i..i + |p + q|][|p|..] == q;
  }

  ghost predicate NoSpace(s: string, i: nat) { i <= |s| && (i < |s| ==> !IsSpace(s[i])) }

  lemma {:induction false} WordEndIs(s: string, i: nat, w: string)
    requires Here(s, i, w) && !IsWordChar(At(s, i + |w|)) && IsCString(s)
    requires forall k :: 0 <= k < |w| ==> IsWordChar(w[k])
    ensures WordEnd(s, i) == i + |w|
    decreases |w|
  {
    if w == "" {
      assert i < |s| ==> s[i] in s;
    } else {
      assert s[i..i + |w|][0] == w[0];
      assert s[i + 1..i + |w|] == w[1..] by { assert s[i..i + |w|][1..] == w[1..]; }
      WordEndIs(s, i + 1, w[1..]);
    }
  }

  /** A printed word and its space are one token. */
  lemma WordHere(s: string, i: nat, w: string)
    requires IsCString(s) && IsWord(w) && Here(s, i, w + " ") && NoSpace(s, i + |w| + 1)
    ensures GetToken(s, i) == Token('a', i, i + |w|, i + |w| + 1)
    ensures Here(s, i, w) && IsWordChar(s[i])
  {
    HereSplit(s, i, w, " ");
    assert s[i + |w|] == s[i + |w|..i + |w| + 1][0] == ' ';
    assert s[i] == s[i..i + |w|][0] == w[0];
    WordEndIs(s, i, w);
    assert SkipSpace(s, i) == i;
    assert SkipSpace(s, i + |w| + 1) == i + |w| + 1;
  }

  /** A symbol with no space after it is one token. */
  lemma SymbolHere(s: string, i: nat)
    requires i < |s| && IsSymbol(s[i]) && NoSpace(s, i + 1)
    requires s[i] != '>' || At(s, i + 1) != '>'
    ensures GetToken(s, i) == Token(s[i], i, i + 1, i + 1)
    ensures forall toks :: Peek(s, i, toks) <==> s[i] in toks
  {
    assert SkipSpace(s, i) == i;
    assert SkipSpace(s, i + 1) == i + 1;
  }

  lemma PeekHere(s: string, i: nat)
    requires NoSpace(s, i)
    ensures SkipSpace(s, i) == i
    ensures forall toks :: Peek(s, i, toks) <==> At(s, i) != '\0' && At(s, i) in toks
  {
  }

  // -------------------------------------------------------------- redirections

  ghost predicate GoodTexts(rs: seq<Redirection<string>>) {
    forall r :: r in rs ==> IsWord(r.file) && GoodMode(r.mode, r.fd)
  }

  ghost function RedirTexts(s: string, rs: seq<Redirection<Word>>): seq<Redirection<string>>
    requires GoodRedirs(s, rs)
    ensures |RedirTexts(s, rs)| == |rs|
  {
    seq(|rs|, k requires 0 <= k < |rs| =>
      assert rs[k] in rs;
      Redirection(s[rs[k].file.q..rs[k].file.eq], rs[k].mode, rs[k].fd))
  }

  /** What may follow a command. */
  predicate Follows(c: char) { c == '\0' || c == '|' || c == ')' || c == '&' || c == ';' }

  lemma FollowsIsSymbol(s: string, i: nat)
    requires i <= |s| && Follows(At(s, i))
    ensures NoSpace(s, i) && At(s, i) != '<' && At(s, i) != '>' && At(s, i) != '('
  {
  }

  lemma FirstOfRedirs(s: string, i: nat, rs: seq<Redirection<string>>)
    requires Here(s, i, PrintRedirs(rs)) && Follows(At(s, i + |PrintRedirs(rs)|))
    ensures NoSpace(s, i)
    ensures rs == [] ==> Follows(At(s, i))
    ensures rs != [] ==> i < |s| && s[i] == if rs[0].mode == O_RDONLY then '<' else '>'
  {
    if rs != [] {
      HereSplit(s, i, PrintRedir(rs[0]), PrintRedirs(rs[1..]));
      assert s[i] == s[i..i + |PrintRedir(rs[0])|][0] == PrintRedir(rs[0])[0];
    }
  }

  lemma NoRedirs(s: string, i: nat, acc: seq<Redirection<Word>>)
    requires NoSpace(s, i) && At(s, i) != '<' && At(s, i) != '>'
    ensures Redirs(s, i, acc) == Ok(acc, i)
  {
    PeekHere(s, i);
  }

  lemma RedirTokens(s: string, i: nat, r: Redirection<string>)
    requires IsCString(s) && IsWord(r.file)
    requires Here(s, i, PrintRedir(r)) && NoSpace(s, i + |r.file| + 2)
    ensures i < |s| && s[i] == if r.mode == O_RDONLY then '<' else '>'
    ensures Peek(s, i, "<>") && GetToken(s, i) == Token(s[i], i, i + 1, i + 1)
    ensures GetToken(s, i + 1) == Token('a', i + 1, i + 1 + |r.file|, i + |r.file| + 2)
    ensures Here(s, i + 1, r.file) && WholeWord(s, Word(i + 1, i + 1 + |r.file|))
  {
    hide GetToken, Peek, WholeWord, IsWord;
    var sym := if r.mode == O_RDONLY then "<" else ">";
    assert PrintRedir(r) == sym + (r.file + " ");
    HereSplit(s, i, sym, r.file + " ");
    assert s[i] == s[i..i + 1][0] == sym[0];
    WordHere(s, i + 1, r.file);
    SymbolHere(s, i);
    WordToken(s, i + 1);
  }

  lemma OneRedir(s: string, i: nat, r: Redirection<string>, acc: seq<Redirection<Word>>) returns (f: Redirection<Word>)
    requires IsCString(s) && IsWord(r.file) && GoodMode(r.mode, r.fd)
    requires Here(s, i, PrintRedir(r)) && NoSpace(s, i + |r.file| + 2)
    ensures Redirection(Word(i + 1, i + 1 + |r.file|), r.mode, r.fd) == f
    ensures Here(s, i + 1, r.file) && WholeWord(s, f.file)
    ensures Redirs(s, i, acc) == Redirs(s, i + |r.file| + 2, acc + [f])
  {
    hide GetToken, Peek, WholeWord, PrintRedir, IsWord, NoSpace, At;
    RedirTokens(s, i, r);
    f := RedirectionOf(s[i], i + 1, i + 1 + |r.file|);
  }

  lemma {:induction false} RedirsHere(s: string, i: nat, rs: seq<Redirection<string>>, acc: seq<Redirection<Word>>)
    returns (fs: seq<Redirection<Word>>)
    requires IsCString(s) && GoodTexts(rs) && Here(s, i, PrintRedirs(rs)) && Follows(At(s, i + |PrintRedirs(rs)|))
    ensures Redirs(s, i, acc) == Ok(acc + fs, i + |PrintRedirs(rs)|)
    ensures GoodRedirs(s, fs) && RedirTexts(s, fs) == rs
    decreases |rs|
  {
    hide WholeWord, Redirs, PrintRedir, Follows, IsWord, At, GetToken;
    if rs == [] {
      FirstOfRedirs(s, i, rs);
      FollowsIsSymbol(s, i);
      NoRedirs(s, i, acc);
      fs := [];
      assert acc + fs == acc;
    } else {
      var head, tail := PrintRedir(rs[0]), PrintRedirs(rs[1..]);
      PrintRedirLength(rs[0]);
      HereSplit(s, i, head, tail);
      assert rs[0] in rs;
      FirstOfRedirs(s, i + |head|, rs[1..]);
      var f := OneRedir(s, i, rs[0], acc);
      var rest := RedirsHere(s, i + |head|, rs[1..], acc + [f]);
      fs := [f] + rest;
      assert acc + fs == acc + [f] + rest;
      RedirsJoin(s, f, rest, rs);
    }
  }

  lemma PrintRedirLength(r: Redirection<string>)
    ensures |PrintRedir(r)| == |r.file| + 2
  {
  }

  lemma RedirsJoin(s: string, f: Redirection<Word>, rest: seq<Redirection<Word>>, rs: seq<Redirection<string>>)
    requires rs != [] && GoodRedirs(s, rest) && RedirTexts(s, rest) == rs[1..]
    requires WholeWord(s, f.file) && GoodMode(f.mode, f.fd)
    requires Redirection(s[f.file.q..f.file.eq], f.mode, f.fd) == rs[0]
    ensures GoodRedirs(s, [f] + rest) && RedirTexts(s, [f] + rest) == rs
  {
    var fs := [f] + rest;
    forall k | 0 <= k < |fs| ensures RedirTexts(s, fs)[k] == rs[k] {
      if k > 0 {
        assert fs[k] == rest[k - 1] && RedirTexts(s, rest)[k - 1] == rs[1..][k - 1];
      }
    }
  }

  // ----------------------------------------------------------------- arguments

  lemma ArgsStop(s: string, i: nat, argv: seq<Word>, rs: seq<Redirection<Word>>)
    requires i <= |s| && IsCString(s) && Follows(At(s, i))
    ensures Args(s, i, argv, rs) == Ok(Simple(argv, rs), i)
  {
    PeekHere(s, i);
  }

  lemma OneArg(s: string, i: nat, w: string, argv: seq<Word>, rs: seq<Redirection<Word>>)
    requires IsCString(s) && IsWord(w) && Here(s, i, w + " ") && NoSpace(s, i + |w| + 1) && |argv| + 1 < MAXARGS
    requires Redirs(s, i + |w| + 1, rs).Ok?
    ensures var more := Redirs(s, i + |w| + 1, rs);
      Args(s, i, argv, rs) == Args(s, more.pos, argv + [Word(i, i + |w|)], more.value)
    ensures WholeWord(s, Word(i, i + |w|)) && s[i..i + |w|] == w
  {
    hide GetToken, WholeWord, IsWord, NoSpace;
    WordHere(s, i, w);
    WordToken(s, i);
    assert !Peek(s, i, "|)&;") by { PeekHere(s, i); }
  }

  lemma FirstOfArgs(s: string, i: nat, args: seq<string>, rest: string)
    requires args != [] && IsWord(args[0]) && Here(s, i, PrintArgs(args) + rest)
    ensures i < |s| && IsWordChar(s[i]) && NoSpace(s, i)
    ensures Here(s, i, args[0] + " ") && Here(s, i + |args[0]| + 1, PrintArgs(args[1..]) + rest)
  {
    var w := args[0] + " ";
    assert PrintArgs(args) + rest == w + (PrintArgs(args[1..]) + rest);
    HereSplit(s, i, w, PrintArgs(args[1..]) + rest);
    assert s[i] == s[i..i + |w|][0] == args[0][0];
  }

  ghost predicate AllWords(args: seq<string>) { forall w :: w in args ==> IsWord(w) }

  lemma LastArg(s: string, i: nat, w: string, rs: seq<Redirection<string>>, argv: seq<Word>)
    returns (fs: seq<Redirection<Word>>)
    requires IsCString(s) && IsWord(w) && |argv| + 1 < MAXARGS && GoodTexts(rs)
    requires Here(s, i, w + " ") && Here(s, i + |w| + 1, PrintRedirs(rs))
    requires Follows(At(s, i + |w| + 1 + |PrintRedirs(rs)|))
    ensures Args(s, i, argv, []) == Ok(Simple(argv + [Word(i, i + |w|)], fs), i + |w| + 1 + |PrintRedirs(rs)|)
    ensures WholeWord(s, Word(i, i + |w|)) && s[i..i + |w|] == w
    ensures GoodRedirs(s, fs) && RedirTexts(s, fs) == rs
  {
    hide WholeWord, IsWord, Args, Redirs, Here, NoSpace, Follows, At, GoodRedirs, RedirTexts, IsCString, GoodTexts;
    var j := i + |w| + 1;
    FirstOfRedirs(s, j, rs);
    fs := RedirsHere(s, j, rs, []);
    assert [] + fs == fs;
    OneArg(s, i, w, argv, []);
    ArgsStop(s, j + |PrintRedirs(rs)|, argv + [Word(i, i + |w|)], fs);
  }

  lemma {:induction false} ArgsHere(s: string, i: nat, args: seq<string>, rs: seq<Redirection<string>>, argv: seq<Word>)
    returns (ws: seq<Word>, fs: seq<Redirection<Word>>)
    requires IsCString(s) && args != [] && AllWords(args) && |argv| + |args| < MAXARGS && GoodTexts(rs)
    requires Here(s, i, PrintArgs(args) + PrintRedirs(rs)) && Follows(At(s, i + |PrintArgs(args) + PrintRedirs(rs)|))
    ensures Args(s, i, argv, []) == Ok(Simple(argv + ws, fs), i + |PrintArgs(args) + PrintRedirs(rs)|)
    ensures |ws| == |args| && GoodWords(s, ws) && TextsOf(s, ws) == args
    ensures GoodRedirs(s, fs) && RedirTexts(s, fs) == rs
    decreases |args|
  {
    hide WholeWord, IsWord, Args, Redirs, Here, NoSpace, Follows, At, GoodRedirs, RedirTexts, IsCString, GoodWords,
      TextsOf, GoodTexts, IsWordChar;
    var w, tail := args[0], PrintArgs(args[1..]) + PrintRedirs(rs);
    assert w in args;
    FirstOfArgs(s, i, args, PrintRedirs(rs));
    var j := i + |w| + 1;
    var word := Word(i, i + |w|);
    if |args| == 1 {
      assert tail == PrintRedirs(rs);
      fs := LastArg(s, i, w, rs, argv);
      ws := [word] + [];
      NoWords(s);
      WordsJoin(s, word, [], args);
      assert argv + ws == argv + [word];
    } else {
      assert args[1] in args && args[1..][0] == args[1];
      FirstOfArgs(s, j, args[1..], PrintRedirs(rs));
      WordIsNoRedir(s, j);
      NoRedirs(s, j, []);
      OneArg(s, i, w, argv, []);
      var more;
      more, fs := ArgsHere(s, j, args[1..], rs, argv + [word]);
      ws := [word] + more;
      assert argv + ws == argv + [word] + more;
      WordsJoin(s, word, more, args);
    }
  }

  lemma NoWords(s: string)
    ensures GoodWords(s, []) && TextsOf(s, []) == []
  {
  }

  lemma WordsJoin(s: string, w: Word, rest: seq<Word>, args: seq<string>)
    requires args != [] && |args| < MAXARGS && WholeWord(s, w) && s[w.q..w.eq] == args[0]
    requires |rest| == |args| - 1 && GoodWords(s, rest) && TextsOf(s, rest) == args[1..]
    ensures GoodWords(s, [w] + rest) && TextsOf(s, [w] + rest) == args
  {
    hide WholeWord;
    var ws := [w] + rest;
    forall k | 0 <= k < |ws| ensures TextsOf(s, ws)[k] == args[k] {
      if k > 0 {
        assert ws[k] == rest[k - 1] && TextsOf(s, rest)[k - 1] == args[1..][k - 1];
      }
    }
  }

  lemma WordIsNoRedir(s: string, i: nat)
    requires i < |s| && IsWordChar(s[i])
    ensures At(s, i) != '<' && At(s, i) != '>' && At(s, i) != '('
  {
  }
}
