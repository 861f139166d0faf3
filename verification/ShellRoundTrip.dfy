/** Parsing a printed tree gives the tree back, by induction over the grammar's levels. */
module ShellRoundTrip {
  import opened ShellSyntax
  import opened ShellWords
  import opened ShellPrint

  ghost predicate Means(s: string, c: Cmd<Word>, t: Cmd<string>) {
    GoodCmd(s, c) && Text(s, c) == t
  }

  ghost predicate RedirsMean(s: string, fs: seq<Redirection<Word>>, rs: seq<Redirection<string>>) {
    GoodRedirs(s, fs) && RedirTexts(s, fs) == rs
  }

  lemma {:induction false} PrintStart(t: Cmd<string>, level: nat)
    requires Printable(t)
    ensures Print(t, level) == "" || !IsSpace(Print(t, level)[0])
    decreases t, if Binds(t) < level then 1 else 0
  {
    if Binds(t) < level {
    } else {
      match t
      case Exec(args) => if args != [] { assert args[0] in args; }
      case Redir(c, _, _, _) => PrintStart(c, 3);
      case Pipe(l, _) => PrintStart(l, 3);
      case List(l, _) => PrintStart(l, 1);
      case Back(c) => PrintStart(c, 1);
    }
  }

  lemma StartHere(s: string, i: nat, t: Cmd<string>, level: nat)
    requires Printable(t) && Here(s, i, Print(t, level)) && NoSpace(s, i + |Print(t, level)|)
    ensures NoSpace(s, i)
  {
    hide Print, Printable;
    PrintStart(t, level);
    var p := Print(t, level);
    if p != "" {
      assert s[i] == s[i..i + |p|][0] == p[0];
    }
  }

  lemma {:induction false} WrapCons<W>(c: Cmd<W>, f: Redirection<W>, fs: seq<Redirection<W>>)
    ensures Wrap(c, [f] + fs) == Wrap(Redir(c, f.file, f.mode, f.fd), fs)
  {
    var all := [f] + fs;
    if fs == [] {
      assert all[..0] == [];
    } else {
      WrapCons(c, f, fs[..|fs| - 1]);
      assert all[..|all| - 1] == [f] + fs[..|fs| - 1];
    }
  }

  lemma ExecHere(s: string, i: nat, args: seq<string>, rs: seq<Redirection<string>>)
    returns (c: Cmd<Word>, fs: seq<Redirection<Word>>)
    requires IsCString(s) && AllWords(args) && |args| < MAXARGS && GoodTexts(rs)
    requires Here(s, i, PrintArgs(args) + PrintRedirs(rs)) && Follows(At(s, i + |PrintArgs(args) + PrintRedirs(rs)|))
    ensures ParseExec(s, i) == Ok(Wrap(c, fs), i + |PrintArgs(args) + PrintRedirs(rs)|)
    ensures Means(s, c, Exec(args)) && RedirsMean(s, fs, rs)
  {
    hide Args, Redirs, Follows, At, IsWord, WholeWord, ParseBlock, GoodRedirs, RedirTexts, Peek;
    var p := PrintArgs(args) + PrintRedirs(rs);
    var ws: seq<Word>;
    if args == [] {
      assert p == PrintRedirs(rs);
      FirstOfRedirs(s, i, rs);
      fs := RedirsHere(s, i, rs, []);
      assert [] + fs == fs;
      ws := [];
      ArgsStop(s, i + |p|, [], fs);
      NoBlock(s, i, rs);
    } else {
      assert args[0] in args;
      FirstOfArgs(s, i, args, PrintRedirs(rs));
      WordIsNoRedir(s, i);
      NoRedirs(s, i, []);
      ws, fs := ArgsHere(s, i, args, rs, []);
      assert [] + ws == ws;
      PeekHere(s, i);
    }
    c := Exec(ws);
    assert TextsOf(s, ws) == args;
  }

  lemma NoBlock(s: string, i: nat, rs: seq<Redirection<string>>)
    requires Here(s, i, PrintRedirs(rs)) && Follows(At(s, i + |PrintRedirs(rs)|))
    ensures !Peek(s, i, "(")
  {
    FirstOfRedirs(s, i, rs);
    PeekHere(s, i);
  }

  /** "(" line ")" redirections, given what the line parses to. */
  lemma BlockHere(s: string, i: nat, p: string, c: Cmd<Word>, rs: seq<Redirection<string>>)
    returns (fs: seq<Redirection<Word>>)
    requires IsCString(s) && GoodTexts(rs)
    requires Here(s, i, "(" + p + ")" + PrintRedirs(rs)) && Follows(At(s, i + |"(" + p + ")" + PrintRedirs(rs)|))
    requires NoSpace(s, i + 1) && ParseLine(s, i + 1) == Ok(c, i + 1 + |p|)
    ensures ParseExec(s, i) == Ok(Wrap(c, fs), i + |"(" + p + ")" + PrintRedirs(rs)|)
    ensures RedirsMean(s, fs, rs)
  {
    hide ParseLine, Redirs, GetToken, Peek, GoodRedirs, RedirTexts, Follows, At, WholeWord, IsWord, PrintRedirs, GoodTexts;
    var q := i + 1 + |p|;
    BlockParts(s, i, p, PrintRedirs(rs));
    FirstOfRedirs(s, q + 1, rs);
    SymbolHere(s, i);
    SymbolHere(s, q);
    fs := RedirsHere(s, q + 1, rs, []);
    assert [] + fs == fs;
  }

  lemma BlockParts(s: string, i: nat, p: string, tail: string)
    requires Here(s, i, "(" + p + ")" + tail)
    ensures i + 1 + |p| < |s| && s[i] == '(' && s[i + 1 + |p|] == ')'
    ensures Here(s, i + 1, p) && Here(s, i + 2 + |p|, tail)
  {
    assert "(" + p + ")" + tail == "" + "(" + (p + ")" + tail);
    SplitAt(s, i, "", "(", p + ")" + tail);
    SplitAt(s, i + 1, p, ")", tail);
  }

  /** What may follow the text of a level. */
  predicate FollowsLevel(level: nat, c: char) {
    match level
    case 0 => c == '\0' || c == ')'
    case 1 => c == '\0' || c == ')' || c == ';' || c == '&'
    case 2 => c == '\0' || c == ')' || c == ';' || c == '&'
    case _ => Follows(c)
  }

  /** The text of t at the given level stands at i, with a fitting character after it. */
  ghost predicate Stands(s: string, i: nat, t: Cmd<string>, level: nat) {
    && IsCString(s) && Printable(t)
    && Here(s, i, Print(t, level)) && FollowsLevel(level, At(s, i + |Print(t, level)|))
  }

  lemma EndHere(s: string, i: nat, t: Cmd<string>, level: nat)
    requires Stands(s, i, t, level)
    ensures NoSpace(s, i + |Print(t, level)|)
  {
    hide Print, Printable;
  }

  function Rank(t: Cmd<string>, level: nat): nat
    requires level <= 3
  {
    (if Binds(t) < level then 4 else 0) + 3 - level
  }

  lemma {:induction false} CommandHere(s: string, i: nat, t: Cmd<string>, rs: seq<Redirection<string>>)
    returns (c: Cmd<Word>, fs: seq<Redirection<Word>>)
    requires IsCString(s) && Printable(t) && GoodTexts(rs)
    requires Here(s, i, Print(t, 3) + PrintRedirs(rs)) && Follows(At(s, i + |Print(t, 3) + PrintRedirs(rs)|))
    ensures ParseExec(s, i) == Ok(Wrap(c, fs), i + |Print(t, 3) + PrintRedirs(rs)|)
    ensures Means(s, c, t) && RedirsMean(s, fs, rs)
    decreases t, Rank(t, 3)
  {
    hide ParseExec, ParseLine, Follows, At, IsWord, WholeWord, GoodRedirs, RedirTexts, PrintRedir, PrintRedirs, PrintArgs;
    if Binds(t) < 3 {
      var p := Print(t, 0);
      InsideBlock(s, i, t, rs);
      c := LineHere(s, i + 1, t);
      fs := BlockHere(s, i, p, c, rs);
    } else if t.Exec? {
      c, fs := ExecHere(s, i, t.argv, rs);
    } else {
      var r := Redirection(t.file, t.mode, t.fd);
      assert Print(t, 3) + PrintRedirs(rs) == Print(t.cmd, 3) + PrintRedirs([r] + rs) by { PrintRedirsCons(r, rs); }
      var c0, fs0 := CommandHere(s, i, t.cmd, [r] + rs);
      c, fs := Redir(c0, fs0[0].file, fs0[0].mode, fs0[0].fd), fs0[1..];
      assert fs0 == [fs0[0]] + fs;
      WrapCons(c0, fs0[0], fs);
      RedirsUncons(s, fs0, r, rs);
    }
  }

  lemma PrintRedirsCons(r: Redirection<string>, rs: seq<Redirection<string>>)
    ensures PrintRedirs([r] + rs) == PrintRedir(r) + PrintRedirs(rs)
  {
    assert ([r] + rs)[1..] == rs;
  }

  lemma RedirsUncons(s: string, fs: seq<Redirection<Word>>, r: Redirection<string>, rs: seq<Redirection<string>>)
    requires RedirsMean(s, fs, [r] + rs)
    ensures fs != [] && WholeWord(s, fs[0].file) && GoodMode(fs[0].mode, fs[0].fd)
    ensures Redirection(s[fs[0].file.q..fs[0].file.eq], fs[0].mode, fs[0].fd) == r
    ensures RedirsMean(s, fs[1..], rs)
  {
    assert |fs| == |[r] + rs|;
    assert fs[0] in fs && RedirTexts(s, fs)[0] == r;
    forall k | 0 <= k < |rs| ensures RedirTexts(s, fs[1..])[k] == rs[k] {
      assert fs[1..][k] == fs[k + 1] && RedirTexts(s, fs)[k + 1] == ([r] + rs)[k + 1];
    }
  }

  lemma InsideBlock(s: string, i: nat, t: Cmd<string>, rs: seq<Redirection<string>>)
    requires IsCString(s) && Printable(t) && Binds(t) < 3
    requires Here(s, i, Print(t, 3) + PrintRedirs(rs))
    ensures Print(t, 3) == "(" + Print(t, 0) + ")"
    ensures Stands(s, i + 1, t, 0) && NoSpace(s, i + 1)
  {
    hide Printable, PrintRedirs;
    var p := Print(t, 0);
    assert Print(t, 3) == "(" + p + ")";
    hide Print;
    BlockParts(s, i, p, PrintRedirs(rs));
    StartHere(s, i + 1, t, 0);
  }

  lemma {:induction false} PipelineHere(s: string, i: nat, t: Cmd<string>) returns (c: Cmd<Word>)
    requires Stands(s, i, t, 2)
    ensures ParsePipe(s, i) == Ok(c, i + |Print(t, 2)|) && Means(s, c, t)
    decreases t, Rank(t, 2)
  {
    hide ParseExec, IsCString, WholeWord, IsWord, PrintArgs, PrintRedir, GetToken, Peek, GoodWords, TextsOf, GoodMode, Here;
    if t.Pipe? {
      var l, r := Print(t.left, 3), Print(t.right, 2);
      SplitAt(s, i, l, "|", r);
      var q := i + |l|;
      assert l + PrintRedirs([]) == l;
      var c1, fs := CommandHere(s, i, t.left, []);
      assert Wrap(c1, fs) == c1;
      StartHere(s, q + 1, t.right, 2);
      SymbolHere(s, q);
      PeekHere(s, q);
      var c2 := PipelineHere(s, q + 1, t.right);
      c := Pipe(c1, c2);
    } else {
      assert Print(t, 2) == Print(t, 3);
      var p := Print(t, 3);
      assert p + PrintRedirs([]) == p;
      var fs;
      c, fs := CommandHere(s, i, t, []);
      assert Wrap(c, fs) == c;
      EndHere(s, i, t, 2);
      PeekHere(s, i + |p|);
    }
  }

  /** l, a symbol, r, one after the other. */
  lemma SplitAt(s: string, i: nat, l: string, sym: string, r: string)
    requires |sym| == 1 && Here(s, i, l + sym + r)
    ensures Here(s, i, l) && i + |l| < |s| && s[i + |l|] == sym[0] && Here(s, i + |l| + 1, r)
  {
    assert l + sym + r == l + (sym + r);
    HereSplit(s, i, l, sym + r);
    HereSplit(s, i + |l|, sym, r);
    assert s[i + |l|] == s[i + |l|..i + |l| + 1][0];
  }

  /** parsepipe and the loop over '&' of parseline. */
  ghost function PipeAndBacks(s: string, i: nat): Result<Cmd<Word>>
    requires i <= |s| && IsCString(s)
  {
    var first := ParsePipe(s, i);
    if first.Panic? then first else Backs(s, first.pos, first.value)
  }

  lemma {:induction false} BackgroundHere(s: string, i: nat, t: Cmd<string>) returns (c: Cmd<Word>)
    requires Stands(s, i, t, 1)
    ensures PipeAndBacks(s, i) == Backs(s, i + |Print(t, 1)|, c) && Means(s, c, t)
    decreases t, Rank(t, 1)
  {
    hide ParsePipe, IsCString, WholeWord, IsWord, PrintArgs, PrintRedir, GetToken, Peek, GoodWords, TextsOf, GoodMode, Here;
    var e := i + |Print(t, 1)|;
    if t.Back? {
      var p := Print(t.cmd, 1);
      assert p + "&" + "" == Print(t, 1);
      SplitAt(s, i, p, "&", "");
      SymbolHere(s, e - 1);
      var c0 := BackgroundHere(s, i, t.cmd);
      c := Back(c0);
    } else {
      assert Print(t, 1) == Print(t, 2);
      c := PipelineHere(s, i, t);
    }
  }

  lemma {:induction false} LineHere(s: string, i: nat, t: Cmd<string>) returns (c: Cmd<Word>)
    requires Stands(s, i, t, 0)
    ensures ParseLine(s, i) == Ok(c, i + |Print(t, 0)|) && Means(s, c, t)
    decreases t, Rank(t, 0)
  {
    hide ParsePipe, IsCString, WholeWord, IsWord, PrintArgs, PrintRedir, GetToken, Peek, GoodWords, TextsOf, GoodMode, Here;
    if t.List? {
      var l, r := Print(t.left, 1), Print(t.right, 0);
      SplitAt(s, i, l, ";", r);
      var q := i + |l|;
      StartHere(s, q + 1, t.right, 0);
      SymbolHere(s, q);
      PeekHere(s, q);
      var c1 := BackgroundHere(s, i, t.left);
      var c2 := LineHere(s, q + 1, t.right);
      c := List(c1, c2);
    } else {
      assert Print(t, 0) == Print(t, 1);
      EndHere(s, i, t, 0);
      PeekHere(s, i + |Print(t, 0)|);
      c := BackgroundHere(s, i, t);
    }
  }

  lemma {:induction false} PrintIsCString(t: Cmd<string>, level: nat)
    requires Printable(t)
    ensures IsCString(Print(t, level))
    decreases t, if Binds(t) < level then 1 else 0
  {
    hide GoodMode;
    if Binds(t) < level {
      PrintIsCString(t, 0);
    } else {
      match t
      case Exec(args) => ArgsAreCString(args);
      case Redir(c, file, _, _) => PrintIsCString(c, 3); assert IsCString(file);
      case Pipe(l, r) => PrintIsCString(l, 3); PrintIsCString(r, 2);
      case List(l, r) => PrintIsCString(l, 1); PrintIsCString(r, 0);
      case Back(c) => PrintIsCString(c, 1);
    }
  }

  lemma {:induction false} ArgsAreCString(args: seq<string>)
    requires AllWords(args)
    ensures IsCString(PrintArgs(args))
  {
    if args != [] {
      assert args[0] in args && IsWord(args[0]);
      ArgsAreCString(args[1..]);
    }
  }

  /** Every tree of words has a text that parsecmd reads as exactly that tree. */
  lemma RoundTrip(t: Cmd<string>)
    requires Printable(t)
    ensures IsCString(Print(t, 0))
    ensures var s := Print(t, 0);
      ParseCmd(s).Ok? && Means(s, ParseCmd(s).value, t)
  {
    hide Print, Printable, ParseLine, GoodCmd;
    PrintIsCString(t, 0);
    var s := Print(t, 0);
    var c := LineHere(s, 0, t);
    PeekHere(s, |s|);
  }

  lemma {:induction false} ParsedIsPrintable(s: string, c: Cmd<Word>)
    requires IsCString(s) && GoodCmd(s, c)
    ensures Printable(Text(s, c))
  {
    match c
    case Exec(argv) =>
      forall k | 0 <= k < |argv| ensures IsWord(TextsOf(s, argv)[k]) {
        assert argv[k] in argv;
      }
    case Redir(d, _, _, _) => ParsedIsPrintable(s, d);
    case Pipe(l, r) => ParsedIsPrintable(s, l); ParsedIsPrintable(s, r);
    case List(l, r) => ParsedIsPrintable(s, l); ParsedIsPrintable(s, r);
    case Back(d) => ParsedIsPrintable(s, d);
  }

  /** The trees parsecmd can build are exactly the trees of whole words: each accepted line
      has a tree, and printing that tree gives a line with the same tree. */
  lemma ReparseSame(s: string)
    requires IsCString(s) && ParseCmd(s).Ok?
    ensures GoodCmd(s, ParseCmd(s).value)
    ensures var t := Text(s, ParseCmd(s).value);
      var p := Print(t, 0);
      IsCString(p) && ParseCmd(p).Ok? && Means(p, ParseCmd(p).value, t)
  {
    hide Print, Printable, ParseLine, GoodCmd, Text;
    LineGood(s, 0);
    var c := ParseCmd(s).value;
    ParsedIsPrintable(s, c);
    RoundTrip(Text(s, c));
  }
}
