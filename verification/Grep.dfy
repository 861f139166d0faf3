/** The regular-expression matcher of grep.c, proved against the language its
    patterns denote. A C string is a NUL-free sequence; reading at its length
    gives the terminator. */
module Grep {

  ghost predicate IsCString(s: string) {
    '\0' !in s
  }

  function At(s: string, i: nat): char
    requires i <= |s|
  {
    if i < |s| then s[i] else '\0'
  }

  // ---------------------------------------------------------------- meaning

  datatype Atom = Any | Lit(c: char)
  datatype Item = One(atom: Atom) | Star(atom: Atom)
  datatype Regex = Regex(items: seq<Item>, atEnd: bool)

  predicate Accepts(a: Atom, c: char) {
    a.Any? || a.c == c
  }

  function AtomOf(c: char): Atom {
    if c == '.' then Any else Lit(c)
  }

  /** The regex that a pattern without its leading '^' writes down. */
  function Parse(re: string): Regex {
    if re == "" then Regex([], false)
    else if |re| >= 2 && re[1] == '*' then
      var rest := Parse(re[2..]);
      Regex([Star(AtomOf(re[0]))] + rest.items, rest.atEnd)
    else if re == "$" then Regex([], true)
    else
      var rest := Parse(re[1..]);
      Regex([One(AtomOf(re[0]))] + rest.items, rest.atEnd)
  }

  ghost predicate AllAccepted(a: Atom, s: string) {
    forall i :: 0 <= i < |s| ==> Accepts(a, s[i])
  }

  /** s is a word of the language of the concatenated items. */
  ghost predicate InLanguage(items: seq<Item>, s: string)
    decreases |items|
  {
    if items == [] then s == ""
    else match items[0]
      case One(a) => s != "" && Accepts(a, s[0]) && InLanguage(items[1..], s[1..])
      case Star(a) => exists k :: 0 <= k <= |s| && AllAccepted(a, s[..k]) && InLanguage(items[1..], s[k..])
  }

  /** text[i..j] is a word of r, and reaches the end of text if r is anchored there. */
  ghost predicate Occurrence(r: Regex, text: string, i: nat, j: nat) {
    i <= j <= |text| && InLanguage(r.items, text[i..j]) && (r.atEnd ==> j == |text|)
  }

  ghost predicate MatchesAt(r: Regex, text: string, i: nat) {
    exists j: nat :: Occurrence(r, text, i, j)
  }

  /** What a grep pattern means: some substring of text is a word of it. */
  ghost predicate Means(re: string, text: string) {
    if re != "" && re[0] == '^' then MatchesAt(Parse(re[1..]), text, 0)
    else exists i: nat :: i <= |text| && MatchesAt(Parse(re), text, i)
  }

  // --------------------------------------------------- unfolding the meaning

  lemma OneUnfolds(a: Atom, rest: Regex, text: string, i: nat)
    requires i <= |text|
    ensures MatchesAt(Regex([One(a)] + rest.items, rest.atEnd), text, i)
       <==> i < |text| && Accepts(a, text[i]) && MatchesAt(rest, text, i + 1)
  {
    var r := Regex([One(a)] + rest.items, rest.atEnd);
    assert r.items[1..] == rest.items;
    forall j: nat | i < j <= |text|
      ensures text[i..j] != "" && text[i..j][0] == text[i] && text[i..j][1..] == text[i + 1..j]
    {}
    if MatchesAt(r, text, i) {
      var j: nat :| Occurrence(r, text, i, j);
      assert Occurrence(rest, text, i + 1, j);
    }
    if i < |text| && Accepts(a, text[i]) && MatchesAt(rest, text, i + 1) {
      var j: nat :| Occurrence(rest, text, i + 1, j);
      assert Occurrence(r, text, i, j);
    }
  }

  lemma StarUnfolds(a: Atom, rest: Regex, text: string, i: nat)
    requires i <= |text|
    ensures MatchesAt(Regex([Star(a)] + rest.items, rest.atEnd), text, i)
       <==> exists m: nat :: i <= m <= |text| && AllAccepted(a, text[i..m]) && MatchesAt(rest, text, m)
  {
    var r := Regex([Star(a)] + rest.items, rest.atEnd);
    assert r.items[1..] == rest.items;
    if MatchesAt(r, text, i) {
      var j: nat :| Occurrence(r, text, i, j);
      var s := text[i..j];
      var k :| 0 <= k <= |s| && AllAccepted(a, s[..k]) && InLanguage(rest.items, s[k..]);
      assert s[..k] == text[i..i + k] && s[k..] == text[i + k..j];
      assert Occurrence(rest, text, i + k, j);
    }
    if m: nat :| i <= m <= |text| && AllAccepted(a, text[i..m]) && MatchesAt(rest, text, m) {
      var j: nat :| Occurrence(rest, text, m, j);
      var s := text[i..j];
      assert s[..m - i] == text[i..m] && s[m - i..] == text[m..j];
      assert Occurrence(r, text, i, j);
    }
  }

  lemma EmptyMatches(text: string, i: nat)
    requires i <= |text|
    ensures MatchesAt(Regex([], false), text, i)
    ensures MatchesAt(Regex([], true), text, i) <==> i == |text|
  {
    assert text[i..i] == "";
    assert Occurrence(Regex([], false), text, i, i);
    if i == |text| {
      assert Occurrence(Regex([], true), text, i, i);
    }
  }

  // ------------------------------------------------------------- the matcher

  /** match: r holds exactly when some substring of text is a word of re. */
  method Match(re: string, text: string) returns (r: bool)
    requires IsCString(re) && IsCString(text)
    ensures r <==> Means(re, text)
  {
    if At(re, 0) == '^' {
      r := MatchHere(re, 1, text, 0);
      return;
    }
    assert re[0..] == re;
    var t := 0;
    while true
      invariant t <= |text|
      invariant forall i: nat :: i < t ==> !MatchesAt(Parse(re), text, i)
      decreases |text| - t
    {
      var here := MatchHere(re, 0, text, t);
      if here {
        return true;
      }
      if At(text, t) == '\0' {
        return false;
      }
      t := t + 1;
    }
  }

  /** matchhere: the pattern re + p at the text position t. */
  method MatchHere(re: string, p: nat, text: string, t: nat) returns (r: bool)
    requires IsCString(re) && IsCString(text)
    requires p <= |re| && t <= |text|
    ensures r <==> MatchesAt(Parse(re[p..]), text, t)
    decreases |re| - p, 0, |text| - t
  {
    var s := re[p..];
    EmptyMatches(text, t);
    if At(re, p) == '\0' {
      return true;
    }
    if At(re, p + 1) == '*' {
      assert s[2..] == re[p + 2..];
      r := MatchStar(At(re, p), re, p + 2, text, t);
      StarUnfolds(AtomOf(re[p]), Parse(re[p + 2..]), text, t);
      return;
    }
    if At(re, p) == '$' && At(re, p + 1) == '\0' {
      assert s == "$";
      return At(text, t) == '\0';
    }
    assert s != "$" && s[1..] == re[p + 1..];
    OneUnfolds(AtomOf(re[p]), Parse(re[p + 1..]), text, t);
    if At(text, t) != '\0' && (At(re, p) == '.' || At(re, p) == At(text, t)) {
      r := MatchHere(re, p + 1, text, t + 1);
      return;
    }
    return false;
  }

  /** matchstar: c* followed by the pattern re + p, at the text position t. */
  method MatchStar(c: char, re: string, p: nat, text: string, t: nat) returns (r: bool)
    requires IsCString(re) && IsCString(text) && c != '\0'
    requires p <= |re| && t <= |text|
    ensures r <==> exists m: nat :: t <= m <= |text| && AllAccepted(AtomOf(c), text[t..m])
                                    && MatchesAt(Parse(re[p..]), text, m)
    decreases |re| - p, 1
  {
    var q := t;
    while true
      invariant t <= q <= |text|
      invariant AllAccepted(AtomOf(c), text[t..q])
      invariant forall m: nat :: t <= m < q ==> !MatchesAt(Parse(re[p..]), text, m)
      decreases |text| - q
    {
      var here := MatchHere(re, p, text, q);
      if here {
        return true;
      }
      if At(text, q) == '\0' {
        return false;
      }
      q := q + 1;
      if !(At(text, q - 1) == c || c == '.') {
        assert forall m: nat :: q <= m <= |text| ==> text[t..m][q - 1 - t] == text[q - 1];
        return false;
      }
      assert text[t..q] == text[t..q - 1] + [text[q - 1]];
    }
  }
}
