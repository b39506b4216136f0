/**
 The language of the shell, told without a parser: which lists of tokens stand for which tree. The
 recursive descent of sh.c accepts exactly the texts in it and builds exactly their trees.
 */
module ShellLanguage {
  import opened ShellGrammar
  import opened ShellTokens

  // ---- Tokens of a text ---------------------------------------------------------------------

  function Lex(s: string, i: nat): seq<Token>
    requires i <= |s|
    decreases |s| - i
  {
    var t := GetToken(s, i);
    if t.kind == NUL then [] else [t] + Lex(s, t.next)
  }

  // A maximal word, >>, or a symbol; a > that could be read as part of >> is.
  ghost predicate TokenOk(s: string, t: Token) {
    && t.q < t.eq <= |s|
    && match t.kind
       case 'a' => WordSlice(s, Slice(t.q, t.eq))
       case '+' => s[t.q..t.eq] == ">>"
       case c => IsSymbol(c) && s[t.q..t.eq] == [c] && (c == '>' ==> CharAt(s, t.eq) != '>')
  }

  predicate Blank(s: string, i: nat, j: nat) {
    i <= j <= |s| && forall k | i <= k < j :: IsSpace(s[k])
  }

  // The tokens follow each other with nothing but blanks between them, before and after.
  ghost predicate Cut(s: string, ts: seq<Token>, i: nat) {
    if ts == [] then Blank(s, i, |s|)
    else TokenOk(s, ts[0]) && Blank(s, i, ts[0].q) && Cut(s, ts[1..], ts[0].eq)
  }

  lemma {:induction false} LexCuts(s: string, i: nat)
    requires i <= |s| && NoNul(s)
    ensures Cut(s, Lex(s, i), i)
    decreases |s| - i
  {
    var t := GetToken(s, i);
    if t.kind != NUL {
      OneToken(s, i);
      LexSkips(s, t.eq);
      LexCuts(s, t.eq);
    }
  }

  lemma OneToken(s: string, i: nat)
    requires i <= |s| && NoNul(s) && GetToken(s, i).kind != NUL
    ensures var t := GetToken(s, i); TokenOk(s, t) && Blank(s, i, t.q) && t.next == SkipSpaces(s, t.eq) && i < t.eq
  {
    hide SkipSpaces, WordEnd, WordSlice, IsSpace, IsSymbol, TokenOk;
    TokenKinds(s, i);
  }

  lemma TokenKinds(s: string, i: nat)
    requires i <= |s| && NoNul(s) && GetToken(s, i).kind != NUL
    ensures TokenOk(s, GetToken(s, i))
  {
    hide SkipSpaces, WordEnd, WordSlice, IsSpace, IsSymbol;
    NotSymbols();
    var t := GetToken(s, i);
    if t.kind == 'a' {
      WordTokenSlice(s, i);
    } else if t.kind == '+' {
      assert s[t.q..t.eq] == [s[t.q], s[t.q + 1]];
    } else {
      assert s[t.q..t.eq] == [s[t.q]];
    }
  }

  lemma NotSymbols()
    ensures !IsSymbol('a') && !IsSymbol('+') && !IsSymbol(NUL) && IsSymbol('>')
  {
  }

  lemma LexSkips(s: string, i: nat)
    requires i <= |s|
    ensures Lex(s, i) == Lex(s, SkipSpaces(s, i)) && GetToken(s, i) == GetToken(s, SkipSpaces(s, i))
  {
    TokenSkips(s, i);
    hide GetToken, SkipSpaces;
  }

  lemma TokenSkips(s: string, i: nat)
    requires i <= |s|
    ensures GetToken(s, i) == GetToken(s, SkipSpaces(s, i))
  {
    SkipTwice(s, i);
    hide WordEnd, IsSpace, IsSymbol, SkipSpaces;
  }

  lemma SkipTwice(s: string, i: nat)
    requires i <= |s|
    ensures SkipSpaces(s, SkipSpaces(s, i)) == SkipSpaces(s, i)
  {
    hide IsSpace;
  }

  // The kind of the next token is what peek goes by.
  lemma Ahead(s: string, i: nat)
    requires i <= |s| && NoNul(s)
    ensures Lex(s, SkipSpaces(s, i)) == Lex(s, i) && GetToken(s, SkipSpaces(s, i)) == GetToken(s, i)
    ensures var t := GetToken(s, i);
      && (t.kind == NUL <==> Lex(s, i) == [])
      && (t.kind != NUL ==> Lex(s, i) == [t] + Lex(s, t.next) && t.next > i)
      && (forall c | c in "(|)&;" :: Peeks(s, i, [c]) <==> t.kind == c)
      && (Peeks(s, i, "<>") <==> Arrow(t.kind))
      && (Peeks(s, i, "|)&;") <==> t.kind in "|)&;")
  {
    LexSkips(s, i);
    KindOf(s, i);
    hide GetToken, SkipSpaces;
  }

  lemma KindOf(s: string, i: nat)
    requires i <= |s| && NoNul(s)
    ensures var c, kind := CharAt(s, SkipSpaces(s, i)), GetToken(s, i).kind;
      if c == NUL then kind == NUL
      else if c == '>' then kind == '>' || kind == '+'
      else if c in "(|)&;<" then kind == c
      else kind == 'a'
  {
    hide WordEnd, SkipSpaces, IsSpace;
  }

  // ---- The language --------------------------------------------------------------------------

  predicate Arrow(kind: char) {
    kind == '<' || kind == '>' || kind == '+'
  }

  // Words and redirections, in any order among each other.
  predicate SimpleOf(ts: seq<Token>, args: seq<Slice>, rs: seq<Redirection<Slice>>) {
    if ts == [] then args == [] && rs == []
    else if ts[0].kind == 'a' then
      args != [] && args[0] == Slice(ts[0].q, ts[0].eq) && SimpleOf(ts[1..], args[1..], rs)
    else
      && Arrow(ts[0].kind) && |ts| > 1 && ts[1].kind == 'a'
      && rs != [] && rs[0] == Redirection(Slice(ts[1].q, ts[1].eq), ts[0].kind != '<')
      && SimpleOf(ts[2..], args, rs[1..])
  }

  // A line is a list of pipelines with any number of & after each; a pipeline is made of items; an
  // item is a command, or a line in parentheses with redirections around it.
  ghost predicate LineOf(ts: seq<Token>, c: Cmd<Slice>)
    decreases |ts|, 5
  {
    BacksOf(ts, c) || exists k | 0 <= k < |ts| :: ts[k].kind == ';' && ListAt(ts, c, k)
  }

  ghost predicate ListAt(ts: seq<Token>, c: Cmd<Slice>, k: nat)
    requires k < |ts|
    decreases |ts|, 4
  {
    c.List? && BacksOf(ts[..k], c.left) && LineOf(ts[k + 1..], c.right)
  }

  ghost predicate BacksOf(ts: seq<Token>, c: Cmd<Slice>)
    decreases |ts|, 3
  {
    PipeOf(ts, c) || (c.Back? && ts != [] && ts[|ts| - 1].kind == '&' && BacksOf(ts[..|ts| - 1], c.cmd))
  }

  ghost predicate PipeOf(ts: seq<Token>, c: Cmd<Slice>)
    decreases |ts|, 2
  {
    ItemOf(ts, c) || exists k | 0 <= k < |ts| :: ts[k].kind == '|' && PipeAt(ts, c, k)
  }

  ghost predicate PipeAt(ts: seq<Token>, c: Cmd<Slice>, k: nat)
    requires k < |ts|
    decreases |ts|, 1
  {
    c.Pipe? && ItemOf(ts[..k], c.left) && PipeOf(ts[k + 1..], c.right)
  }

  ghost predicate ItemOf(ts: seq<Token>, c: Cmd<Slice>)
    decreases |ts|, 1
  {
    || (exists args, rs | SimpleOf(ts, args, rs) :: |args| < MAXARGS && c == Wrap(Exec(args), rs))
    || exists k, line, rs | 0 < k < |ts| && ts[0].kind == '(' && ts[k].kind == ')' ::
         BlockAt(ts, k, line, rs) && c == Wrap(line, rs)
  }

  ghost predicate BlockAt(ts: seq<Token>, k: nat, line: Cmd<Slice>, rs: seq<Redirection<Slice>>)
    requires 0 < k < |ts|
    decreases |ts|, 0
  {
    LineOf(ts[1..k], line) && SimpleOf(ts[k + 1..], [], rs)
  }

  // ---- What is parsed is in the language --------------------------------------------------------

  lemma {:induction false} SimpleJoins(u: seq<Token>, args: seq<Slice>, rs: seq<Redirection<Slice>>,
                                       v: seq<Token>, args': seq<Slice>, rs': seq<Redirection<Slice>>)
    requires SimpleOf(u, args, rs) && SimpleOf(v, args', rs')
    ensures SimpleOf(u + v, args + args', rs + rs')
  {
    if u == [] {
      assert u + v == v && args + args' == args' && rs + rs' == rs';
    } else if u[0].kind == 'a' {
      SimpleJoins(u[1..], args[1..], rs, v, args', rs');
      assert (u + v)[1..] == u[1..] + v && (args + args')[1..] == args[1..] + args';
    } else {
      SimpleJoins(u[2..], args, rs[1..], v, args', rs');
      assert (u + v)[2..] == u[2..] + v && (rs + rs')[1..] == rs[1..] + rs';
    }
  }

  lemma SimpleNone()
    ensures SimpleOf([], [], [])
  {
  }

  lemma WordFirst(t: Token, u: seq<Token>, args: seq<Slice>, rs: seq<Redirection<Slice>>)
    requires SimpleOf(u, args, rs) && t.kind == 'a' && t.q <= t.eq
    ensures SimpleOf([t] + u, [Slice(t.q, t.eq)] + args, rs)
  {
    assert ([t] + u)[1..] == u && ([Slice(t.q, t.eq)] + args)[1..] == args;
  }

  lemma ArrowFirst(t: Token, w: Token, u: seq<Token>, args: seq<Slice>, rs: seq<Redirection<Slice>>)
    requires SimpleOf(u, args, rs) && Arrow(t.kind) && w.kind == 'a'
    ensures SimpleOf([t, w] + u, args, [Redirection(Slice(w.q, w.eq), t.kind != '<')] + rs)
  {
    var x := Redirection(Slice(w.q, w.eq), t.kind != '<');
    assert ([t, w] + u)[2..] == u && ([x] + rs)[1..] == rs;
  }

  // From position i on the redirections `more` were read, which are the tokens u.
  lemma {:induction false} RedirsDerive(s: string, rs: seq<Redirection<Slice>>, i: nat)
    returns (u: seq<Token>, more: seq<Redirection<Slice>>)
    requires i <= |s| && NoNul(s) && ParseRedirs(s, rs, i).Ok?
    ensures var r := ParseRedirs(s, rs, i);
      r.value == rs + more && Lex(s, i) == u + Lex(s, r.pos) && SimpleOf(u, [], more)
    decreases |s| - i
  {
    hide GetToken, Peeks, Lex, SimpleOf;
    Ahead(s, i);
    SimpleNone();
    u, more := [], [];
    if Peeks(s, i, "<>") {
      var t := GetToken(s, i);
      Ahead(s, t.next);
      var w := GetToken(s, t.next);
      var x := Redirection(Slice(w.q, w.eq), t.kind != '<');
      var u', more' := RedirsDerive(s, rs + [x], w.next);
      u, more := [t, w] + u', [x] + more';
      ArrowFirst(t, w, u', [], more');
    }
  }

  lemma Regroup(t: Token, u: seq<Token>, v: seq<Token>, w: seq<Token>)
    ensures [t] + (u + v) + w == [t] + (u + (v + w))
  {
  }

  lemma WordNext(s: string, c: Simple, i: nat)
    requires i <= |s| && NoNul(s) && ParseWords(s, c, i).Ok? && GetToken(s, i).kind == 'a'
    ensures var t := GetToken(s, i);
      && i < t.next && |c.args| + 1 < MAXARGS && Lex(s, i) == [t] + Lex(s, t.next)
      && var rr := ParseRedirs(s, c.redirs, t.next);
        rr.Ok? && ParseWords(s, c, i) == ParseWords(s, Simple(c.args + [Slice(t.q, t.eq)], rr.value), rr.pos)
  {
    hide GetToken, Peeks, Lex, ParseRedirs;
    Ahead(s, i);
  }

  lemma WordsEnd(s: string, c: Simple, i: nat)
    requires i <= |s| && NoNul(s) && ParseWords(s, c, i).Ok? && GetToken(s, i).kind != 'a'
    ensures ParseWords(s, c, i).value == c && Lex(s, ParseWords(s, c, i).pos) == Lex(s, i)
  {
    hide GetToken, Peeks, Lex, ParseRedirs;
    Ahead(s, i);
    Ahead(s, GetToken(s, i).next);
  }

  lemma {:induction false} WordsDerive(s: string, c: Simple, i: nat)
    returns (u: seq<Token>, args: seq<Slice>, rs: seq<Redirection<Slice>>)
    requires i <= |s| && NoNul(s) && ParseWords(s, c, i).Ok? && |c.args| < MAXARGS
    ensures var r := ParseWords(s, c, i);
      && r.value == Simple(c.args + args, c.redirs + rs) && |c.args + args| < MAXARGS
      && Lex(s, i) == u + Lex(s, r.pos) && SimpleOf(u, args, rs)
    decreases |s| - i
  {
    hide GetToken, Lex, ParseWords, ParseRedirs, SimpleOf;
    var t := GetToken(s, i);
    if t.kind != 'a' {
      WordsEnd(s, c, i);
      SimpleNone();
      u, args, rs := [], [], [];
      assert c.args + [] == c.args && c.redirs + [] == c.redirs;
    } else {
      WordNext(s, c, i);
      var rr := ParseRedirs(s, c.redirs, t.next);
      var u1, rs1 := RedirsDerive(s, c.redirs, t.next);
      var w := Slice(t.q, t.eq);
      var u2, args2, rs2 := WordsDerive(s, Simple(c.args + [w], rr.value), rr.pos);
      SimpleJoins(u1, [], rs1, u2, args2, rs2);
      u, args, rs := [t] + (u1 + u2), [w] + args2, rs1 + rs2;
      Regroup(t, u1, u2, Lex(s, ParseWords(s, c, i).pos));
      assert [] + args2 == args2;
      WordFirst(t, u1 + u2, args2, rs);
      assert c.args + [w] + args2 == c.args + args && c.redirs + rs1 + rs2 == c.redirs + rs;
    }
  }

  lemma BlockOf(open: Token, u: seq<Token>, close: Token, v: seq<Token>, line: Cmd<Slice>, rs: seq<Redirection<Slice>>)
    requires open.kind == '(' && LineOf(u, line) && close.kind == ')' && SimpleOf(v, [], rs)
    ensures ItemOf([open] + u + [close] + v, Wrap(line, rs))
  {
    hide LineOf, SimpleOf, Wrap;
    var ts, k := [open] + u + [close] + v, |u| + 1;
    assert ts[1..k] == u && ts[k + 1..] == v && ts[k] == close;
    assert BlockAt(ts, k, line, rs);
  }

  lemma PipeJoins(u: seq<Token>, bar: Token, v: seq<Token>, left: Cmd<Slice>, right: Cmd<Slice>)
    requires ItemOf(u, left) && bar.kind == '|' && PipeOf(v, right)
    ensures PipeOf(u + [bar] + v, Pipe(left, right))
  {
    hide ItemOf;
    var ts := u + [bar] + v;
    assert ts[..|u|] == u && ts[|u| + 1..] == v && ts[|u|] == bar;
    assert PipeAt(ts, Pipe(left, right), |u|);
  }

  lemma BackJoins(u: seq<Token>, amp: Token, c: Cmd<Slice>)
    requires BacksOf(u, c) && amp.kind == '&'
    ensures BacksOf(u + [amp], Back(c))
  {
    hide PipeOf;
    assert (u + [amp])[..|u|] == u;
  }

  lemma ListJoins(u: seq<Token>, semi: Token, v: seq<Token>, left: Cmd<Slice>, right: Cmd<Slice>)
    requires BacksOf(u, left) && semi.kind == ';' && LineOf(v, right)
    ensures LineOf(u + [semi] + v, List(left, right))
  {
    hide BacksOf;
    var ts := u + [semi] + v;
    assert ts[..|u|] == u && ts[|u| + 1..] == v && ts[|u|] == semi;
    assert ListAt(ts, List(left, right), |u|);
  }

  lemma {:induction false} ExecDerives(s: string, i: nat) returns (u: seq<Token>)
    requires i <= |s| && NoNul(s) && ParseExec(s, i).Ok?
    ensures var r := ParseExec(s, i); Lex(s, i) == u + Lex(s, r.pos) && ItemOf(u, r.value)
    decreases |s| - i, 1
  {
    hide GetToken, Peeks, Lex, ParseRedirs, ParseWords, ParseBlock, SimpleOf, LineOf, BlockAt, Wrap, ItemOf;
    Ahead(s, i);
    var j := SkipSpaces(s, i);
    if Peeks(s, i, "(") {
      u := BlockDerives(s, j);
    } else {
      var rr := ParseRedirs(s, [], j);
      var u1, rs1 := RedirsDerive(s, [], j);
      var u2, args, rs2 := WordsDerive(s, Simple([], rr.value), rr.pos);
      SimpleJoins(u1, [], rs1, u2, args, rs2);
      assert [] + args == args && [] + rs1 == rs1;
      u := u1 + u2;
      SimpleItem(u, args, rs1 + rs2);
    }
  }

  lemma SimpleItem(ts: seq<Token>, args: seq<Slice>, rs: seq<Redirection<Slice>>)
    requires SimpleOf(ts, args, rs) && |args| < MAXARGS
    ensures ItemOf(ts, Wrap(Exec(args), rs))
  {
    hide SimpleOf, Wrap;
  }

  lemma {:induction false} BlockDerives(s: string, i: nat) returns (u: seq<Token>)
    requires i <= |s| && NoNul(s) && ParseBlock(s, i).Ok?
    ensures var r := ParseBlock(s, i); Lex(s, i) == u + Lex(s, r.pos) && ItemOf(u, r.value)
    decreases |s| - i, 0
  {
    hide GetToken, Peeks, Lex, ParseRedirs, ParseLine, SimpleOf, LineOf, ItemOf, Wrap;
    Ahead(s, i);
    var t := GetToken(s, i);
    var line := ParseLine(s, t.next);
    var u1 := LineDerives(s, t.next);
    Ahead(s, line.pos);
    var close := GetToken(s, line.pos);
    var rr := ParseRedirs(s, [], close.next);
    var u2, rs := RedirsDerive(s, [], close.next);
    assert [] + rs == rs;
    BlockOf(t, u1, close, u2, line.value, rs);
    u := [t] + u1 + [close] + u2;
    assert Lex(s, i) == [t] + (u1 + ([close] + (u2 + Lex(s, rr.pos))));
  }

  lemma {:induction false} PipeDerives(s: string, i: nat) returns (u: seq<Token>)
    requires i <= |s| && NoNul(s) && ParsePipe(s, i).Ok?
    ensures var r := ParsePipe(s, i); Lex(s, i) == u + Lex(s, r.pos) && PipeOf(u, r.value)
    decreases |s| - i, 2
  {
    hide GetToken, Peeks, Lex, ParseExec, ItemOf, PipeAt;
    var left := ParseExec(s, i);
    u := ExecDerives(s, i);
    Ahead(s, left.pos);
    if Peeks(s, left.pos, "|") {
      var t := GetToken(s, left.pos);
      var v := PipeDerives(s, t.next);
      PipeJoins(u, t, v, left.value, ParsePipe(s, t.next).value);
      Around(u, t, v, Lex(s, ParsePipe(s, i).pos));
      u := u + [t] + v;
    }
  }

  lemma Around(u: seq<Token>, t: Token, v: seq<Token>, w: seq<Token>)
    ensures u + [t] + v + w == u + ([t] + (v + w))
  {
  }

  lemma {:induction false} BacksDerive(s: string, cmd: Cmd<Slice>, i: nat, u: seq<Token>) returns (v: seq<Token>)
    requires i <= |s| && NoNul(s) && BacksOf(u, cmd)
    ensures var r := ParseBacks(s, cmd, i); Lex(s, i) == v + Lex(s, r.pos) && BacksOf(u + v, r.value)
    decreases |s| - i
  {
    hide GetToken, Peeks, Lex, BacksOf;
    Ahead(s, i);
    v := [];
    assert u + [] == u;
    if Peeks(s, i, "&") {
      var t := GetToken(s, i);
      BackJoins(u, t, cmd);
      v := BacksDerive(s, Back(cmd), t.next, u + [t]);
      assert u + [t] + v == u + ([t] + v);
      v := [t] + v;
    }
  }

  lemma {:induction false} LineDerives(s: string, i: nat) returns (u: seq<Token>)
    requires i <= |s| && NoNul(s) && ParseLine(s, i).Ok?
    ensures var r := ParseLine(s, i); Lex(s, i) == u + Lex(s, r.pos) && LineOf(u, r.value)
    decreases |s| - i, 3
  {
    hide GetToken, Peeks, Lex, ParsePipe, ParseBacks, PipeOf, ListAt;
    var first := ParsePipe(s, i);
    var u1 := PipeDerives(s, i);
    var u2 := BacksDerive(s, first.value, first.pos, u1);
    var backs := ParseBacks(s, first.value, first.pos);
    u := u1 + u2;
    assert Lex(s, i) == u + Lex(s, backs.pos);
    Ahead(s, backs.pos);
    if Peeks(s, backs.pos, ";") {
      var t := GetToken(s, backs.pos);
      var v := LineDerives(s, t.next);
      ListJoins(u, t, v, backs.value, ParseLine(s, t.next).value);
      Around(u, t, v, Lex(s, ParseLine(s, i).pos));
      u := u + [t] + v;
    }
  }

  // ---- What is in the language is parsed, and as its tree ------------------------------------------

  // No token follows, or one of these kinds does.
  predicate Stops(v: seq<Token>, kinds: string) {
    v == [] || v[0].kind in kinds
  }

  // One token further.
  lemma Advance(s: string, i: nat, u: seq<Token>, v: seq<Token>)
    requires i <= |s| && NoNul(s) && Lex(s, i) == u + v && u != []
    ensures u[0] == GetToken(s, i) && u[0].kind != NUL && i < u[0].next <= |s| && Lex(s, u[0].next) == u[1..] + v
  {
    hide Lex, GetToken, Peeks;
    Ahead(s, i);
    var t := GetToken(s, i);
    assert (u + v)[0] == u[0] && (u + v)[1..] == u[1..] + v;
    assert ([t] + Lex(s, t.next))[1..] == Lex(s, t.next);
  }

  // No redirection follows: parseredirs and parseexec's loop read no more.
  lemma NothingMore(s: string, i: nat, v: seq<Token>)
    requires i <= |s| && NoNul(s) && Lex(s, i) == v && Stops(v, "|)&;")
    ensures forall rs :: ParseRedirs(s, rs, i) == Ok(rs, SkipSpaces(s, i))
    ensures forall c: Simple :: var w := ParseWords(s, c, i); w.Ok? && w.value == c && Lex(s, w.pos) == v
    ensures Lex(s, SkipSpaces(s, i)) == v
  {
    hide Lex, GetToken, Peeks;
    Ahead(s, i);
    if v == [] {
      Ahead(s, GetToken(s, i).next);
    }
  }

  // A redirection is read.
  lemma OneRedir(s: string, rs: seq<Redirection<Slice>>, i: nat, u: seq<Token>, v: seq<Token>)
    requires i <= |s| && NoNul(s) && Lex(s, i) == u + v && |u| > 1 && Arrow(u[0].kind) && u[1].kind == 'a'
    ensures i < u[1].next <= |s| && Lex(s, u[1].next) == u[2..] + v
    ensures u[1].q <= u[1].eq
    ensures ParseRedirs(s, rs, i) ==
            ParseRedirs(s, rs + [Redirection(Slice(u[1].q, u[1].eq), u[0].kind != '<')], u[1].next)
  {
    hide Lex, GetToken, Peeks;
    Ahead(s, i);
    Advance(s, i, u, v);
    Advance(s, u[0].next, u[1..], v);
    assert u[1..][1..] == u[2..];
  }

  // A word is read.
  lemma OneWord(s: string, c: Simple, i: nat, u: seq<Token>, v: seq<Token>)
    requires i <= |s| && NoNul(s) && Lex(s, i) == u + v && u != [] && u[0].kind == 'a' && |c.args| + 1 < MAXARGS
    ensures i < u[0].next <= |s| && Lex(s, u[0].next) == u[1..] + v
    ensures u[0].q <= u[0].eq
    ensures ParseRedirs(s, c.redirs, i) == Ok(c.redirs, SkipSpaces(s, i))
    ensures var rr := ParseRedirs(s, c.redirs, u[0].next);
      rr.Ok? ==> ParseWords(s, c, SkipSpaces(s, i)) ==
                 ParseWords(s, Simple(c.args + [Slice(u[0].q, u[0].eq)], rr.value), rr.pos)
  {
    hide Lex, GetToken, Peeks;
    Advance(s, i, u, v);
    Ahead(s, i);
    Ahead(s, SkipSpaces(s, i));
    SkipTwice(s, i);
  }

  lemma {:induction false} RedirsRead(s: string, rs: seq<Redirection<Slice>>, i: nat,
                                      u: seq<Token>, v: seq<Token>, more: seq<Redirection<Slice>>)
    requires i <= |s| && NoNul(s) && Lex(s, i) == u + v && SimpleOf(u, [], more) && Stops(v, "|)&;")
    ensures var r := ParseRedirs(s, rs, i); r.Ok? && r.value == rs + more && Lex(s, r.pos) == v
    decreases |u|
  {
    hide GetToken, Lex, Stops, ParseRedirs;
    if u == [] {
      assert u + v == v && rs + more == rs;
      NothingMore(s, i, v);
    } else {
      OneRedir(s, rs, i, u, v);
      RedirsRead(s, rs + [more[0]], u[1].next, u[2..], v, more[1..]);
      assert rs + [more[0]] + more[1..] == rs + more;
    }
  }

  // parseexec without a block: redirections, then words with redirections.
  lemma {:induction false} SimpleRead(s: string, c: Simple, i: nat,
                                      u: seq<Token>, v: seq<Token>, args: seq<Slice>, rs: seq<Redirection<Slice>>)
    requires i <= |s| && NoNul(s) && Lex(s, i) == u + v && SimpleOf(u, args, rs) && Stops(v, "|)&;")
    requires |c.args| + |args| < MAXARGS
    ensures var rr := ParseRedirs(s, c.redirs, i);
      && rr.Ok?
      && var w := ParseWords(s, Simple(c.args, rr.value), rr.pos);
        w.Ok? && w.value == Simple(c.args + args, c.redirs + rs) && Lex(s, w.pos) == v
    decreases |u|
  {
    hide GetToken, Lex, Stops, ParseRedirs, ParseWords;
    if u == [] {
      assert u + v == v && c.args + args == c.args && c.redirs + rs == c.redirs;
      NothingMore(s, i, v);
      NothingMore(s, SkipSpaces(s, i), v);
      assert Simple(c.args, c.redirs) == c;
    } else if u[0].kind == 'a' {
      OneWord(s, c, i, u, v);
      SimpleRead(s, Simple(c.args + [args[0]], c.redirs), u[0].next, u[1..], v, args[1..], rs);
      assert c.args + [args[0]] + args[1..] == c.args + args;
    } else {
      OneRedir(s, c.redirs, i, u, v);
      SimpleRead(s, Simple(c.args, c.redirs + [rs[0]]), u[1].next, u[2..], v, args, rs[1..]);
      assert c.redirs + [rs[0]] + rs[1..] == c.redirs + rs;
    }
  }

  ghost predicate Reads(s: string, r: Result<Cmd<Slice>>, c: Cmd<Slice>, v: seq<Token>) {
    r.Ok? && r.value == c && r.pos <= |s| && Lex(s, r.pos) == v
  }

  lemma {:induction false} ItemRead(s: string, i: nat, u: seq<Token>, v: seq<Token>, c: Cmd<Slice>)
    requires i <= |s| && NoNul(s) && Lex(s, i) == u + v && ItemOf(u, c) && Stops(v, "|)&;")
    ensures Reads(s, ParseExec(s, i), c, v)
    decreases |u|, 0
  {
    hide GetToken, Lex, Peeks, ParseBlock, ParseRedirs, ParseWords, ParseLine, SimpleOf, LineOf, Wrap, Stops, BlockAt;
    if args, rs :| SimpleOf(u, args, rs) && |args| < MAXARGS && c == Wrap(Exec(args), rs) {
      ExecRead(s, i, u, v, args, rs);
    } else {
      var k, line, rs :| 0 < k < |u| && u[0].kind == '(' && u[k].kind == ')' && BlockAt(u, k, line, rs)
        && c == Wrap(line, rs);
      Ahead(s, i);
      var j := SkipSpaces(s, i);
      Advance(s, j, u, v);
      BlockRead(s, j, u, v, k, line, rs);
    }
  }

  lemma ExecRead(s: string, i: nat, u: seq<Token>, v: seq<Token>, args: seq<Slice>, rs: seq<Redirection<Slice>>)
    requires i <= |s| && NoNul(s) && Lex(s, i) == u + v && SimpleOf(u, args, rs) && |args| < MAXARGS
    requires Stops(v, "|)&;")
    ensures Reads(s, ParseExec(s, i), Wrap(Exec(args), rs), v)
  {
    hide GetToken, Lex, Peeks, ParseBlock, ParseRedirs, ParseWords, ParseLine, Wrap;
    Ahead(s, i);
    assert u == [] ==> u + v == v;
    assert u != [] ==> (u + v)[0] == u[0];
    SimpleRead(s, Simple([], []), SkipSpaces(s, i), u, v, args, rs);
    assert [] + args == args && [] + rs == rs;
  }

  lemma {:induction false} BlockRead(s: string, i: nat, u: seq<Token>, v: seq<Token>,
                                     k: nat, line: Cmd<Slice>, rs: seq<Redirection<Slice>>)
    requires i <= |s| && NoNul(s) && Lex(s, i) == u + v && 0 < k < |u| && Stops(v, "|)&;")
    requires u[0].kind == '(' && u[k].kind == ')' && BlockAt(u, k, line, rs)
    ensures Reads(s, ParseBlock(s, i), Wrap(line, rs), v)
    decreases |u| - 1, 4
  {
    hide GetToken, Lex, Peeks, ParseRedirs, ParseLine, SimpleOf, LineOf, Wrap;
    Ahead(s, i);
    Advance(s, i, u, v);
    assert u[1..] + v == u[1..k] + (u[k..] + v);
    LineRead(s, u[0].next, u[1..k], u[k..] + v, line);
    var p := ParseLine(s, u[0].next).pos;
    Ahead(s, p);
    Advance(s, p, u[k..], v);
    assert u[k..][1..] == u[k + 1..];
    RedirsRead(s, [], u[k].next, u[k + 1..], v, rs);
    assert [] + rs == rs;
  }

  lemma {:induction false} PipeRead(s: string, i: nat, u: seq<Token>, v: seq<Token>, c: Cmd<Slice>)
    requires i <= |s| && NoNul(s) && Lex(s, i) == u + v && PipeOf(u, c) && Stops(v, ")&;")
    ensures Reads(s, ParsePipe(s, i), c, v)
    decreases |u|, 1
  {
    hide GetToken, Lex, Peeks, ParseExec, ItemOf;
    if ItemOf(u, c) {
      ItemRead(s, i, u, v, c);
      Ahead(s, ParseExec(s, i).pos);
    } else {
      var k :| 0 <= k < |u| && u[k].kind == '|' && PipeAt(u, c, k);
      assert u + v == u[..k] + (u[k..] + v);
      ItemRead(s, i, u[..k], u[k..] + v, c.left);
      var p := ParseExec(s, i).pos;
      Ahead(s, p);
      Advance(s, p, u[k..], v);
      assert u[k..][1..] == u[k + 1..];
      PipeRead(s, u[k].next, u[k + 1..], v, c.right);
    }
  }

  // After the pipeline and the & of u, which may be followed by more of them, parseline's loop is
  // at position p with c in hand.
  lemma {:induction false} BacksRead(s: string, i: nat, u: seq<Token>, v: seq<Token>, c: Cmd<Slice>) returns (p: nat)
    requires i <= |s| && NoNul(s) && Lex(s, i) == u + v && BacksOf(u, c) && Stops(v, ")&;")
    ensures p <= |s| && Lex(s, p) == v
    ensures var first := ParsePipe(s, i);
      first.Ok? && ParseBacks(s, first.value, first.pos) == ParseBacks(s, c, p)
    decreases |u|, 2
  {
    hide GetToken, Lex, Peeks, ParsePipe, PipeOf;
    if PipeOf(u, c) {
      PipeRead(s, i, u, v, c);
      p := ParsePipe(s, i).pos;
    } else {
      var n := |u| - 1;
      assert u + v == u[..n] + ([u[n]] + v);
      var q := BacksRead(s, i, u[..n], [u[n]] + v, c.cmd);
      Ahead(s, q);
      Advance(s, q, [u[n]], v);
      assert [u[n]][1..] + v == v;
      p := u[n].next;
    }
  }

  lemma {:induction false} LineRead(s: string, i: nat, u: seq<Token>, v: seq<Token>, c: Cmd<Slice>)
    requires i <= |s| && NoNul(s) && Lex(s, i) == u + v && LineOf(u, c) && Stops(v, ")")
    ensures Reads(s, ParseLine(s, i), c, v)
    decreases |u|, 3
  {
    hide GetToken, Lex, Peeks, ParsePipe, BacksOf, ParseBacks;
    if BacksOf(u, c) {
      var p := BacksRead(s, i, u, v, c);
      BacksStop(s, c, p, v);
    } else {
      var k :| 0 <= k < |u| && u[k].kind == ';' && ListAt(u, c, k);
      assert u + v == u[..k] + (u[k..] + v);
      var p := BacksRead(s, i, u[..k], u[k..] + v, c.left);
      BacksStop(s, c.left, p, u[k..] + v);
      var q := SkipSpaces(s, p);
      Advance(s, q, u[k..], v);
      assert u[k..][1..] == u[k + 1..];
      LineRead(s, u[k].next, u[k + 1..], v, c.right);
    }
  }

  lemma BacksStop(s: string, c: Cmd<Slice>, p: nat, v: seq<Token>)
    requires p <= |s| && NoNul(s) && Lex(s, p) == v && Stops(v, ");")
    ensures var q := SkipSpaces(s, p);
      && ParseBacks(s, c, p) == Ok(c, q) && Lex(s, q) == v && SkipSpaces(s, q) == q && GetToken(s, q) == GetToken(s, p)
      && (Peeks(s, q, ";") <==> v != [] && v[0].kind == ';')
  {
    hide GetToken, Lex, Peeks;
    Ahead(s, p);
    SkipTwice(s, p);
    Ahead(s, SkipSpaces(s, p));
  }

  // parsecmd accepts exactly the texts of the language, and its tree is the text's only one.
  lemma ParsesExactly(s: string, c: Cmd<Slice>)
    requires NoNul(s)
    ensures ParseCmd(s) == Ok(c, |s|) <==> LineOf(Lex(s, 0), c)
  {
    hide GetToken, Lex, ParseLine, LineOf;
    if ParseCmd(s) == Ok(c, |s|) {
      var u := LineDerives(s, 0);
      var p := ParseLine(s, 0).pos;
      AtEnd(s, p);
      assert u + [] == u;
    }
    if LineOf(Lex(s, 0), c) {
      assert Lex(s, 0) + [] == Lex(s, 0);
      LineRead(s, 0, Lex(s, 0), [], c);
      AtEnd(s, ParseLine(s, 0).pos);
    }
  }

  lemma AtEnd(s: string, p: nat)
    requires p <= |s| && NoNul(s)
    ensures Lex(s, p) == [] <==> SkipSpaces(s, p) == |s|
  {
  }
}
