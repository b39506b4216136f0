/**
 Printing a command tree and parsing it gives the tree back, for every tree the parser can
 build: right-nested pipes and lists, stacked &, redirections around words and blocks.
 */
module ShellRoundTrip {
  import opened ShellGrammar

  // The text p stands at position i of s.
  ghost predicate PrintedAt(s: string, i: nat, p: string) {
    i + |p| <= |s| && s[i..i + |p|] == p
  }

  // No space at position e: peek and gettoken would not move on from here.
  ghost predicate Solid(s: string, e: nat) {
    e <= |s| && (e < |s| ==> !IsSpace(s[e]))
  }

  // The text ends at e, or goes on with one of the given symbols.
  ghost predicate Follows(s: string, e: nat, symbols: string) {
    e <= |s| && (e < |s| ==> s[e] in symbols && IsSymbol(s[e]))
  }

  lemma Split(s: string, i: nat, p: string, q: string)
    requires PrintedAt(s, i, p + q)
    ensures PrintedAt(s, i, p) && PrintedAt(s, i + |p|, q)
  {
    assert p == (p + q)[..|p|] && q == (p + q)[|p|..];
    assert s[i..i + |p|] == s[i..i + |p + q|][..|p|];
    assert s[i + |p|..i + |p| + |q|] == s[i..i + |p + q|][|p|..];
  }

  lemma FirstChar(s: string, i: nat, p: string)
    requires PrintedAt(s, i, p) && p != []
    ensures s[i] == p[0]
  {
    assert s[i..i + |p|][0] == p[0];
  }

  // ---- Tokens -----------------------------------------------------------------------

  lemma {:induction false} WordEndIs(s: string, i: nat, e: nat)
    requires i <= e < |s| && (IsSpace(s[e]) || IsSymbol(s[e]))
    requires forall k | i <= k < e :: !IsSpace(s[k]) && !IsSymbol(s[k])
    ensures WordEnd(s, i) == e
    decreases e - i
  {
    if i < e {
      WordEndIs(s, i + 1, e);
    }
  }

  lemma WordToken(s: string, i: nat, w: string)
    requires PrintedAt(s, i, w + " ") && IsWord(w) && Solid(s, i + |w| + 1)
    ensures GetToken(s, i) == Token('a', i, i + |w|, i + |w| + 1)
    ensures Solid(s, i) && i < |s| && IsWordChar(s[i]) && Text(s, Slice(i, i + |w|)) == w
  {
    var e := i + |w|;
    Split(s, i, w, " ");
    FirstChar(s, e, " ");
    forall k | i <= k < e
      ensures IsWordChar(s[k])
    {
      assert s[k] == s[i..e][k - i];
    }
    WordEndIs(s, i, e);
    assert SkipSpaces(s, e + 1) == e + 1;
  }

  lemma SymbolToken(s: string, i: nat)
    requires i < |s| && IsSymbol(s[i]) && Solid(s, i + 1)
    requires s[i] == '>' ==> CharAt(s, i + 1) != '>'
    ensures GetToken(s, i) == Token(s[i], i, i + 1, i + 1)
    ensures Solid(s, i)
  {
  }

  // ---- Redirections ---------------------------------------------------------------------

  function ResolveRedirs(s: string, rs: seq<Redirection<Slice>>): (r: seq<Redirection<string>>)
    ensures |r| == |rs|
    ensures forall k | 0 <= k < |r| :: r[k] == Redirection(Text(s, rs[k].file), rs[k].out)
  {
    seq(|rs|, k requires 0 <= k < |rs| => Redirection(Text(s, rs[k].file), rs[k].out))
  }

  ghost predicate FilesOk(rs: seq<Redirection<string>>) {
    forall k | 0 <= k < |rs| :: IsWord(rs[k].file)
  }

  // What printing starts with is never a space.
  lemma RedirsSolid(s: string, i: nat, rs: seq<Redirection<string>>)
    requires PrintedAt(s, i, PrintRedirs(rs)) && Solid(s, i + |PrintRedirs(rs)|)
    ensures Solid(s, i)
    ensures rs != [] ==> i < |s| && s[i] == if rs[0].out then '>' else '<'
    ensures rs == [] ==> PrintRedirs(rs) == ""
  {
    if rs != [] {
      FirstChar(s, i, PrintRedirs(rs));
    }
  }

  lemma RedirsStop(s: string, i: nat, acc: seq<Redirection<Slice>>)
    requires Solid(s, i) && CharAt(s, i) != '<' && CharAt(s, i) != '>'
    ensures ParseRedirs(s, acc, i) == Ok(acc, i)
  {
  }

  lemma RedirsStep(s: string, i: nat, w: string, acc: seq<Redirection<Slice>>)
    requires i < |s| && (s[i] == '<' || s[i] == '>')
    requires PrintedAt(s, i + 1, w + " ") && IsWord(w) && Solid(s, i + |w| + 2)
    ensures ParseRedirs(s, acc, i) ==
      ParseRedirs(s, acc + [Redirection(Slice(i + 1, i + 1 + |w|), s[i] == '>')], i + |w| + 2)
    ensures Text(s, Slice(i + 1, i + 1 + |w|)) == w
  {
    hide GetToken, WordEnd, PrintedAt, IsWord, Text;
    WordToken(s, i + 1, w);
    SymbolToken(s, i);
  }

  // A printed redirection taken apart.
  lemma RedirsPrinted(s: string, i: nat, rs: seq<Redirection<string>>)
    requires PrintedAt(s, i, PrintRedirs(rs)) && Solid(s, i + |PrintRedirs(rs)|) && rs != []
    ensures i < |s| && s[i] == (if rs[0].out then '>' else '<')
    ensures PrintedAt(s, i + 1, rs[0].file + " ")
    ensures var m := i + |rs[0].file| + 2;
      && PrintedAt(s, m, PrintRedirs(rs[1..])) && Solid(s, m)
      && m + |PrintRedirs(rs[1..])| == i + |PrintRedirs(rs)|
  {
    hide PrintedAt, Solid, IsSpace;
    var sign, word, rest := if rs[0].out then ">" else "<", rs[0].file + " ", PrintRedirs(rs[1..]);
    assert PrintRedirs(rs) == sign + (word + rest);
    Split(s, i, sign, word + rest);
    Split(s, i + 1, word, rest);
    FirstChar(s, i, sign);
    RedirsSolid(s, i + 1 + |word|, rs[1..]);
  }

  lemma {:induction false} RedirsParse(s: string, i: nat, rs: seq<Redirection<string>>, acc: seq<Redirection<Slice>>)
    requires PrintedAt(s, i, PrintRedirs(rs)) && FilesOk(rs)
    requires var e := i + |PrintRedirs(rs)|; Solid(s, e) && CharAt(s, e) != '<' && CharAt(s, e) != '>'
    ensures var r := ParseRedirs(s, acc, i);
      && r.Ok? && r.pos == i + |PrintRedirs(rs)|
      && ResolveRedirs(s, r.value) == ResolveRedirs(s, acc) + rs
    decreases |rs|
  {
    hide PrintedAt, IsWord, Solid, ParseRedirs, ResolveRedirs, Text;
    if rs == [] {
      RedirsStop(s, i, acc);
    } else {
      RedirsPrinted(s, i, rs);
      var w := rs[0].file;
      RedirsStep(s, i, w, acc);
      var acc' := acc + [Redirection(Slice(i + 1, i + 1 + |w|), s[i] == '>')];
      RedirsParse(s, i + |w| + 2, rs[1..], acc');
      assert ResolveRedirs(s, acc') == ResolveRedirs(s, acc) + [rs[0]];
      assert rs == [rs[0]] + rs[1..];
    }
  }

  // ---- Words ------------------------------------------------------------------------------

  ghost predicate WordsOk(ws: seq<string>) {
    forall k | 0 <= k < |ws| :: IsWord(ws[k])
  }

  lemma WordsSolid(s: string, i: nat, ws: seq<string>)
    requires PrintedAt(s, i, PrintWords(ws)) && Solid(s, i + |PrintWords(ws)|) && WordsOk(ws)
    ensures Solid(s, i)
    ensures ws != [] ==> i < |s| && IsWordChar(s[i])
  {
    if ws != [] {
      FirstChar(s, i, PrintWords(ws));
      assert PrintWords(ws)[0] == ws[0][0];
    }
  }

  ghost predicate WordsRead(s: string, r: Result<Simple>, ws: seq<string>, rs: seq<Redirection<string>>, e: nat) {
    r.Ok? && r.pos == e && Texts(s, r.value.args) == ws && ResolveRedirs(s, r.value.redirs) == rs
  }

  lemma WordsPrinted(s: string, i: nat, ws: seq<string>, tail: string)
    requires PrintedAt(s, i, PrintWords(ws) + tail) && WordsOk(ws) && ws != []
    requires Solid(s, i + |PrintWords(ws)|)
    ensures PrintedAt(s, i, ws[0] + " ") && IsWord(ws[0]) && WordsOk(ws[1..])
    ensures var m := i + |ws[0]| + 1;
      && PrintedAt(s, m, PrintWords(ws[1..]) + tail) && Solid(s, m)
      && m + |PrintWords(ws[1..])| == i + |PrintWords(ws)|
      && (ws[1..] != [] ==> m < |s| && IsWordChar(s[m]))
      && PrintedAt(s, i + |PrintWords(ws)|, tail)
  {
    hide PrintedAt, IsWord, Solid;
    var word, more := ws[0] + " ", PrintWords(ws[1..]);
    assert PrintWords(ws) + tail == word + (more + tail);
    Split(s, i, word, more + tail);
    Split(s, i + |word|, more, tail);
    WordsSolid(s, i + |word|, ws[1..]);
  }

  lemma WordsStop(s: string, i: nat, c: Simple)
    requires Follows(s, i, "|)&;")
    ensures ParseWords(s, c, i) == Ok(c, i)
  {
  }

  lemma WordsStep(s: string, i: nat, w: string, c: Simple)
    requires PrintedAt(s, i, w + " ") && IsWord(w) && Solid(s, i + |w| + 1)
    requires |c.args| + 1 < MAXARGS
    ensures i + |w| + 1 <= |s|
    ensures var rr := ParseRedirs(s, c.redirs, i + |w| + 1);
      rr.Ok? ==> ParseWords(s, c, i) == ParseWords(s, Simple(c.args + [Slice(i, i + |w|)], rr.value), rr.pos)
    ensures Text(s, Slice(i, i + |w|)) == w
  {
    hide GetToken, WordEnd, PrintedAt, IsWord, Text, ParseRedirs;
    WordToken(s, i, w);
  }

  lemma {:induction false} WordsParse(s: string, i: nat, ws: seq<string>, rs: seq<Redirection<string>>, c: Simple)
    requires PrintedAt(s, i, PrintWords(ws) + PrintRedirs(rs)) && WordsOk(ws) && FilesOk(rs)
    requires ws != [] && |c.args| + |ws| < MAXARGS && c.redirs == []
    requires Follows(s, i + |PrintWords(ws)| + |PrintRedirs(rs)|, "|)&;")
    ensures WordsRead(s, ParseWords(s, c, i), Texts(s, c.args) + ws, rs, i + |PrintWords(ws)| + |PrintRedirs(rs)|)
    decreases |ws|
  {
    hide PrintedAt, IsWord, WordsOk, FilesOk, Solid, ParseRedirs, ParseWords, ResolveRedirs, Text, Texts, Follows,
      PrintRedirs;
    var w, e := ws[0], i + |PrintWords(ws)| + |PrintRedirs(rs)|;
    var m := i + |w| + 1;
    Split(s, i, PrintWords(ws), PrintRedirs(rs));
    FollowsPlain(s, e, "|)&;");
    RedirsSolid(s, i + |PrintWords(ws)|, rs);
    WordsPrinted(s, i, ws, PrintRedirs(rs));
    WordsStep(s, i, w, c);
    var c' := Simple(c.args + [Slice(i, i + |w|)], []);
    assert Texts(s, c'.args) == Texts(s, c.args) + [w];
    assert ws == [w] + ws[1..];
    if ws[1..] != [] {
      RedirsStop(s, m, []);
      WordsParse(s, m, ws[1..], rs, c');
      assert Texts(s, c'.args) + ws[1..] == Texts(s, c.args) + ws;
    } else {
      assert ResolveRedirs(s, []) == [];
      RedirsParse(s, m, rs, []);
      var rr := ParseRedirs(s, [], m);
      WordsStop(s, e, Simple(c'.args, rr.value));
      assert ResolveRedirs(s, rr.value) == rs;
    }
  }

  // A delimiter is neither a space nor a redirection.
  lemma FollowsPlain(s: string, e: nat, symbols: string)
    requires Follows(s, e, symbols) && '<' !in symbols && '>' !in symbols && '(' !in symbols
    ensures Solid(s, e) && CharAt(s, e) != '<' && CharAt(s, e) != '>' && CharAt(s, e) != '('
  {
  }

  // ---- Redirections around a tree -------------------------------------------------------------

  lemma {:induction false} ResolveWrap(s: string, c: Cmd<Slice>, rs: seq<Redirection<Slice>>)
    ensures Resolve(s, Wrap(c, rs)) == Wrap(Resolve(s, c), ResolveRedirs(s, rs))
  {
    if rs != [] {
      ResolveWrap(s, c, rs[..|rs| - 1]);
      assert ResolveRedirs(s, rs)[..|rs| - 1] == ResolveRedirs(s, rs[..|rs| - 1]);
    }
  }

  lemma {:induction false} WrapCore(t: Cmd<string>)
    ensures Wrap(Core(t), Redirs(t)) == t
  {
    if t.Redir? {
      WrapCore(t.cmd);
      assert Redirs(t)[..|Redirs(t)| - 1] == Redirs(t.cmd);
    }
  }

  lemma {:induction false} PartsOk(t: Cmd<string>)
    requires WellFormed(t)
    ensures WellFormed(Core(t)) && FilesOk(Redirs(t))
  {
    if t.Redir? {
      PartsOk(t.cmd);
    }
  }

  // ---- The grammar, bottom up -------------------------------------------------------------------

  ghost predicate ParsesTo(s: string, r: Result<Cmd<Slice>>, t: Cmd<string>, e: nat) {
    r.Ok? && r.pos == e && Resolve(s, r.value) == t
  }

  // parseexec on something that does not start with a parenthesis.
  lemma ExecUnfolds(s: string, i: nat)
    requires Solid(s, i) && CharAt(s, i) != '('
    ensures ParseExec(s, i) ==
      var rr := ParseRedirs(s, [], i);
      if rr.Err? then Err
      else
        var w := ParseWords(s, Simple([], rr.value), rr.pos);
        if w.Err? then Err else Ok(Wrap(Exec(w.value.args), w.value.redirs), w.pos)
  {
    hide ParseRedirs, ParseWords, ParseBlock, ParseLine;
  }

  lemma SimpleParses(s: string, i: nat, ws: seq<string>, rs: seq<Redirection<string>>)
    requires PrintedAt(s, i, PrintWords(ws) + PrintRedirs(rs)) && WordsOk(ws) && FilesOk(rs) && |ws| < MAXARGS
    requires Follows(s, i + |PrintWords(ws)| + |PrintRedirs(rs)|, "|)&;")
    ensures Solid(s, i) && CharAt(s, i) != '('
    ensures ParseRedirs(s, [], i).Ok?
    ensures var rr := ParseRedirs(s, [], i);
      WordsRead(s, ParseWords(s, Simple([], rr.value), rr.pos), ws, rs, i + |PrintWords(ws)| + |PrintRedirs(rs)|)
  {
    hide PrintedAt, IsWord, WordsOk, FilesOk, ParseRedirs, ParseWords, ResolveRedirs, Text, Texts, PrintRedirs;
    var e := i + |PrintWords(ws)| + |PrintRedirs(rs)|;
    Split(s, i, PrintWords(ws), PrintRedirs(rs));
    FollowsPlain(s, e, "|)&;");
    RedirsSolid(s, i + |PrintWords(ws)|, rs);
    WordsSolid(s, i, ws);
    assert ResolveRedirs(s, []) == [] && Texts(s, []) == [];
    if ws == [] {
      RedirsParse(s, i, rs, []);
      var rr := ParseRedirs(s, [], i);
      WordsStop(s, e, Simple([], rr.value));
    } else {
      RedirsStop(s, i, []);
      WordsParse(s, i, ws, rs, Simple([], []));
    }
  }

  lemma ItemPrinted(s: string, i: nat, t: Cmd<string>)
    requires WellFormed(t) && PrintedAt(s, i, PrintItem(t))
    ensures FilesOk(Redirs(t)) && WellFormed(Core(t)) && Wrap(Core(t), Redirs(t)) == t
    ensures Core(t).Exec? ==>
      && WordsOk(Core(t).args) && |Core(t).args| < MAXARGS
      && PrintItem(t) == PrintWords(Core(t).args) + PrintRedirs(Redirs(t))
    ensures !Core(t).Exec? ==>
      var line, redirs := PrintLine(Core(t)), PrintRedirs(Redirs(t));
      var p := i + 1 + |line|;
      && p < |s| && s[i] == '(' && s[p] == ')'
      && PrintedAt(s, i + 1, line) && PrintedAt(s, p + 1, redirs)
      && p + 1 + |redirs| == i + |PrintItem(t)|
  {
    hide PrintedAt, Wrap, Redirs, PrintLine, PrintRedirs;
    PartsOk(t);
    WrapCore(t);
    if !Core(t).Exec? {
      var line, redirs := PrintLine(Core(t)), PrintRedirs(Redirs(t));
      assert PrintItem(t) == "(" + (line + (")" + redirs));
      Split(s, i, "(", line + (")" + redirs));
      Split(s, i + 1, line, ")" + redirs);
      Split(s, i + 1 + |line|, ")", redirs);
      FirstChar(s, i, "(");
      FirstChar(s, i + 1 + |line|, ")");
    }
  }

  lemma ResolveSimple(s: string, args: seq<Slice>, redirs: seq<Redirection<Slice>>)
    ensures Resolve(s, Wrap(Exec(args), redirs)) == Wrap(Exec(Texts(s, args)), ResolveRedirs(s, redirs))
  {
    ResolveWrap(s, Exec(args), redirs);
  }

  lemma ExecParses(s: string, i: nat, t: Cmd<string>)
    requires WellFormed(t) && Core(t).Exec? && PrintedAt(s, i, PrintItem(t))
    requires Follows(s, i + |PrintItem(t)|, "|)&;")
    ensures ParsesTo(s, ParseExec(s, i), t, i + |PrintItem(t)|)
    ensures Solid(s, i)
  {
    hide PrintedAt, WellFormed, WordsOk, FilesOk, ParseExec, ParseRedirs, ParseWords, Wrap, Core, Redirs,
      Resolve, ResolveRedirs, Texts, PrintItem, PrintWords, PrintRedirs, Follows;
    var ws, rs := Core(t).args, Redirs(t);
    ItemPrinted(s, i, t);
    SimpleParses(s, i, ws, rs);
    ExecUnfolds(s, i);
    var rr := ParseRedirs(s, [], i);
    var w := ParseWords(s, Simple([], rr.value), rr.pos);
    ResolveSimple(s, w.value.args, w.value.redirs);
  }

  // parseexec on "( line )" and redirections, p being the position of the closing parenthesis.
  lemma BlockUnfolds(s: string, i: nat, p: nat)
    requires i < |s| && s[i] == '(' && Solid(s, i + 1)
    requires ParseLine(s, i + 1).Ok? && ParseLine(s, i + 1).pos == p
    requires p < |s| && s[p] == ')' && Solid(s, p + 1)
    ensures ParseExec(s, i) ==
      var rr := ParseRedirs(s, [], p + 1);
      if rr.Err? then Err else Ok(Wrap(ParseLine(s, i + 1).value, rr.value), rr.pos)
  {
    hide ParseRedirs, ParseWords, ParseLine, GetToken, Wrap;
    SymbolToken(s, i);
    SymbolToken(s, p);
    assert Peeks(s, p, ")");
  }

  lemma {:induction false} BlockParses(s: string, i: nat, t: Cmd<string>)
    requires WellFormed(t) && !Core(t).Exec? && PrintedAt(s, i, PrintItem(t))
    requires Follows(s, i + |PrintItem(t)|, "|)&;")
    ensures ParsesTo(s, ParseExec(s, i), t, i + |PrintItem(t)|)
    ensures Solid(s, i)
    decreases t, Rank(t, 3), 0
  {
    hide PrintedAt, WellFormed, FilesOk, ParseExec, ParseRedirs, ParseLine, Wrap, Core, Redirs,
      Resolve, ResolveRedirs, PrintItem, PrintRedirs, PrintLine;
    var core, rs := Core(t), Redirs(t);
    var p, e := i + 1 + |PrintLine(core)|, i + |PrintItem(t)|;
    ItemPrinted(s, i, t);
    assert Follows(s, p, ")");
    FollowsPlain(s, e, "|)&;");
    RedirsSolid(s, p + 1, rs);
    LineParses(s, i + 1, core);
    var l := ParseLine(s, i + 1);
    RedirsParse(s, p + 1, rs, []);
    BlockUnfolds(s, i, p);
    assert ResolveRedirs(s, []) == [];
    var rr := ParseRedirs(s, [], p + 1);
    assert ResolveRedirs(s, rr.value) == rs;
    ResolveWrap(s, l.value, rr.value);
  }

  lemma {:induction false} ItemParses(s: string, i: nat, t: Cmd<string>)
    requires WellFormed(t) && PrintedAt(s, i, PrintItem(t)) && Follows(s, i + |PrintItem(t)|, "|)&;")
    ensures ParsesTo(s, ParseExec(s, i), t, i + |PrintItem(t)|) && Solid(s, i)
    decreases t, Rank(t, 3), 1
  {
    hide PrintedAt, WellFormed, ParseExec, ParsesTo, Solid, Follows, PrintItem, Core;
    if Core(t).Exec? {
      ExecParses(s, i, t);
    } else {
      BlockParses(s, i, t);
    }
  }

  lemma PipeUnfolds(s: string, i: nat)
    requires i <= |s| && ParseExec(s, i).Ok? && Solid(s, ParseExec(s, i).pos)
    ensures var left := ParseExec(s, i);
      && (CharAt(s, left.pos) != '|' ==> ParsePipe(s, i) == left)
      && (CharAt(s, left.pos) == '|' && Solid(s, left.pos + 1) ==>
           ParsePipe(s, i) ==
             var right := ParsePipe(s, left.pos + 1);
             if right.Err? then Err else Ok(Pipe(left.value, right.value), right.pos))
  {
    hide ParseExec, ParseBlock, ParseLine, GetToken;
    var p := ParseExec(s, i).pos;
    if CharAt(s, p) == '|' && Solid(s, p + 1) {
      SymbolToken(s, p);
    }
  }

  lemma PipePrinted(s: string, i: nat, t: Cmd<string>)
    requires t.Pipe? && WellFormed(t) && PrintedAt(s, i, PrintPipe(t))
    ensures WellFormed(t.left) && WellFormed(t.right)
    ensures var m := i + |PrintItem(t.left)|;
      && PrintedAt(s, i, PrintItem(t.left)) && m < |s| && s[m] == '|'
      && PrintedAt(s, m + 1, PrintPipe(t.right))
      && m + 1 + |PrintPipe(t.right)| == i + |PrintPipe(t)|
  {
    hide PrintedAt, PrintItem;
    var left, right := PrintItem(t.left), PrintPipe(t.right);
    assert PrintPipe(t) == left + ("|" + right);
    Split(s, i, left, "|" + right);
    Split(s, i + |left|, "|", right);
    FirstChar(s, i + |left|, "|");
  }

  lemma {:induction false} PipeParses(s: string, i: nat, t: Cmd<string>)
    requires WellFormed(t) && PrintedAt(s, i, PrintPipe(t)) && Follows(s, i + |PrintPipe(t)|, ")&;")
    ensures ParsesTo(s, ParsePipe(s, i), t, i + |PrintPipe(t)|) && Solid(s, i)
    decreases t, Rank(t, 2), 1
  {
    hide PrintedAt, WellFormed, ParseExec, ParsePipe, PrintItem, PrintPipe, Resolve;
    if t.Pipe? {
      PipePrinted(s, i, t);
      var m := i + |PrintItem(t.left)|;
      assert Follows(s, m, "|)&;");
      ItemParses(s, i, t.left);
      PipeParses(s, m + 1, t.right);
      PipeUnfolds(s, i);
      ResolvePipe(s, ParseExec(s, i).value, ParsePipe(s, m + 1).value);
    } else {
      PrintPipeItem(t);
      assert Follows(s, i + |PrintItem(t)|, "|)&;");
      ItemParses(s, i, t);
      PipeUnfolds(s, i);
    }
  }

  lemma PrintPipeItem(t: Cmd<string>)
    requires !t.Pipe?
    ensures PrintPipe(t) == PrintItem(t)
  {
  }

  lemma ResolvePipe(s: string, l: Cmd<Slice>, r: Cmd<Slice>)
    ensures Resolve(s, Pipe(l, r)) == Pipe(Resolve(s, l), Resolve(s, r))
  {
  }

  lemma BacksUnfold(s: string, i: nat, c: Cmd<Slice>)
    requires Solid(s, i)
    ensures CharAt(s, i) != '&' ==> ParseBacks(s, c, i) == Ok(c, i)
    ensures CharAt(s, i) == '&' && Solid(s, i + 1) ==> ParseBacks(s, c, i) == ParseBacks(s, Back(c), i + 1)
  {
    hide GetToken;
    if CharAt(s, i) == '&' && Solid(s, i + 1) {
      SymbolToken(s, i);
    }
  }

  lemma BacksPrinted(s: string, i: nat, t: Cmd<string>)
    requires WellFormed(t) && PrintedAt(s, i, PrintBacks(t))
    ensures !t.Back? ==> PrintBacks(t) == PrintPipe(t)
    ensures t.Back? ==>
      var m := i + |PrintBacks(t.cmd)|;
      && WellFormed(t.cmd) && PrintedAt(s, i, PrintBacks(t.cmd))
      && m < |s| && s[m] == '&' && m + 1 == i + |PrintBacks(t)|
  {
    hide PrintedAt, PrintPipe;
    if t.Back? {
      Split(s, i, PrintBacks(t.cmd), "&");
      FirstChar(s, i + |PrintBacks(t.cmd)|, "&");
    }
  }

  // parsepipe and the first rounds of the '&' loop read t, as c, and leave the loop at its end.
  lemma {:induction false} BacksParse(s: string, i: nat, t: Cmd<string>) returns (c: Cmd<Slice>)
    requires WellFormed(t) && PrintedAt(s, i, PrintBacks(t)) && Follows(s, i + |PrintBacks(t)|, ")&;")
    ensures Resolve(s, c) == t && Solid(s, i)
    ensures var first := ParsePipe(s, i);
      first.Ok? && ParseBacks(s, first.value, first.pos) == ParseBacks(s, c, i + |PrintBacks(t)|)
    decreases t, Rank(t, 1), 1
  {
    hide PrintedAt, WellFormed, ParsePipe, ParseBacks, PrintBacks, PrintPipe;
    BacksPrinted(s, i, t);
    if t.Back? {
      var m := i + |PrintBacks(t.cmd)|;
      assert Follows(s, m, ")&;");
      var c' := BacksParse(s, i, t.cmd);
      c := Back(c');
      FollowsPlain(s, m + 1, ")&;");
      BacksUnfold(s, m, c');
    } else {
      PipeParses(s, i, t);
      c := ParsePipe(s, i).value;
    }
  }

  lemma LineUnfolds(s: string, i: nat, c: Cmd<Slice>, e: nat)
    requires i <= |s| && Solid(s, e) && CharAt(s, e) != '&'
    requires ParsePipe(s, i).Ok?
    requires ParseBacks(s, ParsePipe(s, i).value, ParsePipe(s, i).pos) == ParseBacks(s, c, e)
    ensures CharAt(s, e) != ';' ==> ParseLine(s, i) == Ok(c, e)
    ensures CharAt(s, e) == ';' && Solid(s, e + 1) && ParseLine(s, e + 1).Ok? ==>
      ParseLine(s, i) == Ok(List(c, ParseLine(s, e + 1).value), ParseLine(s, e + 1).pos)
  {
    hide ParsePipe, ParseBacks, ParseExec, GetToken;
    BacksUnfold(s, e, c);
    if CharAt(s, e) == ';' && Solid(s, e + 1) {
      SymbolToken(s, e);
    }
  }

  lemma LinePrinted(s: string, i: nat, t: Cmd<string>)
    requires WellFormed(t) && PrintedAt(s, i, PrintLine(t))
    ensures !t.List? ==> PrintLine(t) == PrintBacks(t)
    ensures t.List? ==>
      var m := i + |PrintBacks(t.left)|;
      && WellFormed(t.left) && WellFormed(t.right)
      && PrintedAt(s, i, PrintBacks(t.left)) && m < |s| && s[m] == ';'
      && PrintedAt(s, m + 1, PrintLine(t.right)) && m + 1 + |PrintLine(t.right)| == i + |PrintLine(t)|
  {
    hide PrintedAt, PrintBacks;
    if t.List? {
      var left, right := PrintBacks(t.left), PrintLine(t.right);
      assert PrintLine(t) == left + (";" + right);
      Split(s, i, left, ";" + right);
      Split(s, i + |left|, ";", right);
      FirstChar(s, i + |left|, ";");
    }
  }

  lemma {:induction false} LineParses(s: string, i: nat, t: Cmd<string>)
    requires WellFormed(t) && PrintedAt(s, i, PrintLine(t)) && Follows(s, i + |PrintLine(t)|, ")")
    ensures ParsesTo(s, ParseLine(s, i), t, i + |PrintLine(t)|) && Solid(s, i)
    decreases t, Rank(t, 0), 1
  {
    hide PrintedAt, WellFormed, ParsePipe, ParseBacks, ParseLine, PrintBacks, PrintLine;
    LinePrinted(s, i, t);
    var m := i + |PrintBacks(if t.List? then t.left else t)|;
    assert Follows(s, m, ")&;");
    if t.List? {
      var c := BacksParse(s, i, t.left);
      LineParses(s, m + 1, t.right);
      LineUnfolds(s, i, c, m);
    } else {
      var c := BacksParse(s, i, t);
      LineUnfolds(s, i, c, m);
    }
  }

  // Every well-formed tree is printed to a text that parsecmd reads back as that very tree.
  lemma RoundTrip(t: Cmd<string>)
    requires WellFormed(t)
    ensures ParseCmd(PrintLine(t)).Ok?
    ensures Resolve(PrintLine(t), ParseCmd(PrintLine(t)).value) == t
  {
    hide PrintLine, ParseLine, WellFormed, Resolve;
    var s := PrintLine(t);
    assert s[0..|s|] == s;
    LineParses(s, 0, t);
  }

  // In particular two different trees never print alike.
  lemma PrintingIsInjective(t: Cmd<string>, u: Cmd<string>)
    requires WellFormed(t) && WellFormed(u) && PrintLine(t) == PrintLine(u)
    ensures t == u
  {
    hide PrintLine, ParseCmd, WellFormed, Resolve;
    RoundTrip(t);
    RoundTrip(u);
  }
}
