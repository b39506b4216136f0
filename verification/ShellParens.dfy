/**
 Of all the texts that parse to a command tree, the one the printer makes has the fewest
 parentheses: it opens as many as the tree needs, and whatever parses opens at least as many.

 The pairs a tree needs are counted along the four printers of ShellGrammar.
 */
module ShellParens {
  import opened ShellGrammar
  import opened ShellRoundTrip

  // How many parentheses a text opens.
  function Opens(s: string): nat {
    if s == [] then 0 else Opens(s[..|s| - 1]) + if s[|s| - 1] == '(' then 1 else 0
  }

  lemma {:induction false} OpensConcat(a: string, b: string)
    ensures Opens(a + b) == Opens(a) + Opens(b)
  {
    if b == [] {
      assert a + b == a;
    } else {
      OpensConcat(a, b[..|b| - 1]);
      assert (a + b)[..|a + b| - 1] == a + b[..|b| - 1];
    }
  }

  function OpensIn(s: string, i: nat, j: nat): nat
    requires i <= j <= |s|
  {
    Opens(s[i..j])
  }

  lemma OpensJoin(s: string, i: nat, j: nat, k: nat)
    requires i <= j <= k <= |s|
    ensures OpensIn(s, i, k) == OpensIn(s, i, j) + OpensIn(s, j, k)
  {
    assert s[i..k] == s[i..j] + s[j..k];
    OpensConcat(s[i..j], s[j..k]);
  }

  lemma OpensWithin(s: string, i: nat, j: nat, k: nat, l: nat)
    requires i <= j <= k <= l <= |s|
    ensures OpensIn(s, j, k) <= OpensIn(s, i, l)
  {
    OpensJoin(s, i, j, l);
    OpensJoin(s, j, k, l);
  }

  // ---- The pairs a tree needs, printed by each of the four printers ---------------------------

  function PairsLine<W>(t: Cmd<W>): nat
    decreases t, Rank(t, 0)
  {
    if t.List? then PairsBacks(t.left) + PairsLine(t.right) else PairsBacks(t)
  }

  function PairsBacks<W>(t: Cmd<W>): nat
    decreases t, Rank(t, 1)
  {
    if t.Back? then PairsBacks(t.cmd) else PairsPipe(t)
  }

  function PairsPipe<W>(t: Cmd<W>): nat
    decreases t, Rank(t, 2)
  {
    if t.Pipe? then PairsItem(t.left) + PairsPipe(t.right) else PairsItem(t)
  }

  function PairsItem<W>(t: Cmd<W>): nat
    decreases t, Rank(t, 3)
  {
    var core := Core(t);
    if core.Exec? then 0 else 1 + PairsLine(core)
  }

  // The printers that stand further in need as many pairs or more.
  lemma InnerNeedsMore<W>(t: Cmd<W>)
    ensures PairsLine(t) <= PairsBacks(t) <= PairsPipe(t) <= PairsItem(t)
  {
    if !t.Redir? && !t.Exec? {
      assert PairsItem(t) == 1 + PairsLine(t);
      assert t.List? || PairsLine(t) == PairsBacks(t);
      assert t.Back? || PairsBacks(t) == PairsPipe(t);
      assert t.Pipe? || PairsPipe(t) == PairsItem(t);
    } else {
      assert PairsLine(t) == PairsBacks(t) == PairsPipe(t) == PairsItem(t);
    }
  }

  lemma {:induction false} CoreOfWrap<W>(c: Cmd<W>, rs: seq<Redirection<W>>)
    ensures Core(Wrap(c, rs)) == Core(c)
  {
    if rs != [] {
      CoreOfWrap(c, rs[..|rs| - 1]);
    }
  }

  // A block with redirections around it needs one pair more than the line in it, at most.
  lemma BlockNeeds<W>(line: Cmd<W>, rs: seq<Redirection<W>>)
    ensures PairsItem(Wrap(line, rs)) <= 1 + PairsLine(line)
  {
    CoreOfWrap(line, rs);
    if line.Redir? {
      assert PairsLine(line) == PairsBacks(line) == PairsPipe(line) == PairsItem(line);
    }
  }

  // ---- What parses opens that many ----------------------------------------------------------------

  lemma {:induction false} ExecOpens(s: string, i: nat)
    requires i <= |s|
    ensures var r := ParseExec(s, i); r.Ok? ==> PairsItem(r.value) <= OpensIn(s, i, r.pos)
    decreases |s| - i, 1
  {
    hide ParseRedirs, ParseWords, ParseLine, ParseBlock, OpensIn;
    var j, r := SkipSpaces(s, i), ParseExec(s, i);
    if Peeks(s, i, "(") {
      BlockOpens(s, j);
      if r.Ok? {
        OpensWithin(s, i, j, r.pos, r.pos);
      }
    } else if r.Ok? {
      var rr := ParseRedirs(s, [], j);
      var w := ParseWords(s, Simple([], rr.value), rr.pos);
      CoreOfWrap(Exec(w.value.args), w.value.redirs);
    }
  }

  lemma {:induction false} BlockOpens(s: string, i: nat)
    requires i <= |s|
    ensures var r := ParseBlock(s, i); r.Ok? ==> PairsItem(r.value) <= OpensIn(s, i, r.pos)
    decreases |s| - i, 0
  {
    hide ParseRedirs, ParseLine, OpensIn, PairsItem, PairsLine;
    var r := ParseBlock(s, i);
    if r.Ok? {
      var q := SkipSpaces(s, i);
      var t := GetToken(s, q);
      var line := ParseLine(s, t.next);
      var close := GetToken(s, SkipSpaces(s, line.pos));
      var rr := ParseRedirs(s, [], close.next);
      LineOpens(s, t.next);
      BlockNeeds(line.value, rr.value);
      OneOpen(s, q, t.next);
      OpensJoin(s, q, t.next, line.pos);
      OpensWithin(s, i, q, line.pos, r.pos);
    }
  }

  lemma OneOpen(s: string, q: nat, j: nat)
    requires q < j <= |s| && s[q] == '('
    ensures OpensIn(s, q, j) >= 1
  {
    OpensWithin(s, q, q, q + 1, j);
    assert s[q..q + 1] == [s[q]];
  }

  lemma {:induction false} PipeOpens(s: string, i: nat)
    requires i <= |s|
    ensures var r := ParsePipe(s, i); r.Ok? ==> PairsPipe(r.value) <= OpensIn(s, i, r.pos)
    decreases |s| - i, 2
  {
    hide ParseExec, OpensIn, PairsItem;
    var left, r := ParseExec(s, i), ParsePipe(s, i);
    ExecOpens(s, i);
    if r.Ok? {
      if Peeks(s, left.pos, "|") {
        var t := GetToken(s, SkipSpaces(s, left.pos));
        PipeOpens(s, t.next);
        OpensJoin(s, i, left.pos, r.pos);
        OpensWithin(s, left.pos, t.next, r.pos, r.pos);
      } else {
        InnerNeedsMore(r.value);
        OpensWithin(s, i, i, left.pos, r.pos);
      }
    }
  }

  lemma {:induction false} BacksOpens(s: string, cmd: Cmd<Slice>, lo: nat, i: nat)
    requires lo <= i <= |s| && PairsBacks(cmd) <= OpensIn(s, lo, i)
    ensures var r := ParseBacks(s, cmd, i); PairsBacks(r.value) <= OpensIn(s, lo, r.pos)
    decreases |s| - i
  {
    hide OpensIn, PairsPipe;
    var j := SkipSpaces(s, i);
    OpensWithin(s, lo, lo, i, j);
    if Peeks(s, i, "&") {
      var t := GetToken(s, j);
      OpensWithin(s, lo, lo, i, t.next);
      BacksOpens(s, Back(cmd), lo, t.next);
    }
  }

  lemma {:induction false} LineOpens(s: string, i: nat)
    requires i <= |s|
    ensures var r := ParseLine(s, i); r.Ok? ==> PairsLine(r.value) <= OpensIn(s, i, r.pos)
    decreases |s| - i, 3
  {
    hide ParsePipe, ParseBacks, OpensIn, PairsBacks, PairsPipe;
    var first, r := ParsePipe(s, i), ParseLine(s, i);
    PipeOpens(s, i);
    if r.Ok? {
      InnerNeedsMore(first.value);
      BacksOpens(s, first.value, i, first.pos);
      var backs := ParseBacks(s, first.value, first.pos);
      if Peeks(s, backs.pos, ";") {
        var t := GetToken(s, SkipSpaces(s, backs.pos));
        LineOpens(s, t.next);
        OpensJoin(s, i, backs.pos, r.pos);
        OpensWithin(s, backs.pos, t.next, r.pos, r.pos);
      } else {
        InnerNeedsMore(backs.value);
        OpensWithin(s, i, i, backs.pos, r.pos);
      }
    }
  }

  // ---- What is printed opens no more ----------------------------------------------------------------

  lemma {:induction false} NoOpens(w: string)
    requires forall k | 0 <= k < |w| :: w[k] != '('
    ensures Opens(w) == 0
  {
    if w != [] {
      NoOpens(w[..|w| - 1]);
    }
  }

  lemma {:induction false} WordsOpen(ws: seq<string>)
    requires WordsOk(ws)
    ensures Opens(PrintWords(ws)) == 0
  {
    if ws != [] {
      assert IsWord(ws[0]);
      WordsOpen(ws[1..]);
      NoOpens(ws[0] + " ");
      OpensConcat(ws[0] + " ", PrintWords(ws[1..]));
    }
  }

  lemma {:induction false} RedirsOpen(rs: seq<Redirection<string>>)
    requires FilesOk(rs)
    ensures Opens(PrintRedirs(rs)) == 0
  {
    if rs != [] {
      var head := (if rs[0].out then ">" else "<") + rs[0].file + " ";
      assert IsWord(rs[0].file);
      RedirsOpen(rs[1..]);
      NoOpens(head);
      OpensConcat(head, PrintRedirs(rs[1..]));
    }
  }

  lemma {:induction false} LineOpen(t: Cmd<string>)
    requires WellFormed(t)
    ensures Opens(PrintLine(t)) == PairsLine(t)
    decreases t, Rank(t, 0)
  {
    hide PrintBacks, PairsBacks;
    if t.List? {
      BacksOpen(t.left);
      LineOpen(t.right);
      OpensConcat(PrintBacks(t.left) + ";", PrintLine(t.right));
      OpensConcat(PrintBacks(t.left), ";");
      NoOpens(";");
    } else {
      BacksOpen(t);
    }
  }

  lemma {:induction false} BacksOpen(t: Cmd<string>)
    requires WellFormed(t)
    ensures Opens(PrintBacks(t)) == PairsBacks(t)
    decreases t, Rank(t, 1)
  {
    hide PrintPipe, PairsPipe;
    if t.Back? {
      BacksOpen(t.cmd);
      OpensConcat(PrintBacks(t.cmd), "&");
      NoOpens("&");
    } else {
      PipeOpen(t);
    }
  }

  lemma {:induction false} PipeOpen(t: Cmd<string>)
    requires WellFormed(t)
    ensures Opens(PrintPipe(t)) == PairsPipe(t)
    decreases t, Rank(t, 2)
  {
    hide PrintItem, PairsItem;
    if t.Pipe? {
      ItemOpen(t.left);
      PipeOpen(t.right);
      OpensConcat(PrintItem(t.left) + "|", PrintPipe(t.right));
      OpensConcat(PrintItem(t.left), "|");
      NoOpens("|");
    } else {
      ItemOpen(t);
    }
  }

  lemma {:induction false} ItemOpen(t: Cmd<string>)
    requires WellFormed(t)
    ensures Opens(PrintItem(t)) == PairsItem(t)
    decreases t, Rank(t, 3)
  {
    hide PrintLine, PairsLine, PrintWords, PrintRedirs;
    var core := Core(t);
    PartsOk(t);
    RedirsOpen(Redirs(t));
    if core.Exec? {
      WordsOpen(core.args);
      OpensConcat(PrintWords(core.args), PrintRedirs(Redirs(t)));
    } else {
      LineOpen(core);
      OpensConcat("(" + PrintLine(core) + ")", PrintRedirs(Redirs(t)));
      OpensConcat("(" + PrintLine(core), ")");
      OpensConcat("(", PrintLine(core));
      NoOpens(")");
      assert Opens("(") == Opens("") + 1;
    }
  }

  // ---- Trees of slices and of strings need the same pairs ---------------------------------------------

  lemma {:induction false} CoreResolved(s: string, t: Cmd<Slice>)
    ensures Core(Resolve(s, t)) == Resolve(s, Core(t))
  {
    if t.Redir? {
      CoreResolved(s, t.cmd);
    }
  }

  lemma {:induction false} PairsResolved(s: string, t: Cmd<Slice>)
    ensures PairsItem(Resolve(s, t)) == PairsItem(t)
    ensures PairsPipe(Resolve(s, t)) == PairsPipe(t)
    ensures PairsBacks(Resolve(s, t)) == PairsBacks(t)
    ensures PairsLine(Resolve(s, t)) == PairsLine(t)
  {
    var u := Resolve(s, t);
    match t
    case Exec(_) =>
    case Redir(cmd, _, _) =>
      CoreResolved(s, t);
      PairsResolved(s, Core(t));
    case Pipe(left, right) =>
      PairsResolved(s, left);
      PairsResolved(s, right);
      assert PairsPipe(u) == PairsPipe(t);
      assert PairsBacks(u) == PairsBacks(t) && PairsLine(u) == PairsLine(t);
    case List(left, right) =>
      PairsResolved(s, left);
      PairsResolved(s, right);
      assert PairsLine(u) == PairsLine(t);
      assert PairsItem(u) == PairsItem(t);
    case Back(cmd) =>
      PairsResolved(s, cmd);
      assert PairsBacks(u) == PairsBacks(t);
      assert PairsLine(u) == PairsLine(t);
      assert PairsItem(u) == PairsItem(t);
  }

  // No text that parses to t opens fewer parentheses than the printed one.
  lemma FewestParentheses(t: Cmd<string>, s: string)
    requires WellFormed(t) && ParseCmd(s).Ok? && Resolve(s, ParseCmd(s).value) == t
    ensures Opens(PrintLine(t)) <= Opens(s)
  {
    hide ParseLine, PrintLine, PairsLine, WellFormed, Resolve, Opens;
    var line := ParseLine(s, 0);
    LineOpen(t);
    LineOpens(s, 0);
    PairsResolved(s, line.value);
    OpensWithin(s, 0, 0, line.pos, |s|);
    assert s[0..|s|] == s;
  }
}
