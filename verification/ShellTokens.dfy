/**
 What a successful parse guarantees about the slices in its tree, and what writing NULs at
 their ends does to the buffer.
 */
module ShellTokens {
  import opened ShellGrammar
  import opened ShellRoundTrip

  // w is a whole token: word characters, then a delimiter or the end of the text.
  ghost predicate WordSlice(s: string, w: Slice) {
    && w.q < w.eq <= |s|
    && (forall k | w.q <= k < w.eq :: IsWordChar(s[k]))
    && (w.eq < |s| ==> IsSpace(s[w.eq]) || IsSymbol(s[w.eq]))
  }

  predicate Disjoint(v: Slice, w: Slice) {
    v.eq <= w.q || w.eq <= v.q
  }

  // Pairwise disjoint tokens between positions lo and hi.
  ghost predicate Tokens(s: string, ws: seq<Slice>, lo: nat, hi: nat) {
    && (forall k | 0 <= k < |ws| :: WordSlice(s, ws[k]) && lo <= ws[k].q && ws[k].eq <= hi)
    && (forall j, k | 0 <= j < |ws| && 0 <= k < |ws| && j != k :: Disjoint(ws[j], ws[k]))
  }

  function Files(rs: seq<Redirection<Slice>>): (r: seq<Slice>)
    ensures |r| == |rs| && forall k | 0 <= k < |r| :: r[k] == rs[k].file
  {
    seq(|rs|, k requires 0 <= k < |rs| => rs[k].file)
  }

  // The slices of a tree, left to right.
  function Leaves(c: Cmd<Slice>): seq<Slice> {
    match c
    case Exec(args) => args
    case Redir(cmd, file, _) => Leaves(cmd) + [file]
    case Pipe(left, right) => Leaves(left) + Leaves(right)
    case List(left, right) => Leaves(left) + Leaves(right)
    case Back(cmd) => Leaves(cmd)
  }

  predicate FewArgs(c: Cmd<Slice>) {
    match c
    case Exec(args) => |args| < MAXARGS
    case Redir(cmd, _, _) => FewArgs(cmd)
    case Pipe(left, right) => FewArgs(left) && FewArgs(right)
    case List(left, right) => FewArgs(left) && FewArgs(right)
    case Back(cmd) => FewArgs(cmd)
  }

  predicate Ascending(ws: seq<Slice>) {
    forall j, k | 0 <= j < k < |ws| :: ws[j].eq <= ws[k].q
  }

  predicate Precede(v: seq<Slice>, w: seq<Slice>) {
    forall j, k | 0 <= j < |v| && 0 <= k < |w| :: v[j].eq <= w[k].q
  }

  // The tree follows the text: the words of a command come in their order there, and so do its
  // redirections; what is left in a pipe or list comes before what is right, and a block before the
  // redirections around it.
  predicate InOrder(c: Cmd<Slice>) {
    var core, files := Core(c), Files(Redirs(c));
    && Ascending(files)
    && (!core.Exec? ==> Precede(Leaves(core), files))
    && match core
       case Exec(args) => Ascending(args)
       case Pipe(left, right) => InOrder(left) && InOrder(right) && Precede(Leaves(left), Leaves(right))
       case List(left, right) => InOrder(left) && InOrder(right) && Precede(Leaves(left), Leaves(right))
       case Back(cmd) => InOrder(cmd)
  }

  // The last character before position q that is not blank; NUL if there is none.
  function LastBefore(s: string, q: nat): char
    requires q <= |s|
  {
    if q == 0 then NUL else if IsSpace(s[q - 1]) then LastBefore(s, q - 1) else s[q - 1]
  }

  // The file is written to exactly if what stands before it is > or >>, and read if it is <.
  predicate Points(s: string, file: Slice, out: bool) {
    file.q <= |s| && LastBefore(s, file.q) == if out then '>' else '<'
  }

  predicate AllPoint(s: string, rs: seq<Redirection<Slice>>) {
    forall k | 0 <= k < |rs| :: Points(s, rs[k].file, rs[k].out)
  }

  // Every redirection of the tree goes the way the text says.
  predicate Directed(s: string, c: Cmd<Slice>) {
    match c
    case Exec(_) => true
    case Redir(cmd, file, out) => Directed(s, cmd) && Points(s, file, out)
    case Pipe(left, right) => Directed(s, left) && Directed(s, right)
    case List(left, right) => Directed(s, left) && Directed(s, right)
    case Back(cmd) => Directed(s, cmd)
  }

  ghost predicate NoNul(s: string) {
    forall k | 0 <= k < |s| :: s[k] != NUL
  }

  // ---- Order ----------------------------------------------------------------------------

  lemma AscendingAdd(s: string, v: seq<Slice>, w: seq<Slice>, x: Slice, lo: nat, mid: nat)
    requires Tokens(s, v + w, lo, mid) && mid <= x.q
    ensures Ascending(v) ==> Ascending(v + [x])
    ensures Ascending(w) ==> Ascending(w + [x])
    ensures Precede(v, w) ==> Precede(v, w + [x])
  {
    assert forall k | 0 <= k < |v| :: v[k] == (v + w)[k];
    assert forall k | 0 <= k < |w| :: w[k] == (v + w)[|v| + k];
  }

  lemma TokensPrecede(s: string, v: seq<Slice>, w: seq<Slice>, lo: nat, mid: nat, mid': nat, hi: nat)
    requires Tokens(s, v, lo, mid) && Tokens(s, w, mid', hi) && mid <= mid'
    ensures Precede(v, w)
  {
  }

  lemma {:induction false} CoreLeaves(c: Cmd<Slice>)
    ensures Leaves(c) == Leaves(Core(c)) + Files(Redirs(c))
  {
    if c.Redir? {
      CoreLeaves(c.cmd);
      assert Files(Redirs(c)) == Files(Redirs(c.cmd)) + [c.file];
    } else {
      assert Files(Redirs(c)) == [];
    }
  }

  lemma {:induction false} WrapParts(c: Cmd<Slice>, rs: seq<Redirection<Slice>>)
    ensures Core(Wrap(c, rs)) == Core(c) && Redirs(Wrap(c, rs)) == Redirs(c) + rs
  {
    if rs != [] {
      WrapParts(c, rs[..|rs| - 1]);
      assert rs == rs[..|rs| - 1] + [rs[|rs| - 1]];
    }
  }

  lemma WrapInOrder(c: Cmd<Slice>, rs: seq<Redirection<Slice>>)
    requires InOrder(c) && Ascending(Files(rs)) && (c.Exec? || Precede(Leaves(c), Files(rs)))
    ensures InOrder(Wrap(c, rs))
  {
    hide Leaves, Wrap, Ascending, Precede, Files;
    WrapParts(c, rs);
    CoreLeaves(c);
    var core, inner, outer := Leaves(Core(c)), Files(Redirs(c)), Files(rs);
    assert Files(Redirs(c) + rs) == inner + outer;
    if c.Exec? {
      assert inner + outer == outer;
    } else {
      PrecedeParts(core, inner, outer);
      AscendingConcat(inner, outer);
      PrecedeConcat(core, inner, outer);
    }
  }

  lemma PrecedeParts(u: seq<Slice>, v: seq<Slice>, w: seq<Slice>)
    requires Precede(u + v, w)
    ensures Precede(u, w) && Precede(v, w)
  {
    assert forall k | 0 <= k < |u| :: u[k] == (u + v)[k];
    assert forall k | 0 <= k < |v| :: v[k] == (u + v)[|u| + k];
  }

  lemma PrecedeConcat(u: seq<Slice>, v: seq<Slice>, w: seq<Slice>)
    requires Precede(u, w)
    ensures Precede(u, v) ==> Precede(u, v + w)
  {
  }

  lemma AscendingConcat(v: seq<Slice>, w: seq<Slice>)
    requires Ascending(v) && Ascending(w) && Precede(v, w)
    ensures Ascending(v + w)
  {
  }

  // ---- Collecting tokens ----------------------------------------------------------------

  lemma TokensConcat(s: string, v: seq<Slice>, w: seq<Slice>, lo: nat, mid: nat, mid': nat, hi: nat)
    requires Tokens(s, v, lo, mid) && Tokens(s, w, mid', hi) && lo <= mid <= mid' <= hi
    ensures Tokens(s, v + w, lo, hi)
  {
  }

  lemma TokensInsert(s: string, v: seq<Slice>, w: seq<Slice>, x: Slice, lo: nat, mid: nat, hi: nat)
    requires Tokens(s, v + w, lo, mid) && WordSlice(s, x) && lo <= mid <= x.q && x.eq <= hi
    ensures Tokens(s, v + [x] + w, lo, hi)
  {
    var u, t := v + w, v + [x] + w;
    forall k | 0 <= k < |t|
      ensures k < |v| ==> t[k] == u[k]
      ensures k == |v| ==> t[k] == x
      ensures k > |v| ==> t[k] == u[k - 1]
      ensures WordSlice(s, t[k]) && lo <= t[k].q && t[k].eq <= hi
      ensures k != |v| ==> t[k].eq <= mid
    {
      if k > |v| {
        assert t[k] == u[k - 1];
      } else if k < |v| {
        assert t[k] == u[k];
      }
    }
    forall j, k | 0 <= j < |t| && 0 <= k < |t| && j != k
      ensures Disjoint(t[j], t[k])
    {
      if j != |v| && k != |v| {
        var j', k' := if j < |v| then j else j - 1, if k < |v| then k else k - 1;
        assert t[j] == u[j'] && t[k] == u[k'];
      }
    }
  }

  lemma WordTokenSlice(s: string, i: nat)
    requires i <= |s| && NoNul(s) && GetToken(s, i).kind == 'a'
    ensures var t := GetToken(s, i); WordSlice(s, Slice(t.q, t.eq))
  {
    assert !IsSymbol('a');
  }

  lemma {:induction false} BlanksBefore(s: string, p: nat, q: nat)
    requires p <= q <= |s| && forall k | p <= k < q :: IsSpace(s[k])
    ensures LastBefore(s, q) == LastBefore(s, p)
    decreases q
  {
    if p < q {
      BlanksBefore(s, p, q - 1);
    }
  }

  lemma ArrowPoints(s: string, j: nat)
    requires j < |s| && (s[j] == '<' || s[j] == '>')
    ensures var t := GetToken(s, j);
      var w := GetToken(s, t.next); Points(s, Slice(w.q, w.eq), t.kind != '<')
  {
    var t := GetToken(s, j);
    var w := GetToken(s, t.next);
    BlanksBefore(s, t.eq, w.q);
  }

  lemma {:induction false} RedirsTokens(s: string, args: seq<Slice>, rs: seq<Redirection<Slice>>, lo: nat, i: nat)
    requires lo <= i <= |s| && NoNul(s) && Tokens(s, args + Files(rs), lo, i)
    ensures var r := ParseRedirs(s, rs, i);
      r.Ok? ==>
        && Tokens(s, args + Files(r.value), lo, r.pos)
        && (Ascending(Files(rs)) ==> Ascending(Files(r.value)))
        && (Precede(args, Files(rs)) ==> Precede(args, Files(r.value)))
        && (AllPoint(s, rs) ==> AllPoint(s, r.value))
    decreases |s| - i
  {
    hide WordSlice, GetToken, IsWordChar, Tokens, Ascending, Precede, Points;
    var j := SkipSpaces(s, i);
    Stretch(s, args + Files(rs), lo, i, j);
    if Peeks(s, i, "<>") {
      var t := GetToken(s, j);
      var w := GetToken(s, t.next);
      if w.kind == 'a' {
        WordTokenSlice(s, t.next);
        var x := Redirection(Slice(w.q, w.eq), t.kind != '<');
        ArrowPoints(s, j);
        assert args + Files(rs) + [] == args + Files(rs);
        TokensInsert(s, args + Files(rs), [], x.file, lo, i, w.next);
        assert args + Files(rs + [x]) == args + Files(rs) + [x.file] + [];
        AscendingAdd(s, args, Files(rs), x.file, lo, i);
        assert Files(rs + [x]) == Files(rs) + [x.file];
        RedirsTokens(s, args, rs + [x], lo, w.next);
      }
    }
  }

  lemma {:induction false} WordsTokens(s: string, c: Simple, lo: nat, i: nat)
    requires lo <= i <= |s| && NoNul(s) && |c.args| < MAXARGS && Tokens(s, c.args + Files(c.redirs), lo, i)
    ensures var r := ParseWords(s, c, i);
      r.Ok? ==>
        && |r.value.args| < MAXARGS && Tokens(s, r.value.args + Files(r.value.redirs), lo, r.pos)
        && (Ascending(c.args) ==> Ascending(r.value.args))
        && (Ascending(Files(c.redirs)) ==> Ascending(Files(r.value.redirs)))
        && (AllPoint(s, c.redirs) ==> AllPoint(s, r.value.redirs))
    decreases |s| - i
  {
    hide WordSlice, GetToken, IsWordChar, ParseRedirs, Tokens, Ascending, AllPoint;
    Stretch(s, c.args + Files(c.redirs), lo, i, SkipSpaces(s, i));
    var j := SkipSpaces(s, i);
    var t := GetToken(s, j);
    Stretch(s, c.args + Files(c.redirs), lo, i, t.next);
    if !Peeks(s, i, "|)&;") && t.kind == 'a' && |c.args| + 1 < MAXARGS {
      WordTokenSlice(s, j);
      var args := c.args + [Slice(t.q, t.eq)];
      TokensInsert(s, c.args, Files(c.redirs), Slice(t.q, t.eq), lo, i, t.next);
      AscendingAdd(s, c.args, Files(c.redirs), Slice(t.q, t.eq), lo, i);
      RedirsTokens(s, args, c.redirs, lo, t.next);
      var rr := ParseRedirs(s, c.redirs, t.next);
      if rr.Ok? {
        WordsTokens(s, Simple(args, rr.value), lo, rr.pos);
      }
    }
  }

  lemma {:induction false} WrapLeaves(s: string, c: Cmd<Slice>, rs: seq<Redirection<Slice>>)
    ensures Leaves(Wrap(c, rs)) == Leaves(c) + Files(rs)
    ensures FewArgs(Wrap(c, rs)) == FewArgs(c)
    ensures Directed(s, c) && AllPoint(s, rs) ==> Directed(s, Wrap(c, rs))
  {
    hide Points;
    if rs != [] {
      WrapLeaves(s, c, rs[..|rs| - 1]);
      assert Files(rs) == Files(rs[..|rs| - 1]) + [rs[|rs| - 1].file];
    }
  }

  // ---- The grammar, bottom up --------------------------------------------------------------

  ghost predicate Sound(s: string, r: Result<Cmd<Slice>>, lo: nat) {
    r.Ok? ==> Tokens(s, Leaves(r.value), lo, r.pos) && FewArgs(r.value) && InOrder(r.value) && Directed(s, r.value)
  }

  lemma {:induction false} ExecSound(s: string, i: nat)
    requires i <= |s| && NoNul(s)
    ensures Sound(s, ParseExec(s, i), i)
    decreases |s| - i, 1
  {
    hide Tokens, NoNul, ParseRedirs, ParseWords, ParseBlock, ParseLine, GetToken, Wrap;
    var j := SkipSpaces(s, i);
    if Peeks(s, i, "(") {
      BlockSound(s, j);
      SoundFrom(s, ParseBlock(s, j), i, j);
    } else {
      NoTokens(s, i, j);
      assert [] + Files([]) == [];
      RedirsTokens(s, [], [], i, j);
      var rr := ParseRedirs(s, [], j);
      if rr.Ok? {
        WordsTokens(s, Simple([], rr.value), i, rr.pos);
        var w := ParseWords(s, Simple([], rr.value), rr.pos);
        if w.Ok? {
          WrapLeaves(s, Exec(w.value.args), w.value.redirs);
          assert Files([]) == [];
          WrapInOrder(Exec(w.value.args), w.value.redirs);
        }
      }
    }
  }

  lemma NoTokens(s: string, lo: nat, hi: nat)
    ensures Tokens(s, [], lo, hi)
  {
  }

  lemma SoundFrom(s: string, r: Result<Cmd<Slice>>, lo: nat, j: nat)
    requires lo <= j && Sound(s, r, j)
    ensures Sound(s, r, lo)
  {
  }

  lemma {:induction false} BlockSound(s: string, i: nat)
    requires i <= |s| && NoNul(s)
    ensures Sound(s, ParseBlock(s, i), i)
    decreases |s| - i, 0
  {
    hide Tokens, NoNul, ParseRedirs, ParseWords, ParseLine, GetToken, Wrap;
    if Peeks(s, i, "(") {
      var t := GetToken(s, SkipSpaces(s, i));
      LineSound(s, t.next);
      var line := ParseLine(s, t.next);
      if line.Ok? && Peeks(s, line.pos, ")") {
        SoundFrom(s, line, i, t.next);
        var close := GetToken(s, SkipSpaces(s, line.pos));
        NoTokens(s, line.pos, close.next);
        TokensConcat(s, Leaves(line.value), [], i, line.pos, line.pos, close.next);
        assert Leaves(line.value) + Files([]) == Leaves(line.value) + [];
        RedirsTokens(s, Leaves(line.value), [], i, close.next);
        var rr := ParseRedirs(s, [], close.next);
        if rr.Ok? {
          WrapLeaves(s, line.value, rr.value);
          assert Files([]) == [];
          WrapInOrder(line.value, rr.value);
        }
      }
    }
  }

  lemma {:induction false} PipeSound(s: string, i: nat)
    requires i <= |s| && NoNul(s)
    ensures Sound(s, ParsePipe(s, i), i)
    decreases |s| - i, 2
  {
    hide Tokens, NoNul, ParseExec, ParseBlock, ParseLine, GetToken;
    ExecSound(s, i);
    var left := ParseExec(s, i);
    if left.Ok? {
      if Peeks(s, left.pos, "|") {
        var t := GetToken(s, SkipSpaces(s, left.pos));
        PipeSound(s, t.next);
        var right := ParsePipe(s, t.next);
        if right.Ok? {
          TokensConcat(s, Leaves(left.value), Leaves(right.value), i, left.pos, t.next, right.pos);
          TokensPrecede(s, Leaves(left.value), Leaves(right.value), i, left.pos, t.next, right.pos);
        }
      } else {
        Stretch(s, Leaves(left.value), i, left.pos, SkipSpaces(s, left.pos));
      }
    }
  }

  lemma Stretch(s: string, ws: seq<Slice>, lo: nat, hi: nat, hi': nat)
    requires Tokens(s, ws, lo, hi) && hi <= hi'
    ensures Tokens(s, ws, lo, hi')
  {
  }

  lemma {:induction false} BacksSound(s: string, c: Cmd<Slice>, lo: nat, i: nat)
    requires lo <= i <= |s| && Tokens(s, Leaves(c), lo, i) && FewArgs(c) && InOrder(c) && Directed(s, c)
    ensures Sound(s, ParseBacks(s, c, i), lo)
    decreases |s| - i
  {
    hide Tokens, GetToken;
    var j := SkipSpaces(s, i);
    if Peeks(s, i, "&") {
      var t := GetToken(s, j);
      Stretch(s, Leaves(c), lo, i, t.next);
      BacksSound(s, Back(c), lo, t.next);
    } else {
      Stretch(s, Leaves(c), lo, i, j);
    }
  }

  lemma {:induction false} LineSound(s: string, i: nat)
    requires i <= |s| && NoNul(s)
    ensures Sound(s, ParseLine(s, i), i)
    decreases |s| - i, 3
  {
    hide Tokens, NoNul, ParsePipe, ParseExec, ParseBlock, ParseBacks, GetToken;
    PipeSound(s, i);
    var first := ParsePipe(s, i);
    if first.Ok? {
      BacksSound(s, first.value, i, first.pos);
      var backs := ParseBacks(s, first.value, first.pos);
      var j := SkipSpaces(s, backs.pos);
      if Peeks(s, backs.pos, ";") {
        var t := GetToken(s, j);
        LineSound(s, t.next);
        var rest := ParseLine(s, t.next);
        if rest.Ok? {
          TokensConcat(s, Leaves(backs.value), Leaves(rest.value), i, backs.pos, t.next, rest.pos);
          TokensPrecede(s, Leaves(backs.value), Leaves(rest.value), i, backs.pos, t.next, rest.pos);
        }
      } else {
        Stretch(s, Leaves(backs.value), i, backs.pos, j);
      }
    }
  }

  // The words of a parsed command are pairwise disjoint whole tokens of the text, the tree follows
  // the order of the text, and a file is written or read as the sign before it says.
  lemma ParsedTokens(s: string)
    requires NoNul(s) && ParseCmd(s).Ok?
    ensures Tokens(s, Leaves(ParseCmd(s).value), 0, |s|)
    ensures FewArgs(ParseCmd(s).value) && InOrder(ParseCmd(s).value) && Directed(s, ParseCmd(s).value)
  {
    hide Tokens, NoNul, ParseLine;
    LineSound(s, 0);
    Stretch(s, Leaves(ParseLine(s, 0).value), 0, ParseLine(s, 0).pos, |s|);
  }

  lemma {:induction false} TokensWellFormed(s: string, c: Cmd<Slice>)
    requires FewArgs(c) && (forall w | w in Leaves(c) :: WordSlice(s, w))
    ensures WellFormed(Resolve(s, c))
  {
    match c
    case Exec(args) =>
      forall k | 0 <= k < |args|
        ensures IsWord(Texts(s, args)[k])
      {
        assert args[k] in Leaves(c);
      }
    case Redir(cmd, file, _) =>
      assert file in Leaves(c);
      TokensWellFormed(s, cmd);
    case Pipe(left, right) =>
      TokensWellFormed(s, left);
      TokensWellFormed(s, right);
    case List(left, right) =>
      TokensWellFormed(s, left);
      TokensWellFormed(s, right);
    case Back(cmd) => TokensWellFormed(s, cmd);
  }

  // The parser only builds trees that the printer can print, so printing what was parsed and
  // parsing it again changes nothing.
  lemma PrintingIsStable(s: string)
    requires NoNul(s) && ParseCmd(s).Ok?
    ensures var t := Resolve(s, ParseCmd(s).value);
      && WellFormed(t)
      && ParseCmd(PrintLine(t)).Ok?
      && Resolve(PrintLine(t), ParseCmd(PrintLine(t)).value) == t
  {
    ParsedTokens(s);
    var c := ParseCmd(s).value;
    forall w | w in Leaves(c)
      ensures WordSlice(s, w)
    {
      var k :| 0 <= k < |Leaves(c)| && Leaves(c)[k] == w;
    }
    hide ParseCmd, PrintLine, Resolve, WellFormed, WordSlice, Tokens;
    TokensWellFormed(s, c);
    RoundTrip(Resolve(s, c));
  }

  // ---- NUL termination -----------------------------------------------------------------------

  // The C string at position q of a buffer.
  function CString(b: seq<char>, q: nat): string
    decreases |b| - q
  {
    if q >= |b| || b[q] == NUL then "" else [b[q]] + CString(b, q + 1)
  }

  // The buffer with a NUL at the end of each of the slices ws.
  ghost predicate Terminated(before: seq<char>, after: seq<char>, ws: seq<Slice>) {
    && |after| == |before|
    && forall k | 0 <= k < |before| ::
         after[k] == if EndsAt(ws, k) then NUL else before[k]
  }

  ghost predicate EndsAt(ws: seq<Slice>, k: nat) {
    exists w :: w in ws && w.eq == k
  }

  lemma TerminateStep(before: seq<char>, after: seq<char>, ws: seq<Slice>, w: Slice)
    requires Terminated(before, after, ws) && w.eq < |after|
    ensures Terminated(before, after[w.eq := NUL], ws + [w])
  {
    forall k | 0 <= k < |before|
      ensures EndsAt(ws + [w], k) <==> k == w.eq || EndsAt(ws, k)
    {
      if k == w.eq {
        assert w in ws + [w];
      } else if EndsAt(ws, k) {
        var v :| v in ws && v.eq == k;
        assert v in ws + [w];
      }
    }
  }

  lemma TerminateBoth(before: seq<char>, mid: seq<char>, after: seq<char>, v: seq<Slice>, w: seq<Slice>)
    requires Terminated(before, mid, v) && Terminated(mid, after, w)
    ensures Terminated(before, after, v + w)
  {
    forall k | 0 <= k < |before|
      ensures EndsAt(v + w, k) <==> EndsAt(v, k) || EndsAt(w, k)
    {
      if EndsAt(v, k) {
        var x :| x in v && x.eq == k;
        assert x in v + w;
      }
      if EndsAt(w, k) {
        var x :| x in w && x.eq == k;
        assert x in v + w;
      }
    }
  }

  lemma {:induction false} ReadsToEnd(b: seq<char>, q: nat, e: nat)
    requires q <= e < |b| && b[e] == NUL && (forall k | q <= k < e :: b[k] != NUL)
    ensures CString(b, q) == b[q..e]
    decreases e - q
  {
    if q < e {
      ReadsToEnd(b, q + 1, e);
    }
  }

  // No end mark falls inside another word, and every pointer into the buffer reads as the C
  // string that was parsed there.
  lemma StringsSurvive(s: string, before: seq<char>, after: seq<char>, ws: seq<Slice>, w: Slice)
    requires |s| < |before| && before[..|s|] == s && before[|s|] == NUL
    requires Tokens(s, ws, 0, |s|) && Terminated(before, after, ws) && w in ws
    ensures forall v | v in ws :: !(w.q <= v.eq < w.eq)
    ensures CString(after, w.q) == Text(s, w)
  {
    forall v | v in ws
      ensures WordSlice(s, v) && !(w.q <= v.eq < w.eq)
    {
    }
    forall k | w.q <= k < w.eq
      ensures after[k] == s[k] && after[k] != NUL
    {
      assert before[k] == before[..|s|][k];
    }
    ReadsToEnd(after, w.q, w.eq);
    assert after[w.q..w.eq] == s[w.q..w.eq];
  }
}
