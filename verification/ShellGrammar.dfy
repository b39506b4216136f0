/**
 The shell's command language: the token rules of gettoken and peek, the grammar of
 parseline, parsepipe, parseblock and parseexec as functions of the text and a position, and a printer
 for command trees.

 The parser's trees hold slices of the text and the reader's hold strings; Resolve goes from one
 to the other.
 */
module ShellGrammar {

  // W is a slice of the source text in the parser's own trees, and a string in the trees a
  // reader has in mind. `out` tells > and >> (which the source treats alike) from <.
  datatype Cmd<W> =
    | Exec(args: seq<W>)
    | Redir(cmd: Cmd<W>, file: W, out: bool)
    | Pipe(left: Cmd<W>, right: Cmd<W>)
    | List(left: Cmd<W>, right: Cmd<W>)
    | Back(cmd: Cmd<W>)

  // The characters q .. eq-1 of the text.
  datatype Slice = Slice(q: nat, eq: nat)

  datatype Result<T> = Ok(value: T, pos: nat) | Err

  const MAXARGS := 10
  const NUL: char := 0 as char

  predicate IsSpace(c: char) {
    c in " \t\r\n" || c == 11 as char
  }

  predicate IsSymbol(c: char) {
    c in "<|>&;()"
  }

  predicate IsWordChar(c: char) {
    c != NUL && !IsSpace(c) && !IsSymbol(c)
  }

  // ---- Tokens -----------------------------------------------------------------------

  // *s; the buffer is NUL-terminated at es.
  function CharAt(s: string, i: nat): char {
    if i < |s| then s[i] else NUL
  }

  function SkipSpaces(s: string, i: nat): (j: nat)
    requires i <= |s|
    ensures i <= j <= |s|
    ensures forall k | i <= k < j :: IsSpace(s[k])
    ensures j < |s| ==> !IsSpace(s[j])
    decreases |s| - i
  {
    if i < |s| && IsSpace(s[i]) then SkipSpaces(s, i + 1) else i
  }

  function WordEnd(s: string, i: nat): (j: nat)
    requires i <= |s|
    ensures i <= j <= |s|
    ensures forall k | i <= k < j :: !IsSpace(s[k]) && !IsSymbol(s[k])
    ensures j < |s| ==> IsSpace(s[j]) || IsSymbol(s[j])
    decreases |s| - i
  {
    if i < |s| && !IsSpace(s[i]) && !IsSymbol(s[i]) then WordEnd(s, i + 1) else i
  }

  // kind is NUL at the end of the text, 'a' for a word, '+' for >>, and the symbol otherwise.
  datatype Token = Token(kind: char, q: nat, eq: nat, next: nat)

  function GetToken(s: string, i: nat): (t: Token)
    requires i <= |s|
    ensures i <= t.q <= t.eq <= t.next <= |s|
    ensures t.q < |s| ==> t.q < t.eq
    ensures t.kind == NUL <==> t.q == |s|
    ensures t.kind == NUL && (forall k | 0 <= k < |s| :: s[k] != NUL) ==> t.next == |s|
  {
    var q := SkipSpaces(s, i);
    var c := CharAt(s, q);
    if q == |s| then Token(NUL, q, q, q)
    else if c == '>' && CharAt(s, q + 1) == '>' then Token('+', q, q + 2, SkipSpaces(s, q + 2))
    else if IsSymbol(c) then Token(c, q, q + 1, SkipSpaces(s, q + 1))
    else
      var e := WordEnd(s, q);
      Token('a', q, e, SkipSpaces(s, e))
  }

  // peek's answer; it also moves the position to SkipSpaces(s, i).
  predicate Peeks(s: string, i: nat, toks: string)
    requires i <= |s|
  {
    var c := CharAt(s, SkipSpaces(s, i));
    c != NUL && c in toks
  }

  // ---- The grammar --------------------------------------------------------------------

  datatype Redirection<W> = Redirection(file: W, out: bool)

  // cmd with redirections put around it, in the order they were read.
  function Wrap<W>(cmd: Cmd<W>, rs: seq<Redirection<W>>): Cmd<W> {
    if rs == [] then cmd
    else
      var r := rs[|rs| - 1];
      Redir(Wrap(cmd, rs[..|rs| - 1]), r.file, r.out)
  }

  // parseredirs: rs are the redirections read so far.
  function ParseRedirs(s: string, rs: seq<Redirection<Slice>>, i: nat): (r: Result<seq<Redirection<Slice>>>)
    requires i <= |s|
    ensures r.Ok? ==> i <= r.pos <= |s|
    decreases |s| - i
  {
    var j := SkipSpaces(s, i);
    if !Peeks(s, i, "<>") then Ok(rs, j)
    else
      var t := GetToken(s, j);
      var w := GetToken(s, t.next);
      if w.kind != 'a' then Err
      else ParseRedirs(s, rs + [Redirection(Slice(w.q, w.eq), t.kind != '<')], w.next)
  }

  datatype Simple = Simple(args: seq<Slice>, redirs: seq<Redirection<Slice>>)

  // parseexec's loop over words.
  function ParseWords(s: string, c: Simple, i: nat): (r: Result<Simple>)
    requires i <= |s|
    ensures r.Ok? ==> i <= r.pos <= |s|
    decreases |s| - i
  {
    var j := SkipSpaces(s, i);
    if Peeks(s, i, "|)&;") then Ok(c, j)
    else
      var t := GetToken(s, j);
      if t.kind == NUL then Ok(c, t.next)
      else if t.kind != 'a' then Err
      else if |c.args| + 1 >= MAXARGS then Err
      else
        var rr := ParseRedirs(s, c.redirs, t.next);
        if rr.Err? then Err
        else ParseWords(s, Simple(c.args + [Slice(t.q, t.eq)], rr.value), rr.pos)
  }

  function ParseExec(s: string, i: nat): (r: Result<Cmd<Slice>>)
    requires i <= |s|
    ensures r.Ok? ==> i <= r.pos <= |s|
    decreases |s| - i, 1
  {
    var j := SkipSpaces(s, i);
    if Peeks(s, i, "(") then ParseBlock(s, j)
    else
      var rr := ParseRedirs(s, [], j);
      if rr.Err? then Err
      else
        var w := ParseWords(s, Simple([], rr.value), rr.pos);
        if w.Err? then Err else Ok(Wrap(Exec(w.value.args), w.value.redirs), w.pos)
  }

  function ParseBlock(s: string, i: nat): (r: Result<Cmd<Slice>>)
    requires i <= |s|
    ensures r.Ok? ==> i <= r.pos <= |s|
    decreases |s| - i, 0
  {
    if !Peeks(s, i, "(") then Err
    else
      var t := GetToken(s, SkipSpaces(s, i));
      var line := ParseLine(s, t.next);
      if line.Err? || !Peeks(s, line.pos, ")") then Err
      else
        var close := GetToken(s, SkipSpaces(s, line.pos));
        var rr := ParseRedirs(s, [], close.next);
        if rr.Err? then Err else Ok(Wrap(line.value, rr.value), rr.pos)
  }

  function ParsePipe(s: string, i: nat): (r: Result<Cmd<Slice>>)
    requires i <= |s|
    ensures r.Ok? ==> i <= r.pos <= |s|
    decreases |s| - i, 2
  {
    var left := ParseExec(s, i);
    if left.Err? then Err
    else if !Peeks(s, left.pos, "|") then Ok(left.value, SkipSpaces(s, left.pos))
    else
      var t := GetToken(s, SkipSpaces(s, left.pos));
      var right := ParsePipe(s, t.next);
      if right.Err? then Err else Ok(Pipe(left.value, right.value), right.pos)
  }

  // parseline's loop over '&'.
  function ParseBacks(s: string, cmd: Cmd<Slice>, i: nat): (r: Result<Cmd<Slice>>)
    requires i <= |s|
    ensures r.Ok? && i <= r.pos <= |s|
    decreases |s| - i
  {
    var j := SkipSpaces(s, i);
    if !Peeks(s, i, "&") then Ok(cmd, j)
    else ParseBacks(s, Back(cmd), GetToken(s, j).next)
  }

  function ParseLine(s: string, i: nat): (r: Result<Cmd<Slice>>)
    requires i <= |s|
    ensures r.Ok? ==> i <= r.pos <= |s|
    decreases |s| - i, 3
  {
    var first := ParsePipe(s, i);
    if first.Err? then Err
    else
      var backs := ParseBacks(s, first.value, first.pos);
      if !Peeks(s, backs.pos, ";") then Ok(backs.value, SkipSpaces(s, backs.pos))
      else
        var rest := ParseLine(s, GetToken(s, SkipSpaces(s, backs.pos)).next);
        if rest.Err? then Err else Ok(List(backs.value, rest.value), rest.pos)
  }

  // parsecmd, up to nulterminate.
  function ParseCmd(s: string): (r: Result<Cmd<Slice>>)
    ensures r.Ok? ==> r.pos == |s|
  {
    var line := ParseLine(s, 0);
    if line.Err? || SkipSpaces(s, line.pos) != |s| then Err else Ok(line.value, |s|)
  }

  // ---- Trees of strings -------------------------------------------------------------------

  function Text(s: string, w: Slice): string
  {
    if w.q <= w.eq <= |s| then s[w.q..w.eq] else ""
  }

  function Texts(s: string, ws: seq<Slice>): (r: seq<string>)
    ensures |r| == |ws| && forall k | 0 <= k < |ws| :: r[k] == Text(s, ws[k])
  {
    seq(|ws|, k requires 0 <= k < |ws| => Text(s, ws[k]))
  }

  // The tree with every slice replaced by the characters it stands for.
  function Resolve(s: string, c: Cmd<Slice>): Cmd<string> {
    match c
    case Exec(args) => Exec(Texts(s, args))
    case Redir(cmd, file, out) => Redir(Resolve(s, cmd), Text(s, file), out)
    case Pipe(left, right) => Pipe(Resolve(s, left), Resolve(s, right))
    case List(left, right) => List(Resolve(s, left), Resolve(s, right))
    case Back(cmd) => Back(Resolve(s, cmd))
  }

  predicate IsWord(w: string) {
    w != [] && forall k | 0 <= k < |w| :: IsWordChar(w[k])
  }

  // Fewer than MAXARGS words per command, all of them words.
  predicate WellFormed(t: Cmd<string>) {
    match t
    case Exec(args) => |args| < MAXARGS && forall k | 0 <= k < |args| :: IsWord(args[k])
    case Redir(cmd, file, _) => WellFormed(cmd) && IsWord(file)
    case Pipe(left, right) => WellFormed(left) && WellFormed(right)
    case List(left, right) => WellFormed(left) && WellFormed(right)
    case Back(cmd) => WellFormed(cmd)
  }

  // ---- Printing -------------------------------------------------------------------------------

  function Core<W>(t: Cmd<W>): (r: Cmd<W>)
    ensures !r.Redir? && (t.Redir? ==> r < t) && (!t.Redir? ==> r == t)
  {
    if t.Redir? then Core(t.cmd) else t
  }

  function Redirs<W>(t: Cmd<W>): seq<Redirection<W>> {
    if t.Redir? then Redirs(t.cmd) + [Redirection(t.file, t.out)] else []
  }

  function PrintWords(ws: seq<string>): string {
    if ws == [] then "" else ws[0] + " " + PrintWords(ws[1..])
  }

  function PrintRedirs(rs: seq<Redirection<string>>): string {
    if rs == [] then "" else (if rs[0].out then ">" else "<") + rs[0].file + " " + PrintRedirs(rs[1..])
  }

  // Which of the four printers reaches a node of t's kind first: they call each other in turn,
  // on the same node, until the one that takes the node apart.
  function Rank<W>(t: Cmd<W>, printer: nat): nat
    requires printer < 4
  {
    var home := if t.List? then 0 else if t.Back? then 1 else if t.Pipe? then 2 else 3;
    (home + 4 - printer) % 4
  }

  // Parentheses appear exactly where the grammar would otherwise read another tree.
  function PrintLine(t: Cmd<string>): string
    decreases t, Rank(t, 0)
  {
    if t.List? then PrintBacks(t.left) + ";" + PrintLine(t.right) else PrintBacks(t)
  }

  function PrintBacks(t: Cmd<string>): string
    decreases t, Rank(t, 1)
  {
    if t.Back? then PrintBacks(t.cmd) + "&" else PrintPipe(t)
  }

  function PrintPipe(t: Cmd<string>): string
    decreases t, Rank(t, 2)
  {
    if t.Pipe? then PrintItem(t.left) + "|" + PrintPipe(t.right) else PrintItem(t)
  }

  function PrintItem(t: Cmd<string>): string
    decreases t, Rank(t, 3)
  {
    var core := Core(t);
    (if core.Exec? then PrintWords(core.args) else "(" + PrintLine(core) + ")") + PrintRedirs(Redirs(t))
  }
}
