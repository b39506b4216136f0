/**
 The parser of sh.c as it runs: recursive descent that advances a position in the command
 buffer, and nulterminate, which writes NULs into that buffer.
 */
module ShellParser {
  import opened ShellGrammar
  import opened ShellTokens

  datatype Outcome<T> = Parsed(value: T) | Panicked

  // The outcome a grammar function asks for, given the position the parser has reached.
  ghost predicate Agrees<T>(r: Outcome<T>, ps: nat, spec: Result<T>) {
    match r
    case Parsed(v) => spec == Ok(v, ps)
    case Panicked => spec == Err
  }

  class Parser {
    const buf: array<char>
    const es: nat
    var ps: nat

    ghost predicate Valid()
      reads this, buf
    {
      ps <= es < buf.Length && buf[es] == NUL && NoNul(buf[..es])
    }

    ghost function Src(): string
      reads this, buf
      requires es < buf.Length
    {
      buf[..es]
    }

    // es = s + strlen(s)
    constructor (buf: array<char>, es: nat)
      requires es < buf.Length && buf[es] == NUL && NoNul(buf[..es])
      ensures Valid() && this.buf == buf && this.es == es && ps == 0
    {
      this.buf, this.es, this.ps := buf, es, 0;
    }

    // The loops `while(s < es && strchr(whitespace, *s)) s++`.
    method Skip(s: nat) returns (j: nat)
      requires Valid() && s <= es
      ensures j == SkipSpaces(Src(), s)
    {
      j := s;
      while j < es && IsSpace(buf[j])
        invariant j <= es && SkipSpaces(Src(), j) == SkipSpaces(Src(), s)
      {
        assert buf[j] == Src()[j];
        j := j + 1;
      }
      assert j < es ==> buf[j] == Src()[j];
    }

    // gettoken's loop over a word.
    method Scan(s: nat) returns (j: nat)
      requires Valid() && s <= es
      ensures j == WordEnd(Src(), s)
    {
      j := s;
      while j < es && !IsSpace(buf[j]) && !IsSymbol(buf[j])
        invariant j <= es && WordEnd(Src(), j) == WordEnd(Src(), s)
      {
        assert buf[j] == Src()[j];
        j := j + 1;
      }
      assert j < es ==> buf[j] == Src()[j];
    }

    // gettoken. kind is 0 at the end, 'a' for a word, '+' for >>, and the symbol itself otherwise.
    method Next() returns (kind: char, q: nat, eq: nat)
      requires Valid()
      modifies `ps
      ensures Valid() && old(ps) <= ps
      ensures Token(kind, q, eq, ps) == GetToken(Src(), old(ps))
    {
      hide SkipSpaces, WordEnd;
      ghost var src := Src();
      var s := Skip(ps);
      q, kind := s, buf[s];
      assert s < es ==> buf[s] == src[s];
      if kind == NUL {
        assert s == es;
      } else if IsSymbol(kind) && kind != '>' {
        s := s + 1;
      } else if kind == '>' {
        s := s + 1;
        assert s < es ==> buf[s] == src[s];
        if buf[s] == '>' {
          kind := '+';
          s := s + 1;
        }
      } else {
        kind := 'a';
        s := Scan(s);
      }
      eq := s;
      ps := Skip(s);
    }

    method Peek(toks: string) returns (r: bool)
      requires Valid()
      modifies `ps
      ensures Valid() && ps == SkipSpaces(Src(), old(ps))
      ensures r == Peeks(Src(), old(ps), toks)
    {
      ps := Skip(ps);
      assert ps < es ==> buf[ps] == Src()[ps];
      r := buf[ps] != NUL && buf[ps] in toks;
    }

    // The redirections put around a command, innermost first.
    method Redirections(sofar: seq<Redirection<Slice>>) returns (r: Outcome<seq<Redirection<Slice>>>)
      requires Valid()
      modifies `ps
      ensures Valid() && Agrees(r, ps, ParseRedirs(Src(), sofar, old(ps)))
      ensures r.Parsed? ==> old(ps) <= ps
    {
      ghost var src, i0 := Src(), ps;
      var rs := sofar;
      var more := Peek("<>");
      ghost var i := i0;
      while more
        invariant Valid() && i0 <= i <= ps == SkipSpaces(src, i) && more == Peeks(src, i, "<>")
        invariant ParseRedirs(src, rs, i) == ParseRedirs(src, sofar, i0)
        decreases es - i
      {
        var tok, _, _ := Next();
        var kind, q, eq := Next();
        if kind != 'a' {
          return Panicked;
        }
        rs := rs + [Redirection(Slice(q, eq), tok != '<')];
        i := ps;
        more := Peek("<>");
      }
      r := Parsed(rs);
    }
  
    // parseexec's loop over words, with the redirections between them.
    method Words(first: seq<Redirection<Slice>>) returns (r: Outcome<Simple>)
      requires Valid()
      modifies `ps
      ensures Valid() && Agrees(r, ps, ParseWords(Src(), Simple([], first), old(ps)))
      ensures r.Parsed? ==> old(ps) <= ps
    {
      hide ParseRedirs, GetToken, SkipSpaces;
      ghost var src, i0 := Src(), ps;
      var args, redirs := [], first;
      ghost var i := ps;
      var stop := Peek("|)&;");
      while !stop
        invariant Valid() && i0 <= i <= ps == SkipSpaces(src, i) && stop == Peeks(src, i, "|)&;")
        invariant ParseWords(src, Simple(args, redirs), i) == ParseWords(src, Simple([], first), i0)
        decreases es - i
      {
        var tok, q, eq := Next();
        if tok == NUL {
          break;
        }
        if tok != 'a' {
          return Panicked;
        }
        if |args| + 1 >= MAXARGS {
          return Panicked;
        }
        args := args + [Slice(q, eq)];
        var rs := Redirections(redirs);
        if rs.Panicked? {
          return Panicked;
        }
        redirs := rs.value;
        i := ps;
        stop := Peek("|)&;");
      }
      r := Parsed(Simple(args, redirs));
    }

    method Item() returns (r: Outcome<Cmd<Slice>>)
      requires Valid()
      modifies `ps
      ensures Valid() && Agrees(r, ps, ParseExec(Src(), old(ps)))
      ensures r.Parsed? ==> old(ps) <= ps
      decreases es - ps, 1
    {
      hide ParseRedirs, ParseWords, ParseBlock, ParseLine, GetToken, SkipSpaces, Wrap;
      var block := Peek("(");
      if block {
        r := Block();
        return;
      }
      var rs := Redirections([]);
      if rs.Panicked? {
        return Panicked;
      }
      var ws := Words(rs.value);
      r := if ws.Panicked? then Panicked else Parsed(Wrap(Exec(ws.value.args), ws.value.redirs));
    }

    method Block() returns (r: Outcome<Cmd<Slice>>)
      requires Valid()
      modifies `ps
      ensures Valid() && Agrees(r, ps, ParseBlock(Src(), old(ps)))
      ensures r.Parsed? ==> old(ps) <= ps
      decreases es - ps, 0
    {
      hide ParseRedirs, ParseWords, ParseExec, ParseLine, GetToken, SkipSpaces, Wrap;
      var open := Peek("(");
      if !open {
        return Panicked;
      }
      var _, _, _ := Next();
      var line := Line();
      if line.Panicked? {
        return Panicked;
      }
      var close := Peek(")");
      if !close {
        return Panicked;
      }
      var _, _, _ := Next();
      var rs := Redirections([]);
      r := if rs.Panicked? then Panicked else Parsed(Wrap(line.value, rs.value));
    }

    method Pipeline() returns (r: Outcome<Cmd<Slice>>)
      requires Valid()
      modifies `ps
      ensures Valid() && Agrees(r, ps, ParsePipe(Src(), old(ps)))
      ensures r.Parsed? ==> old(ps) <= ps
      decreases es - ps, 2
    {
      hide ParseExec, ParseBlock, ParseLine, GetToken, SkipSpaces;
      r := Item();
      if r.Panicked? {
        return;
      }
      var more := Peek("|");
      if more {
        var _, _, _ := Next();
        var right := Pipeline();
        r := if right.Panicked? then Panicked else Parsed(Pipe(r.value, right.value));
      }
    }

    method Line() returns (r: Outcome<Cmd<Slice>>)
      requires Valid()
      modifies `ps
      ensures Valid() && Agrees(r, ps, ParseLine(Src(), old(ps)))
      ensures r.Parsed? ==> old(ps) <= ps
      decreases es - ps, 3
    {
      hide ParsePipe, ParseExec, ParseBlock, GetToken, SkipSpaces;
      ghost var src, i0 := Src(), ps;
      r := Pipeline();
      if r.Panicked? {
        return;
      }
      var cmd := r.value;
      ghost var first := ParseBacks(src, cmd, ps);
      ghost var i := ps;
      var more := Peek("&");
      while more
        invariant Valid() && i0 <= i <= ps == SkipSpaces(src, i) && more == Peeks(src, i, "&")
        invariant ParseBacks(src, cmd, i) == first
        decreases es - i
      {
        var _, _, _ := Next();
        cmd := Back(cmd);
        i := ps;
        more := Peek("&");
      }
      more := Peek(";");
      if more {
        var _, _, _ := Next();
        var rest := Line();
        r := if rest.Panicked? then Panicked else Parsed(List(cmd, rest.value));
      } else {
        r := Parsed(cmd);
      }
    }

    // Write a NUL at the end of every word of c.
    method Nulterminate(c: Cmd<Slice>)
      requires forall w | w in Leaves(c) :: w.eq < buf.Length
      modifies buf
      ensures Terminated(old(buf[..]), buf[..], Leaves(c))
      decreases c
    {
      match c
      case Exec(args) =>
        var i := 0;
        while i < |args|
          invariant i <= |args|
          invariant Terminated(old(buf[..]), buf[..], args[..i])
        {
          assert args[i] in Leaves(c);
          TerminateStep(old(buf[..]), buf[..], args[..i], args[i]);
          buf[args[i].eq] := NUL;
          assert args[..i + 1] == args[..i] + [args[i]];
          i := i + 1;
        }
        assert args[..|args|] == args;
      case Redir(cmd, file, _) =>
        Nulterminate(cmd);
        assert file in Leaves(c);
        TerminateStep(old(buf[..]), buf[..], Leaves(cmd), file);
        buf[file.eq] := NUL;
      case Pipe(left, right) =>
        Nulterminate(left);
        ghost var mid := buf[..];
        Nulterminate(right);
        TerminateBoth(old(buf[..]), mid, buf[..], Leaves(left), Leaves(right));
      case List(left, right) =>
        Nulterminate(left);
        ghost var mid := buf[..];
        Nulterminate(right);
        TerminateBoth(old(buf[..]), mid, buf[..], Leaves(left), Leaves(right));
      case Back(cmd) =>
        Nulterminate(cmd);
    }

    // parsecmd: every word of the tree, and nothing else, ends up as a C string of its own.
    method Command() returns (r: Outcome<Cmd<Slice>>)
      requires Valid() && ps == 0
      modifies `ps, buf
      ensures r == (if ParseCmd(old(Src())).Ok? then Parsed(ParseCmd(old(Src())).value) else Panicked)
      ensures r.Parsed? ==>
        && Terminated(old(buf[..]), buf[..], Leaves(r.value))
        && forall w | w in Leaves(r.value) :: CString(buf[..], w.q) == Text(old(Src()), w)
    {
      ghost var src, before := Src(), buf[..];
      r := Line();
      if r.Panicked? {
        return;
      }
      var _ := Peek("");
      if ps != es {
        return Panicked;
      }
      ParsedTokens(src);
      var c := r.value;
      forall w | w in Leaves(c)
        ensures w.eq < buf.Length
      {
      }
      Nulterminate(c);
      forall w | w in Leaves(c)
        ensures CString(buf[..], w.q) == Text(src, w)
      {
        StringsSurvive(src, before, buf[..], Leaves(c), w);
      }
    }
  }
}
