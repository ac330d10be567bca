// sh.c as it runs: a cursor over the line, and the strings terminated in place. A call that
// panics returns Fail.
module ShCode {
  import opened Sh
  import opened ShGrammar
  import opened ShRoundTrip

  class Parser {
    const buf: array<char>
    const es: nat // the end of the line: its NUL
    var s: nat // the cursor *ps

    ghost predicate Valid()
      reads this, buf
    {
      es < buf.Length && buf[es] == NUL && s <= es && NoNul(Line())
    }

    ghost function Line(): string
      reads buf
      requires es < buf.Length
    {
      buf[..es]
    }

    // parsecmd sets es by strlen(s).
    constructor (buf: array<char>)
      requires exists k :: 0 <= k < buf.Length && buf[k] == NUL
      ensures Valid() && this.buf == buf && s == 0
    {
      var n := 0;
      while buf[n] != NUL
        invariant 0 <= n < buf.Length && forall k :: 0 <= k < n ==> buf[k] != NUL
        invariant exists k :: n <= k < buf.Length && buf[k] == NUL
        decreases buf.Length - n
      {
        n := n + 1;
      }
      this.buf, es, s := buf, n, 0;
    }

    method SkipSpaces(from: nat) returns (i: nat)
      requires Valid() && from <= es
      ensures i == SkipSpace(Line(), from)
    {
      i := from;
      while i < es && IsSpace(buf[i])
        invariant from <= i <= es && SkipSpace(Line(), i) == SkipSpace(Line(), from)
      {
        i := i + 1;
      }
    }

    method SkipWord(from: nat) returns (i: nat)
      requires Valid() && from <= es
      ensures i == WordEnd(Line(), from)
    {
      i := from;
      while i < es && !IsSpace(buf[i]) && !IsSymbol(buf[i])
        invariant from <= i <= es && WordEnd(Line(), i) == WordEnd(Line(), from)
      {
        i := i + 1;
      }
    }

    method GetToken() returns (kind: char, q: nat, eq: nat)
      requires Valid()
      modifies this`s
      ensures Valid() && Token(kind, q, eq, s) == Sh.GetToken(Line(), old(s))
    {
      hide SkipSpace, WordEnd, NoNul;
      var i := SkipSpaces(s);
      assert i < es ==> buf[i] == Line()[i];
      q := i;
      kind := buf[i];
      if buf[i] == NUL {
      } else if buf[i] == '|' || buf[i] == '(' || buf[i] == ')' || buf[i] == ';' || buf[i] == '&' || buf[i] == '<' {
        i := i + 1;
      } else if buf[i] == '>' {
        i := i + 1;
        if buf[i] == '>' {
          kind := '+';
          i := i + 1;
        }
      } else {
        kind := 'a';
        i := SkipWord(i);
      }
      eq := i;
      s := SkipSpaces(i);
    }

    method Peek(toks: string) returns (r: bool)
      requires Valid()
      modifies this`s
      ensures Valid() && s == SkipSpace(Line(), old(s)) && r == Sh.Peek(Line(), old(s), toks)
      ensures r == Sh.Peek(Line(), s, toks) && SkipSpace(Line(), s) == s
      ensures Sh.GetToken(Line(), s) == Sh.GetToken(Line(), old(s))
    {
      s := SkipSpaces(s);
      r := buf[s] != NUL && buf[s] in toks;
    }

    // parseredirs; the redirections rs are those that wrap the command already.
    method ParseRedirs(rs: seq<Redirection>) returns (r: Result<seq<Redirection>>)
      requires Valid()
      modifies this`s
      ensures Valid() && r == Redirs(Line(), old(s), rs) && (r.Ok? ==> s == r.pos)
      ensures s >= old(s)
    {
      hide SkipSpace, Sh.GetToken, Sh.Peek, NoNul;
      var all := rs;
      ghost var l := Line();
      var more := Peek("<>");
      RedirsSkip(l, old(s), rs);
      while more
        invariant Valid() && old(s) <= s && Redirs(l, s, all) == Redirs(l, old(s), rs)
        invariant more == Sh.Peek(l, s, "<>") && SkipSpace(l, s) == s
        decreases es - s, more
      {
        PeekedToken(l, s, "<>");
        var tok, q, eq := GetToken();
        tok, q, eq, all := ParseFile(tok, all);
        if tok != 'a' {
          return Fail;
        }
        RedirsSkip(l, s, all);
        more := Peek("<>");
      }
      return Ok(all, s);
    }

    // The file name after the operator op.
    method ParseFile(op: char, rs: seq<Redirection>) returns (tok: char, q: nat, eq: nat, all: seq<Redirection>)
      requires Valid()
      modifies this`s
      ensures Valid() && Token(tok, q, eq, s) == Sh.GetToken(Line(), old(s))
      ensures all == rs + [Redirection(Span(q, eq), if op == '<' then Input else Output)]
    {
      tok, q, eq := GetToken();
      all := rs + [Redirection(Span(q, eq), if op == '<' then Input else Output)];
    }

    method ParseBlock() returns (r: Result<Cmd>)
      requires Valid()
      modifies this`s
      ensures Valid() && r == Sh.ParseBlock(Line(), old(s)) && (r.Ok? ==> s == r.pos)
      decreases es - s, 0
    {
      hide SkipSpace, Sh.GetToken, Sh.Peek, NoNul, Redirs, Sh.ParseLine;
      ghost var l := Line();
      var open := Peek("(");
      if !open {
        return Fail;
      }
      PeekedToken(l, s, "(");
      var tok, q, eq := GetToken();
      r := ParseLine();
      if r.Fail? {
        return Fail;
      }
      var cmd := r.value;
      var close := Peek(")");
      if !close {
        return Fail;
      }
      tok, q, eq := GetToken();
      var rs := ParseRedirs([]);
      if rs.Fail? {
        return Fail;
      }
      return Ok(Wrap(cmd, rs.value), s);
    }

    method ParseExec() returns (r: Result<Cmd>)
      requires Valid()
      modifies this`s
      ensures Valid() && r == Sh.ParseExec(Line(), old(s)) && (r.Ok? ==> s == r.pos)
      decreases es - s, 1
    {
      hide SkipSpace, Sh.GetToken, Sh.Peek, NoNul, Redirs, Sh.ParseBlock, Args;
      ghost var l := Line();
      var block := Peek("(");
      if block {
        r := ParseBlock();
        return;
      }
      RedirsSkip(l, old(s), []);
      var rs := ParseRedirs([]);
      if rs.Fail? {
        return Fail;
      }
      ghost var s0, rs0 := s, rs.value;
      var argv: seq<Span> := [];
      while true
        invariant Valid() && old(s) <= s0 <= s && rs.Ok? && Args(l, s, argv, rs.value) == Args(l, s0, [], rs0)
        decreases es - s
      {
        ghost var i := s;
        var end := Peek("|)&;");
        ArgsStep(l, i, argv, rs.value);
        if end {
          break;
        }
        var tok, q, eq := GetToken();
        if tok == NUL {
          break;
        }
        if tok != 'a' {
          return Fail;
        }
        argv := argv + [Span(q, eq)];
        if |argv| >= MAXARGS {
          return Fail;
        }
        WordToken(l, i);
        rs := ParseRedirs(rs.value);
        if rs.Fail? {
          return Fail;
        }
      }
      return Ok(Wrap(Exec(argv), rs.value), s);
    }

    method ParsePipe() returns (r: Result<Cmd>)
      requires Valid()
      modifies this`s
      ensures Valid() && r == Sh.ParsePipe(Line(), old(s)) && (r.Ok? ==> s == r.pos)
      decreases es - s, 2
    {
      hide SkipSpace, Sh.GetToken, Sh.Peek, NoNul, Sh.ParseExec;
      ghost var l := Line();
      r := ParseExec();
      if r.Fail? {
        return;
      }
      var left := r.value;
      var pipe := Peek("|");
      if !pipe {
        return Ok(left, s);
      }
      PeekedToken(l, s, "|");
      var tok, q, eq := GetToken();
      r := ParsePipe();
      if r.Fail? {
        return;
      }
      return Ok(Pipe(left, r.value), s);
    }

    method ParseLine() returns (r: Result<Cmd>)
      requires Valid()
      modifies this`s
      ensures Valid() && r == Sh.ParseLine(Line(), old(s)) && (r.Ok? ==> s == r.pos)
      decreases es - s, 3
    {
      hide SkipSpace, Sh.GetToken, Sh.Peek, NoNul, Sh.ParsePipe;
      ghost var l := Line();
      r := ParsePipe();
      if r.Fail? {
        return;
      }
      var cmd := r.value;
      ghost var j, first := s, cmd;
      var back := Peek("&");
      BacksSkip(l, j, first);
      while back
        invariant Valid() && j <= s && Backs(l, s, cmd) == Backs(l, j, first)
        invariant back == Sh.Peek(l, s, "&") && SkipSpace(l, s) == s
        decreases es - s, back
      {
        PeekedToken(l, s, "&");
        var tok, q, eq := GetToken();
        cmd := Back(cmd);
        BacksSkip(l, s, cmd);
        back := Peek("&");
      }
      assert Backs(l, j, first) == (cmd, s);
      var list := Peek(";");
      if !list {
        return Ok(cmd, s);
      }
      PeekedToken(l, s, ";");
      var tok, q, eq := GetToken();
      r := ParseLine();
      if r.Fail? {
        return;
      }
      return Ok(List(cmd, r.value), s);
    }

    method NulTerminate(cmd: Cmd)
      requires forall k: nat :: EndsAt(cmd, k) ==> k < buf.Length
      modifies buf
      ensures buf[..] == Terminated(old(buf[..]), cmd)
      decreases cmd
    {
      ghost var b: string := buf[..];
      match cmd {
        case Exec(argv) =>
          for i := 0 to |argv|
            invariant buf[..] == Terminated(b, Exec(argv[..i]))
          {
            assert EndsAt(cmd, argv[i].eq);
            assert argv[..i + 1] == argv[..i] + [argv[i]];
            buf[argv[i].eq] := NUL;
          }
          assert argv[..|argv|] == argv;
        case Redir(c, file, mode) =>
          assert EndsAt(cmd, file.eq) && forall k: nat :: EndsAt(c, k) ==> EndsAt(cmd, k);
          NulTerminate(c);
          buf[file.eq] := NUL;
        case Pipe(left, right) =>
          assert forall k: nat :: EndsAt(left, k) || EndsAt(right, k) ==> EndsAt(cmd, k);
          NulTerminate(left);
          NulTerminate(right);
        case List(left, right) =>
          assert forall k: nat :: EndsAt(left, k) || EndsAt(right, k) ==> EndsAt(cmd, k);
          NulTerminate(left);
          NulTerminate(right);
        case Back(c) =>
          assert forall k: nat :: EndsAt(c, k) ==> EndsAt(cmd, k);
          NulTerminate(c);
      }
    }

    // It accepts exactly the lines of the grammar, and then the pointers of the command show
    // what the line means.
    method ParseCmd() returns (r: Result<Cmd>)
      requires Valid() && s == 0
      modifies this`s, buf
      ensures es < buf.Length && r == Sh.ParseCmd(old(Line()))
      ensures r.Ok? ==>
                && buf[..] == Terminated(old(buf[..]), r.value)
                && Seen(buf[..], r.value) == Text(old(Line()), r.value)
      ensures r.Ok? <==> exists lead: string, line: ShGrammar.Line :: IsTyped(old(Line()), lead, line) && LineFits(line)
      ensures r.Ok? ==> forall lead: string, line: ShGrammar.Line :: IsTyped(old(Line()), lead, line) ==>
                Seen(buf[..], r.value) == LineMeans(line)
      ensures r.Fail? ==> buf[..] == old(buf[..])
    {
      hide SkipSpace, Sh.ParseLine, Seen, Text, Terminated, EndsAt, NoNul, IsTyped, LineFits, LineMeans;
      ghost var l, b := Line(), buf[..];
      ParserIsGrammar(l);
      r := ParseLine();
      if r.Fail? {
        return;
      }
      var none := Peek("");
      if s != es {
        return Fail; // leftovers
      }
      EndsInside(l, r.value);
      NulTerminate(r.value);
      assert b == l + [NUL] + b[es + 1..];
      TerminatedShowsText(l, b[es + 1..]);
      r := Ok(r.value, s);
    }
  }

  lemma {:induction false} EndsInside(s: string, cmd: Cmd)
    requires NoNul(s) && Sh.ParseLine(s, 0).Ok? && cmd == Sh.ParseLine(s, 0).value
    ensures forall k: nat :: EndsAt(cmd, k) ==> k <= |s|
  {
    LineIsParsed(s, 0);
    forall k: nat | EndsAt(cmd, k) ensures k <= |s| {
      EndIsNoWordChar(s, cmd, k);
    }
  }

  lemma {:induction false} BacksSkip(s: string, i: nat, cmd: Cmd)
    requires i <= |s|
    ensures Backs(s, SkipSpace(s, i), cmd) == Backs(s, i, cmd)
  {
    hide SkipSpace, Sh.GetToken, Sh.Peek;
    SkipTwice(s, i, "&");
  }

  // One turn of the loop over the words.
  lemma {:induction false} ArgsStep(s: string, i: nat, argv: seq<Span>, rs: seq<Redirection>)
    requires i <= |s|
    ensures Args(s, i, argv, rs) ==
      if Sh.Peek(s, i, "|)&;") then Ok((argv, rs), SkipSpace(s, i))
      else
        var t := Sh.GetToken(s, i);
        if t.kind == NUL then Ok((argv, rs), t.next)
        else if t.kind != 'a' || |argv| + 1 >= MAXARGS then Fail
        else
          match Redirs(s, t.next, rs)
          case Fail => Fail
          case Ok(rs', j) => Args(s, j, argv + [Span(t.q, t.eq)], rs')
  {
  }
}
