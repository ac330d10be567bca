// The command language of sh.c: the parser as functions of the input line, the printing of a
// command tree that it reads back, and the strings that nulterminate leaves.
module Sh {
  const MAXARGS: nat := 10
  const NUL: char := '\0'

  // A string of the line, from q up to eq.
  datatype Span = Span(q: nat, eq: nat)

  // O_RDONLY on descriptor 0, or O_WRONLY|O_CREATE on descriptor 1.
  datatype Mode = Input | Output

  datatype Cmd =
    | Exec(argv: seq<Span>)
    | Redir(cmd: Cmd, file: Span, mode: Mode)
    | Pipe(left: Cmd, right: Cmd)
    | List(left: Cmd, right: Cmd)
    | Back(cmd: Cmd)

  // A panic of the source is a Fail.
  datatype Result<T> = Ok(value: T, pos: nat) | Fail

  // ----- Tokens -----

  predicate IsSpace(c: char) {
    c == ' ' || c == '\t' || c == '\r' || c == '\n' || c == '\U{0B}'
  }

  predicate IsSymbol(c: char) {
    c in "<|>&;()"
  }

  predicate IsWordChar(c: char) {
    !IsSpace(c) && !IsSymbol(c) && c != NUL
  }

  function SkipSpace(s: string, i: nat): (r: nat)
    requires i <= |s|
    ensures i <= r <= |s| && (r < |s| ==> !IsSpace(s[r]))
    ensures forall k :: i <= k < r ==> IsSpace(s[k])
    decreases |s| - i
  {
    if i < |s| && IsSpace(s[i]) then SkipSpace(s, i + 1) else i
  }

  function WordEnd(s: string, i: nat): (r: nat)
    requires i <= |s|
    ensures i <= r <= |s| && (r < |s| ==> IsSpace(s[r]) || IsSymbol(s[r]))
    ensures forall k :: i <= k < r ==> !IsSpace(s[k]) && !IsSymbol(s[k])
    decreases |s| - i
  {
    if i < |s| && !IsSpace(s[i]) && !IsSymbol(s[i]) then WordEnd(s, i + 1) else i
  }

  // '\0' at the end of the line, 'a' for a word, '+' for ">>".
  datatype Token = Token(kind: char, q: nat, eq: nat, next: nat)

  function GetToken(s: string, i: nat): (t: Token)
    requires i <= |s|
    ensures i <= t.q <= t.eq <= t.next <= |s|
    ensures t.kind != NUL ==> t.q < t.eq
  {
    var q := SkipSpace(s, i);
    if q == |s| || s[q] == NUL then Token(NUL, q, q, q)
    else if s[q] == '>' then
      if q + 1 < |s| && s[q + 1] == '>' then Token('+', q, q + 2, SkipSpace(s, q + 2))
      else Token('>', q, q + 1, SkipSpace(s, q + 1))
    else if IsSymbol(s[q]) then Token(s[q], q, q + 1, SkipSpace(s, q + 1))
    else Token('a', q, WordEnd(s, q), SkipSpace(s, WordEnd(s, q)))
  }

  predicate Peek(s: string, i: nat, toks: string)
    requires i <= |s|
  {
    var j := SkipSpace(s, i);
    j < |s| && s[j] != NUL && s[j] in toks
  }

  lemma {:induction false} PeekedToken(s: string, i: nat, toks: string)
    requires i <= |s| && Peek(s, i, toks)
    ensures GetToken(s, i).next > SkipSpace(s, i)
  {
  }

  // ----- The parser -----

  datatype Redirection = Redirection(file: Span, mode: Mode)

  // cmd wrapped in the redirections, the last one outermost.
  function Wrap(cmd: Cmd, rs: seq<Redirection>): Cmd
    decreases |rs|
  {
    if rs == [] then cmd else Wrap(Redir(cmd, rs[0].file, rs[0].mode), rs[1..])
  }

  // parseredirs, with the redirections rs read so far
  function Redirs(s: string, i: nat, rs: seq<Redirection>): (r: Result<seq<Redirection>>)
    requires i <= |s|
    ensures r.Ok? ==> SkipSpace(s, i) <= r.pos <= |s|
    decreases |s| - i
  {
    if !Peek(s, i, "<>") then Ok(rs, SkipSpace(s, i))
    else
      PeekedToken(s, i, "<>");
      var op := GetToken(s, i);
      var file := GetToken(s, op.next);
      if file.kind != 'a' then Fail
      else Redirs(s, file.next, rs + [Redirection(Span(file.q, file.eq), if op.kind == '<' then Input else Output)])
  }

  // The loop of parseexec, with what it has read so far.
  function Args(s: string, i: nat, argv: seq<Span>, rs: seq<Redirection>): (r: Result<(seq<Span>, seq<Redirection>)>)
    requires i <= |s|
    ensures r.Ok? ==> i <= r.pos <= |s|
    decreases |s| - i
  {
    if Peek(s, i, "|)&;") then Ok((argv, rs), SkipSpace(s, i))
    else
      var t := GetToken(s, i);
      if t.kind == NUL then Ok((argv, rs), t.next)
      else if t.kind != 'a' || |argv| + 1 >= MAXARGS then Fail
      else
        match Redirs(s, t.next, rs)
        case Fail => Fail
        case Ok(rs', j) => Args(s, j, argv + [Span(t.q, t.eq)], rs')
  }

  function ParseExec(s: string, i: nat): (r: Result<Cmd>)
    requires i <= |s|
    ensures r.Ok? ==> i <= r.pos <= |s|
    decreases |s| - i, 1
  {
    if Peek(s, i, "(") then ParseBlock(s, SkipSpace(s, i))
    else
      match Redirs(s, i, [])
      case Fail => Fail
      case Ok(rs, j) =>
        match Args(s, j, [], rs)
        case Fail => Fail
        case Ok(parts, k) => Ok(Wrap(Exec(parts.0), parts.1), k)
  }

  function ParseBlock(s: string, i: nat): (r: Result<Cmd>)
    requires i <= |s|
    ensures r.Ok? ==> i <= r.pos <= |s|
    decreases |s| - i, 0
  {
    if !Peek(s, i, "(") then Fail
    else
      PeekedToken(s, i, "(");
      match ParseLine(s, GetToken(s, i).next)
      case Fail => Fail
      case Ok(cmd, j) =>
        if !Peek(s, j, ")") then Fail
        else
          match Redirs(s, GetToken(s, j).next, [])
          case Fail => Fail
          case Ok(rs, k) => Ok(Wrap(cmd, rs), k)
  }

  function ParsePipe(s: string, i: nat): (r: Result<Cmd>)
    requires i <= |s|
    ensures r.Ok? ==> i <= r.pos <= |s|
    decreases |s| - i, 2
  {
    match ParseExec(s, i)
    case Fail => Fail
    case Ok(left, j) =>
      if !Peek(s, j, "|") then Ok(left, SkipSpace(s, j))
      else
        PeekedToken(s, j, "|");
        match ParsePipe(s, GetToken(s, j).next)
        case Fail => Fail
        case Ok(right, k) => Ok(Pipe(left, right), k)
  }

  // The loop of parseline.
  function Backs(s: string, i: nat, cmd: Cmd): (r: (Cmd, nat))
    requires i <= |s|
    ensures i <= r.1 <= |s|
    decreases |s| - i
  {
    if !Peek(s, i, "&") then (cmd, SkipSpace(s, i))
    else
      PeekedToken(s, i, "&");
      Backs(s, GetToken(s, i).next, Back(cmd))
  }

  function ParseLine(s: string, i: nat): (r: Result<Cmd>)
    requires i <= |s|
    ensures r.Ok? ==> i <= r.pos <= |s|
    decreases |s| - i, 3
  {
    match ParsePipe(s, i)
    case Fail => Fail
    case Ok(first, j) =>
      var (cmd, k) := Backs(s, j, first);
      if !Peek(s, k, ";") then Ok(cmd, SkipSpace(s, k))
      else
        PeekedToken(s, k, ";");
        match ParseLine(s, GetToken(s, k).next)
        case Fail => Fail
        case Ok(rest, l) => Ok(List(cmd, rest), l)
  }

  // parsecmd, before it terminates the strings.
  function ParseCmd(s: string): Result<Cmd> {
    match ParseLine(s, 0)
    case Fail => Fail
    case Ok(cmd, i) => if SkipSpace(s, i) == |s| then Ok(cmd, |s|) else Fail // leftovers
  }

  // Space before a token makes no difference.
  lemma {:induction false} SkipTwice(s: string, i: nat, toks: string)
    requires i <= |s|
    ensures var j := SkipSpace(s, i);
            && SkipSpace(s, j) == j && GetToken(s, j) == GetToken(s, i)
            && Peek(s, j, toks) == Peek(s, i, toks)
  {
  }

  lemma {:induction false} RedirsSkip(s: string, i: nat, rs: seq<Redirection>)
    requires i <= |s|
    ensures Redirs(s, SkipSpace(s, i), rs) == Redirs(s, i, rs)
  {
    hide SkipSpace, GetToken, Peek;
    SkipTwice(s, i, "<>");
  }

  // ----- The strings of a command -----

  // A whole word of the line.
  predicate IsWord(s: string, w: Span) {
    && w.q < w.eq <= |s|
    && (forall k :: w.q <= k < w.eq ==> IsWordChar(s[k]))
    && (w.eq < |s| ==> !IsWordChar(s[w.eq]))
  }

  predicate AreWords(s: string, ws: seq<Span>) {
    forall k :: 0 <= k < |ws| ==> IsWord(s, ws[k])
  }

  predicate NoNul(s: string) {
    forall k :: 0 <= k < |s| ==> s[k] != NUL
  }

  predicate FilesAreWords(s: string, rs: seq<Redirection>) {
    forall k :: 0 <= k < |rs| ==> IsWord(s, rs[k].file)
  }

  // What holds of the command read from a line: its strings are whole words, and every exec
  // leaves room for the null pointer that ends argv.
  predicate IsParsed(s: string, cmd: Cmd) {
    match cmd
    case Exec(argv) => |argv| < MAXARGS && AreWords(s, argv)
    case Redir(c, file, _) => IsParsed(s, c) && IsWord(s, file)
    case Pipe(l, r) => IsParsed(s, l) && IsParsed(s, r)
    case List(l, r) => IsParsed(s, l) && IsParsed(s, r)
    case Back(c) => IsParsed(s, c)
  }

  lemma {:induction false} WordToken(s: string, i: nat)
    requires i <= |s| && NoNul(s) && GetToken(s, i).kind == 'a'
    ensures IsWord(s, Span(GetToken(s, i).q, GetToken(s, i).eq)) && GetToken(s, i).next > i
  {
  }

  lemma {:induction false} RedirsAreWords(s: string, i: nat, rs: seq<Redirection>)
    requires i <= |s| && NoNul(s) && FilesAreWords(s, rs)
    ensures Redirs(s, i, rs).Ok? ==> FilesAreWords(s, Redirs(s, i, rs).value)
    decreases |s| - i
  {
    if Peek(s, i, "<>") {
      PeekedToken(s, i, "<>");
      var op := GetToken(s, i);
      var file := GetToken(s, op.next);
      if file.kind == 'a' {
        WordToken(s, op.next);
        RedirsAreWords(s, file.next, rs + [Redirection(Span(file.q, file.eq), if op.kind == '<' then Input else Output)]);
      }
    }
  }

  lemma {:induction false} ArgsAreWords(s: string, i: nat, argv: seq<Span>, rs: seq<Redirection>)
    requires i <= |s| && NoNul(s) && AreWords(s, argv) && |argv| < MAXARGS && FilesAreWords(s, rs)
    ensures Args(s, i, argv, rs).Ok? ==>
              && AreWords(s, Args(s, i, argv, rs).value.0) && |Args(s, i, argv, rs).value.0| < MAXARGS
              && FilesAreWords(s, Args(s, i, argv, rs).value.1)
    decreases |s| - i
  {
    if !Peek(s, i, "|)&;") {
      var t := GetToken(s, i);
      if t.kind == 'a' && |argv| + 1 < MAXARGS {
        WordToken(s, i);
        RedirsAreWords(s, t.next, rs);
        match Redirs(s, t.next, rs)
        case Fail =>
        case Ok(rs', j) => ArgsAreWords(s, j, argv + [Span(t.q, t.eq)], rs');
      }
    }
  }

  lemma {:induction false} WrapIsParsed(s: string, cmd: Cmd, rs: seq<Redirection>)
    requires IsParsed(s, cmd) && FilesAreWords(s, rs)
    ensures IsParsed(s, Wrap(cmd, rs))
    decreases |rs|
  {
    if rs != [] {
      WrapIsParsed(s, Redir(cmd, rs[0].file, rs[0].mode), rs[1..]);
    }
  }

  lemma {:induction false} BacksIsParsed(s: string, i: nat, cmd: Cmd)
    requires i <= |s| && IsParsed(s, cmd)
    ensures IsParsed(s, Backs(s, i, cmd).0)
    decreases |s| - i
  {
    if Peek(s, i, "&") {
      PeekedToken(s, i, "&");
      BacksIsParsed(s, GetToken(s, i).next, Back(cmd));
    }
  }

  lemma {:induction false} ExecIsParsed(s: string, i: nat)
    requires i <= |s| && NoNul(s)
    ensures ParseExec(s, i).Ok? ==> IsParsed(s, ParseExec(s, i).value)
    decreases |s| - i, 1
  {
    if Peek(s, i, "(") {
      BlockIsParsed(s, SkipSpace(s, i));
    } else {
      RedirsAreWords(s, i, []);
      match Redirs(s, i, [])
      case Fail =>
      case Ok(rs, j) =>
        ArgsAreWords(s, j, [], rs);
        match Args(s, j, [], rs)
        case Fail =>
        case Ok(parts, k) => WrapIsParsed(s, Exec(parts.0), parts.1);
    }
  }

  lemma {:induction false} BlockIsParsed(s: string, i: nat)
    requires i <= |s| && NoNul(s)
    ensures ParseBlock(s, i).Ok? ==> IsParsed(s, ParseBlock(s, i).value)
    decreases |s| - i, 0
  {
    if Peek(s, i, "(") {
      PeekedToken(s, i, "(");
      LineIsParsed(s, GetToken(s, i).next);
      match ParseLine(s, GetToken(s, i).next)
      case Fail =>
      case Ok(cmd, j) =>
        if Peek(s, j, ")") {
          RedirsAreWords(s, GetToken(s, j).next, []);
          match Redirs(s, GetToken(s, j).next, [])
          case Fail =>
          case Ok(rs, k) => WrapIsParsed(s, cmd, rs);
        }
    }
  }

  lemma {:induction false} PipeIsParsed(s: string, i: nat)
    requires i <= |s| && NoNul(s)
    ensures ParsePipe(s, i).Ok? ==> IsParsed(s, ParsePipe(s, i).value)
    decreases |s| - i, 2
  {
    ExecIsParsed(s, i);
    match ParseExec(s, i)
    case Fail =>
    case Ok(left, j) =>
      if Peek(s, j, "|") {
        PeekedToken(s, j, "|");
        PipeIsParsed(s, GetToken(s, j).next);
      }
  }

  lemma {:induction false} LineIsParsed(s: string, i: nat)
    requires i <= |s| && NoNul(s)
    ensures ParseLine(s, i).Ok? ==> IsParsed(s, ParseLine(s, i).value)
    decreases |s| - i, 3
  {
    PipeIsParsed(s, i);
    match ParsePipe(s, i)
    case Fail =>
    case Ok(first, j) =>
      BacksIsParsed(s, j, first);
      var (cmd, k) := Backs(s, j, first);
      if Peek(s, k, ";") {
        PeekedToken(s, k, ";");
        LineIsParsed(s, GetToken(s, k).next);
      }
  }

  // ----- nulterminate -----

  // The buffer with a NUL after every string of cmd.
  function Terminated(b: string, cmd: Cmd): (r: string)
    ensures |r| == |b|
  {
    seq(|b|, k requires 0 <= k < |b| => if EndsAt(cmd, k) then NUL else b[k])
  }

  predicate EndsAt(cmd: Cmd, k: nat) {
    match cmd
    case Exec(argv) => exists j :: 0 <= j < |argv| && argv[j].eq == k
    case Redir(c, file, _) => EndsAt(c, k) || file.eq == k
    case Pipe(l, r) => EndsAt(l, k) || EndsAt(r, k)
    case List(l, r) => EndsAt(l, k) || EndsAt(r, k)
    case Back(c) => EndsAt(c, k)
  }

  predicate HasSpan(cmd: Cmd, w: Span) {
    match cmd
    case Exec(argv) => w in argv
    case Redir(c, file, _) => HasSpan(c, w) || file == w
    case Pipe(l, r) => HasSpan(l, w) || HasSpan(r, w)
    case List(l, r) => HasSpan(l, w) || HasSpan(r, w)
    case Back(c) => HasSpan(c, w)
  }

  // The string that a pointer to b[q] denotes.
  function CString(b: string, q: nat): string
    requires q <= |b|
    decreases |b| - q
  {
    if q == |b| || b[q] == NUL then "" else [b[q]] + CString(b, q + 1)
  }

  lemma {:induction false} EndIsNoWordChar(s: string, cmd: Cmd, k: nat)
    requires IsParsed(s, cmd) && EndsAt(cmd, k)
    ensures k <= |s| && (k < |s| ==> !IsWordChar(s[k]))
  {
    match cmd
    case Exec(argv) =>
    case Redir(c, file, _) => if EndsAt(c, k) { EndIsNoWordChar(s, c, k); }
    case Pipe(l, r) => if EndsAt(l, k) { EndIsNoWordChar(s, l, k); } else { EndIsNoWordChar(s, r, k); }
    case List(l, r) => if EndsAt(l, k) { EndIsNoWordChar(s, l, k); } else { EndIsNoWordChar(s, r, k); }
    case Back(c) => EndIsNoWordChar(s, c, k);
  }

  lemma {:induction false} SpanIsWord(s: string, cmd: Cmd, w: Span)
    requires IsParsed(s, cmd) && HasSpan(cmd, w)
    ensures IsWord(s, w) && EndsAt(cmd, w.eq)
  {
    match cmd
    case Exec(argv) =>
    case Redir(c, file, _) => if HasSpan(c, w) { SpanIsWord(s, c, w); }
    case Pipe(l, r) => if HasSpan(l, w) { SpanIsWord(s, l, w); } else { SpanIsWord(s, r, w); }
    case List(l, r) => if HasSpan(l, w) { SpanIsWord(s, l, w); } else { SpanIsWord(s, r, w); }
    case Back(c) => SpanIsWord(s, c, w);
  }

  lemma {:induction false} CStringIs(b: string, q: nat, eq: nat)
    requires q <= eq < |b| && b[eq] == NUL && forall k :: q <= k < eq ==> b[k] != NUL
    ensures CString(b, q) == b[q..eq]
    decreases eq - q
  {
    if q < eq {
      CStringIs(b, q + 1, eq);
    }
  }

  // After nulterminate every string of an accepted line reads back as exactly its word, even
  // where the next symbol followed it without a space and has been overwritten.
  lemma {:induction false} StringsReadBack(s: string, tail: string, w: Span)
    requires NoNul(s) && ParseCmd(s).Ok? && HasSpan(ParseCmd(s).value, w)
    ensures IsWord(s, w)
    ensures CString(Terminated(s + [NUL] + tail, ParseCmd(s).value), w.q) == s[w.q..w.eq]
  {
    var cmd := ParseCmd(s).value;
    LineIsParsed(s, 0);
    SpanIsWord(s, cmd, w);
    var b := Terminated(s + [NUL] + tail, cmd);
    forall k | w.q <= k < w.eq ensures b[k] == s[k] {
      if EndsAt(cmd, k) {
        EndIsNoWordChar(s, cmd, k);
      }
    }
    CStringIs(b, w.q, w.eq);
  }
}
