// The language that the shell accepts: a grammar of lines as they are typed, with any space
// between the tokens, and what each line means. The parser accepts exactly these lines and
// reads each of them as the command that it means.
module ShGrammar {
  import opened Sh

  // ----- Commands with their strings -----

  datatype Tree =
    | TExec(args: seq<string>)
    | TRedir(cmd: Tree, file: string, mode: Mode)
    | TPipe(left: Tree, right: Tree)
    | TList(left: Tree, right: Tree)
    | TBack(cmd: Tree)

  function Sub(s: string, w: Span): string {
    if w.q <= w.eq <= |s| then s[w.q..w.eq] else ""
  }

  function Texts(s: string, ws: seq<Span>): (r: seq<string>)
    ensures |r| == |ws|
  {
    seq(|ws|, k requires 0 <= k < |ws| => Sub(s, ws[k]))
  }

  function Text(s: string, cmd: Cmd): Tree {
    match cmd
    case Exec(argv) => TExec(Texts(s, argv))
    case Redir(c, file, mode) => TRedir(Text(s, c), Sub(s, file), mode)
    case Pipe(l, r) => TPipe(Text(s, l), Text(s, r))
    case List(l, r) => TList(Text(s, l), Text(s, r))
    case Back(c) => TBack(Text(s, c))
  }

  // ----- The grammar -----

  // "<", ">" and ">>"; the last two mean the same.
  datatype Op = Less | Greater | Append

  // A word or a redirection of a simple command. Every gap is the space after a token.
  datatype Piece =
    | Arg(w: string, gap: string)
    | Dir(op: Op, gap0: string, file: string, gap: string)

  datatype Command =
    | Simple(pieces: seq<Piece>)
    | Paren(open: string, line: Line, close: string, dirs: seq<Piece>)

  datatype Pipeline =
    | One(cmd: Command)
    | Bar(cmd: Command, gap: string, rest: Pipeline)

  datatype Rest = NoRest | Semi(gap: string, line: Line)

  // backs has the space after each '&'.
  datatype Line = Line(first: Pipeline, backs: seq<string>, rest: Rest)

  function ShowOp(op: Op): string {
    match op
    case Less => "<"
    case Greater => ">"
    case Append => ">>"
  }

  function ShowPiece(p: Piece): string {
    match p
    case Arg(w, gap) => w + gap
    case Dir(op, gap0, file, gap) => ShowOp(op) + gap0 + file + gap
  }

  function ShowPieces(ps: seq<Piece>): string {
    if ps == [] then "" else ShowPiece(ps[0]) + ShowPieces(ps[1..])
  }

  function ShowBacks(gaps: seq<string>): string {
    if gaps == [] then "" else "&" + gaps[0] + ShowBacks(gaps[1..])
  }

  function ShowCommand(c: Command): string {
    match c
    case Simple(ps) => ShowPieces(ps)
    case Paren(open, line, close, dirs) => "(" + open + ShowLine(line) + ")" + close + ShowPieces(dirs)
  }

  function ShowPipeline(p: Pipeline): string {
    match p
    case One(c) => ShowCommand(c)
    case Bar(c, gap, rest) => ShowCommand(c) + "|" + gap + ShowPipeline(rest)
  }

  function ShowRest(r: Rest): string {
    match r
    case NoRest => ""
    case Semi(gap, line) => ";" + gap + ShowLine(line)
  }

  function ShowLine(l: Line): string {
    ShowPipeline(l.first) + ShowBacks(l.backs) + ShowRest(l.rest)
  }

  // ----- What may be typed -----

  predicate IsGap(g: string) {
    forall k :: 0 <= k < |g| ==> g[k] in " \t\r\n\U{0B}"
  }

  predicate IsWordText(w: string) {
    |w| > 0 && forall k :: 0 <= k < |w| ==> w[k] !in " \t\r\n\U{0B}<|>&;()" && w[k] != NUL
  }

  predicate PieceOk(p: Piece) {
    match p
    case Arg(w, gap) => IsWordText(w) && IsGap(gap)
    case Dir(_, gap0, file, gap) => IsGap(gap0) && IsWordText(file) && IsGap(gap)
  }

  // Between two words there is space.
  predicate PiecesOk(ps: seq<Piece>) {
    && (forall k :: 0 <= k < |ps| ==> PieceOk(ps[k]))
    && (forall k :: 0 <= k < |ps| - 1 && ps[k + 1].Arg? ==> ps[k].gap != "")
  }

  predicate CommandOk(c: Command) {
    match c
    case Simple(ps) => PiecesOk(ps)
    case Paren(open, line, close, dirs) =>
      && IsGap(open) && LineOk(line) && IsGap(close)
      && PiecesOk(dirs) && forall k :: 0 <= k < |dirs| ==> dirs[k].Dir?
  }

  predicate PipelineOk(p: Pipeline) {
    match p
    case One(c) => CommandOk(c)
    case Bar(c, gap, rest) => CommandOk(c) && IsGap(gap) && PipelineOk(rest)
  }

  predicate LineOk(l: Line) {
    && PipelineOk(l.first) && (forall k :: 0 <= k < |l.backs| ==> IsGap(l.backs[k]))
    && match l.rest
       case NoRest => true
       case Semi(gap, line) => IsGap(gap) && LineOk(line)
  }

  // ----- What it means -----

  datatype Redirect = Redirect(file: string, mode: Mode)

  function Words(ps: seq<Piece>): seq<string> {
    if ps == [] then [] else (if ps[0].Arg? then [ps[0].w] else []) + Words(ps[1..])
  }

  function Redirects(ps: seq<Piece>): seq<Redirect> {
    if ps == [] then []
    else (if ps[0].Dir? then [Redirect(ps[0].file, if ps[0].op == Less then Input else Output)] else []) + Redirects(ps[1..])
  }

  // One redirection for each, in the order typed: the first is the innermost, the last one
  // is done first.
  function Nest(t: Tree, ds: seq<Redirect>): Tree
    decreases |ds|
  {
    if ds == [] then t else TRedir(Nest(t, ds[..|ds| - 1]), ds[|ds| - 1].file, ds[|ds| - 1].mode)
  }

  function BackOf(t: Tree, n: nat): Tree {
    if n == 0 then t else TBack(BackOf(t, n - 1))
  }

  function CommandMeans(c: Command): Tree {
    match c
    case Simple(ps) => Nest(TExec(Words(ps)), Redirects(ps))
    case Paren(_, line, _, dirs) => Nest(LineMeans(line), Redirects(dirs))
  }

  function PipelineMeans(p: Pipeline): Tree {
    match p
    case One(c) => CommandMeans(c)
    case Bar(c, _, rest) => TPipe(CommandMeans(c), PipelineMeans(rest))
  }

  function LineMeans(l: Line): Tree {
    var t := BackOf(PipelineMeans(l.first), |l.backs|);
    match l.rest
    case NoRest => t
    case Semi(_, line) => TList(t, LineMeans(line))
  }

  // At most MAXARGS - 1 words in every simple command.
  predicate CommandFits(c: Command) {
    match c
    case Simple(ps) => |Words(ps)| < MAXARGS
    case Paren(_, line, _, _) => LineFits(line)
  }

  predicate PipelineFits(p: Pipeline) {
    match p
    case One(c) => CommandFits(c)
    case Bar(c, _, rest) => CommandFits(c) && PipelineFits(rest)
  }

  predicate LineFits(l: Line) {
    PipelineFits(l.first) && match l.rest case NoRest => true case Semi(_, line) => LineFits(line)
  }

  // ----- Places in the line -----

  predicate At(s: string, i: nat, p: string) {
    i + |p| <= |s| && s[i..i + |p|] == p
  }

  lemma {:induction false} AtParts(s: string, i: nat, p: string, q: string)
    requires At(s, i, p + q)
    ensures At(s, i, p) && At(s, i + |p|, q)
  {
    var t := s[i..i + |p + q|];
    assert t[..|p|] == p && t[|p|..] == q;
  }

  lemma {:induction false} AtChar(s: string, i: nat, p: string)
    requires At(s, i, p) && p != ""
    ensures i < |s| && s[i] == p[0]
  {
    assert s[i..i + |p|][0] == s[i];
  }

  // The end of the line, or one of these symbols.
  predicate Stops(s: string, j: nat, toks: string) {
    j == |s| || (j < |s| && s[j] in toks && IsSymbol(s[j]))
  }

  // No token of toks, and no space, is here.
  predicate Past(s: string, j: nat, toks: string) {
    j == |s| || (j < |s| && !IsSpace(s[j]) && s[j] !in toks)
  }

  lemma {:induction false} PastPeek(s: string, j: nat, toks: string)
    requires Past(s, j, toks)
    ensures SkipSpace(s, j) == j && !Peek(s, j, toks)
  {
  }

  lemma {:induction false} SymbolIsNoSpace(c: char)
    requires IsSymbol(c)
    ensures !IsSpace(c) && c != NUL
  {
  }

  // Space up to j, where something else begins.
  lemma {:induction false} SkipGap(s: string, i: nat, g: string)
    requires IsGap(g) && At(s, i, g) && Past(s, i + |g|, "")
    ensures SkipSpace(s, i) == i + |g|
    decreases |g|
  {
    if g != "" {
      AtChar(s, i, g);
      assert g == [g[0]] + g[1..];
      AtParts(s, i, [g[0]], g[1..]);
      SkipGap(s, i + 1, g[1..]);
    }
  }

  // A symbol other than '>', and the space after it.
  lemma {:induction false} SymbolToken(s: string, j: nat, c: char, g: string)
    requires IsSymbol(c) && c != '>' && IsGap(g) && At(s, j, [c] + g) && Past(s, j + 1 + |g|, "")
    ensures j < |s| && s[j] == c && SkipSpace(s, j) == j
    ensures GetToken(s, j) == Token(c, j, j + 1, j + 1 + |g|)
    ensures forall toks: string :: Peek(s, j, toks) <==> c in toks
  {
    AtParts(s, j, [c], g);
    AtChar(s, j, [c]);
    SkipGap(s, j + 1, g);
    SymbolIsNoSpace(c);
  }

  // An operator of a redirection, and the space after it, before a word.
  lemma {:induction false} OpToken(s: string, j: nat, op: Op, g: string)
    requires IsGap(g) && At(s, j, ShowOp(op) + g)
    requires var k := j + |ShowOp(op)| + |g|; k < |s| && IsWordChar(s[k])
    ensures SkipSpace(s, j) == j && Peek(s, j, "<>") && !Peek(s, j, "(") && !Peek(s, j, "|)&;")
    ensures GetToken(s, j).next == j + |ShowOp(op)| + |g|
    ensures GetToken(s, j).kind == '<' <==> op == Less
  {
    hide IsGap;
    AtParts(s, j, ShowOp(op), g);
    AtChar(s, j, ShowOp(op));
    SkipGap(s, j + |ShowOp(op)|, g);
    if op == Append {
      assert s[j..j + 2][1] == s[j + 1] == '>';
    } else if op == Greater {
      if g != "" { AtChar(s, j + 1, g); GapChar(g); }
    }
  }

  lemma {:induction false} GapChar(g: string)
    requires IsGap(g) && g != ""
    ensures IsSpace(g[0]) && g[0] != '>'
  {
  }

  lemma {:induction false} WordTokenAt(s: string, i: nat, w: string, g: string)
    requires IsWordText(w) && IsGap(g) && At(s, i, w + g) && Past(s, i + |w| + |g|, "")
    requires g == "" ==> Stops(s, i + |w|, "<|>&;()")
    ensures GetToken(s, i) == Token('a', i, i + |w|, i + |w| + |g|)
    ensures i < |s| && IsWordChar(s[i]) && Sub(s, Span(i, i + |w|)) == w
  {
    AtParts(s, i, w, g);
    SkipGap(s, i + |w|, g);
    var e := i + |w|;
    forall k | i <= k < e ensures IsWordChar(s[k]) {
      assert s[i..e][k - i] == s[k];
    }
    if g != "" {
      AtChar(s, e, g);
      GapChar(g);
    }
    assert e < |s| ==> IsSpace(s[e]) || IsSymbol(s[e]);
    var r := WordEnd(s, i);
    if r < e { assert false; }
    assert r == e;
    assert SkipSpace(s, i) == i && IsWordChar(s[i]);
  }

  // ----- Simple commands -----

  // What may follow a command.
  const AFTER: string := "|&;)"

  // A place where pieces begin, or where there are none and the command has ended.
  lemma {:induction false} PiecesStart(s: string, i: nat, ps: seq<Piece>)
    requires PiecesOk(ps) && At(s, i, ShowPieces(ps)) && Stops(s, i + |ShowPieces(ps)|, AFTER)
    ensures i <= |s| && Past(s, i, "(") && (ps == [] || ps[0].Arg? ==> Past(s, i, "<>"))
    ensures ps != [] && ps[0].Arg? ==> i < |s| && IsWordChar(s[i])
    ensures ps == [] || ps[0].Dir? ==> Stops(s, i, "<|>&;()")
  {
    hide At, PiecesOk, ShowPiece, PieceOk;
    if ps != [] {
      PiecesTail(ps);
      AtParts(s, i, ShowPiece(ps[0]), ShowPieces(ps[1..]));
      PieceStart(s, i, ps[0]);
    }
  }

  lemma {:induction false} PieceStart(s: string, i: nat, p: Piece)
    requires PieceOk(p) && At(s, i, ShowPiece(p))
    ensures i < |s| && if p.Arg? then IsWordChar(s[i]) else s[i] in "<>"
  {
    hide At;
    assert p.Arg? ==> ShowPiece(p)[0] == p.w[0];
    AtChar(s, i, ShowPiece(p));
  }

  lemma {:induction false} PiecesRest(s: string, i: nat, ps: seq<Piece>)
    requires ps != [] && PiecesOk(ps) && At(s, i, ShowPieces(ps)) && Stops(s, i + |ShowPieces(ps)|, AFTER)
    ensures var j := i + |ShowPiece(ps[0])|;
            && PieceOk(ps[0]) && PiecesOk(ps[1..]) && At(s, i, ShowPiece(ps[0])) && At(s, j, ShowPieces(ps[1..]))
            && j + |ShowPieces(ps[1..])| == i + |ShowPieces(ps)|
            && Past(s, j, "") && (ps[0].gap == "" ==> Stops(s, j, "<|>&;()"))
  {
    hide At, PiecesOk, Stops, Past, ShowPiece;
    AtParts(s, i, ShowPiece(ps[0]), ShowPieces(ps[1..]));
    PiecesTail(ps);
    PiecesStart(s, i + |ShowPiece(ps[0])|, ps[1..]);
    PastLess(s, i + |ShowPiece(ps[0])|);
  }

  lemma {:induction false} PiecesTail(ps: seq<Piece>)
    requires ps != [] && PiecesOk(ps)
    ensures PieceOk(ps[0]) && PiecesOk(ps[1..])
    ensures ps[0].gap == "" ==> ps[1..] == [] || ps[1..][0].Dir?
  {
    hide PieceOk;
    assert forall k :: 0 <= k < |ps| - 1 ==> ps[1..][k] == ps[k + 1];
    if |ps| > 1 && ps[0].gap == "" {
      assert !ps[0 + 1].Arg?;
    }
  }

  lemma {:induction false} PastLess(s: string, j: nat)
    requires Past(s, j, "(")
    ensures Past(s, j, "")
  {
  }

  // Redirections, and then the words and redirections of parseexec's loop.
  function Loop(s: string, i: nat, argv: seq<Span>, rs: seq<Redirection>): Result<(seq<Span>, seq<Redirection>)>
    requires i <= |s|
  {
    match Redirs(s, i, rs)
    case Fail => Fail
    case Ok(rs', j) => Args(s, j, argv, rs')
  }

  function RedirTexts(s: string, rs: seq<Redirection>): (r: seq<Redirect>)
    ensures |r| == |rs|
  {
    seq(|rs|, k requires 0 <= k < |rs| => Redirect(Sub(s, rs[k].file), rs[k].mode))
  }

  lemma {:induction false} DirRead(s: string, i: nat, rs: seq<Redirection>, p: Piece) returns (r: Redirection)
    requires p.Dir? && PieceOk(p) && At(s, i, ShowPiece(p)) && Past(s, i + |ShowPiece(p)|, "")
    requires p.gap == "" ==> Stops(s, i + |ShowPiece(p)|, "<|>&;()")
    ensures i + |ShowPiece(p)| <= |s| && Redirs(s, i, rs) == Redirs(s, i + |ShowPiece(p)|, rs + [r])
    ensures Sub(s, r.file) == p.file && r.mode == if p.op == Less then Input else Output
  {
    hide Redirs, GetToken, Peek, SkipSpace, At, IsWordText, IsGap, Stops, Past, IsWordChar, ShowOp, ShowPiece, Sub;
    var a, b := ShowOp(p.op) + p.gap0, p.file + p.gap;
    ShowDir(p);
    AtParts(s, i, a, b);
    var k := i + |a|;
    WordTokenAt(s, k, p.file, p.gap);
    OpToken(s, i, p.op, p.gap0);
    r := Redirection(Span(k, k + |p.file|), if p.op == Less then Input else Output);
    RedirsStep(s, i, rs, k, i + |ShowPiece(p)|, r);
  }

  lemma {:induction false} ShowDir(p: Piece)
    requires p.Dir?
    ensures ShowPiece(p) == (ShowOp(p.op) + p.gap0) + (p.file + p.gap)
  {
    hide ShowOp;
  }

  lemma {:induction false} RedirsStep(s: string, i: nat, rs: seq<Redirection>, k: nat, next: nat, r: Redirection)
    requires i <= |s| && Peek(s, i, "<>") && GetToken(s, i).next == k && (GetToken(s, i).kind == '<' <==> r.mode == Input)
    requires k <= |s| && GetToken(s, k) == Token('a', r.file.q, r.file.eq, next)
    ensures next <= |s| && Redirs(s, i, rs) == Redirs(s, next, rs + [r])
  {
    hide GetToken, Peek, SkipSpace;
  }

  // No redirection is here.
  lemma {:induction false} RedirsNone(s: string, i: nat, rs: seq<Redirection>)
    requires i <= |s| && Past(s, i, "<>")
    ensures Redirs(s, i, rs) == Ok(rs, i)
  {
    PastPeek(s, i, "<>");
  }

  lemma {:induction false} WordRead(s: string, i: nat, argv: seq<Span>, rs: seq<Redirection>, p: Piece)
    requires p.Arg? && PieceOk(p) && At(s, i, ShowPiece(p)) && Past(s, i + |ShowPiece(p)|, "")
    requires p.gap == "" ==> Stops(s, i + |ShowPiece(p)|, "<|>&;()")
    ensures i + |ShowPiece(p)| <= |s| && Sub(s, Span(i, i + |p.w|)) == p.w
    ensures Loop(s, i, argv, rs) ==
              if |argv| + 1 < MAXARGS then Loop(s, i + |ShowPiece(p)|, argv + [Span(i, i + |p.w|)], rs) else Fail
  {
    hide GetToken, Peek, SkipSpace, At, IsWordText, IsGap, Stops, Redirs;
    WordTokenAt(s, i, p.w, p.gap);
    WordIsPlain(s, i);
    RedirsNone(s, i, rs);
    PastPeek(s, i, AFTER);
    PastPeek(s, i, "|)&;");
  }

  lemma {:induction false} WordIsPlain(s: string, i: nat)
    requires i < |s| && IsWordChar(s[i])
    ensures Past(s, i, "<>") && Past(s, i, "(") && Past(s, i, "|)&;") && Past(s, i, AFTER)
  {
  }

  lemma {:induction false} LoopEnds(s: string, i: nat, argv: seq<Span>, rs: seq<Redirection>)
    requires Stops(s, i, AFTER)
    ensures i <= |s| && Loop(s, i, argv, rs) == Ok((argv, rs), i)
  {
    RedirsNone(s, i, rs);
    if i < |s| {
      SymbolIsNoSpace(s[i]);
      assert Peek(s, i, "|)&;");
    }
  }

  // Reading the pieces ps, with argv and rs read already.
  ghost predicate LoopReads(s: string, i: nat, argv: seq<Span>, rs: seq<Redirection>, ps: seq<Piece>) {
    i <= |s| &&
    var r := Loop(s, i, argv, rs);
    if |argv| + |Words(ps)| < MAXARGS then
      && r.Ok? && r.pos == i + |ShowPieces(ps)|
      && Texts(s, r.value.0) == Texts(s, argv) + Words(ps)
      && RedirTexts(s, r.value.1) == RedirTexts(s, rs) + Redirects(ps)
    else r.Fail?
  }

  lemma {:induction false} PiecesRead(s: string, i: nat, argv: seq<Span>, rs: seq<Redirection>, ps: seq<Piece>)
    requires PiecesOk(ps) && At(s, i, ShowPieces(ps)) && Stops(s, i + |ShowPieces(ps)|, AFTER) && |argv| < MAXARGS
    ensures LoopReads(s, i, argv, rs, ps)
    decreases |ps|
  {
    hide Loop, At, Stops, PiecesOk, PieceOk, ShowPiece, ShowPieces, Past, Words, Redirects, LoopReads, Redirs, Sub, Texts, RedirTexts;
    if ps == [] {
      NothingRead(s, i, argv, rs);
    } else {
      PiecesRest(s, i, ps);
      var p, j := ps[0], i + |ShowPiece(ps[0])|;
      if p.Arg? {
        var w := Span(i, i + |p.w|);
        WordRead(s, i, argv, rs, p);
        if |argv| + 1 < MAXARGS {
          PiecesRead(s, j, argv + [w], rs, ps[1..]);
        }
        WordThen(s, i, argv, rs, ps, w);
      } else {
        var r := DirRead(s, i, rs, p);
        PiecesRead(s, j, argv, rs + [r], ps[1..]);
        DirThen(s, i, argv, rs, ps, r);
      }
    }
  }

  lemma {:induction false} NothingRead(s: string, i: nat, argv: seq<Span>, rs: seq<Redirection>)
    requires Stops(s, i + |ShowPieces([])|, AFTER) && |argv| < MAXARGS
    ensures LoopReads(s, i, argv, rs, [])
  {
    hide Loop;
    LoopEnds(s, i, argv, rs);
  }

  lemma {:induction false} FirstPiece(ps: seq<Piece>)
    requires ps != []
    ensures |ShowPieces(ps)| == |ShowPiece(ps[0])| + |ShowPieces(ps[1..])|
    ensures match ps[0]
            case Arg(w, _) => Words(ps) == [w] + Words(ps[1..]) && Redirects(ps) == Redirects(ps[1..])
            case Dir(op, _, file, _) =>
              && Redirects(ps) == [Redirect(file, if op == Less then Input else Output)] + Redirects(ps[1..])
              && Words(ps) == Words(ps[1..])
  {
    hide ShowPiece;
  }

  lemma {:induction false} WordThen(s: string, i: nat, argv: seq<Span>, rs: seq<Redirection>, ps: seq<Piece>, w: Span)
    requires ps != [] && ps[0].Arg? && Sub(s, w) == ps[0].w
    requires var j := i + |ShowPiece(ps[0])|;
             j <= |s| && if |argv| + 1 < MAXARGS then
               Loop(s, i, argv, rs) == Loop(s, j, argv + [w], rs) && LoopReads(s, j, argv + [w], rs, ps[1..])
             else Loop(s, i, argv, rs) == Fail
    ensures LoopReads(s, i, argv, rs, ps)
  {
    hide Loop, ShowPiece, ShowPieces, Words, Redirects, Sub, RedirTexts;
    FirstPiece(ps);
    assert Texts(s, argv) + [ps[0].w] + Words(ps[1..]) == Texts(s, argv) + ([ps[0].w] + Words(ps[1..]));
    assert Texts(s, argv + [w]) == Texts(s, argv) + [ps[0].w];
  }

  lemma {:induction false} DirThen(s: string, i: nat, argv: seq<Span>, rs: seq<Redirection>, ps: seq<Piece>, r: Redirection)
    requires ps != [] && ps[0].Dir? && Sub(s, r.file) == ps[0].file && r.mode == (if ps[0].op == Less then Input else Output)
    requires var j := i + |ShowPiece(ps[0])|;
             j <= |s| && Redirs(s, i, rs) == Redirs(s, j, rs + [r]) && LoopReads(s, j, argv, rs + [r], ps[1..])
    ensures LoopReads(s, i, argv, rs, ps)
  {
    hide Redirs, Args, ShowPiece, ShowPieces, Words, Redirects, Sub, Texts;
    FirstPiece(ps);
    var d := Redirect(ps[0].file, r.mode);
    assert RedirTexts(s, rs + [r]) == RedirTexts(s, rs) + [d];
    assert RedirTexts(s, rs) + [d] + Redirects(ps[1..]) == RedirTexts(s, rs) + ([d] + Redirects(ps[1..]));
  }

  // The nodes that the parser wraps around a command are those of the meaning.
  lemma {:induction false} WrapMeans(s: string, cmd: Cmd, rs: seq<Redirection>)
    ensures Text(s, Wrap(cmd, rs)) == Nest(Text(s, cmd), RedirTexts(s, rs))
    decreases |rs|
  {
    if rs != [] {
      var r := rs[0];
      WrapMeans(s, Redir(cmd, r.file, r.mode), rs[1..]);
      NestFirst(Text(s, cmd), Redirect(Sub(s, r.file), r.mode), RedirTexts(s, rs[1..]));
      assert RedirTexts(s, rs) == [Redirect(Sub(s, r.file), r.mode)] + RedirTexts(s, rs[1..]);
    }
  }

  lemma {:induction false} NestFirst(t: Tree, d: Redirect, ds: seq<Redirect>)
    ensures Nest(t, [d] + ds) == Nest(TRedir(t, d.file, d.mode), ds)
    decreases |ds|
  {
    if ds == [] {
      assert ([d] + ds)[..0] == [];
    } else {
      NestFirst(t, d, ds[..|ds| - 1]);
      assert ([d] + ds)[..|ds|] == [d] + ds[..|ds| - 1];
    }
  }

  // ----- Commands, pipelines and lines -----

  // r is a command that means t and ends at j; or a failure when it has too many words.
  predicate Reads(r: Result<Cmd>, s: string, t: Tree, fits: bool, j: nat) {
    if fits then r.Ok? && r.pos == j && Text(s, r.value) == t else r.Fail?
  }

  lemma {:induction false} SimpleReads(s: string, i: nat, ps: seq<Piece>)
    requires PiecesOk(ps) && At(s, i, ShowPieces(ps)) && Stops(s, i + |ShowPieces(ps)|, AFTER)
    ensures i <= |s|
    ensures Reads(ParseExec(s, i), s, Nest(TExec(Words(ps)), Redirects(ps)), |Words(ps)| < MAXARGS, i + |ShowPieces(ps)|)
  {
    hide At, Stops, PiecesOk, Past, Args, Redirs, Nest, Words, Redirects, ShowPieces, Sub, Wrap;
    PiecesStart(s, i, ps);
    PastPeek(s, i, "(");
    PiecesRead(s, i, [], [], ps);
    assert Texts(s, []) + Words(ps) == Words(ps);
    assert RedirTexts(s, []) + Redirects(ps) == Redirects(ps);
    var r := Loop(s, i, [], []);
    if r.Ok? {
      WrapMeans(s, Exec(r.value.0), r.value.1);
    }
  }

  // The redirections after a block.
  lemma {:induction false} DirsRead(s: string, i: nat, rs: seq<Redirection>, ps: seq<Piece>)
    requires PiecesOk(ps) && At(s, i, ShowPieces(ps)) && Stops(s, i + |ShowPieces(ps)|, AFTER)
    requires forall k :: 0 <= k < |ps| ==> ps[k].Dir?
    ensures i <= |s|
    ensures var r := Redirs(s, i, rs);
            r.Ok? && r.pos == i + |ShowPieces(ps)| && RedirTexts(s, r.value) == RedirTexts(s, rs) + Redirects(ps)
    decreases |ps|
  {
    hide At, Stops, PiecesOk, PieceOk, Past, Redirs, ShowPiece, ShowPieces, Redirects, Words, Sub;
    if ps == [] {
      PiecesStart(s, i, ps);
      RedirsNone(s, i, rs);
      NoPieces();
    } else {
      PiecesRest(s, i, ps);
      FirstPiece(ps);
      var r := DirRead(s, i, rs, ps[0]);
      DirsRead(s, i + |ShowPiece(ps[0])|, rs + [r], ps[1..]);
      var d := Redirect(ps[0].file, r.mode);
      assert RedirTexts(s, rs + [r]) == RedirTexts(s, rs) + [d];
      assert RedirTexts(s, rs) + [d] + Redirects(ps[1..]) == RedirTexts(s, rs) + ([d] + Redirects(ps[1..]));
    }
  }

  lemma {:induction false} NoPieces()
    ensures ShowPieces([]) == "" && Redirects([]) == [] && Words([]) == []
  {
  }

  // Where the parts of a block are.
  lemma {:induction false} ParenParts(s: string, i: nat, open: string, line: Line, close: string, dirs: seq<Piece>)
    requires At(s, i, "(" + open + ShowLine(line) + ")" + close + ShowPieces(dirs))
    ensures var a := i + 1 + |open|;
            var b := a + |ShowLine(line)|;
            && At(s, i, ['('] + open) && At(s, a, ShowLine(line)) && Stops(s, b, ")")
            && At(s, b, [')'] + close) && At(s, b + 1 + |close|, ShowPieces(dirs))
  {
    hide ShowLine, ShowPieces, At;
    var x, y, z := ['('] + open, ShowLine(line), [')'] + close;
    ParenShape(open, y, close, ShowPieces(dirs));
    AtParts(s, i, x, y + (z + ShowPieces(dirs)));
    AtParts(s, i + |x|, y, z + ShowPieces(dirs));
    AtParts(s, i + |x| + |y|, z, ShowPieces(dirs));
    AtChar(s, i + |x| + |y|, z);
  }

  lemma {:induction false} ParenShape(open: string, y: string, close: string, d: string)
    ensures "(" + open + y + ")" + close + d == (['('] + open) + (y + (([')'] + close) + d))
  {
  }

  lemma {:induction false} StopsMore(s: string, j: nat)
    ensures Stops(s, j, ")") ==> Stops(s, j, ";)")
    ensures Stops(s, j, ";)") ==> Stops(s, j, "&;)")
    ensures Stops(s, j, "&;)") ==> Stops(s, j, AFTER)
    ensures Stops(s, j, AFTER) ==> Past(s, j, "") && j <= |s|
  {
    if j < |s| && IsSymbol(s[j]) {
      SymbolIsNoSpace(s[j]);
    }
  }

  // A command, a pipeline or a line does not begin with space.
  lemma {:induction false} CommandStart(s: string, i: nat, c: Command)
    requires CommandOk(c) && At(s, i, ShowCommand(c)) && Stops(s, i + |ShowCommand(c)|, AFTER)
    ensures i <= |s| && Past(s, i, "")
  {
    hide ShowLine, ShowPieces, PiecesOk, LineOk;
    match c
    case Simple(ps) =>
      PiecesStart(s, i, ps);
      PastLess(s, i);
    case Paren(open, line, close, dirs) => AtChar(s, i, ShowCommand(c));
  }

  lemma {:induction false} BarParts(s: string, i: nat, c: Command, gap: string, rest: Pipeline)
    requires At(s, i, ShowCommand(c) + "|" + gap + ShowPipeline(rest))
    ensures var j := i + |ShowCommand(c)|;
            && At(s, i, ShowCommand(c)) && Stops(s, j, AFTER) && At(s, j, ['|'] + gap)
            && At(s, j + 1 + |gap|, ShowPipeline(rest))
  {
    hide ShowCommand, ShowPipeline;
    var x, y := ShowCommand(c), ['|'] + gap;
    assert ShowCommand(c) + "|" + gap + ShowPipeline(rest) == x + (y + ShowPipeline(rest));
    AtParts(s, i, x, y + ShowPipeline(rest));
    AtParts(s, i + |x|, y, ShowPipeline(rest));
    AtChar(s, i + |x|, y);
  }

  lemma {:induction false} PipelineStart(s: string, i: nat, p: Pipeline)
    requires PipelineOk(p) && At(s, i, ShowPipeline(p)) && Stops(s, i + |ShowPipeline(p)|, "&;)")
    ensures i <= |s| && Past(s, i, "")
  {
    hide At, Stops, Past, ShowCommand, CommandOk;
    match p
    case One(c) =>
      StopsMore(s, i + |ShowCommand(c)|);
      CommandStart(s, i, c);
    case Bar(c, gap, rest) =>
      BarParts(s, i, c, gap, rest);
      CommandStart(s, i, c);
  }

  // Where the parts of a line are.
  lemma {:induction false} LineParts(s: string, i: nat, l: Line)
    requires At(s, i, ShowLine(l)) && Stops(s, i + |ShowLine(l)|, ")")
    ensures var j := i + |ShowPipeline(l.first)|;
            var k := j + |ShowBacks(l.backs)|;
            && At(s, i, ShowPipeline(l.first)) && Stops(s, j, "&;)")
            && At(s, j, ShowBacks(l.backs)) && Stops(s, k, ";)") && At(s, k, ShowRest(l.rest))
            && k + |ShowRest(l.rest)| == i + |ShowLine(l)|
  {
    hide ShowPipeline, ShowBacks, ShowRest;
    var a, b, c := ShowPipeline(l.first), ShowBacks(l.backs), ShowRest(l.rest);
    AtParts(s, i, a + b, c);
    AtParts(s, i, a, b);
    var k := i + |a| + |b|;
    RestStart(s, k, l.rest);
    BacksStart(s, i + |a|, l.backs);
  }

  lemma {:induction false} RestStart(s: string, k: nat, r: Rest)
    requires At(s, k, ShowRest(r)) && Stops(s, k + |ShowRest(r)|, ")")
    ensures Stops(s, k, ";)")
  {
    hide ShowLine;
    if r.Semi? {
      AtChar(s, k, ShowRest(r));
    }
  }

  lemma {:induction false} BacksStart(s: string, j: nat, gaps: seq<string>)
    requires At(s, j, ShowBacks(gaps)) && Stops(s, j + |ShowBacks(gaps)|, ";)")
    ensures Stops(s, j, "&;)")
  {
    if gaps != [] {
      AtChar(s, j, ShowBacks(gaps));
    }
  }

  lemma {:induction false} LineStart(s: string, i: nat, l: Line)
    requires LineOk(l) && At(s, i, ShowLine(l)) && Stops(s, i + |ShowLine(l)|, ")")
    ensures i <= |s| && Past(s, i, "")
  {
    hide At, Stops, Past, ShowLine, ShowPipeline, PipelineOk;
    LineParts(s, i, l);
    PipelineStart(s, i, l.first);
  }

  lemma {:induction false} ParenReads(s: string, i: nat, open: string, line: Line, close: string, dirs: seq<Piece>)
    requires CommandOk(Paren(open, line, close, dirs)) && At(s, i, ShowCommand(Paren(open, line, close, dirs)))
    requires Stops(s, i + |ShowCommand(Paren(open, line, close, dirs))|, AFTER)
    requires i + 1 + |open| <= |s|
    requires Reads(ParseLine(s, i + 1 + |open|), s, LineMeans(line), LineFits(line), i + 1 + |open| + |ShowLine(line)|)
    ensures Reads(ParseExec(s, i), s, Nest(LineMeans(line), Redirects(dirs)), LineFits(line),
                  i + |ShowCommand(Paren(open, line, close, dirs))|)
  {
    hide At, Stops, Past, ShowLine, ShowPieces, PiecesOk, LineOk, LineMeans, LineFits, ParseLine, GetToken, Peek, SkipSpace, IsGap, IsSymbol;
    hide Redirs, Redirects, Nest, Wrap;
    ParenParts(s, i, open, line, close, dirs);
    var a := i + 1 + |open|;
    var b := a + |ShowLine(line)|;
    var c := b + 1 + |close|;
    LineStart(s, a, line);
    Symbols();
    SymbolToken(s, i, '(', open);
    DirsRead(s, c, [], dirs);
    PiecesStart(s, c, dirs);
    PastLess(s, c);
    SymbolToken(s, b, ')', close);
    var ds := Redirs(s, c, []).value;
    if LineFits(line) {
      WrapMeans(s, ParseLine(s, a).value, ds);
      assert RedirTexts(s, []) + Redirects(dirs) == Redirects(dirs);
    }
  }

  lemma {:induction false} Symbols()
    ensures IsSymbol('(') && IsSymbol(')') && IsSymbol('|') && IsSymbol('&') && IsSymbol(';')
  {
  }

  lemma {:induction false} CommandReads(s: string, i: nat, c: Command)
    requires CommandOk(c) && At(s, i, ShowCommand(c)) && Stops(s, i + |ShowCommand(c)|, AFTER)
    ensures i <= |s| && Reads(ParseExec(s, i), s, CommandMeans(c), CommandFits(c), i + |ShowCommand(c)|)
    decreases c
  {
    hide At, Stops, Past, ShowLine, ShowPieces, PiecesOk, LineOk, ParseExec, ParseLine, Reads, LineMeans, LineFits, Words, Redirects, Nest;
    match c
    case Simple(ps) => SimpleReads(s, i, ps);
    case Paren(open, line, close, dirs) =>
      ParenParts(s, i, open, line, close, dirs);
      LineReads(s, i + 1 + |open|, line);
      CommandStart(s, i, c);
      ParenReads(s, i, open, line, close, dirs);
  }

  lemma {:induction false} PipelineReads(s: string, i: nat, p: Pipeline)
    requires PipelineOk(p) && At(s, i, ShowPipeline(p)) && Stops(s, i + |ShowPipeline(p)|, "&;)")
    ensures i <= |s| && Reads(ParsePipe(s, i), s, PipelineMeans(p), PipelineFits(p), i + |ShowPipeline(p)|)
    decreases p
  {
    hide At, Stops, Past, ShowCommand, CommandOk, CommandMeans, CommandFits, ParseExec, GetToken, Peek, SkipSpace, IsGap, IsSymbol;
    match p
    case One(c) =>
      var j := i + |ShowCommand(c)|;
      StopsMore(s, j);
      CommandReads(s, i, c);
      NoBar(s, j);
    case Bar(c, gap, rest) =>
      BarParts(s, i, c, gap, rest);
      var j := i + |ShowCommand(c)|;
      CommandReads(s, i, c);
      PipelineReads(s, j + 1 + |gap|, rest);
      PipelineStart(s, j + 1 + |gap|, rest);
      Symbols();
      SymbolToken(s, j, '|', gap);
  }

  lemma {:induction false} NoBar(s: string, j: nat)
    requires Stops(s, j, "&;)")
    ensures j <= |s| && !Peek(s, j, "|") && SkipSpace(s, j) == j
  {
    StopsMore(s, j);
  }

  lemma {:induction false} BacksRead(s: string, j: nat, cmd: Cmd, gaps: seq<string>)
    requires (forall k :: 0 <= k < |gaps| ==> IsGap(gaps[k])) && At(s, j, ShowBacks(gaps))
    requires Stops(s, j + |ShowBacks(gaps)|, ";)")
    ensures j <= |s| && Backs(s, j, cmd).1 == j + |ShowBacks(gaps)|
    ensures Text(s, Backs(s, j, cmd).0) == BackOf(Text(s, cmd), |gaps|)
    decreases |gaps|
  {
    hide At, Stops, Past, GetToken, Peek, SkipSpace, IsGap, IsSymbol, ShowBacks;
    BacksParts(s, j, gaps);
    if gaps == [] {
      StopsMore(s, j);
      NoBack(s, j);
    } else {
      var k := j + 1 + |gaps[0]|;
      BacksStart(s, k, gaps[1..]);
      StopsMore(s, k);
      Symbols();
      SymbolToken(s, j, '&', gaps[0]);
      BacksRead(s, k, Back(cmd), gaps[1..]);
      BackFirst(Text(s, cmd), |gaps| - 1);
    }
  }

  lemma {:induction false} BacksParts(s: string, j: nat, gaps: seq<string>)
    requires At(s, j, ShowBacks(gaps))
    ensures gaps == [] ==> ShowBacks(gaps) == ""
    ensures gaps != [] ==>
              && At(s, j, ['&'] + gaps[0]) && At(s, j + 1 + |gaps[0]|, ShowBacks(gaps[1..]))
              && |ShowBacks(gaps)| == 1 + |gaps[0]| + |ShowBacks(gaps[1..])|
  {
    hide At;
    if gaps != [] {
      assert ShowBacks(gaps) == (['&'] + gaps[0]) + ShowBacks(gaps[1..]);
      AtParts(s, j, ['&'] + gaps[0], ShowBacks(gaps[1..]));
    }
  }

  lemma {:induction false} NoBack(s: string, j: nat)
    requires Stops(s, j, ";)")
    ensures j <= |s| && !Peek(s, j, "&") && SkipSpace(s, j) == j
  {
    StopsMore(s, j);
  }

  lemma {:induction false} BackFirst(t: Tree, n: nat)
    ensures BackOf(TBack(t), n) == BackOf(t, n + 1)
  {
    if n > 0 {
      BackFirst(t, n - 1);
    }
  }

  lemma {:induction false} NoSemi(s: string, k: nat)
    requires Stops(s, k, ")")
    ensures k <= |s| && !Peek(s, k, ";") && SkipSpace(s, k) == k
  {
    StopsMore(s, k);
  }

  // The parser on a line that is typed at any place before the end or a closing parenthesis.
  lemma {:induction false} LineReads(s: string, i: nat, l: Line)
    requires LineOk(l) && At(s, i, ShowLine(l)) && Stops(s, i + |ShowLine(l)|, ")")
    ensures i <= |s| && Reads(ParseLine(s, i), s, LineMeans(l), LineFits(l), i + |ShowLine(l)|)
    decreases l
  {
    hide At, Stops, Past, ShowPipeline, PipelineOk, PipelineMeans, PipelineFits, ParsePipe, GetToken, Peek, SkipSpace, IsGap, IsSymbol, Backs, ShowBacks, ShowLine;
    LineParts(s, i, l);
    var j := i + |ShowPipeline(l.first)|;
    var k := j + |ShowBacks(l.backs)|;
    PipelineReads(s, i, l.first);
    StopsMore(s, j);
    if ParsePipe(s, i).Ok? {
      BacksRead(s, j, ParsePipe(s, i).value, l.backs);
    }
    match l.rest
    case NoRest => NoSemi(s, k);
    case Semi(gap, line) =>
      assert ShowRest(l.rest) == ([';'] + gap) + ShowLine(line);
      AtParts(s, k, [';'] + gap, ShowLine(line));
      LineStart(s, k + 1 + |gap|, line);
      Symbols();
      SymbolToken(s, k, ';', gap);
      LineReads(s, k + 1 + |gap|, line);
  }

  // ----- Every accepted line is one of these -----

  // s from i to j is p.
  predicate Spells(s: string, i: nat, j: nat, p: string) {
    i <= j <= |s| && s[i..j] == p
  }

  lemma {:induction false} SpellsJoin(s: string, i: nat, j: nat, k: nat, p: string, q: string)
    requires Spells(s, i, j, p) && Spells(s, j, k, q)
    ensures Spells(s, i, k, p + q)
  {
  }

  lemma {:induction false} GapParsed(s: string, i: nat)
    requires i <= |s|
    ensures var j := SkipSpace(s, i); Spells(s, i, j, s[i..j]) && IsGap(s[i..j]) && SkipSpace(s, j) == j
  {
  }

  // A symbol that has been peeked at, and the space after it.
  lemma {:induction false} SymbolParsed(s: string, i: nat, c: char) returns (gap: string)
    requires i <= |s| && SkipSpace(s, i) == i && Peek(s, i, [c]) && IsSymbol(c) && c != '>'
    ensures var next := GetToken(s, i).next;
            && i < next && Spells(s, i, next, [c] + gap) && IsGap(gap) && SkipSpace(s, next) == next
  {
    GapParsed(s, i + 1);
    gap := s[i + 1..SkipSpace(s, i + 1)];
    SpellsJoin(s, i, i + 1, SkipSpace(s, i + 1), [c], gap);
  }

  lemma {:induction false} WordParsed(s: string, i: nat) returns (w: string, gap: string)
    requires i <= |s| && NoNul(s) && SkipSpace(s, i) == i && GetToken(s, i).kind == 'a'
    ensures var t := GetToken(s, i);
            && i < t.next && Spells(s, i, t.next, w + gap) && IsWordText(w) && IsGap(gap)
            && t.q == i && t.eq == i + |w| && SkipSpace(s, t.next) == t.next
            && (gap == "" && t.next < |s| ==> !IsWordChar(s[t.next]))
            && IsWordChar(s[i])
  {
    var t := GetToken(s, i);
    WordToken(s, i);
    GapParsed(s, t.eq);
    w, gap := s[i..t.eq], s[t.eq..t.next];
    SpellsJoin(s, i, t.eq, t.next, w, gap);
  }

  lemma {:induction false} OpParsed(s: string, i: nat) returns (op: Op, gap: string)
    requires i <= |s| && SkipSpace(s, i) == i && Peek(s, i, "<>")
    ensures var t := GetToken(s, i);
            && i < t.next && Spells(s, i, t.next, ShowOp(op) + gap) && IsGap(gap)
            && (t.kind == '<' <==> op == Less) && SkipSpace(s, t.next) == t.next
  {
    op := if s[i] == '<' then Less else if i + 1 < |s| && s[i + 1] == '>' then Append else Greater;
    var k := i + |ShowOp(op)|;
    GapParsed(s, k);
    var next := SkipSpace(s, k);
    gap := s[k..next];
    assert Spells(s, i, k, ShowOp(op)) by {
      if op == Append { assert s[i..i + 2] == [s[i], s[i + 1]]; }
    }
    SpellsJoin(s, i, k, next, ShowOp(op), gap);
    hide Spells, IsGap;
  }

  lemma {:induction false} DirParsed(s: string, i: nat, rs: seq<Redirection>) returns (p: Piece, next: nat, r: Redirection)
    requires i <= |s| && NoNul(s) && SkipSpace(s, i) == i && Peek(s, i, "<>") && Redirs(s, i, rs).Ok?
    ensures i < next && Spells(s, i, next, ShowPiece(p)) && PieceOk(p) && p.Dir? && SkipSpace(s, next) == next
    ensures Redirs(s, i, rs) == Redirs(s, next, rs + [r])
    ensures p.gap == "" && next < |s| ==> !IsWordChar(s[next])
  {
    hide SkipSpace, GetToken, Peek, NoNul, IsGap, IsWordText, Spells;
    var op, gap0 := OpParsed(s, i);
    var k := GetToken(s, i).next;
    var file, gap := WordParsed(s, k);
    next := GetToken(s, k).next;
    p := Dir(op, gap0, file, gap);
    r := Redirection(Span(k, k + |file|), if op == Less then Input else Output);
    SpellsJoin(s, i, k, next, ShowOp(op) + gap0, file + gap);
    ShowDir(p);
  }

  // One more piece in front.
  lemma {:induction false} PieceBefore(s: string, i: nat, j: nat, k: nat, p: Piece, ps: seq<Piece>)
    requires Spells(s, i, j, ShowPiece(p)) && Spells(s, j, k, ShowPieces(ps)) && PieceOk(p) && PiecesOk(ps)
    requires ps != [] && ps[0].Arg? ==> p.gap != ""
    ensures Spells(s, i, k, ShowPieces([p] + ps)) && PiecesOk([p] + ps)
  {
    hide ShowPiece, PieceOk, Spells;
    SpellsJoin(s, i, j, k, ShowPiece(p), ShowPieces(ps));
    assert ([p] + ps)[1..] == ps;
    forall k | 0 <= k < |ps| && ([p] + ps)[k + 1].Arg? ensures ([p] + ps)[k].gap != "" {
      if k > 0 {
        assert ps[k - 1 + 1].Arg?;
      }
    }
  }

  lemma {:induction false} PiecesParsed(s: string, i: nat, argv: seq<Span>, rs: seq<Redirection>) returns (ps: seq<Piece>)
    requires i <= |s| && NoNul(s) && SkipSpace(s, i) == i && Loop(s, i, argv, rs).Ok? && |argv| < MAXARGS
    ensures PiecesOk(ps) && Spells(s, i, Loop(s, i, argv, rs).pos, ShowPieces(ps))
    ensures SkipSpace(s, Loop(s, i, argv, rs).pos) == Loop(s, i, argv, rs).pos
    ensures |argv| + |Words(ps)| < MAXARGS
    ensures ps != [] && ps[0].Arg? ==> i < |s| && IsWordChar(s[i])
    decreases |s| - i
  {
    hide SkipSpace, GetToken, Peek, NoNul, PiecesOk, PieceOk, IsGap, IsWordText, Spells, ShowPiece, ShowPieces, Words, Redirects;
    if Peek(s, i, "<>") {
      var p, next, r := DirParsed(s, i, rs);
      var rest := PiecesParsed(s, next, argv, rs + [r]);
      PieceBefore(s, i, next, Loop(s, i, argv, rs).pos, p, rest);
      ps := [p] + rest;
      FirstPiece(ps);
      assert ps[1..] == rest;
    } else {
      RedirsHere(s, i, rs);
      if Peek(s, i, "|)&;") || GetToken(s, i).kind == NUL {
        ps := [];
        EndHere(s, i);
      } else {
        var w, gap := WordParsed(s, i);
        var p, next := Arg(w, gap), GetToken(s, i).next;
        ShowArg(w, gap);
        var rest := PiecesParsed(s, next, argv + [Span(i, i + |w|)], rs);
        PieceBefore(s, i, next, Loop(s, i, argv, rs).pos, p, rest);
        ps := [p] + rest;
        FirstPiece(ps);
        assert ps[1..] == rest;
      }
    }
  }

  lemma {:induction false} ShowArg(w: string, gap: string)
    requires IsWordText(w) && IsGap(gap)
    ensures ShowPiece(Arg(w, gap)) == w + gap && PieceOk(Arg(w, gap))
  {
  }

  lemma {:induction false} RedirsHere(s: string, i: nat, rs: seq<Redirection>)
    requires i <= |s| && SkipSpace(s, i) == i && !Peek(s, i, "<>")
    ensures Redirs(s, i, rs) == Ok(rs, i)
  {
  }

  // Without another token the pieces end where they are.
  lemma {:induction false} EndHere(s: string, i: nat)
    requires i <= |s| && NoNul(s) && SkipSpace(s, i) == i
    ensures GetToken(s, i).kind == NUL ==> GetToken(s, i).next == i
    ensures Spells(s, i, i, ShowPieces([])) && PiecesOk([]) && Words([]) == []
  {
  }

  lemma {:induction false} DirsParsed(s: string, i: nat, rs: seq<Redirection>) returns (ps: seq<Piece>)
    requires i <= |s| && NoNul(s) && SkipSpace(s, i) == i && Redirs(s, i, rs).Ok?
    ensures PiecesOk(ps) && Spells(s, i, Redirs(s, i, rs).pos, ShowPieces(ps)) && forall k :: 0 <= k < |ps| ==> ps[k].Dir?
    ensures SkipSpace(s, Redirs(s, i, rs).pos) == Redirs(s, i, rs).pos
    decreases |s| - i
  {
    hide SkipSpace, GetToken, Peek, NoNul, PiecesOk, PieceOk, IsGap, IsWordText, Spells, ShowPiece, ShowPieces, Words, Redirs;
    if Peek(s, i, "<>") {
      var p, next, r := DirParsed(s, i, rs);
      var rest := DirsParsed(s, next, rs + [r]);
      PieceBefore(s, i, next, Redirs(s, i, rs).pos, p, rest);
      ps := [p] + rest;
    } else {
      RedirsHere(s, i, rs);
      EndHere(s, i);
      ps := [];
    }
  }

  lemma {:induction false} CommandParsed(s: string, i: nat) returns (c: Command)
    requires i <= |s| && NoNul(s) && SkipSpace(s, i) == i && ParseExec(s, i).Ok?
    ensures CommandOk(c) && CommandFits(c) && Spells(s, i, ParseExec(s, i).pos, ShowCommand(c))
    ensures SkipSpace(s, ParseExec(s, i).pos) == ParseExec(s, i).pos
    decreases |s| - i, 1
  {
    hide SkipSpace, GetToken, Peek, NoNul, PiecesOk, IsGap, Spells, ShowPieces, Redirs, ParseLine, LineOk, LineFits, ShowLine, IsSymbol, Words, Args;
    if Peek(s, i, "(") {
      Symbols();
      var open := SymbolParsed(s, i, '(');
      var a := GetToken(s, i).next;
      var line := LineParsed(s, a);
      var b := ParseLine(s, a).pos;
      var close := SymbolParsed(s, b, ')');
      var d := GetToken(s, b).next;
      var dirs := DirsParsed(s, d, []);
      c := Paren(open, line, close, dirs);
      var e := ParseExec(s, i).pos;
      ParenSpelled(s, i, a, b, d, e, open, line, close, dirs);
    } else {
      var ps := PiecesParsed(s, i, [], []);
      c := Simple(ps);
    }
  }

  lemma {:induction false} ParenSpelled(s: string, i: nat, a: nat, b: nat, d: nat, e: nat, open: string, line: Line, close: string, dirs: seq<Piece>)
    requires Spells(s, i, a, ['('] + open) && Spells(s, a, b, ShowLine(line))
    requires Spells(s, b, d, [')'] + close) && Spells(s, d, e, ShowPieces(dirs))
    ensures Spells(s, i, e, ShowCommand(Paren(open, line, close, dirs)))
  {
    hide ShowLine, ShowPieces, Spells;
    SpellsJoin(s, b, d, e, [')'] + close, ShowPieces(dirs));
    SpellsJoin(s, a, b, e, ShowLine(line), ([')'] + close) + ShowPieces(dirs));
    SpellsJoin(s, i, a, e, ['('] + open, ShowLine(line) + (([')'] + close) + ShowPieces(dirs)));
    assert ShowCommand(Paren(open, line, close, dirs)) == (['('] + open) + (ShowLine(line) + (([')'] + close) + ShowPieces(dirs)));
  }

  lemma {:induction false} PipelineParsed(s: string, i: nat) returns (p: Pipeline)
    requires i <= |s| && NoNul(s) && SkipSpace(s, i) == i && ParsePipe(s, i).Ok?
    ensures PipelineOk(p) && PipelineFits(p) && Spells(s, i, ParsePipe(s, i).pos, ShowPipeline(p))
    ensures SkipSpace(s, ParsePipe(s, i).pos) == ParsePipe(s, i).pos
    decreases |s| - i, 2
  {
    hide SkipSpace, GetToken, Peek, NoNul, IsGap, Spells, ParseExec, CommandOk, CommandFits, ShowCommand, IsSymbol;
    var c := CommandParsed(s, i);
    var j := ParseExec(s, i).pos;
    if Peek(s, j, "|") {
      Symbols();
      var gap := SymbolParsed(s, j, '|');
      var k := GetToken(s, j).next;
      var rest := PipelineParsed(s, k);
      p := Bar(c, gap, rest);
      SpellsJoin(s, j, k, ParsePipe(s, k).pos, ['|'] + gap, ShowPipeline(rest));
      SpellsJoin(s, i, j, ParsePipe(s, k).pos, ShowCommand(c), ['|'] + gap + ShowPipeline(rest));
      assert ShowPipeline(p) == ShowCommand(c) + (['|'] + gap + ShowPipeline(rest));
    } else {
      p := One(c);
    }
  }

  lemma {:induction false} BacksParsed(s: string, i: nat, cmd: Cmd) returns (gaps: seq<string>)
    requires i <= |s| && SkipSpace(s, i) == i
    ensures Spells(s, i, Backs(s, i, cmd).1, ShowBacks(gaps)) && forall k :: 0 <= k < |gaps| ==> IsGap(gaps[k])
    ensures SkipSpace(s, Backs(s, i, cmd).1) == Backs(s, i, cmd).1
    decreases |s| - i
  {
    hide SkipSpace, GetToken, Peek, IsGap, IsSymbol;
    if Peek(s, i, "&") {
      Symbols();
      var gap := SymbolParsed(s, i, '&');
      var k := GetToken(s, i).next;
      var rest := BacksParsed(s, k, Back(cmd));
      gaps := [gap] + rest;
      assert gaps[1..] == rest;
      SpellsJoin(s, i, k, Backs(s, i, cmd).1, ['&'] + gap, ShowBacks(rest));
    } else {
      gaps := [];
    }
  }

  lemma {:induction false} LineParsed(s: string, i: nat) returns (l: Line)
    requires i <= |s| && NoNul(s) && SkipSpace(s, i) == i && ParseLine(s, i).Ok?
    ensures LineOk(l) && LineFits(l) && Spells(s, i, ParseLine(s, i).pos, ShowLine(l))
    ensures SkipSpace(s, ParseLine(s, i).pos) == ParseLine(s, i).pos
    decreases |s| - i, 3
  {
    hide SkipSpace, GetToken, Peek, NoNul, IsGap, Spells, ParsePipe, PipelineOk, PipelineFits, ShowPipeline, IsSymbol, Backs, ShowBacks;
    var first := PipelineParsed(s, i);
    var j := ParsePipe(s, i).pos;
    var cmd := ParsePipe(s, i).value;
    var backs := BacksParsed(s, j, cmd);
    var k := Backs(s, j, cmd).1;
    SpellsJoin(s, i, j, k, ShowPipeline(first), ShowBacks(backs));
    if Peek(s, k, ";") {
      Symbols();
      var gap := SymbolParsed(s, k, ';');
      var m := GetToken(s, k).next;
      var line := LineParsed(s, m);
      l := Line(first, backs, Semi(gap, line));
      SpellsJoin(s, k, m, ParseLine(s, m).pos, [';'] + gap, ShowLine(line));
      SpellsJoin(s, i, k, ParseLine(s, m).pos, ShowPipeline(first) + ShowBacks(backs), [';'] + gap + ShowLine(line));
      assert ShowRest(l.rest) == [';'] + gap + ShowLine(line);
    } else {
      l := Line(first, backs, NoRest);
      assert ShowLine(l) == ShowPipeline(first) + ShowBacks(backs);
    }
  }

  // ----- The main theorem -----

  // The whole of s is this line, with space before it.
  predicate IsTyped(s: string, lead: string, l: Line) {
    IsGap(lead) && LineOk(l) && s == lead + ShowLine(l)
  }

  // A typed line is read as what it means, or rejected when a simple command has too many words.
  lemma {:induction false} TypedLineReads(s: string, lead: string, l: Line)
    requires IsTyped(s, lead, l)
    ensures var r := ParseCmd(s); if LineFits(l) then r.Ok? && Text(s, r.value) == LineMeans(l) else r.Fail?
  {
    hide ParseLine, LineOk, LineFits, LineMeans, ShowLine, IsGap;
    var i := |lead|;
    assert At(s, 0, lead) && At(s, i, ShowLine(l));
    LineStart(s, i, l);
    SkipGap(s, 0, lead);
    LineSkips(s, 0);
    LineReads(s, i, l);
    PastPeek(s, |s|, "");
  }

  // ----- Redirections as the shell does them -----

  // The redirections at the top of a tree, the innermost first, and the command below them.
  function TopRedirs(t: Tree): seq<Redirect> {
    match t
    case TRedir(c, file, mode) => TopRedirs(c) + [Redirect(file, mode)]
    case _ => []
  }

  function Below(t: Tree): Tree {
    match t
    case TRedir(c, _, _) => Below(c)
    case _ => t
  }

  lemma {:induction false} NestAdds(t: Tree, ds: seq<Redirect>)
    ensures TopRedirs(Nest(t, ds)) == TopRedirs(t) + ds && Below(Nest(t, ds)) == Below(t)
    decreases |ds|
  {
    if ds != [] {
      NestAdds(t, ds[..|ds| - 1]);
      assert ds == ds[..|ds| - 1] + [ds[|ds| - 1]];
    }
  }

  lemma {:induction false} WordsJoin(ps: seq<Piece>, qs: seq<Piece>)
    ensures Words(ps + qs) == Words(ps) + Words(qs)
  {
    if ps == [] {
      assert ps + qs == qs;
    } else {
      var us := ps[1..];
      WordsJoin(us, qs);
      assert (ps + qs)[1..] == us + qs && (ps + qs)[0] == ps[0];
    }
  }

  lemma {:induction false} RedirectsJoin(ps: seq<Piece>, qs: seq<Piece>)
    ensures Redirects(ps + qs) == Redirects(ps) + Redirects(qs)
  {
    if ps == [] {
      assert ps + qs == qs;
    } else {
      var us := ps[1..];
      RedirectsJoin(us, qs);
      assert (ps + qs)[1..] == us + qs && (ps + qs)[0] == ps[0];
    }
  }

  // Each piece adds its word or its redirection, in the order typed.
  lemma {:induction false} PieceAdds(ps: seq<Piece>, p: Piece, qs: seq<Piece>)
    ensures Words(ps + [p] + qs) == Words(ps) + (if p.Arg? then [p.w] else []) + Words(qs)
    ensures Redirects(ps + [p] + qs) ==
            Redirects(ps)
            + (if p.Arg? then [] else [Redirect(p.file, if p.op == Less then Input else Output)])
            + Redirects(qs)
  {
    WordsJoin(ps + [p], qs);
    WordsJoin(ps, [p]);
    RedirectsJoin(ps + [p], qs);
    RedirectsJoin(ps, [p]);
    PieceAlone(p);
  }

  lemma {:induction false} PieceAlone(p: Piece)
    ensures Words([p]) == (if p.Arg? then [p.w] else [])
    ensures Redirects([p]) == if p.Arg? then [] else [Redirect(p.file, if p.op == Less then Input else Output)]
  {
    assert Words([p][1..]) == [] && Redirects([p][1..]) == [];
  }

  // A command typed alone is read as its words, or its block, with one redirection for each one
  // typed, in that order and the first innermost.
  lemma {:induction false} CommandIsRead(s: string, lead: string, c: Command)
    requires IsTyped(s, lead, Line(One(c), [], NoRest)) && CommandFits(c)
    ensures ParseCmd(s).Ok?
    ensures var t := Text(s, ParseCmd(s).value);
            match c
            case Simple(ps) => TopRedirs(t) == Redirects(ps) && Below(t) == TExec(Words(ps))
            case Paren(_, line, _, dirs) =>
              TopRedirs(t) == TopRedirs(LineMeans(line)) + Redirects(dirs) && Below(t) == Below(LineMeans(line))
  {
    hide ParseCmd, IsTyped, Nest, TopRedirs, Below, Text;
    var l := Line(One(c), [], NoRest);
    TypedLineReads(s, lead, l);
    assert PipelineMeans(One(c)) == CommandMeans(c) && PipelineFits(One(c)) == CommandFits(c);
    assert LineMeans(l) == CommandMeans(c) && LineFits(l);
    match c
    case Simple(ps) =>
      NestAdds(TExec(Words(ps)), Redirects(ps));
      ExecIsBelow(Words(ps));
    case Paren(_, line, _, dirs) =>
      NestAdds(LineMeans(line), Redirects(dirs));
  }

  lemma {:induction false} ExecIsBelow(ws: seq<string>)
    ensures TopRedirs(TExec(ws)) == [] && Below(TExec(ws)) == TExec(ws)
  {
  }

  lemma {:induction false} LineSkips(s: string, i: nat)
    requires i <= |s|
    ensures ParseLine(s, SkipSpace(s, i)) == ParseLine(s, i)
  {
    hide SkipSpace, GetToken, Peek, Redirs, ParseBlock, Args, Backs;
    SkipTwice(s, i, "(");
    RedirsSkip(s, i, []);
    assert ParseExec(s, SkipSpace(s, i)) == ParseExec(s, i);
    hide ParseExec;
    assert ParsePipe(s, SkipSpace(s, i)) == ParsePipe(s, i);
  }

  // The parser accepts exactly the lines of the grammar whose simple commands fit, and each
  // of them as the command that it means, however it was typed.
  lemma {:induction false} ParserIsGrammar(s: string)
    requires NoNul(s)
    ensures ParseCmd(s).Ok? <==> exists lead: string, l: Line :: IsTyped(s, lead, l) && LineFits(l)
    ensures ParseCmd(s).Ok? ==>
              forall lead: string, l: Line :: IsTyped(s, lead, l) ==> Text(s, ParseCmd(s).value) == LineMeans(l)
  {
    hide ParseCmd, IsTyped, LineFits, LineMeans;
    forall lead: string, l: Line | IsTyped(s, lead, l)
      ensures var r := ParseCmd(s); if LineFits(l) then r.Ok? && Text(s, r.value) == LineMeans(l) else r.Fail?
    {
      TypedLineReads(s, lead, l);
    }
    if ParseCmd(s).Ok? {
      var lead, l := CommandLineParsed(s);
    }
  }

  lemma {:induction false} CommandLineParsed(s: string) returns (lead: string, l: Line)
    requires NoNul(s) && ParseCmd(s).Ok?
    ensures IsTyped(s, lead, l) && LineFits(l)
  {
    hide ParseLine, LineOk, LineFits, ShowLine, NoNul;
    GapParsed(s, 0);
    LineSkips(s, 0);
    var i := SkipSpace(s, 0);
    lead := s[..i];
    l := LineParsed(s, i);
    SpellsJoin(s, 0, i, |s|, lead, ShowLine(l));
  }
}
