// Corollaries of the grammar: the fully parenthesised printing of a command tree reads back as
// the tree, and what the user sees of a command after nulterminate.
module ShRoundTrip {
  import opened Sh
  import opened ShGrammar

  function Spaced(ws: seq<string>): string {
    if ws == [] then "" else if |ws| == 1 then ws[0] else ws[0] + " " + Spaced(ws[1..])
  }

  function Print(t: Tree): string {
    match t
    case TExec(args) => Spaced(args)
    case TRedir(c, file, mode) => "(" + Print(c) + ")" + (if mode == Input then "<" else ">") + file
    case TPipe(l, r) => "(" + Print(l) + ")" + "|" + "(" + Print(r) + ")"
    case TList(l, r) => "(" + Print(l) + ")" + ";" + "(" + Print(r) + ")"
    case TBack(c) => "(" + Print(c) + ")" + "&"
  }

  predicate AllWords(ws: seq<string>) {
    forall k :: 0 <= k < |ws| ==> IsWordText(ws[k])
  }

  predicate Printable(t: Tree) {
    match t
    case TExec(args) => AllWords(args)
    case TRedir(c, file, _) => Printable(c) && IsWordText(file)
    case TPipe(l, r) => Printable(l) && Printable(r)
    case TList(l, r) => Printable(l) && Printable(r)
    case TBack(c) => Printable(c)
  }

  // At most MAXARGS - 1 words in every exec.
  predicate Fits(t: Tree) {
    match t
    case TExec(args) => |args| < MAXARGS
    case TRedir(c, _, _) => Fits(c)
    case TPipe(l, r) => Fits(l) && Fits(r)
    case TList(l, r) => Fits(l) && Fits(r)
    case TBack(c) => Fits(c)
  }

  // ----- The printing is a line of the grammar -----

  function Plain(c: Command): Line {
    Line(One(c), [], NoRest)
  }

  function WordPieces(ws: seq<string>): (ps: seq<Piece>)
    ensures |ps| == |ws|
  {
    if ws == [] then [] else [Arg(ws[0], if |ws| == 1 then "" else " ")] + WordPieces(ws[1..])
  }

  // How Print types a tree.
  function Typed(t: Tree): Line {
    match t
    case TExec(args) => Plain(Simple(WordPieces(args)))
    case TRedir(c, file, mode) =>
      Plain(Paren("", Typed(c), "", [Dir(if mode == Input then Less else Greater, "", file, "")]))
    case TPipe(l, r) =>
      Line(Bar(Paren("", Typed(l), "", []), "", One(Paren("", Typed(r), "", []))), [], NoRest)
    case TList(l, r) =>
      Line(One(Paren("", Typed(l), "", [])), [], Semi("", Plain(Paren("", Typed(r), "", []))))
    case TBack(c) => Line(One(Paren("", Typed(c), "", [])), [""], NoRest)
  }

  lemma {:induction false} WordPiecesShow(ws: seq<string>)
    requires AllWords(ws)
    ensures ShowPieces(WordPieces(ws)) == Spaced(ws) && PiecesOk(WordPieces(ws))
    ensures Words(WordPieces(ws)) == ws && Redirects(WordPieces(ws)) == []
  {
    hide IsWordText, PiecesOk;
    WordPiecesOk(ws);
    if ws != [] {
      WordPiecesShow(ws[1..]);
      var p, ps := WordPieces(ws)[0], WordPieces(ws[1..]);
      assert WordPieces(ws) == [p] + ps && WordPieces(ws)[1..] == ps;
    }
  }

  lemma {:induction false} WordPiecesOk(ws: seq<string>)
    requires AllWords(ws)
    ensures PiecesOk(WordPieces(ws))
  {
    hide IsWordText;
    if ws != [] {
      WordPiecesOk(ws[1..]);
      var p, ps := WordPieces(ws)[0], WordPieces(ws[1..]);
      assert WordPieces(ws) == [p] + ps;
      forall k | 0 <= k < |ps| && ([p] + ps)[k + 1].Arg? ensures ([p] + ps)[k].gap != "" {
        if k > 0 {
          assert ps[k - 1 + 1].Arg?;
        }
      }
    }
  }

  // A tree in parentheses, with these redirections after it.
  lemma {:induction false} BlockShows(t: Tree, dirs: seq<Piece>)
    requires LineOk(Typed(t)) && PiecesOk(dirs) && forall k :: 0 <= k < |dirs| ==> dirs[k].Dir?
    ensures var c := Paren("", Typed(t), "", dirs);
            && CommandOk(c) && ShowCommand(c) == "(" + ShowLine(Typed(t)) + ")" + ShowPieces(dirs)
            && CommandMeans(c) == Nest(LineMeans(Typed(t)), Redirects(dirs))
            && (CommandFits(c) <==> LineFits(Typed(t)))
  {
    hide Typed, LineOk, ShowLine, LineMeans, LineFits, ShowPieces, Redirects, Nest;
  }

  // A line that is one command.
  lemma {:induction false} PlainShows(c: Command)
    requires CommandOk(c)
    ensures LineOk(Plain(c)) && ShowLine(Plain(c)) == ShowCommand(c)
    ensures LineMeans(Plain(c)) == CommandMeans(c) && (LineFits(Plain(c)) <==> CommandFits(c))
  {
    hide CommandOk, ShowCommand, CommandMeans, CommandFits;
  }

  lemma {:induction false} NoDirs(t: Tree)
    ensures ShowPieces([]) == "" && PiecesOk([]) && Nest(t, Redirects([])) == t
  {
  }

  lemma {:induction false} OneDir(t: Tree, file: string, mode: Mode)
    requires IsWordText(file)
    ensures var ds := [Dir(if mode == Input then Less else Greater, "", file, "")];
            && PiecesOk(ds) && ShowPieces(ds) == (if mode == Input then "<" else ">") + file
            && Nest(t, Redirects(ds)) == TRedir(t, file, mode)
  {
    var op := if mode == Input then Less else Greater;
    var ds := [Dir(op, "", file, "")];
    assert ShowPiece(ds[0]) == ShowOp(op) + file;
    assert Redirects(ds) == [Redirect(file, mode)];
    assert Nest(t, [Redirect(file, mode)][..0]) == t;
  }

  // What is typed for t is a line of the grammar that is printed as t is and means t.
  predicate TypedAs(t: Tree) {
    LineOk(Typed(t)) && ShowLine(Typed(t)) == Print(t) && LineMeans(Typed(t)) == t && (LineFits(Typed(t)) <==> Fits(t))
  }

  lemma {:induction false} TypedShows(t: Tree)
    requires Printable(t)
    ensures TypedAs(t)
  {
    hide TypedAs, IsWordText;
    match t
    case TExec(args) => ExecShows(args);
    case TRedir(c, file, mode) =>
      TypedShows(c);
      RedirShows(c, file, mode);
    case TPipe(l, r) =>
      TypedShows(l);
      TypedShows(r);
      PipeShows(l, r);
    case TList(l, r) =>
      TypedShows(l);
      TypedShows(r);
      ListShows(l, r);
    case TBack(c) =>
      TypedShows(c);
      BackShows(c);
  }

  lemma {:induction false} ExecShows(args: seq<string>)
    requires AllWords(args)
    ensures TypedAs(TExec(args))
  {
    hide WordPieces;
    WordPiecesShow(args);
    PlainShows(Simple(WordPieces(args)));
  }

  lemma {:induction false} RedirShows(c: Tree, file: string, mode: Mode)
    requires TypedAs(c) && IsWordText(file)
    ensures TypedAs(TRedir(c, file, mode))
  {
    hide CommandOk, ShowCommand, CommandMeans, CommandFits, PiecesOk, ShowPieces, Redirects, Nest, IsWordText, LineOk, LineMeans, LineFits, ShowLine;
    OneDir(c, file, mode);
    var ds := [Dir(if mode == Input then Less else Greater, "", file, "")];
    BlockShows(c, ds);
    PlainShows(Paren("", Typed(c), "", ds));
  }

  // A tree in parentheses, as Print has it.
  lemma {:induction false} BareBlock(t: Tree)
    requires TypedAs(t)
    ensures var c := Paren("", Typed(t), "", []);
            CommandOk(c) && ShowCommand(c) == "(" + Print(t) + ")" && CommandMeans(c) == t && (CommandFits(c) <==> Fits(t))
  {
    hide CommandOk, ShowCommand, CommandMeans, CommandFits, PiecesOk, ShowPieces, Redirects, Nest, LineOk, LineMeans, LineFits, ShowLine, Print, Typed;
    NoDirs(t);
    BlockShows(t, []);
  }

  // Two commands with a symbol between them, and one with a symbol after it.
  lemma {:induction false} BarShows(a: Command, b: Command)
    requires CommandOk(a) && CommandOk(b)
    ensures var l := Line(Bar(a, "", One(b)), [], NoRest);
            && LineOk(l) && ShowLine(l) == ShowCommand(a) + "|" + ShowCommand(b)
            && LineMeans(l) == TPipe(CommandMeans(a), CommandMeans(b))
            && (LineFits(l) <==> CommandFits(a) && CommandFits(b))
  {
    hide CommandOk, ShowCommand, CommandMeans, CommandFits;
    assert PipelineOk(One(b)) && ShowPipeline(One(b)) == ShowCommand(b);
    assert PipelineMeans(One(b)) == CommandMeans(b) && (PipelineFits(One(b)) <==> CommandFits(b));
  }

  lemma {:induction false} SemiShows(a: Command, r: Line)
    requires CommandOk(a) && LineOk(r)
    ensures var l := Line(One(a), [], Semi("", r));
            && LineOk(l) && ShowLine(l) == ShowCommand(a) + ";" + ShowLine(r)
            && LineMeans(l) == TList(CommandMeans(a), LineMeans(r))
            && (LineFits(l) <==> CommandFits(a) && LineFits(r))
  {
    hide CommandOk, ShowCommand, CommandMeans, CommandFits;
    assert PipelineOk(One(a)) && ShowPipeline(One(a)) == ShowCommand(a);
  }

  lemma {:induction false} AmpShows(a: Command)
    requires CommandOk(a)
    ensures var l := Line(One(a), [""], NoRest);
            && LineOk(l) && ShowLine(l) == ShowCommand(a) + "&"
            && LineMeans(l) == TBack(CommandMeans(a)) && (LineFits(l) <==> CommandFits(a))
  {
    hide CommandOk, ShowCommand, CommandMeans, CommandFits;
    assert PipelineOk(One(a)) && ShowPipeline(One(a)) == ShowCommand(a);
    assert ShowBacks([""]) == "&" by {
      assert [""][1..] == [];
      assert "&" + "" + "" == "&";
    }
    assert BackOf(CommandMeans(a), 1) == TBack(BackOf(CommandMeans(a), 0));
  }

  lemma {:induction false} PipeShows(l: Tree, r: Tree)
    requires TypedAs(l) && TypedAs(r)
    ensures TypedAs(TPipe(l, r))
  {
    hide CommandOk, ShowCommand, CommandMeans, CommandFits, LineOk, ShowLine, LineMeans, LineFits;
    BareBlock(l);
    BareBlock(r);
    BarShows(Paren("", Typed(l), "", []), Paren("", Typed(r), "", []));
  }

  lemma {:induction false} ListShows(l: Tree, r: Tree)
    requires TypedAs(l) && TypedAs(r)
    ensures TypedAs(TList(l, r))
  {
    hide CommandOk, ShowCommand, CommandMeans, CommandFits, LineOk, ShowLine, LineMeans, LineFits;
    BareBlock(l);
    BareBlock(r);
    PlainShows(Paren("", Typed(r), "", []));
    SemiShows(Paren("", Typed(l), "", []), Plain(Paren("", Typed(r), "", [])));
  }

  lemma {:induction false} BackShows(c: Tree)
    requires TypedAs(c)
    ensures TypedAs(TBack(c))
  {
    hide CommandOk, ShowCommand, CommandMeans, CommandFits, LineOk, ShowLine, LineMeans, LineFits;
    BareBlock(c);
    AmpShows(Paren("", Typed(c), "", []));
  }

  // The line printed for a tree parses to that tree exactly if no exec has too many words.
  lemma {:induction false} RoundTrip(t: Tree)
    requires Printable(t)
    ensures var r := ParseCmd(Print(t));
            if Fits(t) then r.Ok? && Text(Print(t), r.value) == t else r.Fail?
  {
    hide ParseCmd, Typed, ShowLine, LineOk, LineMeans, LineFits, Print, Fits;
    TypedShows(t);
    assert "" + ShowLine(Typed(t)) == Print(t);
    TypedLineReads(Print(t), "", Typed(t));
  }

  // ----- After nulterminate -----

  // The command as its user sees it, through pointers into the buffer b.
  function Seen(b: string, cmd: Cmd): Tree {
    match cmd
    case Exec(argv) => TExec(seq(|argv|, k requires 0 <= k < |argv| => CStringAt(b, argv[k].q)))
    case Redir(c, file, mode) => TRedir(Seen(b, c), CStringAt(b, file.q), mode)
    case Pipe(l, r) => TPipe(Seen(b, l), Seen(b, r))
    case List(l, r) => TList(Seen(b, l), Seen(b, r))
    case Back(c) => TBack(Seen(b, c))
  }

  function CStringAt(b: string, q: nat): string {
    if q <= |b| then CString(b, q) else ""
  }

  lemma {:induction false} SeenIsText(s: string, b: string, cmd: Cmd)
    requires forall w: Span :: HasSpan(cmd, w) ==> IsWord(s, w) && w.q <= |b| && CString(b, w.q) == s[w.q..w.eq]
    ensures Seen(b, cmd) == Text(s, cmd)
  {
    hide CString, IsWord;
    match cmd
    case Exec(argv) =>
      forall k | 0 <= k < |argv| ensures CStringAt(b, argv[k].q) == Sub(s, argv[k]) {
        assert HasSpan(cmd, argv[k]);
        WordIsSub(s, argv[k]);
      }
    case Redir(c, file, _) =>
      assert HasSpan(cmd, file);
      WordIsSub(s, file);
      assert forall w: Span :: HasSpan(c, w) ==> HasSpan(cmd, w);
      SeenIsText(s, b, c);
    case Pipe(l, r) =>
      assert forall w: Span :: HasSpan(l, w) || HasSpan(r, w) ==> HasSpan(cmd, w);
      SeenIsText(s, b, l);
      SeenIsText(s, b, r);
    case List(l, r) =>
      assert forall w: Span :: HasSpan(l, w) || HasSpan(r, w) ==> HasSpan(cmd, w);
      SeenIsText(s, b, l);
      SeenIsText(s, b, r);
    case Back(c) =>
      assert forall w: Span :: HasSpan(c, w) ==> HasSpan(cmd, w);
      SeenIsText(s, b, c);
  }

  lemma {:induction false} WordIsSub(s: string, w: Span)
    requires IsWord(s, w)
    ensures w.q <= w.eq <= |s| && Sub(s, w) == s[w.q..w.eq]
  {
  }

  // On every accepted line: what the pointers show after nulterminate are the words of the line.
  lemma {:induction false} TerminatedShowsText(s: string, tail: string)
    requires NoNul(s) && ParseCmd(s).Ok?
    ensures Seen(Terminated(s + [NUL] + tail, ParseCmd(s).value), ParseCmd(s).value) == Text(s, ParseCmd(s).value)
  {
    hide ParseCmd, CString, Terminated, HasSpan, Text, Seen;
    var cmd := ParseCmd(s).value;
    var b := Terminated(s + [NUL] + tail, cmd);
    forall w: Span | HasSpan(cmd, w)
      ensures IsWord(s, w) && w.q <= |b| && CString(b, w.q) == s[w.q..w.eq]
    {
      StringsReadBack(s, tail, w);
    }
    SeenIsText(s, b, cmd);
  }

  lemma {:induction false} PrintedHasNoNul(t: Tree)
    requires Printable(t)
    ensures NoNul(Print(t))
  {
    match t
    case TExec(args) => SpacedHasNoNul(args);
    case TRedir(c, file, _) => PrintedHasNoNul(c);
    case TPipe(l, r) => PrintedHasNoNul(l); PrintedHasNoNul(r);
    case TList(l, r) => PrintedHasNoNul(l); PrintedHasNoNul(r);
    case TBack(c) => PrintedHasNoNul(c);
  }

  lemma {:induction false} SpacedHasNoNul(ws: seq<string>)
    requires AllWords(ws)
    ensures NoNul(Spaced(ws))
  {
    if |ws| > 1 {
      SpacedHasNoNul(ws[1..]);
    }
  }

  // parsecmd with nulterminate, on the printing of a tree: the user sees the tree.
  lemma {:induction false} ParseCmdShowsTree(t: Tree, tail: string)
    requires Printable(t) && Fits(t)
    ensures ParseCmd(Print(t)).Ok?
    ensures var cmd := ParseCmd(Print(t)).value; Seen(Terminated(Print(t) + [NUL] + tail, cmd), cmd) == t
  {
    hide ParseCmd, Terminated, Text, Seen, Print;
    RoundTrip(t);
    PrintedHasNoNul(t);
    TerminatedShowsText(Print(t), tail);
  }

  // The same on any line that may be typed: the user sees what it means.
  lemma {:induction false} TypedLineShowsMeaning(s: string, lead: string, l: Line, tail: string)
    requires NoNul(s) && IsTyped(s, lead, l) && LineFits(l)
    ensures ParseCmd(s).Ok?
    ensures var cmd := ParseCmd(s).value; Seen(Terminated(s + [NUL] + tail, cmd), cmd) == LineMeans(l)
  {
    hide ParseCmd, Terminated, Text, Seen, IsTyped, LineFits, LineMeans, NoNul;
    TypedLineReads(s, lead, l);
    TerminatedShowsText(s, tail);
  }
}
