/** Parsing what the printer writes gives back the tree, and every tree the parser builds can be printed. */
module ShellRoundTrip {
  import opened ShellGrammar

  predicate Tight(s: string) {
    s != [] ==> !Space(s[0])
  }

  // ---- one token ----

  lemma {:induction false} WordLengthOf(w: string, r: string)
    requires (forall i :: 0 <= i < |w| ==> WordChar(w[i])) && (r != [] ==> !WordChar(r[0]))
    ensures WordLength(w + r) == |w|
  {
    if w == [] {
      assert w + r == r;
    } else {
      assert (w + r)[1..] == w[1..] + r;
      WordLengthOf(w[1..], r);
    }
  }

  lemma ScanWord(w: string, r: string)
    requires IsWord(w) && (r != [] ==> !WordChar(r[0]))
    ensures Scan(w + r) == (Word(w), Skip(r)) && Skip(w + r) == w + r && (w + r)[0] == w[0]
  {
    WordLengthOf(w, r);
    assert WordChar(w[0]);
    assert (w + r)[..|w|] == w && (w + r)[|w|..] == r;
  }

  lemma ScanSym(c: char, r: string)
    requires Symbol(c) && Tight(r) && (c == '>' ==> r == [] || r[0] != '>')
    ensures Scan([c] + r) == (Sym(c), r) && Skip([c] + r) == [c] + r
  {
    assert ([c] + r)[1..] == r;
  }

  // ---- redirections and words ----

  lemma OneRedir(file: string, mode: Mode, r: string)
    requires IsWord(file) && Tight(r)
    ensures ParseRedirs(PrintRedir(file, mode) + r) ==
            (match ParseRedirs(r) case NoFile => NoFile case Redirs(rs, t) => Redirs([Redirection(file, mode)] + rs, t))
    ensures Tight(PrintRedir(file, mode) + r)
  {
    var c := if mode == In then '<' else '>';
    var s := PrintRedir(file, mode) + r;
    var after := " " + r;
    assert s == [c] + (file + after);
    assert WordChar(file[0]);
    ScanSym(c, file + after);
    ScanWord(file, after);
    assert after[1..] == r;
  }

  lemma NoRedirs(r: string)
    requires r == [] || EndsArgs(r[0]) || WordChar(r[0])
    ensures ParseRedirs(r) == Redirs([], r)
  {
  }

  // What the loop of parseexec makes of the rest, with the redirections that come first.
  function Continue(argv: seq<string>, s: string): Parsed {
    match ParseRedirs(s)
    case NoFile => Panic
    case Redirs(rs, t) => ParseArgs(argv, rs, t)
  }

  lemma OneWord(done: seq<string>, w: string, more: string)
    requires |done| + 1 < MAXARGS && IsWord(w) && Tight(more)
    ensures Continue(done, w + (" " + more)) == Continue(done + [w], more)
  {
    var after := " " + more;
    var s := w + after;
    ScanWord(w, after);
    assert after[1..] == more;
    assert WordChar(w[0]);
    NoRedirs(s);
    assert forall rs: seq<Redirection> :: [] + rs == rs;
    hide Scan, Skip, ParseRedirs;
    assert Continue(done, s) == ParseArgs(done, [], s);
  }

  lemma {:induction false} WordsRound(done: seq<string>, argv: seq<string>, r: string)
    requires |done| + |argv| < MAXARGS && Tight(r)
    requires forall i :: 0 <= i < |argv| ==> IsWord(argv[i])
    ensures Continue(done, PrintWords(argv) + r) == Continue(done + argv, r)
    ensures Tight(PrintWords(argv) + r)
    decreases |argv|
  {
    hide Continue;
    if argv == [] {
      assert PrintWords(argv) + r == r && done + argv == done;
    } else {
      var w, more := argv[0], PrintWords(argv[1..]) + r;
      assert PrintWords(argv) + r == w + (" " + more);
      WordsRound(done + [w], argv[1..], r);
      OneWord(done, w, more);
      assert done + [w] + argv[1..] == done + argv;
      assert WordChar(w[0]);
    }
  }

  lemma PrintTight(level: Level, c: Cmd<string>, r: string)
    requires Sound(c) && Tight(r)
    ensures Tight(Print(level, c) + r)
    decreases c, level
  {
  }

  // ---- commands ----

  // A tree's own level, and how far the printer is from it: without parentheses it counts down to it.
  function Own(c: Cmd<string>): Level {
    match c
    case List(_, _) => 0
    case Back(_) => 1
    case Pipe(_, _) => 2
    case _ => 3
  }

  function Rank(level: Level, c: Cmd<string>): nat {
    (Own(c) - level) % 4
  }

  predicate EndsPipe(r: string) {
    r == [] || r[0] == ')' || r[0] == '&' || r[0] == ';'
  }

  predicate EndsLine(r: string) {
    r == [] || r[0] == ')'
  }

  // A single command, in parentheses unless it is one, takes the redirections that follow.
  lemma {:induction false} ExecRound(c: Cmd<string>, r: string, rs: seq<Redirection>, t: string)
    requires Sound(c) && Tight(r) && ParseRedirs(r) == Redirs(rs, t) && (t == [] || EndsArgs(t[0]))
    ensures ParseExec(Print(3, c) + r) == Ok(Wrap(c, rs), t)
    decreases c, Rank(3, c), 0
  {
    hide ParseExec, ParseLine, ParseRedirs, PrintWords, PrintRedir;
    match c {
      case Exec(argv) => ExecWords(argv, r, rs, t);
      case Redir(x, file, mode) =>
        OneRedir(file, mode, r);
        ExecRound(x, PrintRedir(file, mode) + r, [Redirection(file, mode)] + rs, t);
        assert Print(3, c) + r == Print(3, x) + (PrintRedir(file, mode) + r);
        assert ([Redirection(file, mode)] + rs)[1..] == rs;
      case _ =>
        LineRound(c, ")" + r);
        BlockRound(c, r, rs, t);
    }
  }

  lemma ExecWords(argv: seq<string>, r: string, rs: seq<Redirection>, t: string)
    requires Sound(Exec(argv)) && Tight(r) && ParseRedirs(r) == Redirs(rs, t) && (t == [] || EndsArgs(t[0]))
    ensures ParseExec(PrintWords(argv) + r) == Ok(Wrap(Exec(argv), rs), t)
  {
    WordsRound([], argv, r);
    assert [] + argv == argv;
    WordsFront(argv, r);
    WordsEnd(argv, rs, t);
    hide ParseRedirs, ParseArgs, Skip, PrintWords;
  }

  lemma NotOpen(r: string)
    requires Tight(r) && ParseRedirs(r).Redirs? && (ParseRedirs(r).rest == [] || EndsArgs(ParseRedirs(r).rest[0]))
    ensures Front(r) != '('
  {
  }

  lemma FirstWordFront(argv: seq<string>, r: string)
    requires argv != [] && IsWord(argv[0])
    ensures Front(PrintWords(argv) + r) != '('
  {
    var after := " " + (PrintWords(argv[1..]) + r);
    assert PrintWords(argv) + r == argv[0] + after;
    ScanWord(argv[0], after);
    hide Skip, PrintWords;
    assert WordChar(argv[0][0]);
  }

  lemma WordsFront(argv: seq<string>, r: string)
    requires Sound(Exec(argv)) && Tight(r) && ParseRedirs(r).Redirs?
    requires (ParseRedirs(r).rest == [] || EndsArgs(ParseRedirs(r).rest[0]))
    ensures Front(PrintWords(argv) + r) != '('
  {
    hide Front, ParseRedirs;
    if argv == [] {
      assert PrintWords(argv) + r == r;
      NotOpen(r);
    } else {
      FirstWordFront(argv, r);
    }
  }

  lemma WordsEnd(argv: seq<string>, rs: seq<Redirection>, t: string)
    requires t == [] || EndsArgs(t[0])
    ensures ParseArgs(argv, rs, t) == Ok(Wrap(Exec(argv), rs), t)
  {
  }

  lemma BlockRound(c: Cmd<string>, r: string, rs: seq<Redirection>, t: string)
    requires Sound(c) && Tight(r) && ParseRedirs(r) == Redirs(rs, t)
    requires ParseLine(Print(0, c) + (")" + r)) == Ok(c, ")" + r)
    ensures ParseExec("(" + Print(0, c) + ")" + r) == Ok(Wrap(c, rs), t)
  {
    hide ParseLine, ParseRedirs, Print, Sound;
    var inner := Print(0, c) + (")" + r);
    PrintTight(0, c, ")" + r);
    ScanSym('(', inner);
    ScanSym(')', r);
    assert "(" + Print(0, c) + ")" + r == "(" + inner;
  }

  // What each routine of the parser does with the character it peeks at.
  lemma PipeStep(s: string, left: Cmd<string>, after: string)
    requires Tight(after) && ParseExec(s) == Ok(left, "|" + after) && ParsePipe(after).Ok?
    ensures ParsePipe(s) == Ok(Pipe(left, ParsePipe(after).cmd), ParsePipe(after).rest)
  {
    ScanSym('|', after);
  }

  lemma PipeEnds(s: string, c: Cmd<string>, r: string)
    requires ParseExec(s) == Ok(c, r) && EndsPipe(r)
    ensures ParsePipe(s) == Ok(c, r)
  {
  }

  lemma BackStep(c: Cmd<string>, r: string)
    requires Tight(r)
    ensures Backs(c, "&" + r) == Backs(Back(c), r)
  {
    ScanSym('&', r);
  }

  lemma LineStep(s: string, cmd: Cmd<string>, after: string)
    requires Tight(after) && ParsePipe(s).Ok? && ParseLine(after).Ok?
    requires Backs(ParsePipe(s).cmd, ParsePipe(s).rest) == (cmd, ";" + after)
    ensures ParseLine(s) == Ok(List(cmd, ParseLine(after).cmd), ParseLine(after).rest)
  {
    hide ParsePipe, Backs;
    ScanSym(';', after);
  }

  lemma LineEnds(s: string, c: Cmd<string>, r: string)
    requires ParsePipe(s).Ok? && Backs(ParsePipe(s).cmd, ParsePipe(s).rest) == (c, r) && EndsLine(r)
    ensures ParseLine(s) == Ok(c, r)
  {
    hide ParsePipe, Backs;
  }

  lemma BacksEnd(c: Cmd<string>, r: string)
    requires r == [] || r[0] == ')' || r[0] == ';'
    ensures Backs(c, r) == (c, r)
  {
  }

  lemma {:induction false} PipeRound(c: Cmd<string>, r: string)
    requires Sound(c) && EndsPipe(r)
    ensures ParsePipe(Print(2, c) + r) == Ok(c, r)
    decreases c, Rank(2, c)
  {
    hide ParsePipe, ParseExec, ParseRedirs, Sound;
    if c.Pipe? {
      var after := Print(2, c.right) + r;
      SoundParts(c);
      PrintTight(2, c.right, r);
      ExecThen(c.left, "|" + after);
      PipeRound(c.right, r);
      assert Print(2, c) + r == Print(3, c.left) + ("|" + after);
      PipeStep(Print(2, c) + r, c.left, after);
    } else {
      ExecThen(c, r);
      PipeEnds(Print(2, c) + r, c, r);
    }
  }

  lemma SoundParts(c: Cmd<string>)
    requires Sound(c)
    ensures c.Pipe? || c.List? ==> Sound(c.left) && Sound(c.right)
    ensures c.Redir? || c.Back? ==> Sound(c.cmd)
  {
  }

  // A command that no redirection follows.
  lemma ExecThen(c: Cmd<string>, r: string)
    requires Sound(c) && (r == [] || EndsArgs(r[0]))
    ensures ParseExec(Print(3, c) + r) == Ok(c, r)
    decreases c, Rank(3, c), 1
  {
    NoRedirs(r);
    ExecRound(c, r, [], r);
  }

  lemma {:induction false} BackRound(c: Cmd<string>, r: string)
    requires Sound(c) && EndsPipe(r)
    ensures var p := ParsePipe(Print(1, c) + r);
      p.Ok? && Backs(p.cmd, p.rest) == Backs(c, r)
    decreases c, Rank(1, c)
  {
    hide ParsePipe, Backs;
    match c {
      case Back(x) =>
        BackStep(x, r);
        BackRound(x, "&" + r);
        assert Print(1, c) + r == Print(1, x) + ("&" + r);
      case _ => PipeRound(c, r);
    }
  }

  lemma {:induction false} LineRound(c: Cmd<string>, r: string)
    requires Sound(c) && EndsLine(r)
    ensures ParseLine(Print(0, c) + r) == Ok(c, r)
    decreases c, Rank(0, c)
  {
    hide ParseLine, ParsePipe, Backs;
    match c {
      case List(left, right) =>
        var after := Print(0, right) + r;
        PrintTight(0, right, r);
        BackRound(left, ";" + after);
        BacksEnd(left, ";" + after);
        LineRound(right, r);
        assert Print(0, c) + r == Print(1, left) + (";" + after);
        LineStep(Print(0, c) + r, left, after);
      case _ =>
        BackRound(c, r);
        BacksEnd(c, r);
        LineEnds(Print(0, c) + r, c, r);
    }
  }

  // Every tree the parser can build is what its printed text parses to.
  lemma ParsePrint(c: Cmd<string>)
    requires Sound(c)
    ensures ParseCmd(Print(0, c)) == Command(c)
  {
    LineRound(c, "");
    assert Print(0, c) + "" == Print(0, c);
  }

  // ---- what the parser builds ----

  predicate SoundRedirs(rs: seq<Redirection>) {
    forall i :: 0 <= i < |rs| ==> IsWord(rs[i].file)
  }

  lemma {:induction false} RedirsAreSound(s: string)
    requires ParseRedirs(s).Redirs?
    ensures SoundRedirs(ParseRedirs(s).rs)
    decreases |s|
  {
    if IsRedir(Front(s)) {
      RedirsAreSound(Scan(Scan(s).1).1);
    }
  }

  lemma {:induction false} WrapIsSound(c: Cmd<string>, rs: seq<Redirection>)
    requires Sound(c) && SoundRedirs(rs)
    ensures Sound(Wrap(c, rs))
    decreases |rs|
  {
    if rs != [] {
      WrapIsSound(Redir(c, rs[0].file, rs[0].mode), rs[1..]);
    }
  }

  lemma {:induction false} ArgsAreSound(argv: seq<string>, rs: seq<Redirection>, s: string)
    requires Sound(Exec(argv)) && SoundRedirs(rs) && ParseArgs(argv, rs, s).Ok?
    ensures Sound(ParseArgs(argv, rs, s).cmd)
    decreases |s|
  {
    var (tok, s1) := Scan(s);
    if EndsArgs(Front(s)) || tok.End? {
      WrapIsSound(Exec(argv), rs);
    } else {
      var more := ParseRedirs(s1);
      RedirsAreSound(s1);
      ArgsAreSound(argv + [tok.w], rs + more.rs, more.rest);
    }
  }

  lemma {:induction false} ExecIsSound(s: string)
    requires ParseExec(s).Ok?
    ensures Sound(ParseExec(s).cmd)
    decreases |s|, 1
  {
    if Front(s) == '(' {
      var line := ParseLine(Scan(s).1);
      LineIsSound(Scan(s).1);
      RedirsAreSound(Scan(line.rest).1);
      WrapIsSound(line.cmd, ParseRedirs(Scan(line.rest).1).rs);
    } else {
      RedirsAreSound(s);
      ArgsAreSound([], ParseRedirs(s).rs, ParseRedirs(s).rest);
    }
  }

  lemma {:induction false} PipeIsSound(s: string)
    requires ParsePipe(s).Ok?
    ensures Sound(ParsePipe(s).cmd)
    decreases |s|, 2
  {
    ExecIsSound(s);
    var rest := ParseExec(s).rest;
    if Front(rest) == '|' {
      PipeIsSound(Scan(rest).1);
    }
  }

  lemma {:induction false} BacksAreSound(c: Cmd<string>, s: string)
    requires Sound(c)
    ensures Sound(Backs(c, s).0)
    decreases |s|
  {
    if Front(s) == '&' {
      BacksAreSound(Back(c), Scan(s).1);
    }
  }

  lemma {:induction false} LineIsSound(s: string)
    requires ParseLine(s).Ok?
    ensures Sound(ParseLine(s).cmd)
    decreases |s|, 3
  {
    var first := ParsePipe(s);
    PipeIsSound(s);
    BacksAreSound(first.cmd, first.rest);
    var rest := Backs(first.cmd, first.rest).1;
    if Front(rest) == ';' {
      LineIsSound(Scan(rest).1);
    }
  }

  // So the printer is a normal form: whatever the shell accepts, the printed tree is accepted as the same command.
  lemma PrintParse(s: string)
    requires ParseCmd(s).Command?
    ensures Sound(ParseCmd(s).cmd) && ParseCmd(Print(0, ParseCmd(s).cmd)) == ParseCmd(s)
  {
    LineIsSound(s);
    ParsePrint(ParseCmd(s).cmd);
  }

  // ">>" is not told from ">": it opens the file in the same mode.
  lemma AppendIsWrite(r: string)
    requires r == [] || r[0] != '>'
    ensures ParseRedirs(">>" + r) == ParseRedirs(">" + r)
  {
    var s, t := ">>" + r, ">" + r;
    assert s[2..] == r && t[1..] == r;
    assert Scan(s) == (Sym('+'), Skip(r)) && Scan(t) == (Sym('>'), Skip(r));
  }
}
