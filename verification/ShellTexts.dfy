/** What the shell's parser makes of plain texts, character by character: blanks, words and the seven symbols. */
module ShellTexts {
  import opened ShellGrammar
  import opened ShellRoundTrip

  lemma PlainWord(w: string)
    requires w != [] && forall i :: 0 <= i < |w| ==> w[i] !in " \t\r\n\U{0B}<|>&;()\0"
    ensures IsWord(w) && !Space(w[0]) && !Symbol(w[0])
  {
  }

  // ---- words ----

  lemma NextWord(done: seq<string>, w: string, c: char, more: string)
    requires |done| + 1 < MAXARGS && IsWord(w) && Space(c) && Tight(more)
    ensures Continue(done, w + ([c] + more)) == Continue(done + [w], more)
  {
    var after := [c] + more;
    var s := w + after;
    ScanWord(w, after);
    assert after[1..] == more;
    assert WordChar(w[0]);
    NoRedirs(s);
    assert forall rs: seq<Redirection> :: [] + rs == rs;
    hide Scan, Skip, ParseRedirs;
    assert Continue(done, s) == ParseArgs(done, [], s);
  }

  // The last word of a simple command, with the redirections behind it.
  lemma LastWord(done: seq<string>, w: string, r: string, rs: seq<Redirection>, t: string)
    requires |done| + 1 < MAXARGS && IsWord(w) && (r != [] ==> Symbol(r[0]))
    requires ParseRedirs(r) == Redirs(rs, t) && (t == [] || EndsArgs(t[0]))
    ensures Continue(done, w + r) == Ok(Wrap(Exec(done + [w]), rs), t)
  {
    var s := w + r;
    ScanWord(w, r);
    assert WordChar(w[0]);
    NoRedirs(s);
    assert [] + rs == rs;
    assert Skip(r) == r;
    assert ParseArgs(done + [w], rs, t) == Ok(Wrap(Exec(done + [w]), rs), t) by {
      hide ParseRedirs, Scan;
    }
    assert ParseArgs(done, [], s) == ParseArgs(done + [w], rs, t) by {
      hide ParseRedirs, Scan, Skip;
    }
  }

  lemma ExecContinues(s: string)
    requires s != [] && !Space(s[0]) && s[0] != '('
    ensures ParseExec(s) == Continue([], s)
  {
  }

  lemma OneWordExec(w: string, r: string)
    requires IsWord(w) && (r == [] || EndsArgs(r[0]))
    ensures ParseExec(w + r) == Ok(Exec([w]), r)
  {
    assert WordChar(w[0]) && (w + r)[0] == w[0];
    ExecContinues(w + r);
    NoRedirs(r);
    LastWord([], w, r, [], r);
    assert [] + [w] == [w];
  }

  // ---- a whole line ----

  lemma ExecIsAll(s: string, c: Cmd<string>)
    requires ParseExec(s) == Ok(c, [])
    ensures ParsePipe(s) == Ok(c, []) && ParseLine(s) == Ok(c, []) && ParseCmd(s) == Command(c)
  {
    assert Skip([]) == [] && Front([]) == '\0';
    assert ParsePipe(s) == Ok(c, []);
    PipeIsAll(s, c);
  }

  lemma PipeIsAll(s: string, c: Cmd<string>)
    requires ParsePipe(s) == Ok(c, [])
    ensures ParseLine(s) == Ok(c, []) && ParseCmd(s) == Command(c)
  {
    hide ParsePipe;
    assert Skip([]) == [] && Front([]) == '\0';
    assert Backs(c, []) == (c, []);
  }

  // Two words with any of the five blanks between them are a command and its argument.
  lemma BlankSplits(a: string, b: string, c: char)
    requires a != [] && forall i :: 0 <= i < |a| ==> a[i] !in " \t\r\n\U{0B}<|>&;()\0"
    requires b != [] && forall i :: 0 <= i < |b| ==> b[i] !in " \t\r\n\U{0B}<|>&;()\0"
    requires c in " \t\r\n\U{0B}"
    ensures ParseCmd(a + [c] + b) == Command(Exec([a, b]))
  {
    hide Continue, ParseExec, ParseCmd, Skip, Scan, ParseRedirs;
    PlainWord(a);
    PlainWord(b);
    var s := a + ([c] + b);
    assert s == a + [c] + b && s[0] == a[0];
    ExecContinues(s);
    NextWord([], a, c, b);
    assert [] + [a] == [a] && [a] + [b] == [a, b] && b + [] == b;
    NoRedirs([]);
    LastWord([a], b, [], [], []);
    ExecIsAll(s, Exec([a, b]));
  }

  // Two words with a symbol between them: three of the seven end the command in an error, since something is left over
  // or no word follows.
  lemma SymbolSplits(a: string, b: string)
    requires a != [] && forall i :: 0 <= i < |a| ==> a[i] !in " \t\r\n\U{0B}<|>&;()\0"
    requires b != [] && forall i :: 0 <= i < |b| ==> b[i] !in " \t\r\n\U{0B}<|>&;()\0"
    ensures ParseCmd(a + "<" + b) == Command(Redir(Exec([a]), b, In))
    ensures ParseCmd(a + ">" + b) == Command(Redir(Exec([a]), b, Out))
    ensures ParseCmd(a + "|" + b) == Command(Pipe(Exec([a]), Exec([b])))
    ensures ParseCmd(a + ";" + b) == Command(List(Exec([a]), Exec([b])))
    ensures ParseCmd(a + "&" + b) == Syntax && ParseCmd(a + "&") == Command(Back(Exec([a])))
    ensures ParseCmd(a + "(" + b) == Syntax && ParseCmd(a + ")" + b) == Syntax
    ensures ParseCmd("(" + a + ")") == Command(Exec([a]))
  {
    PlainWord(a);
    PlainWord(b);
    RedirSplits(a, b, In);
    RedirSplits(a, b, Out);
    PipeSplits(a, b);
    ListSplits(a, b);
    BackSplits(a, b);
    ParensSplit(a, b);
  }

  lemma RedirSplits(a: string, b: string, mode: Mode)
    requires IsWord(a) && IsWord(b)
    ensures ParseCmd(a + (if mode == In then "<" else ">") + b) == Command(Redir(Exec([a]), b, mode))
  {
    var c := if mode == In then '<' else '>';
    var r := [c] + b;
    assert a + (if mode == In then "<" else ">") + b == a + r && (a + r)[0] == a[0];
    assert WordChar(a[0]) && WordChar(b[0]);
    ScanSym(c, b);
    assert b + [] == b;
    ScanWord(b, []);
    NoRedirs([]);
    assert [Redirection(b, mode)] + [] == [Redirection(b, mode)];
    assert ParseRedirs(r) == Redirs([Redirection(b, mode)], []);
    ExecContinues(a + r);
    LastWord([], a, r, [Redirection(b, mode)], []);
    assert [] + [a] == [a];
    assert [Redirection(b, mode)][1..] == [];
    ExecIsAll(a + r, Redir(Exec([a]), b, mode));
  }

  lemma PipeSplits(a: string, b: string)
    requires IsWord(a) && IsWord(b)
    ensures ParseCmd(a + "|" + b) == Command(Pipe(Exec([a]), Exec([b])))
  {
    var s := a + ("|" + b);
    assert a + "|" + b == s && WordChar(b[0]) && b + [] == b;
    OneWordExec(a, "|" + b);
    OneWordExec(b, []);
    ExecIsAll(b, Exec([b]));
    hide ParseExec, ParseLine;
    PipeStep(s, Exec([a]), b);
    PipeIsAll(s, Pipe(Exec([a]), Exec([b])));
  }

  lemma ListSplits(a: string, b: string)
    requires IsWord(a) && IsWord(b)
    ensures ParseCmd(a + ";" + b) == Command(List(Exec([a]), Exec([b])))
  {
    var r := ";" + b;
    var s := a + r;
    assert a + ";" + b == s && WordChar(b[0]) && b + [] == b;
    OneWordExec(a, r);
    OneWordExec(b, []);
    ExecIsAll(b, Exec([b]));
    ScanSym(';', b);
    assert Skip(r) == r && Front(r) == ';';
    assert ParsePipe(s) == Ok(Exec([a]), r) by {
      hide ParseExec;
    }
    assert Backs(Exec([a]), r) == (Exec([a]), r);
    hide ParsePipe, ParseExec;
    assert ParseLine(s) == Ok(List(Exec([a]), Exec([b])), []);
    assert Skip([]) == [];
  }

  lemma BackSplits(a: string, b: string)
    requires IsWord(a) && IsWord(b)
    ensures ParseCmd(a + "&" + b) == Syntax && ParseCmd(a + "&") == Command(Back(Exec([a])))
  {
    BackLine(a, b);
    BackLine(a, []);
    assert "&" + [] == "&" && a + "&" + b == a + ("&" + b);
    assert WordChar(b[0]) && Skip(b) == b && Skip([]) == [];
  }

  lemma BackLine(a: string, b: string)
    requires IsWord(a) && (b == [] || IsWord(b))
    ensures ParseLine(a + ("&" + b)) == Ok(Back(Exec([a])), b)
  {
    var r := "&" + b;
    var s := a + r;
    assert b != [] ==> WordChar(b[0]);
    OneWordExec(a, r);
    ScanSym('&', b);
    assert Skip(r) == r && Front(r) == '&' && Skip(b) == b;
    assert ParsePipe(s) == Ok(Exec([a]), r) by {
      hide ParseExec;
    }
    hide ParsePipe, ParseExec;
    assert Front(b) != '&' && Front(b) != ';';
    assert Backs(Back(Exec([a])), b) == (Back(Exec([a])), b);
    assert Backs(Exec([a]), r) == (Back(Exec([a])), b);
  }

  lemma ParensSplit(a: string, b: string)
    requires IsWord(a) && IsWord(b)
    ensures ParseCmd(a + "(" + b) == Syntax && ParseCmd(a + ")" + b) == Syntax
    ensures ParseCmd("(" + a + ")") == Command(Exec([a]))
  {
    OpenFails(a, b);
    CloseFails(a, b);
    Enclosed(a);
  }

  lemma OpenFails(a: string, b: string)
    requires IsWord(a) && IsWord(b)
    ensures ParseCmd(a + "(" + b) == Syntax
  {
    var r := "(" + b;
    var s := a + r;
    assert a + "(" + b == s && s[0] == a[0] && WordChar(a[0]) && WordChar(b[0]);
    ScanWord(a, r);
    ScanSym('(', b);
    NoRedirs(s);
    assert ParseRedirs(r) == Redirs([], r);
    ExecContinues(s);
    var none: seq<Redirection> := [];
    assert [] + [a] == [a] && none + none == none;
    assert ParseArgs([a], [], r) == Panic;
    assert ParseArgs([], [], s) == Panic by {
      hide Scan, Skip, ParseRedirs;
    }
    assert ParseExec(s) == Panic;
    hide ParseExec;
    assert ParsePipe(s) == Panic;
    assert ParseLine(s) == Panic;
  }

  lemma CloseFails(a: string, b: string)
    requires IsWord(a) && IsWord(b)
    ensures ParseCmd(a + ")" + b) == Syntax
  {
    var r := ")" + b;
    var s := a + r;
    assert a + ")" + b == s;
    OneWordExec(a, r);
    hide ParseExec;
    assert Skip(r) == r && Front(r) == ')';
    assert ParsePipe(s) == Ok(Exec([a]), r);
    hide ParsePipe;
    assert Backs(Exec([a]), r) == (Exec([a]), r);
    assert ParseLine(s) == Ok(Exec([a]), r);
  }

  lemma Enclosed(a: string)
    requires IsWord(a)
    ensures ParseCmd("(" + a + ")") == Command(Exec([a]))
  {
    var inner := a + ")";
    var s := "(" + inner;
    assert s == "(" + a + ")" && WordChar(a[0]) && inner[0] == a[0];
    OneWordExec(a, ")");
    assert Skip(")") == ")" && Front(")") == ')' && Skip([]) == [];
    assert ParseLine(inner) == Ok(Exec([a]), ")") by {
      hide ParseExec;
      assert ParsePipe(inner) == Ok(Exec([a]), ")");
      assert Backs(Exec([a]), ")") == (Exec([a]), ")");
    }
    ScanSym('(', inner);
    ScanSym(')', []);
    assert [')'] + [] == ")";
    NoRedirs([]);
    hide ParseLine;
    assert ParseExec(s) == Ok(Exec([a]), []);
    hide ParseExec;
    ExecIsAll(s, Exec([a]));
  }

  // ---- how tightly the symbols bind ----

  // Of three words: ";" lets go first, then "&", and "|" holds tightest; ";" and "|" group to the right.
  lemma Binding(a: string, b: string, c: string)
    requires a != [] && forall i :: 0 <= i < |a| ==> a[i] !in " \t\r\n\U{0B}<|>&;()\0"
    requires b != [] && forall i :: 0 <= i < |b| ==> b[i] !in " \t\r\n\U{0B}<|>&;()\0"
    requires c != [] && forall i :: 0 <= i < |c| ==> c[i] !in " \t\r\n\U{0B}<|>&;()\0"
    ensures ParseCmd(a + "|" + b + ";" + c) == Command(List(Pipe(Exec([a]), Exec([b])), Exec([c])))
    ensures ParseCmd(a + ";" + b + "|" + c) == Command(List(Exec([a]), Pipe(Exec([b]), Exec([c]))))
    ensures ParseCmd(a + "|" + b + "|" + c) == Command(Pipe(Exec([a]), Pipe(Exec([b]), Exec([c]))))
    ensures ParseCmd(a + ";" + b + ";" + c) == Command(List(Exec([a]), List(Exec([b]), Exec([c]))))
    ensures ParseCmd(a + "|" + b + "&" + ";" + c) == Command(List(Back(Pipe(Exec([a]), Exec([b]))), Exec([c])))
  {
    PlainWord(a);
    PlainWord(b);
    PlainWord(c);
    PipeThenList(a, b, c);
    PipeThenPipe(a, b, c);
    ListThenPipe(a, b, c);
    ListThenList(a, b, c);
    BackgroundPipe(a, b, c);
  }

  // The text b|c, alone or behind something.
  lemma Tail(b: string, c: string)
    requires IsWord(b) && IsWord(c)
    ensures ParsePipe(b + ("|" + c)) == Ok(Pipe(Exec([b]), Exec([c])), [])
    ensures ParseLine(b + ("|" + c)) == Ok(Pipe(Exec([b]), Exec([c])), [])
    ensures ParsePipe(b + (";" + c)) == Ok(Exec([b]), ";" + c)
    ensures ParseLine(b + (";" + c)) == Ok(List(Exec([b]), Exec([c])), [])
    ensures ParseLine(c) == Ok(Exec([c]), []) && Tight(c)
  {
    assert WordChar(c[0]) && c + [] == c;
    OneWordExec(c, []);
    ExecIsAll(c, Exec([c]));
    OneWordExec(b, "|" + c);
    OneWordExec(b, ";" + c);
    hide ParseExec, ParsePipe, ParseLine;
    PipeStep(b + ("|" + c), Exec([b]), c);
    PipeIsAll(b + ("|" + c), Pipe(Exec([b]), Exec([c])));
    PipeEnds(b + (";" + c), Exec([b]), ";" + c);
    BacksEnd(Exec([b]), ";" + c);
    LineStep(b + (";" + c), Exec([b]), c);
  }

  lemma PipeThenList(a: string, b: string, c: string)
    requires IsWord(a) && IsWord(b) && IsWord(c)
    ensures ParseCmd(a + "|" + b + ";" + c) == Command(List(Pipe(Exec([a]), Exec([b])), Exec([c])))
  {
    var t := b + (";" + c);
    var s := a + ("|" + t);
    assert a + "|" + b + ";" + c == s && t[0] == b[0];
    hide ParseExec, ParsePipe, ParseLine;
    Tail(b, c);
    FrontOf(a, t, b);
    BacksEnd(Pipe(Exec([a]), Exec([b])), ";" + c);
    LineStep(s, Pipe(Exec([a]), Exec([b])), c);
    WholeLine(s);
  }

  lemma PipeThenPipe(a: string, b: string, c: string)
    requires IsWord(a) && IsWord(b) && IsWord(c)
    ensures ParseCmd(a + "|" + b + "|" + c) == Command(Pipe(Exec([a]), Pipe(Exec([b]), Exec([c]))))
  {
    var t := b + ("|" + c);
    assert a + "|" + b + "|" + c == a + ("|" + t) && t[0] == b[0];
    hide ParseExec, ParsePipe, ParseLine;
    Tail(b, c);
    FrontOf(a, t, b);
    PipeIsAll(a + ("|" + t), Pipe(Exec([a]), Pipe(Exec([b]), Exec([c]))));
  }

  lemma ListThenPipe(a: string, b: string, c: string)
    requires IsWord(a) && IsWord(b) && IsWord(c)
    ensures ParseCmd(a + ";" + b + "|" + c) == Command(List(Exec([a]), Pipe(Exec([b]), Exec([c]))))
  {
    var t := b + ("|" + c);
    assert a + ";" + b + "|" + c == a + (";" + t) && t[0] == b[0];
    hide ParseExec, ParsePipe, ParseLine;
    Tail(b, c);
    FrontOf(a, t, b);
    LineStep(a + (";" + t), Exec([a]), t);
    WholeLine(a + (";" + t));
  }

  lemma ListThenList(a: string, b: string, c: string)
    requires IsWord(a) && IsWord(b) && IsWord(c)
    ensures ParseCmd(a + ";" + b + ";" + c) == Command(List(Exec([a]), List(Exec([b]), Exec([c]))))
  {
    var t := b + (";" + c);
    assert a + ";" + b + ";" + c == a + (";" + t) && t[0] == b[0];
    hide ParseExec, ParsePipe, ParseLine;
    Tail(b, c);
    FrontOf(a, t, b);
    LineStep(a + (";" + t), Exec([a]), t);
    WholeLine(a + (";" + t));
  }

  lemma WholeLine(s: string)
    requires ParseLine(s).Ok? && ParseLine(s).rest == []
    ensures ParseCmd(s) == Command(ParseLine(s).cmd)
  {
    assert Skip([]) == [];
  }

  // a, and then "|" or ";" before a text that begins with a word.
  lemma FrontOf(a: string, t: string, b: string)
    requires IsWord(a) && IsWord(b) && t != [] && t[0] == b[0] && ParsePipe(t).Ok?
    ensures ParsePipe(a + ("|" + t)) == Ok(Pipe(Exec([a]), ParsePipe(t).cmd), ParsePipe(t).rest)
    ensures ParsePipe(a + (";" + t)) == Ok(Exec([a]), ";" + t) && Backs(Exec([a]), ";" + t) == (Exec([a]), ";" + t)
    ensures Tight(t)
  {
    assert WordChar(b[0]);
    hide ParseExec, ParsePipe;
    OneWordExec(a, "|" + t);
    PipeStep(a + ("|" + t), Exec([a]), t);
    OneWordExec(a, ";" + t);
    PipeEnds(a + (";" + t), Exec([a]), ";" + t);
    BacksEnd(Exec([a]), ";" + t);
  }

  lemma BackgroundPipe(a: string, b: string, c: string)
    requires IsWord(a) && IsWord(b) && IsWord(c)
    ensures ParseCmd(a + "|" + b + "&" + ";" + c) == Command(List(Back(Pipe(Exec([a]), Exec([b]))), Exec([c])))
  {
    var r := ";" + c;
    var q := b + ("&" + r);
    var s := a + ("|" + q);
    assert a + "|" + b + "&" + ";" + c == s && q[0] == b[0] && c + [] == c && WordChar(c[0]) && WordChar(b[0]);
    OneWordExec(b, "&" + r);
    OneWordExec(c, []);
    ExecIsAll(c, Exec([c]));
    hide ParseExec, ParsePipe, ParseLine;
    PipeEnds(q, Exec([b]), "&" + r);
    FrontOf(a, q, b);
    var p := Pipe(Exec([a]), Exec([b]));
    ScanSym('&', r);
    BacksEnd(Back(p), r);
    assert Front("&" + r) == '&';
    assert Backs(p, "&" + r) == (Back(p), r);
    LineStep(s, Back(p), c);
    WholeLine(s);
  }

  // Nine arguments are taken, counting the command, and ten are an error.
  lemma ArgumentLimit(argv: seq<string>)
    requires argv != [] && forall k :: 0 <= k < |argv| ==> argv[k] != []
    requires forall k, i :: 0 <= k < |argv| && 0 <= i < |argv[k]| ==> argv[k][i] !in " \t\r\n\U{0B}<|>&;()\0"
    ensures ParseCmd(PrintWords(argv)) == if |argv| <= 9 then Command(Exec(argv)) else Syntax
  {
    forall k | 0 <= k < |argv|
      ensures IsWord(argv[k])
    {
      PlainWord(argv[k]);
    }
    var s := PrintWords(argv);
    assert WordChar(argv[0][0]) && s[0] == argv[0][0];
    hide ParseExec, Continue, PrintWords;
    ExecContinues(s);
    if |argv| <= 9 {
      assert s + [] == s && [] + argv == argv;
      WordsRound([], argv, []);
      WordsEndHere(argv);
      ExecIsAll(s, Exec(argv));
    } else {
      PrintSplit(argv, 9);
      WordsRound([], argv[..9], PrintWords(argv[9..]));
      assert [] + argv[..9] == argv[..9];
      TooMany(argv[..9], argv[9..]);
      assert ParsePipe(s) == Panic && ParseLine(s) == Panic;
    }
  }

  lemma WordsEndHere(argv: seq<string>)
    ensures Continue(argv, []) == Ok(Exec(argv), [])
  {
    NoRedirs([]);
    assert Front([]) == '\0' && Scan([]) == (End, []);
    assert Wrap(Exec(argv), []) == Exec(argv);
  }

  lemma {:induction false} PrintSplit(argv: seq<string>, n: nat)
    requires n <= |argv|
    ensures PrintWords(argv) == PrintWords(argv[..n]) + PrintWords(argv[n..])
    decreases n
  {
    if n > 0 {
      PrintSplit(argv[1..], n - 1);
      assert argv[..n][1..] == argv[1..][..n - 1] && argv[n..] == argv[1..][n - 1..];
    }
  }

  lemma TooMany(done: seq<string>, more: seq<string>)
    requires |done| == 9 && more != [] && IsWord(more[0])
    ensures Continue(done, PrintWords(more)) == Panic && Tight(PrintWords(more))
  {
    var r := " " + PrintWords(more[1..]);
    var s := more[0] + r;
    assert s == PrintWords(more);
    ScanWord(more[0], r);
    assert WordChar(more[0][0]);
    NoRedirs(s);
    hide ParseRedirs, Scan, Skip;
  }

  // ---- the five blanks are one ----

  ghost predicate Alike(s: string, t: string) {
    |s| == |t| && forall i :: 0 <= i < |s| ==> s[i] == t[i] || (Space(s[i]) && Space(t[i]))
  }

  lemma {:induction false} AlikeSkip(s: string, t: string)
    requires Alike(s, t)
    ensures Alike(Skip(s), Skip(t)) && Front(s) == Front(t)
    decreases |s|
  {
    if s != [] && Space(s[0]) {
      AlikeSkip(s[1..], t[1..]);
    }
  }

  lemma {:induction false} AlikeWord(s: string, t: string)
    requires Alike(s, t)
    ensures WordLength(s) == WordLength(t) && s[..WordLength(s)] == t[..WordLength(t)]
    decreases |s|
  {
    if s != [] && WordChar(s[0]) {
      AlikeWord(s[1..], t[1..]);
      var n := WordLength(s[1..]);
      assert s[..1 + n] == [s[0]] + s[1..][..n] && t[..1 + n] == [t[0]] + t[1..][..n];
    }
  }

  lemma AlikeScan(s: string, t: string)
    requires Alike(s, t)
    ensures Scan(s).0 == Scan(t).0 && Alike(Scan(s).1, Scan(t).1)
  {
    AlikeSkip(s, t);
    var u, v := Skip(s), Skip(t);
    if u != [] {
      AlikeWord(u, v);
      var n := if u[0] == '>' && 1 < |u| && u[1] == '>' then 2 else if Symbol(u[0]) then 1 else WordLength(u);
      AlikeSkip(u[n..], v[n..]);
    }
  }

  ghost predicate SameRedirs(p: ParsedRedirs, q: ParsedRedirs) {
    if p.NoFile? then q.NoFile? else q.Redirs? && p.rs == q.rs && Alike(p.rest, q.rest)
  }

  ghost predicate SameParsed(p: Parsed, q: Parsed) {
    if p.Panic? then q.Panic? else q.Ok? && p.cmd == q.cmd && Alike(p.rest, q.rest)
  }

  lemma {:induction false} AlikeRedirs(s: string, t: string)
    requires Alike(s, t)
    ensures SameRedirs(ParseRedirs(s), ParseRedirs(t))
    decreases |s|
  {
    hide Scan, Skip, Front, Alike;
    AlikeFront(s, t);
    if IsRedir(Front(s)) {
      AlikeScan(s, t);
      AlikeScan(Scan(s).1, Scan(t).1);
      RedirShrinks(s);
      if Scan(Scan(s).1).0.Word? {
        AlikeRedirs(Scan(Scan(s).1).1, Scan(Scan(t).1).1);
      }
    }
  }

  lemma AlikeFront(s: string, t: string)
    requires Alike(s, t)
    ensures Front(s) == Front(t) && Alike(Skip(s), Skip(t)) && |s| == |t|
  {
    AlikeSkip(s, t);
  }

  lemma RedirShrinks(s: string)
    requires IsRedir(Front(s))
    ensures |Scan(Scan(s).1).1| < |s|
  {
  }

  lemma {:induction false} AlikeArgs(argv: seq<string>, rs: seq<Redirection>, s: string, t: string)
    requires Alike(s, t)
    ensures SameParsed(ParseArgs(argv, rs, s), ParseArgs(argv, rs, t))
    decreases |s|
  {
    hide Scan, Skip, Front, Alike, ParseRedirs, Wrap;
    AlikeFront(s, t);
    AlikeScan(s, t);
    AlikeEmpty();
    if !EndsArgs(Front(s)) && Scan(s).0.Word? && |argv| + 1 < MAXARGS {
      var u, v := Scan(s).1, Scan(t).1;
      AlikeRedirs(u, v);
      WordShrinks(s);
      if ParseRedirs(u).Redirs? {
        AlikeArgs(argv + [Scan(s).0.w], rs + ParseRedirs(u).rs, ParseRedirs(u).rest, ParseRedirs(v).rest);
      }
    }
  }

  lemma AlikeEmpty()
    ensures Alike([], [])
  {
  }

  lemma WordShrinks(s: string)
    requires Scan(s).0.Word?
    ensures |Scan(s).1| < |s|
    ensures ParseRedirs(Scan(s).1).Redirs? ==> |ParseRedirs(Scan(s).1).rest| < |s|
  {
  }

  lemma {:induction false} AlikeExec(s: string, t: string)
    requires Alike(s, t)
    ensures SameParsed(ParseExec(s), ParseExec(t))
    decreases |s|, 1
  {
    hide Alike, ParseRedirs, ParseArgs, ParseBlock;
    AlikeFront(s, t);
    if Front(s) == '(' {
      AlikeBlock(s, t);
    } else {
      AlikeRedirs(s, t);
      if ParseRedirs(s).Redirs? {
        AlikeArgs([], ParseRedirs(s).rs, ParseRedirs(s).rest, ParseRedirs(t).rest);
      }
    }
  }

  lemma SymbolShrinks(s: string)
    requires Front(s) == '(' || Front(s) == '|' || Front(s) == ';' || Front(s) == '&'
    ensures |Scan(s).1| < |s|
  {
  }

  lemma {:induction false} AlikeBlock(s: string, t: string)
    requires Alike(s, t) && Front(s) == '(' == Front(t)
    ensures SameParsed(ParseBlock(s), ParseBlock(t))
    decreases |s|, 0
  {
    hide Alike, ParseRedirs, ParseLine, Scan, Front, Wrap;
    SymbolShrinks(s);
    AlikeScan(s, t);
    AlikeLine(Scan(s).1, Scan(t).1);
    if ParseLine(Scan(s).1).Ok? {
      var u, v := ParseLine(Scan(s).1).rest, ParseLine(Scan(t).1).rest;
      AlikeFront(u, v);
      AlikeScan(u, v);
      AlikeRedirs(Scan(u).1, Scan(v).1);
    }
  }

  lemma {:induction false} AlikePipe(s: string, t: string)
    requires Alike(s, t)
    ensures SameParsed(ParsePipe(s), ParsePipe(t))
    decreases |s|, 2
  {
    hide Alike, ParseExec, Scan, Front, Skip;
    AlikeLength(s, t);
    AlikeExec(s, t);
    if ParseExec(s).Ok? {
      var u, v := ParseExec(s).rest, ParseExec(t).rest;
      AlikeFront(u, v);
      if Front(u) == '|' {
        SymbolShrinks(u);
        AlikeScan(u, v);
        AlikePipe(Scan(u).1, Scan(v).1);
      }
    }
  }

  lemma AlikeLength(s: string, t: string)
    requires Alike(s, t)
    ensures |s| == |t|
  {
  }

  lemma {:induction false} AlikeBacks(c: Cmd<string>, s: string, t: string)
    requires Alike(s, t)
    ensures Backs(c, s).0 == Backs(c, t).0 && Alike(Backs(c, s).1, Backs(c, t).1)
    decreases |s|
  {
    hide Alike, Scan, Front, Skip;
    AlikeFront(s, t);
    if Front(s) == '&' {
      SymbolShrinks(s);
      AlikeScan(s, t);
      AlikeBacks(Back(c), Scan(s).1, Scan(t).1);
    }
  }

  lemma {:induction false} AlikeLine(s: string, t: string)
    requires Alike(s, t)
    ensures SameParsed(ParseLine(s), ParseLine(t))
    decreases |s|, 3
  {
    hide Alike, ParsePipe, Backs, Scan, Front, Skip;
    AlikePipe(s, t);
    if ParsePipe(s).Ok? {
      var c := ParsePipe(s).cmd;
      AlikeBacks(c, ParsePipe(s).rest, ParsePipe(t).rest);
      var u, v := Backs(c, ParsePipe(s).rest).1, Backs(c, ParsePipe(t).rest).1;
      AlikeFront(u, v);
      if Front(u) == ';' {
        SymbolShrinks(u);
        AlikeScan(u, v);
        AlikeLine(Scan(u).1, Scan(v).1);
      }
    }
  }

  // Any of the five blanks may stand for any other, anywhere in a text.
  lemma BlanksAreOne(s: string, t: string)
    requires |s| == |t|
    requires forall i :: 0 <= i < |s| ==> s[i] == t[i] || (s[i] in " \t\r\n\U{0B}" && t[i] in " \t\r\n\U{0B}")
    ensures ParseCmd(s) == ParseCmd(t)
  {
    hide ParseLine;
    AlikeLine(s, t);
    if ParseLine(s).Ok? {
      AlikeSkip(ParseLine(s).rest, ParseLine(t).rest);
    }
  }
}
