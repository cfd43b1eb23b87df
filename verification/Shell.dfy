/** The shell's parser as it runs: a cursor moving over the input buffer, and NUL bytes written behind the words. */
module Shell {
  import opened Basics
  import opened ShellGrammar
  import opened ShellRoundTrip

  // A word in the buffer: from q up to, not including, eq.
  datatype Span = Span(q: nat, eq: nat)

  // Exactly a word: only word characters inside, and none at its end.
  predicate IsSpan(s: string, x: Span) {
    x.q < x.eq <= |s| && (forall i :: x.q <= i < x.eq ==> WordChar(s[i])) && (x.eq < |s| ==> !WordChar(s[x.eq]))
  }

  predicate AreSpans(s: string, argv: seq<Span>) {
    forall i :: 0 <= i < |argv| ==> IsSpan(s, argv[i])
  }

  predicate Spans(s: string, c: Cmd<Span>) {
    match c
    case Exec(argv) => AreSpans(s, argv)
    case Redir(x, file, mode) => Spans(s, x) && IsSpan(s, file)
    case Pipe(l, r) => Spans(s, l) && Spans(s, r)
    case List(l, r) => Spans(s, l) && Spans(s, r)
    case Back(x) => Spans(s, x)
  }

  function TextOf(s: string, x: Span): string
    requires x.q <= x.eq <= |s|
  {
    s[x.q..x.eq]
  }

  function Texts(s: string, argv: seq<Span>): (r: seq<string>)
    requires AreSpans(s, argv)
    ensures |r| == |argv|
  {
    if argv == [] then [] else [TextOf(s, argv[0])] + Texts(s, argv[1..])
  }

  // The command with the words themselves in place of the pointers.
  function Text(s: string, c: Cmd<Span>): Cmd<string>
    requires Spans(s, c)
  {
    match c
    case Exec(argv) => Exec(Texts(s, argv))
    case Redir(x, file, mode) => Redir(Text(s, x), TextOf(s, file), mode)
    case Pipe(l, r) => Pipe(Text(s, l), Text(s, r))
    case List(l, r) => List(Text(s, l), Text(s, r))
    case Back(x) => Back(Text(s, x))
  }

  // ---- one step of each loop of the parser ----

  // A command and the redirections that follow it.
  function WithRedirs(c: Cmd<string>, s: string): Parsed {
    match ShellGrammar.ParseRedirs(s)
    case NoFile => Panic
    case Redirs(rs, rest) => Ok(Wrap(c, rs), rest)
  }

  lemma RedirsStop(c: Cmd<string>, s: string)
    requires !IsRedir(Front(s))
    ensures WithRedirs(c, s) == Ok(c, Skip(s))
  {
  }

  lemma RedirsStep(c: Cmd<string>, s: string)
    requires IsRedir(Front(s))
    ensures WithRedirs(c, s) ==
      (var (tok, s1) := Scan(Skip(s)); var (file, s2) := Scan(s1);
       if file.Word? then WithRedirs(Redir(c, file.w, if tok == Sym('<') then In else Out), s2) else Panic)
  {
    assert Skip(Skip(s)) == Skip(s);
    var (file, s2) := Scan(Scan(Skip(s)).1);
    var p := ShellGrammar.ParseRedirs(s);
    assert p.Redirs? ==> p.rs[1..] == ShellGrammar.ParseRedirs(s2).rs;
  }

  lemma {:induction false} WrapAppend(c: Cmd<string>, rs: seq<Redirection>, more: seq<Redirection>)
    ensures Wrap(Wrap(c, rs), more) == Wrap(c, rs + more)
    decreases |rs|
  {
    if rs == [] {
      assert rs + more == more;
    } else {
      WrapAppend(Redir(c, rs[0].file, rs[0].mode), rs[1..], more);
      assert (rs + more)[1..] == rs[1..] + more;
    }
  }

  // parseexec keeps filling the argument list of the node at the bottom, whatever redirections already wrap it.
  function WithArgs<W>(c: Cmd<W>, argv: seq<W>): Cmd<W> {
    match c
    case Exec(_) => Exec(argv)
    case Redir(x, file, mode) => Redir(WithArgs(x, argv), file, mode)
    case _ => c
  }

  lemma {:induction false} WrapWithArgs(c: Cmd<string>, rs: seq<Redirection>, argv: seq<string>)
    ensures WithArgs(Wrap(c, rs), argv) == Wrap(WithArgs(c, argv), rs)
    decreases |rs|
  {
    if rs != [] {
      WrapWithArgs(Redir(c, rs[0].file, rs[0].mode), rs[1..], argv);
    }
  }

  lemma TextsAppend(s: string, argv: seq<Span>, x: Span)
    requires AreSpans(s, argv) && IsSpan(s, x)
    ensures AreSpans(s, argv + [x]) && Texts(s, argv + [x]) == Texts(s, argv) + [TextOf(s, x)]
  {
    if argv != [] {
      TextsAppend(s, argv[1..], x);
      assert (argv + [x])[1..] == argv[1..] + [x];
    }
  }

  lemma TextWithArgs(s: string, c: Cmd<Span>, argv: seq<Span>)
    requires Spans(s, c) && AreSpans(s, argv)
    ensures Spans(s, WithArgs(c, argv)) && Text(s, WithArgs(c, argv)) == WithArgs(Text(s, c), Texts(s, argv))
  {
  }

  lemma ExecSkip(s: string)
    ensures ShellGrammar.ParseExec(Skip(s)) == ShellGrammar.ParseExec(s)
    ensures Front(s) == '(' ==> ShellGrammar.ParseExec(s) == ShellGrammar.ParseBlock(Skip(s))
  {
    assert Skip(Skip(s)) == Skip(s);
  }

  // parseexec from after a word, or from its start, on.
  function ArgsAfter(argv: seq<string>, rs: seq<Redirection>, s: string): Parsed {
    match ShellGrammar.ParseRedirs(s)
    case NoFile => Panic
    case Redirs(more, rest) => ParseArgs(argv, rs + more, rest)
  }

  lemma ExecStart(s: string)
    requires Front(s) != '('
    ensures ShellGrammar.ParseExec(s) == ArgsAfter([], [], s)
  {
    assert forall rs: seq<Redirection> :: [] + rs == rs;
  }

  lemma ArgsStep(argv: seq<string>, rs: seq<Redirection>, s: string, w: string)
    requires !EndsArgs(Front(s)) && Scan(Skip(s)).0 == Word(w)
    ensures ParseArgs(argv, rs, s) ==
      if |argv| + 1 >= MAXARGS then Panic else ArgsAfter(argv + [w], rs, Scan(Skip(s)).1)
  {
    assert Skip(Skip(s)) == Skip(s);
  }

  lemma ArgsStop(argv: seq<string>, rs: seq<Redirection>, s: string)
    requires EndsArgs(Front(s)) || !Scan(Skip(s)).0.Word?
    ensures EndsArgs(Front(s)) ==> ParseArgs(argv, rs, s) == Ok(Wrap(Exec(argv), rs), Skip(s))
    ensures !EndsArgs(Front(s)) ==>
      ParseArgs(argv, rs, s) == if Scan(Skip(s)).0 == End then Ok(Wrap(Exec(argv), rs), []) else Panic
  {
    assert Skip(Skip(s)) == Skip(s);
  }

  lemma BacksSkip(c: Cmd<string>, s: string)
    ensures Backs(c, Skip(s)) == Backs(c, s) && Front(Skip(s)) == Front(s)
  {
    assert Skip(Skip(s)) == Skip(s);
  }

  lemma TextOfPair(s: string, l: Cmd<Span>, r: Cmd<Span>)
    requires Spans(s, l) && Spans(s, r)
    ensures Spans(s, List(l, r)) && Text(s, List(l, r)) == List(Text(s, l), Text(s, r))
    ensures Spans(s, Pipe(l, r)) && Text(s, Pipe(l, r)) == Pipe(Text(s, l), Text(s, r))
  {
  }

  lemma TextOfBack(s: string, c: Cmd<Span>)
    requires Spans(s, c)
    ensures Spans(s, Back(c)) && Text(s, Back(c)) == Back(Text(s, c))
  {
  }

  // One level of each routine, on the text as Peek leaves it.
  lemma LineIs(s: string, first: Cmd<string>, s1: string, cmd: Cmd<string>, s2: string)
    requires ParsePipe(s) == Ok(first, s1) && Backs(first, s1) == (cmd, s2)
    ensures Front(s2) != ';' ==> ParseLine(s) == Ok(cmd, Skip(s2))
    ensures Front(s2) == ';' ==> ParseLine(s) == Listed(cmd, ParseLine(Scan(Skip(s2)).1))
  {
    SkipTwice(s2);
  }

  function Listed(left: Cmd<string>, p: Parsed): Parsed {
    match p
    case Panic => Panic
    case Ok(right, rest) => Ok(List(left, right), rest)
  }

  lemma LinePanics(s: string)
    requires ParsePipe(s).Panic?
    ensures ParseLine(s).Panic?
  {
  }

  lemma PipeIs(s: string, cmd: Cmd<string>, s1: string)
    requires ParseExec(s) == Ok(cmd, s1)
    ensures Front(s1) != '|' ==> ParsePipe(s) == Ok(cmd, Skip(s1))
    ensures Front(s1) == '|' ==> ParsePipe(s) == Piped(cmd, ParsePipe(Scan(Skip(s1)).1))
  {
    SkipTwice(s1);
  }

  function Piped(left: Cmd<string>, p: Parsed): Parsed {
    match p
    case Panic => Panic
    case Ok(right, rest) => Ok(Pipe(left, right), rest)
  }

  lemma PipePanics(s: string)
    requires ParseExec(s).Panic?
    ensures ParsePipe(s).Panic?
  {
  }

  lemma BacksIs(cmd: Cmd<string>, s: string)
    ensures Backs(cmd, s) == if Front(s) == '&' then Backs(Back(cmd), Scan(s).1) else (cmd, Skip(s))
  {
  }

  lemma CmdIs(s: string, c: Cmd<string>, rest: string)
    requires ParseLine(s) == Ok(c, rest)
    ensures ShellGrammar.ParseCmd(s) == if Skip(rest) == [] then Command(c) else Syntax
  {
  }

  lemma CmdPanics(s: string)
    requires ParseLine(s).Panic?
    ensures ShellGrammar.ParseCmd(s) == Syntax
  {
  }

  lemma SkipTwice(s: string)
    ensures Scan(Skip(s)) == Scan(s) && Skip(Skip(s)) == Skip(s) && Front(Skip(s)) == Front(s)
  {
    assert Skip(Skip(s)) == Skip(s);
  }

  lemma ScanEnd(s: string)
    ensures Scan(Skip(s)).0 == End ==> Scan(Skip(s)).1 == []
  {
  }

  class Parser {
    const buf: array<char>
    const n: nat       // es is buf + n, where the terminating NUL is
    var ps: nat

    ghost predicate Valid()
      reads this, buf
    {
      ps <= n < buf.Length && buf[n] == '\0' && forall i :: 0 <= i < n ==> buf[i] != '\0'
    }

    ghost function Input(): string
      reads buf
      requires n < buf.Length
    {
      buf[..n]
    }

    ghost function Rest(): string
      reads this, buf
      requires ps <= n < buf.Length
    {
      buf[ps..n]
    }

    constructor (buf: array<char>, n: nat)
      requires n < buf.Length && buf[n] == '\0' && forall i :: 0 <= i < n ==> buf[i] != '\0'
      ensures Valid() && this.buf == buf && this.n == n && ps == 0
    {
      this.buf, this.n, ps := buf, n, 0;
    }

    method SkipSpace()
      requires Valid()
      modifies this`ps
      ensures Valid() && Rest() == Skip(old(Rest())) && old(ps) <= ps
    {
      while ps < n && Space(buf[ps])
        invariant Valid() && old(ps) <= ps && Skip(Rest()) == Skip(old(Rest()))
        decreases n - ps
      {
        assert Rest()[1..] == buf[ps + 1..n];
        ps := ps + 1;
      }
    }

    method Peek(toks: set<char>) returns (r: bool)
      requires Valid()
      modifies this`ps
      ensures Valid() && Rest() == Skip(old(Rest())) && old(ps) <= ps
      ensures r <==> Front(old(Rest())) != '\0' && Front(old(Rest())) in toks
    {
      SkipSpace();
      r := buf[ps] != '\0' && buf[ps] in toks;
    }

    // '\0' at the end, 'a' for a word, '+' for ">>", or the symbol itself.
    function Code(tok: Token): char {
      match tok
      case End => '\0'
      case Sym(c) => c
      case Word(_) => 'a'
    }

    method SkipWord()
      requires Valid()
      modifies this`ps
      ensures Valid() && ps == old(ps) + WordLength(old(Rest()))
    {
      ghost var q, t := ps, Rest();
      while ps < n && !Space(buf[ps]) && !Symbol(buf[ps])
        invariant Valid() && q <= ps && forall i :: q <= i < ps ==> WordChar(buf[i])
        decreases n - ps
      {
        ps := ps + 1;
      }
      assert t == buf[q..ps] + Rest();
      WordLengthOf(buf[q..ps], Rest());
    }

    // The switch of gettoken, at a character that is not white space.
    method ReadToken() returns (ret: char)
      requires Valid() && Tight(Rest())
      modifies this`ps
      ensures Valid() && old(ps) <= ps && (ret != '\0' ==> old(ps) < ps)
      ensures ret == Code(Scan(old(Rest())).0) && Scan(old(Rest())).1 == Skip(Rest())
      ensures ret == 'a' ==>
        ps == old(ps) + WordLength(old(Rest()))
        && Scan(old(Rest())).0 == Word(old(Rest())[..ps - old(ps)])
    {
      ghost var t := Rest();
      ret := buf[ps];
      assert t != [] ==> t[0] == ret;
      if ret == '\0' {
        assert t == [];
      } else if ret == '|' || ret == '(' || ret == ')' || ret == ';' || ret == '&' || ret == '<' {
        ps := ps + 1;
        assert t[1..] == Rest();
      } else if ret == '>' {
        ps := ps + 1;
        assert t[1..] == Rest();
        if buf[ps] == '>' {
          ret := '+';
          ps := ps + 1;
          assert t[2..] == Rest();
        }
      } else {
        ret := 'a';
        SkipWord();
        assert t[WordLength(t)..] == Rest();
      }
    }

    method GetToken() returns (ret: char, x: Span)
      requires Valid()
      modifies this`ps
      ensures Valid() && old(ps) <= ps && (ret != '\0' || Front(old(Rest())) != '\0' ==> old(ps) < ps)
      ensures Scan(old(Rest())).1 == Rest() && ret == Code(Scan(old(Rest())).0)
      ensures ret == 'a' ==>
        Scan(old(Rest())).0.Word? && IsSpan(Input(), x)
        && TextOf(Input(), x) == Scan(old(Rest())).0.w
    {
      SkipSpace();
      var q := ps;
      ghost var t := Rest();
      assert Skip(t) == t && Scan(t) == Scan(old(Rest()));
      ret := ReadToken();
      x := Span(q, ps);
      if ret == 'a' {
        SpanOf(q, ps);
      }
      SkipSpace();
    }

    lemma SpanOf(q: nat, eq: nat)
      requires Valid() && q < n && eq == q + WordLength(buf[q..n]) && WordLength(buf[q..n]) > 0
      ensures IsSpan(Input(), Span(q, eq)) && TextOf(Input(), Span(q, eq)) == buf[q..n][..eq - q]
    {
      var t := buf[q..n];
      forall i | q <= i < eq ensures WordChar(Input()[i]) {
        assert WordChar(t[i - q]);
      }
      assert eq < n ==> t[eq - q] == Input()[eq];
    }

    // What the shell has built so far is what the grammar says, and the cursor is where the rest begins.
    ghost predicate Agrees(r: Option<Cmd<Span>>, p: Parsed)
      reads this, buf
    {
      && Valid()
      && match p
         case Panic => r == None
         case Ok(c, rest) => r.Some? && Spans(Input(), r.value) && Text(Input(), r.value) == c && Rest() == rest
    }

    method ParseRedirs(cmd: Cmd<Span>) returns (r: Option<Cmd<Span>>)
      requires Valid() && Spans(Input(), cmd)
      modifies this`ps
      ensures Valid() && old(ps) <= ps
      ensures Agrees(r, WithRedirs(Text(Input(), cmd), old(Rest())))
    {
      hide WithRedirs, Scan;
      var c := cmd;
      while true
        invariant Valid() && old(ps) <= ps && Spans(Input(), c)
        invariant WithRedirs(Text(Input(), c), Rest()) == WithRedirs(Text(Input(), cmd), old(Rest()))
        decreases n - ps
      {
        ghost var s := Rest();
        var more := Peek({'<', '>'});
        if !more {
          RedirsStop(Text(Input(), c), s);
          return Some(c);
        }
        RedirsStep(Text(Input(), c), s);
        var tok, x := GetToken();
        var ret, file := GetToken();
        if ret != 'a' {
          return None;
        }
        c := Redir(c, file, if tok == '<' then In else Out);
      }
    }

    // The node being built, with argv so far and rs around it; then one more argument.
    lemma MoreArgs(ret: Cmd<Span>, argv: seq<Span>, rs: seq<Redirection>, x: Span)
      requires n < buf.Length && Spans(Input(), ret) && AreSpans(Input(), argv) && IsSpan(Input(), x)
      requires Text(Input(), ret) == Wrap(Exec(Texts(Input(), argv)), rs)
      ensures AreSpans(Input(), argv + [x]) && Texts(Input(), argv + [x]) == Texts(Input(), argv) + [TextOf(Input(), x)]
      ensures Spans(Input(), WithArgs(ret, argv + [x]))
      ensures Text(Input(), WithArgs(ret, argv + [x])) == Wrap(Exec(Texts(Input(), argv + [x])), rs)
    {
      TextsAppend(Input(), argv, x);
      TextWithArgs(Input(), ret, argv + [x]);
      WrapWithArgs(Exec(Texts(Input(), argv)), rs, Texts(Input(), argv + [x]));
    }

    // The test of parseexec's loop and its gettoken: '\0' when the command ends here, 'a' when there is a word.
    method NextWord(ghost argv: seq<string>, ghost rs: seq<Redirection>) returns (tok: char, x: Span)
      requires Valid()
      modifies this`ps
      ensures Valid() && old(ps) <= ps && (tok == 'a' ==> old(ps) < ps)
      ensures tok == '\0' ==> ParseArgs(argv, rs, old(Rest())) == Ok(Wrap(Exec(argv), rs), Rest())
      ensures tok == 'a' ==> IsSpan(Input(), x)
      ensures tok == 'a' ==>
        ParseArgs(argv, rs, old(Rest())) ==
        (if |argv| + 1 >= MAXARGS then Panic else ArgsAfter(argv + [TextOf(Input(), x)], rs, Rest()))
      ensures tok != '\0' && tok != 'a' ==> ParseArgs(argv, rs, old(Rest())) == Panic
    {
      ghost var s := Rest();
      hide ParseArgs, ArgsAfter, Scan, Wrap, Front, Skip;
      var done := Peek({'|', ')', '&', ';'});
      if done {
        ArgsStop(argv, rs, s);
        return '\0', Span(0, 0);
      }
      tok, x := GetToken();
      if tok == 'a' {
        ArgsStep(argv, rs, s, TextOf(Input(), x));
      } else {
        ArgsStop(argv, rs, s);
        ScanEnd(s);
      }
    }

    method ParseExec() returns (r: Option<Cmd<Span>>)
      requires Valid()
      modifies this`ps
      ensures Valid() && old(ps) <= ps && Agrees(r, ShellGrammar.ParseExec(old(Rest())))
      decreases n - ps, 1
    {
      ghost var s0 := Rest();
      ExecSkip(s0);
      var open := Peek({'('});
      if open {
        r := ParseBlock();
        return;
      }
      ghost var s := Rest();
      ExecStart(s);
      r := ParseRedirs(Exec([]));
      if r != None {
        assert [] + ShellGrammar.ParseRedirs(s).rs == ShellGrammar.ParseRedirs(s).rs;
        r := ParseWords(r.value, ShellGrammar.ParseRedirs(s).rs);
      }
    }

    // parseexec's loop.
    method ParseWords(first: Cmd<Span>, ghost redirs: seq<Redirection>) returns (r: Option<Cmd<Span>>)
      requires Valid() && Spans(Input(), first) && Text(Input(), first) == Wrap(Exec([]), redirs)
      modifies this`ps
      ensures Valid() && old(ps) <= ps && Agrees(r, ParseArgs([], redirs, old(Rest())))
    {
      var ret, argv: seq<Span> := first, [];
      ghost var rs := redirs;
      assert AreSpans(Input(), argv) && Texts(Input(), argv) == [];
      hide ParseArgs, ArgsAfter, Scan, Skip, Wrap, Front, Spans, Text, Texts, AreSpans, IsSpan;
      while true
        invariant Valid() && old(ps) <= ps && AreSpans(Input(), argv) && Spans(Input(), ret)
        invariant Text(Input(), ret) == Wrap(Exec(Texts(Input(), argv)), rs)
        invariant ParseArgs([], redirs, old(Rest())) == ParseArgs(Texts(Input(), argv), rs, Rest())
        decreases n - ps
      {
        var tok, x := NextWord(Texts(Input(), argv), rs);
        if tok != 'a' {
          return if tok == '\0' then Some(ret) else None;
        }
        r, rs := AddArg(ret, argv, x, rs);
        if r == None {
          return;
        }
        argv, ret := argv + [x], r.value;
      }
    }

    // The rest of a turn of parseexec's loop, once it has a word.
    method AddArg(ret: Cmd<Span>, argv: seq<Span>, x: Span, ghost rs: seq<Redirection>)
      returns (r: Option<Cmd<Span>>, ghost rs': seq<Redirection>)
      requires Valid() && Spans(Input(), ret) && AreSpans(Input(), argv) && IsSpan(Input(), x)
      requires Text(Input(), ret) == Wrap(Exec(Texts(Input(), argv)), rs)
      modifies this`ps
      ensures Valid() && old(ps) <= ps && AreSpans(Input(), argv + [x])
      ensures var args := Texts(Input(), argv) + [TextOf(Input(), x)];
        if r == None then |argv| + 1 >= MAXARGS || ArgsAfter(args, rs, old(Rest())) == Panic
        else
          && |argv| + 1 < MAXARGS && Texts(Input(), argv + [x]) == args
          && Spans(Input(), r.value) && Text(Input(), r.value) == Wrap(Exec(args), rs')
          && ArgsAfter(args, rs, old(Rest())) == ParseArgs(args, rs', Rest())
    {
      hide ParseArgs, Scan, Wrap;
      MoreArgs(ret, argv, rs, x);
      var argv' := argv + [x];
      var ret' := WithArgs(ret, argv');
      rs' := rs;
      if |argv'| >= MAXARGS {
        return None, rs;
      }
      ghost var s := Rest();
      r := ParseRedirs(ret');
      if r != None {
        rs' := rs + ShellGrammar.ParseRedirs(s).rs;
        WrapAppend(Exec(Texts(Input(), argv')), rs, ShellGrammar.ParseRedirs(s).rs);
      }
    }

    method ParseBlock() returns (r: Option<Cmd<Span>>)
      requires Valid() && Front(Rest()) == '('
      modifies this`ps
      ensures Valid() && old(ps) <= ps && Agrees(r, ShellGrammar.ParseBlock(old(Rest())))
      decreases n - ps, 0
    {
      var tok, x := GetToken();
      r := ParseLine();
      if r == None {
        return;
      }
      var cmd := r.value;
      var close := Peek({')'});
      if !close {
        return None;
      }
      tok, x := GetToken();
      r := ParseRedirs(cmd);
    }

    method ParsePipe() returns (r: Option<Cmd<Span>>)
      requires Valid()
      modifies this`ps
      ensures Valid() && old(ps) <= ps && Agrees(r, ShellGrammar.ParsePipe(old(Rest())))
      decreases n - ps, 2
    {
      hide Scan, Skip, Text, Spans, ShellGrammar.ParseExec, ShellGrammar.ParsePipe;
      ghost var s := Rest();
      r := ParseExec();
      if r == None {
        PipePanics(s);
        return;
      }
      var left := r.value;
      PipeIs(s, Text(Input(), left), Rest());
      var bar := Peek({'|'});
      if bar {
        var tok, x := GetToken();
        r := ParsePipe();
        if r == None {
          return;
        }
        TextOfPair(Input(), left, r.value);
        r := Some(Pipe(left, r.value));
      }
    }

    // parseline's loop.
    method ParseBacks(first: Cmd<Span>) returns (cmd: Cmd<Span>)
      requires Valid() && Spans(Input(), first)
      modifies this`ps
      ensures Valid() && old(ps) <= ps && Spans(Input(), cmd)
      ensures Backs(Text(Input(), first), old(Rest())) == (Text(Input(), cmd), Rest())
    {
      hide Scan, Backs, Skip, Text, Spans;
      ghost var s := Rest();
      cmd := first;
      var amp := Peek({'&'});
      BacksSkip(Text(Input(), cmd), s);
      SkipTwice(s);
      while amp
        invariant Valid() && old(ps) <= ps && Spans(Input(), cmd) && Skip(Rest()) == Rest()
        invariant Backs(Text(Input(), cmd), Rest()) == Backs(Text(Input(), first), old(Rest()))
        invariant amp == (Front(Rest()) == '&')
        decreases n - ps
      {
        BacksIs(Text(Input(), cmd), Rest());
        var tok, x := GetToken();
        TextOfBack(Input(), cmd);
        cmd := Back(cmd);
        s := Rest();
        amp := Peek({'&'});
        BacksSkip(Text(Input(), cmd), s);
        SkipTwice(s);
      }
      BacksIs(Text(Input(), cmd), Rest());
    }

    method ParseLine() returns (r: Option<Cmd<Span>>)
      requires Valid()
      modifies this`ps
      ensures Valid() && old(ps) <= ps && Agrees(r, ShellGrammar.ParseLine(old(Rest())))
      decreases n - ps, 3
    {
      hide Scan, Skip, Backs, Text, Spans, ShellGrammar.ParsePipe, ShellGrammar.ParseLine;
      ghost var s := Rest();
      r := ParsePipe();
      if r == None {
        LinePanics(s);
        return;
      }
      ghost var first, s1 := Text(Input(), r.value), Rest();
      var cmd := r.value;
      cmd := ParseBacks(cmd);
      LineIs(s, first, s1, Text(Input(), cmd), Rest());
      var semi := Peek({';'});
      if semi {
        var tok, x := GetToken();
        r := ParseLine();
        if r == None {
          return;
        }
        TextOfPair(Input(), cmd, r.value);
        r := Some(List(cmd, r.value));
        return;
      }
      r := Some(cmd);
    }
  }

  // ---- NUL-termination ----

  // Where nulterminate writes.
  function Ends(c: Cmd<Span>): set<nat> {
    match c
    case Exec(argv) => set i | 0 <= i < |argv| :: argv[i].eq
    case Redir(x, file, mode) => Ends(x) + {file.eq}
    case Pipe(l, r) => Ends(l) + Ends(r)
    case List(l, r) => Ends(l) + Ends(r)
    case Back(x) => Ends(x)
  }

  method NulTerminate(c: Cmd<Span>, buf: array<char>)
    requires forall e :: e in Ends(c) ==> e < buf.Length
    modifies buf
    ensures forall k :: 0 <= k < buf.Length ==> buf[k] == if k in Ends(c) then '\0' else old(buf[k])
  {
    match c {
      case Exec(argv) =>
        var i := 0;
        while i < |argv|
          invariant 0 <= i <= |argv|
          invariant forall k :: 0 <= k < buf.Length ==>
            buf[k] == if (exists j :: 0 <= j < i && argv[j].eq == k) then '\0' else old(buf[k])
        {
          assert argv[i].eq in Ends(c);
          buf[argv[i].eq] := '\0';
          i := i + 1;
        }
      case Redir(x, file, mode) =>
        assert Ends(x) <= Ends(c) && file.eq in Ends(c);
        NulTerminate(x, buf);
        buf[file.eq] := '\0';
      case Pipe(l, r) =>
        assert Ends(l) <= Ends(c) && Ends(r) <= Ends(c);
        NulTerminate(l, buf);
        NulTerminate(r, buf);
      case List(l, r) =>
        assert Ends(l) <= Ends(c) && Ends(r) <= Ends(c);
        NulTerminate(l, buf);
        NulTerminate(r, buf);
      case Back(x) =>
        assert Ends(x) <= Ends(c);
        NulTerminate(x, buf);
    }
  }

  // The C string at p.
  function CString(s: seq<char>, p: nat): string
    decreases |s| - p
  {
    if p < |s| && s[p] != '\0' then [s[p]] + CString(s, p + 1) else []
  }

  // The command as exec and open will see it: each pointer read as a C string.
  function ReadBack(s: seq<char>, c: Cmd<Span>): Cmd<string> {
    match c
    case Exec(argv) => Exec(seq(|argv|, i requires 0 <= i < |argv| => CString(s, argv[i].q)))
    case Redir(x, file, mode) => Redir(ReadBack(s, x), CString(s, file.q), mode)
    case Pipe(l, r) => Pipe(ReadBack(s, l), ReadBack(s, r))
    case List(l, r) => List(ReadBack(s, l), ReadBack(s, r))
    case Back(x) => Back(ReadBack(s, x))
  }

  lemma {:induction false} CStringIs(s: seq<char>, p: nat, e: nat)
    requires p <= e < |s| && s[e] == '\0' && forall i :: p <= i < e ==> s[i] != '\0'
    ensures CString(s, p) == s[p..e]
    decreases e - p
  {
    if p < e {
      CStringIs(s, p + 1, e);
      assert s[p..e] == [s[p]] + s[p + 1..e];
    }
  }

  // From s to t, NUL bytes have been written over white space, symbols and the end only, wherever ends says.
  ghost predicate Terminated(s: string, t: seq<char>, ends: set<nat>) {
    && |s| < |t| && t[|s|] == '\0'
    && (forall k :: 0 <= k < |s| ==> s[k] != '\0' && t[k] == if k in ends then '\0' else s[k])
    && (forall e :: e in ends ==> e <= |s| && (e < |s| ==> !WordChar(s[e])))
  }

  lemma NulsWritten(s: string, was: seq<char>, t: seq<char>, ends: set<nat>)
    requires |s| < |was| == |t| && was[..|s|] == s && was[|s|] == '\0' && forall k :: 0 <= k < |s| ==> s[k] != '\0'
    requires forall k :: 0 <= k < |t| ==> t[k] == if k in ends then '\0' else was[k]
    requires forall e :: e in ends ==> e <= |s| && (e < |s| ==> !WordChar(s[e]))
    ensures Terminated(s, t, ends)
  {
    forall k | 0 <= k < |s|
      ensures t[k] == if k in ends then '\0' else s[k]
    {
      assert was[..|s|][k] == was[k];
    }
  }

  lemma ReadWord(s: string, t: seq<char>, ends: set<nat>, x: Span)
    requires Terminated(s, t, ends) && IsSpan(s, x) && x.eq in ends
    ensures CString(t, x.q) == TextOf(s, x)
  {
    CStringIs(t, x.q, x.eq);
  }

  lemma {:induction false} ReadWords(s: string, t: seq<char>, ends: set<nat>, argv: seq<Span>)
    requires Terminated(s, t, ends) && AreSpans(s, argv) && forall i :: 0 <= i < |argv| ==> argv[i].eq in ends
    ensures seq(|argv|, i requires 0 <= i < |argv| => CString(t, argv[i].q)) == Texts(s, argv)
  {
    if argv != [] {
      ReadWord(s, t, ends, argv[0]);
      ReadWords(s, t, ends, argv[1..]);
      assert forall i :: 0 < i < |argv| ==> argv[1..][i - 1] == argv[i];
      var read := seq(|argv|, i requires 0 <= i < |argv| => CString(t, argv[i].q));
      var more := seq(|argv[1..]|, i requires 0 <= i < |argv[1..]| => CString(t, argv[1..][i].q));
      assert read == [read[0]] + more;
    }
  }

  lemma {:induction false} ReadsBack(s: string, t: seq<char>, ends: set<nat>, c: Cmd<Span>)
    requires Terminated(s, t, ends) && Spans(s, c) && Ends(c) <= ends
    ensures ReadBack(t, c) == Text(s, c)
  {
    match c {
      case Exec(argv) =>
        forall i | 0 <= i < |argv| ensures argv[i].eq in ends {
          assert argv[i].eq in Ends(c);
        }
        ReadWords(s, t, ends, argv);
      case Redir(x, file, mode) =>
        ReadsBack(s, t, ends, x);
        ReadWord(s, t, ends, file);
      case Pipe(l, r) =>
        ReadsBack(s, t, ends, l);
        ReadsBack(s, t, ends, r);
      case List(l, r) =>
        ReadsBack(s, t, ends, l);
        ReadsBack(s, t, ends, r);
      case Back(x) => ReadsBack(s, t, ends, x);
    }
  }

  lemma {:induction false} EndsApart(s: string, c: Cmd<Span>)
    requires Spans(s, c)
    ensures forall e :: e in Ends(c) ==> e <= |s| && (e < |s| ==> !WordChar(s[e]))
  {
    match c {
      case Exec(argv) =>
      case Redir(x, file, mode) => EndsApart(s, x);
      case Pipe(l, r) =>
        EndsApart(s, l);
        EndsApart(s, r);
      case List(l, r) =>
        EndsApart(s, l);
        EndsApart(s, r);
      case Back(x) => EndsApart(s, x);
    }
  }

  // parsecmd on the C string of n characters in buf; None is the shell's "syntax" panic.  The words that exec and open
  // will read through the pointers, in the buffer as it is left, are the words of the command that was typed.
  method ParseCmd(buf: array<char>, n: nat) returns (r: Option<Cmd<Span>>)
    requires n < buf.Length && buf[n] == '\0' && forall i :: 0 <= i < n ==> buf[i] != '\0'
    modifies buf
    ensures r == None <==> ShellGrammar.ParseCmd(old(buf[..n])) == Syntax
    ensures r == None ==> buf[..] == old(buf[..])
    ensures r.Some? ==> ShellGrammar.ParseCmd(old(buf[..n])) == Command(ReadBack(buf[..], r.value))
  {
    hide ShellGrammar.ParseLine, ShellGrammar.ParseCmd, Skip, ReadBack, Spans, Text;
    var parser := new Parser(buf, n);
    ghost var s := buf[..n];
    assert parser.Rest() == s;
    r := parser.ParseLine();
    if r == None {
      CmdPanics(s);
      return;
    }
    CmdIs(s, Text(s, r.value), parser.Rest());
    var none := parser.Peek({});
    if parser.ps != n {
      return None;
    }
    Terminate(r.value, buf, s);
  }

  // nulterminate on the whole command: its words are then C strings.
  method Terminate(c: Cmd<Span>, buf: array<char>, ghost s: string)
    requires |s| < buf.Length && buf[..|s|] == s && buf[|s|] == '\0' && (forall k :: 0 <= k < |s| ==> s[k] != '\0')
    requires Spans(s, c)
    modifies buf
    ensures ReadBack(buf[..], c) == Text(s, c)
  {
    hide ReadBack, Ends, Spans, Text, CString, Terminated, WordChar;
    ghost var was := buf[..];
    EndsApart(s, c);
    NulTerminate(c, buf);
    NulsWritten(s, was, buf[..], Ends(c));
    ReadsBack(s, buf[..], Ends(c), c);
  }

  // A user of the parser: printing a command and parsing the text gives that command.
  method TypePrinted(c: Cmd<string>) returns (seen: Cmd<string>)
    requires Sound(c) && forall i :: 0 <= i < |Print(0, c)| ==> Print(0, c)[i] != '\0'
    ensures seen == c
  {
    var text := Print(0, c);
    var buf := new char[|text| + 1](i requires 0 <= i <= |text| => if i < |text| then text[i] else '\0');
    assert buf[..|text|] == text;
    ParsePrint(c);
    var r := ParseCmd(buf, |text|);
    seen := ReadBack(buf[..], r.value);
  }
}
