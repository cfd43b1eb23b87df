/** The shell's command language: what its recursive-descent parser accepts and builds, and a printer it inverts. */
module ShellGrammar {

  const MAXARGS := 10

  // O_RDONLY on descriptor 0, or O_WRONLY|O_CREATE on descriptor 1.  The parser makes the same node for ">" and ">>".
  datatype Mode = In | Out

  // W is what a word is: its text, or where it lies in the input buffer.
  datatype Cmd<W> =
    | Exec(argv: seq<W>)
    | Redir(cmd: Cmd<W>, file: W, mode: Mode)
    | Pipe(left: Cmd<W>, right: Cmd<W>)
    | List(left: Cmd<W>, right: Cmd<W>)
    | Back(cmd: Cmd<W>)

  // ---- words and symbols ----

  predicate Space(c: char) {
    c == ' ' || c == '\t' || c == '\r' || c == '\n' || c == '\U{0B}'
  }

  predicate Symbol(c: char) {
    c == '<' || c == '|' || c == '>' || c == '&' || c == ';' || c == '(' || c == ')'
  }

  predicate WordChar(c: char) {
    !Space(c) && !Symbol(c)
  }

  function Skip(s: string): (r: string)
    ensures |r| <= |s| && (r != [] ==> !Space(r[0]))
  {
    if s != [] && Space(s[0]) then Skip(s[1..]) else s
  }

  // The longest word at the front.
  function WordLength(s: string): (n: nat)
    ensures n <= |s| && (forall i :: 0 <= i < n ==> WordChar(s[i])) && (n < |s| ==> !WordChar(s[n]))
  {
    if s != [] && WordChar(s[0]) then 1 + WordLength(s[1..]) else 0
  }

  datatype Token = End | Sym(c: char) | Word(w: string)

  // gettoken: the token, and the input from the token after it on; '+' stands for ">>".
  function Scan(s: string): (r: (Token, string))
    ensures |r.1| <= |Skip(s)| && (r.0 != End ==> |r.1| < |Skip(s)|)
    ensures r.0.Word? ==> r.0.w != [] && forall i :: 0 <= i < |r.0.w| ==> WordChar(r.0.w[i])
  {
    var t := Skip(s);
    if t == [] then (End, [])
    else if t[0] == '>' && 1 < |t| && t[1] == '>' then (Sym('+'), Skip(t[2..]))
    else if Symbol(t[0]) then (Sym(t[0]), Skip(t[1..]))
    else var n := WordLength(t); (Word(t[..n]), Skip(t[n..]))
  }

  // What peek looks at: the first character after the white space, or NUL at the end.
  function Front(s: string): char {
    var t := Skip(s);
    if t == [] then '\0' else t[0]
  }

  predicate IsRedir(c: char) {
    c == '<' || c == '>'
  }

  predicate EndsArgs(c: char) {
    c == '|' || c == ')' || c == '&' || c == ';'
  }

  // ---- the parser ----

  // Panic: the shell prints a message and exits.
  datatype Parsed = Panic | Ok(cmd: Cmd<string>, rest: string)
  datatype Redirection = Redirection(file: string, mode: Mode)
  datatype ParsedRedirs = NoFile | Redirs(rs: seq<Redirection>, rest: string)

  function ParseRedirs(s: string): (r: ParsedRedirs)
    ensures r.Redirs? ==> |r.rest| <= |Skip(s)|
    decreases |s|
  {
    if !IsRedir(Front(s)) then Redirs([], Skip(s))
    else
      var (tok, s1) := Scan(s);
      var (file, s2) := Scan(s1);
      if !file.Word? then NoFile
      else
        match ParseRedirs(s2)
        case NoFile => NoFile
        case Redirs(rs, rest) => Redirs([Redirection(file.w, if tok == Sym('<') then In else Out)] + rs, rest)
  }

  // The first redirection ends up innermost.
  function Wrap(cmd: Cmd<string>, rs: seq<Redirection>): Cmd<string>
    decreases |rs|
  {
    if rs == [] then cmd else Wrap(Redir(cmd, rs[0].file, rs[0].mode), rs[1..])
  }

  function ParseArgs(argv: seq<string>, rs: seq<Redirection>, s: string): (r: Parsed)
    ensures r.Ok? ==> |r.rest| <= |s|
    decreases |s|
  {
    if EndsArgs(Front(s)) then Ok(Wrap(Exec(argv), rs), Skip(s))
    else
      match Scan(s)
      case (End, _) => Ok(Wrap(Exec(argv), rs), [])
      case (Sym(_), _) => Panic
      case (Word(w), s1) =>
        if |argv| + 1 >= MAXARGS then Panic
        else
          match ParseRedirs(s1)
          case NoFile => Panic
          case Redirs(more, s2) => ParseArgs(argv + [w], rs + more, s2)
  }

  function ParseExec(s: string): (r: Parsed)
    ensures r.Ok? ==> |r.rest| <= |s|
    decreases |s|, 1
  {
    if Front(s) == '(' then ParseBlock(s)
    else
      match ParseRedirs(s)
      case NoFile => Panic
      case Redirs(rs, s1) => ParseArgs([], rs, s1)
  }

  function ParseBlock(s: string): (r: Parsed)
    requires Front(s) == '('
    ensures r.Ok? ==> |r.rest| <= |s|
    decreases |s|, 0
  {
    match ParseLine(Scan(s).1)
    case Panic => Panic
    case Ok(cmd, s1) =>
      if Front(s1) != ')' then Panic
      else
        match ParseRedirs(Scan(s1).1)
        case NoFile => Panic
        case Redirs(rs, s2) => Ok(Wrap(cmd, rs), s2)
  }

  function ParsePipe(s: string): (r: Parsed)
    ensures r.Ok? ==> |r.rest| <= |s|
    decreases |s|, 2
  {
    match ParseExec(s)
    case Panic => Panic
    case Ok(cmd, s1) =>
      if Front(s1) != '|' then Ok(cmd, Skip(s1))
      else
        match ParsePipe(Scan(s1).1)
        case Panic => Panic
        case Ok(right, s2) => Ok(Pipe(cmd, right), s2)
  }

  function Backs(cmd: Cmd<string>, s: string): (r: (Cmd<string>, string))
    ensures |r.1| <= |s|
    decreases |s|
  {
    if Front(s) == '&' then Backs(Back(cmd), Scan(s).1) else (cmd, Skip(s))
  }

  function ParseLine(s: string): (r: Parsed)
    ensures r.Ok? ==> |r.rest| <= |s|
    decreases |s|, 3
  {
    match ParsePipe(s)
    case Panic => Panic
    case Ok(first, s1) =>
      var (cmd, s2) := Backs(first, s1);
      if Front(s2) != ';' then Ok(cmd, Skip(s2))
      else
        match ParseLine(Scan(s2).1)
        case Panic => Panic
        case Ok(right, s3) => Ok(List(cmd, right), s3)
  }

  // parsecmd, before it NUL-terminates the words: nothing may be left over.
  datatype Command = Syntax | Command(cmd: Cmd<string>)

  function ParseCmd(s: string): Command {
    match ParseLine(s)
    case Panic => Syntax
    case Ok(cmd, rest) => if Skip(rest) == [] then Command(cmd) else Syntax
  }

  // ---- the printer ----

  // How tightly the text must hold together: a line may be any command; to the left of ";" or "&" it may not be a list;
  // to the right of "|" a pipeline; to the left of "|" or before a redirection a single command.
  type Level = n: int | 0 <= n < 4

  function PrintWords(argv: seq<string>): string {
    if argv == [] then "" else argv[0] + " " + PrintWords(argv[1..])
  }

  function PrintRedir(file: string, mode: Mode): string {
    (if mode == In then "<" else ">") + file + " "
  }

  function Print(level: Level, c: Cmd<string>): string
    decreases c, level
  {
    match c
    case Exec(argv) => PrintWords(argv)
    case Redir(x, file, mode) => Print(3, x) + PrintRedir(file, mode)
    case Pipe(l, r) => if level <= 2 then Print(3, l) + "|" + Print(2, r) else "(" + Print(0, c) + ")"
    case Back(x) => if level <= 1 then Print(1, x) + "&" else "(" + Print(0, c) + ")"
    case List(l, r) => if level == 0 then Print(1, l) + ";" + Print(0, r) else "(" + Print(0, c) + ")"
  }

  predicate IsWord(w: string) {
    w != [] && forall i :: 0 <= i < |w| ==> WordChar(w[i])
  }

  // The trees that the parser can build.
  predicate Sound(c: Cmd<string>) {
    match c
    case Exec(argv) => |argv| < MAXARGS && forall i :: 0 <= i < |argv| ==> IsWord(argv[i])
    case Redir(x, file, mode) => Sound(x) && IsWord(file)
    case Pipe(l, r) => Sound(l) && Sound(r)
    case List(l, r) => Sound(l) && Sound(r)
    case Back(x) => Sound(x)
  }
}
