/** The shell's tokens and grammar (user/sh.c), as functions of the line and a cursor. */
module ShellGrammar {
  const NUL := '\0'
  const MAXARGS := 10

  /** A C string, up to its NUL. */
  type Line = s: string | forall i :: 0 <= i < |s| ==> s[i] != NUL

  predicate IsSpace(c: char) {
    c == ' ' || c == '\t' || c == '\r' || c == '\n' || c == '\U{0b}'
  }

  predicate IsSymbol(c: char) {
    c == '<' || c == '|' || c == '>' || c == '&' || c == ';' || c == '(' || c == ')'
  }

  predicate IsWordChar(c: char) {
    c != NUL && !IsSpace(c) && !IsSymbol(c)
  }

  /** A token's first character and the one after its last: q and eq, argv[i] and eargv[i]. */
  datatype Span = Span(q: int, eq: int)

  const O_RDONLY := 0x000
  const O_WRONLY := 0x001
  const O_CREATE := 0x200

  datatype Redirection = To(file: Span, mode: int, fd: int)

  datatype Cmd =
    | Exec(argv: seq<Span>)
    | Redir(cmd: Cmd, to: Redirection)
    | Pipe(left: Cmd, right: Cmd)
    | List(left: Cmd, right: Cmd)
    | Back(cmd: Cmd)

  datatype Kind = End | Symbol(c: char) | Append | Word

  datatype Token = Token(kind: Kind, span: Span, next: int)

  datatype Result<T> = Fail | Ok(value: T, s: int)

  function At(buf: Line, i: int): char
    requires 0 <= i <= |buf|
  {
    if i < |buf| then buf[i] else NUL
  }

  // ---- tokens ----

  function SkipSpace(buf: Line, i: int): (r: int)
    requires 0 <= i <= |buf|
    ensures i <= r <= |buf|
    decreases |buf| - i
  {
    if i < |buf| && IsSpace(buf[i]) then SkipSpace(buf, i + 1) else i
  }

  function WordEnd(buf: Line, i: int): (r: int)
    requires 0 <= i <= |buf|
    ensures i <= r <= |buf|
    decreases |buf| - i
  {
    if i < |buf| && IsWordChar(buf[i]) then WordEnd(buf, i + 1) else i
  }

  lemma {:induction false} SkipSpaceStops(buf: Line, i: int)
    requires 0 <= i <= |buf|
    ensures !IsSpace(At(buf, SkipSpace(buf, i)))
    decreases |buf| - i
  {
    if i < |buf| && IsSpace(buf[i]) {
      SkipSpaceStops(buf, i + 1);
    }
  }

  lemma {:induction false} WordEndStops(buf: Line, i: int)
    requires 0 <= i <= |buf|
    ensures !IsWordChar(At(buf, WordEnd(buf, i))) && forall k :: i <= k < WordEnd(buf, i) ==> IsWordChar(buf[k])
    decreases |buf| - i
  {
    if i < |buf| && IsWordChar(buf[i]) {
      WordEndStops(buf, i + 1);
    }
  }

  function GetToken(buf: Line, s: int): (t: Token)
    requires 0 <= s <= |buf|
    ensures s <= t.span.q <= t.span.eq <= t.next <= |buf|
    ensures t.kind != End ==> SkipSpace(buf, s) < t.next
  {
    var q := SkipSpace(buf, s);
    SkipSpaceStops(buf, s);
    var c := At(buf, q);
    if c == NUL then Token(End, Span(q, q), q)
    else if c == '>' && At(buf, q + 1) == '>' then Token(Append, Span(q, q + 2), SkipSpace(buf, q + 2))
    else if IsSymbol(c) then Token(Symbol(c), Span(q, q + 1), SkipSpace(buf, q + 1))
    else Token(Word, Span(q, WordEnd(buf, q)), SkipSpace(buf, WordEnd(buf, q)))
  }

  predicate Peek(buf: Line, s: int, toks: set<char>)
    requires 0 <= s <= |buf|
  {
    At(buf, SkipSpace(buf, s)) != NUL && At(buf, SkipSpace(buf, s)) in toks
  }

  // ---- the parsers ----

  /** parseredirs' switch over the token before the file name. */
  function Redirect(kind: Kind, file: Span): Redirection {
    match kind
    case Symbol(c) => if c == '<' then To(file, O_RDONLY, 0) else To(file, O_WRONLY + O_CREATE, 1)
    case _ => To(file, O_WRONLY + O_CREATE, 1)
  }

  /** Each redirection in turn around the command. */
  function Wrap(c: Cmd, rs: seq<Redirection>): Cmd
    decreases |rs|
  {
    if rs == [] then c else Wrap(Redir(c, rs[0]), rs[1..])
  }

  /** parseredirs' loop. */
  function Redirs(buf: Line, s: int): (r: Result<seq<Redirection>>)
    requires 0 <= s <= |buf|
    ensures r.Ok? ==> s <= r.s <= |buf|
    decreases |buf| - s
  {
    if !Peek(buf, s, {'<', '>'}) then Ok([], SkipSpace(buf, s))
    else
      var t := GetToken(buf, s);
      var f := GetToken(buf, t.next);
      if f.kind != Word then Fail
      else
        var rest := Redirs(buf, f.next);
        if rest.Fail? then Fail
        else Ok([Redirect(t.kind, f.span)] + rest.value, rest.s)
  }

  datatype Simple = Simple(argv: seq<Span>, rs: seq<Redirection>)

  /** What one turn of parseexec's loop finds: the end, an error, or an argument with the
      redirections after it. */
  datatype Turn = Stop(s: int) | Bad | Arg(w: Span, rs: seq<Redirection>, s: int)

  /** The turn at s, after argc arguments. */
  function TurnAt(buf: Line, s: int, argc: nat): (r: Turn)
    requires 0 <= s <= |buf|
    ensures r.Stop? ==> s <= r.s <= |buf|
    ensures r.Arg? ==> s < r.s <= |buf| && argc + 1 < MAXARGS
  {
    if Peek(buf, s, {'|', ')', '&', ';'}) then Stop(SkipSpace(buf, s))
    else
      var t := GetToken(buf, s);
      if t.kind == End then Stop(t.next)
      else if t.kind != Word || argc + 1 >= MAXARGS then Bad
      else
        var rs := Redirs(buf, t.next);
        if rs.Fail? then Bad else Arg(t.span, rs.value, rs.s)
  }

  /** parseexec's loop over the arguments, after argc of them. */
  function Args(buf: Line, s: int, argc: nat): (r: Result<Simple>)
    requires 0 <= s <= |buf| && argc < MAXARGS
    ensures r.Ok? ==> s <= r.s <= |buf| && argc + |r.value.argv| < MAXARGS
    decreases |buf| - s
  {
    match TurnAt(buf, s, argc)
    case Stop(e) => Ok(Simple([], []), e)
    case Bad => Fail
    case Arg(w, rs, e) => MoreArgs(Args(buf, e, argc + 1), w, rs)
  }

  /** The rest of the arguments, after w and the redirections rs. */
  function MoreArgs(rest: Result<Simple>, w: Span, rs: seq<Redirection>): Result<Simple> {
    if rest.Fail? then Fail else Ok(Simple([w] + rest.value.argv, rs + rest.value.rs), rest.s)
  }

  lemma ArgsEnd(buf: Line, s: int, argc: nat, t: Turn)
    requires 0 <= s <= |buf| && argc < MAXARGS && t == TurnAt(buf, s, argc) && !t.Arg?
    ensures Args(buf, s, argc) == if t.Stop? then Ok(Simple([], []), t.s) else Fail
  {
  }

  lemma ArgsUnfold(buf: Line, s: int, argc: nat, t: Turn, rest: Result<Simple>)
    requires 0 <= s <= |buf| && argc < MAXARGS && t == TurnAt(buf, s, argc) && t.Arg?
              && rest == Args(buf, t.s, argc + 1)
    ensures Args(buf, s, argc) == MoreArgs(rest, t.w, t.rs)
  {
  }

  /** parseline's loop over '&'. */
  function Backs(buf: Line, s: int, c: Cmd): (r: Result<Cmd>)
    requires 0 <= s <= |buf|
    ensures r.Ok? && s <= r.s <= |buf|
    decreases |buf| - s
  {
    if Peek(buf, s, {'&'}) then Backs(buf, GetToken(buf, s).next, Back(c)) else Ok(c, SkipSpace(buf, s))
  }

  function ParseLine(buf: Line, s: int): (r: Result<Cmd>)
    requires 0 <= s <= |buf|
    ensures r.Ok? ==> s <= r.s <= |buf|
    decreases |buf| - s, 3
  {
    var p := ParsePipe(buf, s);
    if p.Fail? then Fail
    else
      var b := Backs(buf, p.s, p.value);
      if !Peek(buf, b.s, {';'}) then Ok(b.value, SkipSpace(buf, b.s))
      else
        var rest := ParseLine(buf, GetToken(buf, b.s).next);
        if rest.Fail? then Fail else Ok(List(b.value, rest.value), rest.s)
  }

  function ParsePipe(buf: Line, s: int): (r: Result<Cmd>)
    requires 0 <= s <= |buf|
    ensures r.Ok? ==> s <= r.s <= |buf|
    decreases |buf| - s, 2
  {
    var e := ParseExec(buf, s);
    if e.Fail? then Fail
    else if !Peek(buf, e.s, {'|'}) then Ok(e.value, SkipSpace(buf, e.s))
    else
      var rest := ParsePipe(buf, GetToken(buf, e.s).next);
      if rest.Fail? then Fail else Ok(Pipe(e.value, rest.value), rest.s)
  }

  function ParseExec(buf: Line, s: int): (r: Result<Cmd>)
    requires 0 <= s <= |buf|
    ensures r.Ok? ==> s <= r.s <= |buf|
    decreases |buf| - s, 1
  {
    if Peek(buf, s, {'('}) then ParseBlock(buf, s)
    else
      var first := Redirs(buf, s);
      if first.Fail? then Fail
      else
        var r := Args(buf, first.s, 0);
        if r.Fail? then Fail else Ok(Wrap(Exec(r.value.argv), first.value + r.value.rs), r.s)
  }

  function ParseBlock(buf: Line, s: int): (r: Result<Cmd>)
    requires 0 <= s <= |buf|
    ensures r.Ok? ==> s <= r.s <= |buf|
    decreases |buf| - s, 0
  {
    if !Peek(buf, s, {'('}) then Fail
    else
      var c := ParseLine(buf, GetToken(buf, s).next);
      if c.Fail? || !Peek(buf, c.s, {')'}) then Fail
      else
        var rs := Redirs(buf, GetToken(buf, c.s).next);
        if rs.Fail? then Fail else Ok(Wrap(c.value, rs.value), rs.s)
  }

  function ParseCmd(buf: Line): Result<Cmd> {
    var c := ParseLine(buf, 0);
    if c.Fail? || SkipSpace(buf, c.s) != |buf| then Fail else c
  }

  // ---- every token kept is a whole word ----

  /** The span is a whole word: word characters only, and none right after. */
  ghost predicate WordSpan(buf: Line, w: Span) {
    && 0 <= w.q < w.eq <= |buf|
    && (forall k :: w.q <= k < w.eq ==> IsWordChar(buf[k]))
    && !IsWordChar(At(buf, w.eq))
  }

  ghost predicate FilesOk(buf: Line, rs: seq<Redirection>) {
    forall i :: 0 <= i < |rs| ==> WordSpan(buf, rs[i].file)
  }

  ghost predicate ArgsOk(buf: Line, argv: seq<Span>) {
    forall i :: 0 <= i < |argv| ==> WordSpan(buf, argv[i])
  }

  /** Every argument and file name of the command is a whole word of the line. */
  ghost predicate WordsOk(buf: Line, c: Cmd) {
    match c
    case Exec(argv) => |argv| < MAXARGS && ArgsOk(buf, argv)
    case Redir(d, to) => WordsOk(buf, d) && WordSpan(buf, to.file)
    case Pipe(l, r) => WordsOk(buf, l) && WordsOk(buf, r)
    case List(l, r) => WordsOk(buf, l) && WordsOk(buf, r)
    case Back(d) => WordsOk(buf, d)
  }

  lemma {:induction false} WrapWords(buf: Line, c: Cmd, rs: seq<Redirection>)
    requires WordsOk(buf, c) && FilesOk(buf, rs)
    ensures WordsOk(buf, Wrap(c, rs))
    decreases |rs|
  {
    if rs != [] {
      WrapWords(buf, Redir(c, rs[0]), rs[1..]);
    }
  }

  lemma WordToken(buf: Line, s: int)
    requires 0 <= s <= |buf| && GetToken(buf, s).kind == Word
    ensures WordSpan(buf, GetToken(buf, s).span)
  {
    SkipSpaceStops(buf, s);
    WordEndStops(buf, SkipSpace(buf, s));
  }

  lemma {:induction false} RedirsWords(buf: Line, s: int)
    requires 0 <= s <= |buf| && Redirs(buf, s).Ok?
    ensures FilesOk(buf, Redirs(buf, s).value)
    decreases |buf| - s
  {
    if Peek(buf, s, {'<', '>'}) {
      var f := GetToken(buf, GetToken(buf, s).next);
      WordToken(buf, GetToken(buf, s).next);
      RedirsWords(buf, f.next);
      assert Redirs(buf, s).value[1..] == Redirs(buf, f.next).value;
    }
  }

  ghost predicate SimpleOk(buf: Line, r: Result<Simple>) {
    r.Ok? ==> ArgsOk(buf, r.value.argv) && FilesOk(buf, r.value.rs)
  }

  lemma MoreWords(buf: Line, rest: Result<Simple>, w: Span, rs: seq<Redirection>)
    requires WordSpan(buf, w) && FilesOk(buf, rs) && SimpleOk(buf, rest)
    ensures SimpleOk(buf, MoreArgs(rest, w, rs))
  {
  }

  lemma {:induction false} ArgsWords(buf: Line, s: int, argc: nat)
    requires 0 <= s <= |buf| && argc < MAXARGS
    ensures SimpleOk(buf, Args(buf, s, argc))
    decreases |buf| - s
  {
    var t := TurnAt(buf, s, argc);
    if t.Arg? {
      ArgsWords(buf, t.s, argc + 1);
      TurnMoreWords(buf, s, argc, Args(buf, t.s, argc + 1));
      ArgsUnfold(buf, s, argc, t, Args(buf, t.s, argc + 1));
    } else {
      ArgsEnd(buf, s, argc, t);
    }
  }

  lemma TurnMoreWords(buf: Line, s: int, argc: nat, rest: Result<Simple>)
    requires 0 <= s <= |buf| && TurnAt(buf, s, argc).Arg? && SimpleOk(buf, rest)
    ensures SimpleOk(buf, MoreArgs(rest, TurnAt(buf, s, argc).w, TurnAt(buf, s, argc).rs))
  {
    TurnWords(buf, s, argc);
    MoreWords(buf, rest, TurnAt(buf, s, argc).w, TurnAt(buf, s, argc).rs);
  }

  lemma TurnWords(buf: Line, s: int, argc: nat)
    requires 0 <= s <= |buf| && TurnAt(buf, s, argc).Arg?
    ensures WordSpan(buf, TurnAt(buf, s, argc).w) && FilesOk(buf, TurnAt(buf, s, argc).rs)
  {
    WordToken(buf, s);
    RedirsWords(buf, GetToken(buf, s).next);
  }

  lemma {:induction false} BacksWords(buf: Line, s: int, c: Cmd)
    requires 0 <= s <= |buf| && WordsOk(buf, c)
    ensures WordsOk(buf, Backs(buf, s, c).value)
    decreases |buf| - s
  {
    if Peek(buf, s, {'&'}) {
      BacksWords(buf, GetToken(buf, s).next, Back(c));
    }
  }

  lemma {:induction false} LineWords(buf: Line, s: int)
    requires 0 <= s <= |buf| && ParseLine(buf, s).Ok?
    ensures WordsOk(buf, ParseLine(buf, s).value)
    decreases |buf| - s, 3
  {
    PipeWords(buf, s);
    var p := ParsePipe(buf, s);
    BacksWords(buf, p.s, p.value);
    var b := Backs(buf, p.s, p.value);
    if Peek(buf, b.s, {';'}) {
      LineWords(buf, GetToken(buf, b.s).next);
    }
  }

  lemma {:induction false} PipeWords(buf: Line, s: int)
    requires 0 <= s <= |buf| && ParsePipe(buf, s).Ok?
    ensures WordsOk(buf, ParsePipe(buf, s).value)
    decreases |buf| - s, 2
  {
    ExecWords(buf, s);
    var e := ParseExec(buf, s);
    if Peek(buf, e.s, {'|'}) {
      PipeWords(buf, GetToken(buf, e.s).next);
    }
  }

  lemma {:induction false} ExecWords(buf: Line, s: int)
    requires 0 <= s <= |buf| && ParseExec(buf, s).Ok?
    ensures WordsOk(buf, ParseExec(buf, s).value)
    decreases |buf| - s, 1
  {
    if Peek(buf, s, {'('}) {
      BlockWords(buf, s);
    } else {
      RedirsWords(buf, s);
      var first := Redirs(buf, s);
      ArgsWords(buf, first.s, 0);
      var r := Args(buf, first.s, 0);
      WrapWords(buf, Exec(r.value.argv), first.value + r.value.rs);
    }
  }

  lemma {:induction false} BlockWords(buf: Line, s: int)
    requires 0 <= s <= |buf| && ParseBlock(buf, s).Ok?
    ensures WordsOk(buf, ParseBlock(buf, s).value)
    decreases |buf| - s, 0
  {
    var c := ParseLine(buf, GetToken(buf, s).next);
    LineWords(buf, GetToken(buf, s).next);
    var next := GetToken(buf, c.s).next;
    RedirsWords(buf, next);
    WrapWords(buf, c.value, Redirs(buf, next).value);
  }

  /** Whatever the line, an argument or file name of the parsed command is a whole word of it. */
  lemma {:induction false} CmdWords(buf: Line)
    requires ParseCmd(buf).Ok?
    ensures WordsOk(buf, ParseCmd(buf).value)
  {
    LineWords(buf, 0);
  }
}
