/** Printing a command with every part in parentheses, and parsing it back. */
module ShellPrint {
  import opened ShellGrammar

  datatype Direction = In | Out

  datatype Tree =
    | Run(words: seq<string>)
    | Redirected(cmd: Tree, file: string, dir: Direction)
    | Piped(left: Tree, right: Tree)
    | Listed(left: Tree, right: Tree)
    | InBackground(cmd: Tree)

  predicate IsWord(w: string) {
    w != "" && forall i :: 0 <= i < |w| ==> IsWordChar(w[i])
  }

  predicate AllWords(words: seq<string>) {
    forall i :: 0 <= i < |words| ==> IsWord(words[i])
  }

  /** What the shell can hold: words are words, and there are at most MAXARGS - 1 arguments. */
  predicate Printable(t: Tree) {
    match t
    case Run(words) => |words| < MAXARGS && AllWords(words)
    case Redirected(c, file, _) => Printable(c) && IsWord(file)
    case Piped(l, r) => Printable(l) && Printable(r)
    case Listed(l, r) => Printable(l) && Printable(r)
    case InBackground(c) => Printable(c)
  }

  function Spaced(words: seq<string>): string {
    if words == [] then "" else if |words| == 1 then words[0] else words[0] + " " + Spaced(words[1..])
  }

  function Paren(s: string): string {
    "(" + s + ")"
  }

  function Arrow(dir: Direction): char {
    if dir == In then '<' else '>'
  }

  function Target(file: Span, dir: Direction): Redirection {
    Redirect(Symbol(Arrow(dir)), file)
  }

  function Print(t: Tree): string {
    match t
    case Run(words) => Spaced(words)
    case Redirected(c, file, dir) => Paren(Print(c)) + ([Arrow(dir)] + file)
    case Piped(l, r) => Paren(Print(l)) + "|" + Paren(Print(r))
    case Listed(l, r) => Paren(Print(l)) + ";" + Paren(Print(r))
    case InBackground(c) => Paren(Print(c)) + "&"
  }

  // ---- the tree a parsed command stands for ----

  function Read(buf: Line, w: Span): string
    requires WordSpan(buf, w)
  {
    buf[w.q..w.eq]
  }

  function ReadAll(buf: Line, ws: seq<Span>): (r: seq<string>)
    requires ArgsOk(buf, ws)
  {
    seq(|ws|, i requires 0 <= i < |ws| => Read(buf, ws[i]))
  }

  function Text(buf: Line, c: Cmd): Tree
    requires WordsOk(buf, c)
  {
    match c
    case Exec(argv) => Run(ReadAll(buf, argv))
    case Redir(d, to) => Redirected(Text(buf, d), Read(buf, to.file), if to == Target(to.file, In) then In else Out)
    case Pipe(l, r) => Piped(Text(buf, l), Text(buf, r))
    case List(l, r) => Listed(Text(buf, l), Text(buf, r))
    case Back(d) => InBackground(Text(buf, d))
  }

  // ---- positions in the line ----

  ghost predicate Has(buf: Line, s: int, x: string) {
    0 <= s && s + |x| <= |buf| && forall i {:trigger x[i]} :: 0 <= i < |x| ==> buf[s + i] == x[i]
  }

  lemma HasSplit(buf: Line, s: int, a: string, b: string)
    requires Has(buf, s, a + b)
    ensures Has(buf, s, a) && Has(buf, s + |a|, b)
  {
    var x := a + b;
    forall i | 0 <= i < |a|
      ensures buf[s + i] == a[i]
    {
      assert x[i] == a[i];
    }
    forall i | 0 <= i < |b|
      ensures buf[s + |a| + i] == b[i]
    {
      assert x[|a| + i] == b[i];
    }
  }

  /** Where a command line or a parenthesised part ends. */
  predicate Ends(buf: Line, e: int) {
    0 <= e <= |buf| && (At(buf, e) == NUL || At(buf, e) == ')')
  }

  lemma {:induction false} FirstIsNoSpace(t: Tree)
    requires Printable(t)
    ensures Print(t) != "" ==> !IsSpace(Print(t)[0])
  {
    if t.Run? && t.words != [] {
      assert IsWord(t.words[0]) && Print(t)[0] == t.words[0][0];
    }
  }

  // ---- words ----

  lemma {:induction false} WordEndAt(buf: Line, i: int, e: int)
    requires 0 <= i <= e <= |buf| && (forall k :: i <= k < e ==> IsWordChar(buf[k])) && !IsWordChar(At(buf, e))
    ensures WordEnd(buf, i) == e
    decreases e - i
  {
    if i < e {
      WordEndAt(buf, i + 1, e);
    }
  }

  lemma WordAt(buf: Line, s: int, w: string)
    requires Has(buf, s, w) && IsWord(w) && !IsWordChar(At(buf, s + |w|))
    ensures GetToken(buf, s) == Token(Word, Span(s, s + |w|), SkipSpace(buf, s + |w|))
    ensures WordSpan(buf, Span(s, s + |w|)) && Read(buf, Span(s, s + |w|)) == w
  {
    forall k | s <= k < s + |w|
      ensures IsWordChar(buf[k])
    {
      assert w[k - s] == buf[k];
    }
    WordEndAt(buf, s, s + |w|);
  }

  ghost function Spans(s: int, words: seq<string>): (r: seq<Span>)
    ensures |r| == |words|
    decreases |words|
  {
    if words == [] then [] else [Span(s, s + |words[0]|)] + Spans(s + |words[0]| + 1, words[1..])
  }

  lemma NoRedirs(buf: Line, s: int)
    requires 0 <= s <= |buf| && !IsSpace(At(buf, s)) && At(buf, s) != '<' && At(buf, s) != '>'
    ensures Redirs(buf, s) == Ok([], s)
  {
  }

  lemma ArgsStop(buf: Line, s: int, argc: nat)
    requires Ends(buf, s) && argc < MAXARGS
    ensures Args(buf, s, argc) == Ok(Simple([], []), s)
  {
  }

  /** A word and no redirection after it. */
  ghost predicate ArgHere(buf: Line, s: int, e: int, next: int) {
    && 0 <= s <= next <= |buf| && GetToken(buf, s) == Token(Word, Span(s, e), next)
    && IsWordChar(At(buf, s)) && !IsSpace(At(buf, next)) && At(buf, next) != '<' && At(buf, next) != '>'
  }

  lemma TurnHere(buf: Line, s: int, e: int, next: int, argc: nat)
    requires ArgHere(buf, s, e, next) && argc < MAXARGS
    ensures TurnAt(buf, s, argc) == if argc + 1 < MAXARGS then Arg(Span(s, e), [], next) else Bad
  {
    NoRedirs(buf, next);
    assert !Peek(buf, s, {'|', ')', '&', ';'});
  }

  lemma ArgsStep(buf: Line, s: int, e: int, next: int, argc: nat, argv: seq<Span>, end: int)
    requires ArgHere(buf, s, e, next) && argc + 1 < MAXARGS
    requires Args(buf, next, argc + 1) == Ok(Simple(argv, []), end)
    ensures Args(buf, s, argc) == Ok(Simple([Span(s, e)] + argv, []), end)
  {
    TurnHere(buf, s, e, next, argc);
    var none: seq<Redirection> := [];
    assert none + none == none;
  }

  /** The words stand in the line at s, a blank between them, and the part ends after them. */
  ghost predicate Laid(buf: Line, s: int, words: seq<string>) {
    Has(buf, s, Spaced(words)) && AllWords(words) && Ends(buf, s + |Spaced(words)|)
  }

  /** The next word, and the blank or the end after it. */
  lemma FirstWordAt(buf: Line, s: int, words: seq<string>) returns (next: int)
    requires words != [] && Laid(buf, s, words)
    ensures next == s + |words[0]| + (if |words| == 1 then 0 else 1)
              && next + |Spaced(words[1..])| == s + |Spaced(words)|
    ensures Laid(buf, next, words[1..]) && Has(buf, s, words[0])
    ensures !IsWordChar(At(buf, s + |words[0]|)) && SkipSpace(buf, s + |words[0]|) == next
    ensures !IsSpace(At(buf, next)) && At(buf, next) != '<' && At(buf, next) != '>'
  {
    var w := words[0];
    var rest := words[1..];
    var e := s + |w|;
    if rest == [] {
      next := e;
    } else {
      assert Spaced(words) == w + (" " + Spaced(rest));
      HasSplit(buf, s, w, " " + Spaced(rest));
      HasSplit(buf, e, " ", Spaced(rest));
      assert " "[0] == ' ';
      assert IsWord(rest[0]) && Spaced(rest)[0] == rest[0][0];
      assert buf[e + 1] == Spaced(rest)[0];
      next := e + 1;
    }
  }

  /** The rest of the words stand at next. */
  ghost predicate ArgNext(buf: Line, s: int, words: seq<string>, next: int)
    requires words != []
  {
    && ArgHere(buf, s, s + |words[0]|, next)
    && next + |Spaced(words[1..])| == s + |Spaced(words)|
    && Spans(s, words) == [Span(s, s + |words[0]|)] + Spans(next, words[1..])
  }

  lemma ArgToken(buf: Line, s: int, words: seq<string>) returns (next: int)
    requires words != [] && Laid(buf, s, words)
    ensures ArgNext(buf, s, words, next) && Laid(buf, next, words[1..])
  {
    next := FirstWordAt(buf, s, words);
    WordAt(buf, s, words[0]);
    assert buf[s] == words[0][0];
  }

  ghost predicate ArgsGive(buf: Line, s: int, words: seq<string>, argc: nat) {
    0 <= s <= |buf| && argc < MAXARGS && Args(buf, s, argc) == Ok(Simple(Spans(s, words), []), s + |Spaced(words)|)
  }

  lemma ArgsMore(buf: Line, s: int, words: seq<string>, argc: nat, next: int)
    requires words != [] && ArgNext(buf, s, words, next) && ArgsGive(buf, next, words[1..], argc + 1)
    ensures ArgsGive(buf, s, words, argc)
  {
    ArgsStep(buf, s, s + |words[0]|, next, argc, Spans(next, words[1..]), s + |Spaced(words)|);
  }

  /** The arguments of a simple command come out one by one. */
  lemma {:induction false} ArgsAt(buf: Line, s: int, words: seq<string>, argc: nat)
    requires Laid(buf, s, words) && argc + |words| < MAXARGS
    ensures ArgsGive(buf, s, words, argc)
    decreases |words|
  {
    if words == [] {
      ArgsStop(buf, s, argc);
    } else {
      var next := ArgToken(buf, s, words);
      ArgsAt(buf, next, words[1..], argc + 1);
      ArgsMore(buf, s, words, argc, next);
    }
  }

  /** With MAXARGS words or more the shell gives up. */
  lemma {:induction false} TooManyArgs(buf: Line, s: int, words: seq<string>, argc: nat)
    requires Laid(buf, s, words) && argc < MAXARGS <= argc + |words|
    ensures Args(buf, s, argc).Fail?
    decreases |words|
  {
    var next := ArgToken(buf, s, words);
    TurnHere(buf, s, s + |words[0]|, next, argc);
    if argc + 1 < MAXARGS {
      TooManyArgs(buf, next, words[1..], argc + 1);
    }
  }

  lemma {:induction false} SpansRead(buf: Line, s: int, words: seq<string>)
    requires Laid(buf, s, words)
    ensures ArgsOk(buf, Spans(s, words)) && ReadAll(buf, Spans(s, words)) == words
    decreases |words|
  {
    if words != [] {
      var next := FirstWordAt(buf, s, words);
      WordAt(buf, s, words[0]);
      SpansRead(buf, next, words[1..]);
      assert Spans(s, words) == [Span(s, s + |words[0]|)] + Spans(next, words[1..]);
    }
  }

  // ---- whole commands ----

  /** The command t printed at s parses to. */
  ghost function CmdAt(s: int, t: Tree): Cmd
    decreases t
  {
    match t
    case Run(words) => Exec(Spans(s, words))
    case Redirected(c, file, dir) =>
      var e := s + |Print(c)| + 2;
      Redir(CmdAt(s + 1, c), Target(Span(e + 1, e + 1 + |file|), dir))
    case Piped(l, r) => Pipe(CmdAt(s + 1, l), CmdAt(s + |Print(l)| + 4, r))
    case Listed(l, r) => List(CmdAt(s + 1, l), CmdAt(s + |Print(l)| + 4, r))
    case InBackground(c) => Back(CmdAt(s + 1, c))
  }

  /** The character at e is not among the symbols x and y, nor a blank. */
  predicate NotNext(buf: Line, e: int, x: char, y: char) {
    0 <= e <= |buf| && !IsSpace(At(buf, e)) && At(buf, e) != x && At(buf, e) != y
  }

  lemma SymbolAt(buf: Line, i: int, c: char)
    requires 0 <= i < |buf| && buf[i] == c && IsSymbol(c) && !IsSpace(At(buf, i + 1))
              && (c != '>' || At(buf, i + 1) != '>')
    ensures GetToken(buf, i) == Token(Symbol(c), Span(i, i + 1), i + 1) && Peek(buf, i, {c}) && SkipSpace(buf, i) == i
  {
  }

  lemma {:induction false} PipeOfExec(buf: Line, s: int, c: Cmd, e: int)
    requires 0 <= s <= |buf| && ParseExec(buf, s) == Ok(c, e) && NotNext(buf, e, '|', '|')
    ensures ParsePipe(buf, s) == Ok(c, e)
  {
  }

  lemma NoBacks(buf: Line, e: int, c: Cmd)
    requires NotNext(buf, e, '&', '&')
    ensures Backs(buf, e, c) == Ok(c, e)
  {
  }

  lemma {:induction false} LineOfPipe(buf: Line, s: int, c: Cmd, e: int)
    requires 0 <= s <= |buf| && ParsePipe(buf, s) == Ok(c, e) && NotNext(buf, e, '&', ';')
    ensures ParseLine(buf, s) == Ok(c, e)
  {
    NoBacks(buf, e, c);
    assert !Peek(buf, e, {';'});
  }

  lemma {:induction false} LineOfExec(buf: Line, s: int, c: Cmd, e: int)
    requires 0 <= s <= |buf| && ParseExec(buf, s) == Ok(c, e) && Ends(buf, e)
    ensures ParseLine(buf, s) == Ok(c, e)
  {
    PipeOfExec(buf, s, c, e);
    LineOfPipe(buf, s, c, e);
  }

  lemma {:induction false} ExecOfRun(buf: Line, s: int, words: seq<string>)
    requires Laid(buf, s, words) && |words| < MAXARGS
    ensures ParseExec(buf, s) == Ok(Exec(Spans(s, words)), s + |Spaced(words)|)
  {
    ArgsAt(buf, s, words, 0);
    if words != [] {
      var next := ArgToken(buf, s, words);
      assert IsWordChar(At(buf, s));
    }
    NoRedirs(buf, s);
    assert !Peek(buf, s, {'('});
    var none: seq<Redirection> := [];
    assert none + none == none;
  }

  lemma {:induction false} RunAt(buf: Line, s: int, words: seq<string>)
    requires Laid(buf, s, words) && |words| < MAXARGS
    ensures ParseLine(buf, s) == Ok(Exec(Spans(s, words)), s + |Spaced(words)|)
  {
    ExecOfRun(buf, s, words);
    LineOfExec(buf, s, Exec(Spans(s, words)), s + |Spaced(words)|);
  }

  predicate Parens(buf: Line, s: int, e: int) {
    0 <= s && s + 2 <= e <= |buf| && buf[s] == '(' && buf[e - 1] == ')' && !IsSpace(At(buf, s + 1))
  }

  /** A part in parentheses, with the redirections that follow it. */
  lemma {:induction false} BlockOf(buf: Line, s: int, c: Cmd, e: int, rs: seq<Redirection>, end: int)
    requires Parens(buf, s, e) && !IsSpace(At(buf, e))
    requires ParseLine(buf, s + 1) == Ok(c, e - 1) && Redirs(buf, e) == Ok(rs, end)
    ensures ParseExec(buf, s) == Ok(Wrap(c, rs), end)
  {
    SymbolAt(buf, s, '(');
    SymbolAt(buf, e - 1, ')');
    assert ParseBlock(buf, s) == Ok(Wrap(c, rs), end);
  }

  /** t stands printed in parentheses from s to e. */
  ghost predicate ParenAt(buf: Line, s: int, t: Tree, e: int) {
    && Parens(buf, s, e) && e == s + |Print(t)| + 2 && Printable(t)
    && Has(buf, s + 1, Print(t)) && Ends(buf, s + 1 + |Print(t)|)
  }

  lemma {:induction false} ParenParts(buf: Line, s: int, t: Tree, e: int)
    requires Has(buf, s, Paren(Print(t))) && e == s + |Print(t)| + 2 && Printable(t)
    ensures ParenAt(buf, s, t, e)
  {
    var p := Print(t);
    assert Paren(p) == "(" + (p + ")");
    HasSplit(buf, s, "(", p + ")");
    HasSplit(buf, s + 1, p, ")");
    assert "("[0] == '(' && ")"[0] == ')';
    FirstIsNoSpace(t);
    if p != "" {
      assert buf[s + 1] == p[0];
    }
  }

  /** A printed part in parentheses, with no redirection after it, parses to that part. */
  lemma {:induction false} BlockAt(buf: Line, s: int, t: Tree, e: int)
    requires ParenAt(buf, s, t, e) && NotNext(buf, e, '<', '>')
    ensures ParseExec(buf, s) == Ok(CmdAt(s + 1, t), e)
    decreases t, 3
  {
    LineAt(buf, s + 1, t);
    NoRedirs(buf, e);
    BlockOf(buf, s, CmdAt(s + 1, t), e, [], e);
  }

  predicate IsPair(t: Tree, l: Tree, c: char, r: Tree) {
    (t == Piped(l, r) && c == '|') || (t == Listed(l, r) && c == ';')
  }

  /** After a part from s to e comes the symbol c, and no blank. */
  predicate Between(buf: Line, s: int, e: int, c: char) {
    0 <= s <= e < |buf| && buf[e] == c && !IsSpace(At(buf, e + 1))
  }

  lemma {:induction false} PrintOfPair(t: Tree, l: Tree, c: char, r: Tree)
    requires IsPair(t, l, c, r)
    ensures Print(t) == Paren(Print(l)) + ([c] + Paren(Print(r))) && |Print(t)| == |Print(l)| + |Print(r)| + 5
  {
  }

  /** Two parts in parentheses with a symbol between them. */
  lemma {:induction false} PairParts(buf: Line, s: int, t: Tree, l: Tree, c: char, r: Tree, e: int, end: int)
    requires IsPair(t, l, c, r) && Has(buf, s, Print(t)) && Printable(t)
    requires e == s + |Print(l)| + 2 && end == s + |Print(t)| && Ends(buf, end)
    ensures PairAt(buf, s, l, c, r, e, end)
  {
    PrintOfPair(t, l, c, r);
    HasThree(buf, s, Paren(Print(l)), c, Paren(Print(r)));
    ParenParts(buf, s, l, e);
    ParenParts(buf, e + 1, r, end);
  }

  lemma HasThree(buf: Line, s: int, a: string, c: char, b: string)
    requires Has(buf, s, a + ([c] + b)) && b != "" && b[0] == '('
    ensures Has(buf, s, a) && Has(buf, s + |a| + 1, b) && Between(buf, s, s + |a|, c) && buf[s + |a| + 1] == '('
  {
    HasSplit(buf, s, a, [c] + b);
    HasSplit(buf, s + |a|, [c], b);
    assert [c][0] == c;
  }

  lemma {:induction false} PipeOf(buf: Line, s: int, l: Cmd, r: Cmd, e: int, end: int)
    requires Between(buf, s, e, '|') && ParseExec(buf, s) == Ok(l, e)
    requires ParseExec(buf, e + 1) == Ok(r, end) && Ends(buf, end)
    ensures ParseLine(buf, s) == Ok(Pipe(l, r), end)
  {
    PipeOfExec(buf, e + 1, r, end);
    PipeOfPipe(buf, s, l, r, e, end);
    LineOfPipe(buf, s, Pipe(l, r), end);
  }

  lemma {:induction false} PipeOfPipe(buf: Line, s: int, l: Cmd, r: Cmd, e: int, end: int)
    requires Between(buf, s, e, '|') && ParseExec(buf, s) == Ok(l, e) && ParsePipe(buf, e + 1) == Ok(r, end)
    ensures ParsePipe(buf, s) == Ok(Pipe(l, r), end)
  {
    SymbolAt(buf, e, '|');
  }

  /** Two printed parts with a symbol between them, from s over e to end. */
  ghost predicate PairAt(buf: Line, s: int, l: Tree, c: char, r: Tree, e: int, end: int) {
    && ParenAt(buf, s, l, e) && NotNext(buf, e, '<', '>') && Between(buf, s, e, c)
    && ParenAt(buf, e + 1, r, end) && NotNext(buf, end, '<', '>')
  }

  lemma {:induction false} PipedAt(buf: Line, s: int, l: Tree, r: Tree, e: int, end: int)
    requires PairAt(buf, s, l, '|', r, e, end) && Ends(buf, end)
    ensures ParseLine(buf, s) == Ok(Pipe(CmdAt(s + 1, l), CmdAt(e + 2, r)), end)
    decreases Piped(l, r), 0
  {
    BlockAt(buf, s, l, e);
    BlockAt(buf, e + 1, r, end);
    PipeOf(buf, s, CmdAt(s + 1, l), CmdAt(e + 2, r), e, end);
  }

  lemma {:induction false} ListOf(buf: Line, s: int, l: Cmd, r: Cmd, e: int, end: int)
    requires Between(buf, s, e, ';') && ParseExec(buf, s) == Ok(l, e)
    requires ParseExec(buf, e + 1) == Ok(r, end) && Ends(buf, end)
    ensures ParseLine(buf, s) == Ok(List(l, r), end)
  {
    LineOfExec(buf, e + 1, r, end);
    PipeOfExec(buf, s, l, e);
    ListOfPipe(buf, s, l, r, e, end);
  }

  lemma {:induction false} ListOfPipe(buf: Line, s: int, l: Cmd, r: Cmd, e: int, end: int)
    requires Between(buf, s, e, ';') && ParsePipe(buf, s) == Ok(l, e) && ParseLine(buf, e + 1) == Ok(r, end)
    ensures ParseLine(buf, s) == Ok(List(l, r), end)
  {
    NoBacks(buf, e, l);
    SymbolAt(buf, e, ';');
  }

  lemma {:induction false} ListedAt(buf: Line, s: int, l: Tree, r: Tree, e: int, end: int)
    requires PairAt(buf, s, l, ';', r, e, end) && Ends(buf, end)
    ensures ParseLine(buf, s) == Ok(List(CmdAt(s + 1, l), CmdAt(e + 2, r)), end)
    decreases Listed(l, r), 0
  {
    BlockAt(buf, s, l, e);
    BlockAt(buf, e + 1, r, end);
    ListOf(buf, s, CmdAt(s + 1, l), CmdAt(e + 2, r), e, end);
  }

  lemma {:induction false} BackOf(buf: Line, s: int, c: Cmd, e: int)
    requires 0 <= s <= e < |buf| && ParseExec(buf, s) == Ok(c, e) && buf[e] == '&' && Ends(buf, e + 1)
    ensures ParseLine(buf, s) == Ok(Back(c), e + 1)
  {
    PipeOfExec(buf, s, c, e);
    BackOfPipe(buf, s, c, e);
  }

  lemma {:induction false} BackOfPipe(buf: Line, s: int, c: Cmd, e: int)
    requires 0 <= s <= e < |buf| && ParsePipe(buf, s) == Ok(c, e) && buf[e] == '&' && Ends(buf, e + 1)
    ensures ParseLine(buf, s) == Ok(Back(c), e + 1)
  {
    SymbolAt(buf, e, '&');
    NoBacks(buf, e + 1, Back(c));
    assert Backs(buf, e, c) == Ok(Back(c), e + 1);
    assert !Peek(buf, e + 1, {';'});
  }

  lemma {:induction false} BackParts(buf: Line, s: int, t: Tree, e: int)
    requires t.InBackground? && Printable(t) && Has(buf, s, Print(t)) && Ends(buf, s + |Print(t)|)
              && e == s + |Print(t.cmd)| + 2
    ensures ParenAt(buf, s, t.cmd, e) && e < |buf| && buf[e] == '&' && e + 1 == s + |Print(t)|
  {
    HasSplit(buf, s, Paren(Print(t.cmd)), "&");
    assert "&"[0] == '&';
    ParenParts(buf, s, t.cmd, e);
  }

  lemma {:induction false} InBackgroundAt(buf: Line, s: int, t: Tree)
    requires t.InBackground? && Printable(t) && Has(buf, s, Print(t)) && Ends(buf, s + |Print(t)|)
    ensures ParseLine(buf, s) == Ok(CmdAt(s, t), s + |Print(t)|)
    decreases t, 0
  {
    var e := s + |Print(t.cmd)| + 2;
    BackParts(buf, s, t, e);
    BlockAt(buf, s, t.cmd, e);
    BackOf(buf, s, CmdAt(s + 1, t.cmd), e);
  }

  predicate FileHere(buf: Line, e: int, end: int, dir: Direction) {
    && 0 <= e < end <= |buf| && buf[e] == Arrow(dir) && IsWordChar(At(buf, e + 1))
    && GetToken(buf, e + 1) == Token(Word, Span(e + 1, end), SkipSpace(buf, end))
  }

  lemma {:induction false} RedirParts(buf: Line, s: int, t: Tree, e: int, end: int)
    requires t.Redirected? && Printable(t) && Has(buf, s, Print(t)) && Ends(buf, end)
    requires e == s + |Print(t.cmd)| + 2 && end == s + |Print(t)|
    ensures ParenAt(buf, s, t.cmd, e) && end == e + 1 + |t.file| && FileHere(buf, e, end, t.dir)
    ensures WordSpan(buf, Span(e + 1, end)) && Read(buf, Span(e + 1, end)) == t.file
  {
    HasSplit(buf, s, Paren(Print(t.cmd)), [Arrow(t.dir)] + t.file);
    FileAt(buf, e, end, t.dir, t.file);
    ParenParts(buf, s, t.cmd, e);
  }

  lemma FileAt(buf: Line, e: int, end: int, dir: Direction, file: string)
    requires Has(buf, e, [Arrow(dir)] + file) && IsWord(file) && end == e + 1 + |file| && Ends(buf, end)
    ensures FileHere(buf, e, end, dir) && WordSpan(buf, Span(e + 1, end)) && Read(buf, Span(e + 1, end)) == file
  {
    HasSplit(buf, e, [Arrow(dir)], file);
    assert [Arrow(dir)][0] == Arrow(dir);
    assert buf[e + 1] == file[0];
    WordAt(buf, e + 1, file);
  }

  lemma {:induction false} OneRedir(buf: Line, e: int, end: int, dir: Direction)
    requires FileHere(buf, e, end, dir) && Ends(buf, end)
    ensures Redirs(buf, e) == Ok([Target(Span(e + 1, end), dir)], end)
  {
    SymbolAt(buf, e, buf[e]);
    NoRedirs(buf, end);
    var one := [Target(Span(e + 1, end), dir)];
    assert one + [] == one;
  }

  lemma {:induction false} RedirOf(buf: Line, s: int, c: Cmd, e: int, to: Redirection, end: int)
    requires Parens(buf, s, e) && !IsSpace(At(buf, e))
    requires ParseLine(buf, s + 1) == Ok(c, e - 1) && Redirs(buf, e) == Ok([to], end) && Ends(buf, end)
    ensures ParseLine(buf, s) == Ok(Redir(c, to), end)
  {
    BlockOf(buf, s, c, e, [to], end);
    assert Wrap(c, [to]) == Redir(c, to);
    LineOfExec(buf, s, Redir(c, to), end);
  }

  lemma {:induction false} RedirectedAt(buf: Line, s: int, c: Tree, dir: Direction, e: int, end: int)
    requires ParenAt(buf, s, c, e) && FileHere(buf, e, end, dir) && Ends(buf, end)
    ensures ParseLine(buf, s) == Ok(Redir(CmdAt(s + 1, c), Target(Span(e + 1, end), dir)), end)
    decreases c, 4
  {
    LineAt(buf, s + 1, c);
    OneRedir(buf, e, end, dir);
    RedirOf(buf, s, CmdAt(s + 1, c), e, Target(Span(e + 1, end), dir), end);
  }

  lemma {:induction false} PairCase(buf: Line, s: int, t: Tree, l: Tree, c: char, r: Tree)
    requires IsPair(t, l, c, r) && Printable(t) && Has(buf, s, Print(t)) && Ends(buf, s + |Print(t)|)
    ensures ParseLine(buf, s) == Ok(CmdAt(s, t), s + |Print(t)|)
    decreases t, 1
  {
    var e := s + |Print(l)| + 2;
    var end := s + |Print(t)|;
    PairParts(buf, s, t, l, c, r, e, end);
    if c == '|' {
      PipedAt(buf, s, l, r, e, end);
    } else {
      ListedAt(buf, s, l, r, e, end);
    }
  }

  lemma {:induction false} RedirCase(buf: Line, s: int, t: Tree)
    requires t.Redirected? && Printable(t) && Has(buf, s, Print(t)) && Ends(buf, s + |Print(t)|)
    ensures ParseLine(buf, s) == Ok(CmdAt(s, t), s + |Print(t)|)
    decreases t, 0
  {
    var e := s + |Print(t.cmd)| + 2;
    var end := s + |Print(t)|;
    RedirParts(buf, s, t, e, end);
    RedirectedAt(buf, s, t.cmd, t.dir, e, end);
  }

  /** What is printed, up to the end of the line or a closing parenthesis, parses back. */
  lemma {:induction false} LineAt(buf: Line, s: int, t: Tree)
    requires Printable(t) && Has(buf, s, Print(t)) && Ends(buf, s + |Print(t)|)
    ensures ParseLine(buf, s) == Ok(CmdAt(s, t), s + |Print(t)|)
    decreases t, 2
  {
    match t {
      case Listed(l, r) => PairCase(buf, s, t, l, ';', r);
      case InBackground(_) => InBackgroundAt(buf, s, t);
      case Piped(l, r) => PairCase(buf, s, t, l, '|', r);
      case Redirected(_, _, _) => RedirCase(buf, s, t);
      case Run(words) => RunAt(buf, s, words);
    }
  }

  /** The parsed command stands for t. */
  ghost predicate Stands(buf: Line, c: Cmd, t: Tree) {
    WordsOk(buf, c) && Text(buf, c) == t
  }

  lemma {:induction false} TextInside(buf: Line, s: int, t: Tree, e: int)
    requires ParenAt(buf, s, t, e)
    ensures Stands(buf, CmdAt(s + 1, t), t)
    decreases t, 3
  {
    TextAt(buf, s + 1, t);
  }

  lemma {:induction false} TextPair(buf: Line, s: int, t: Tree, l: Tree, c: char, r: Tree)
    requires IsPair(t, l, c, r) && Has(buf, s, Print(t)) && Printable(t) && Ends(buf, s + |Print(t)|)
    ensures Stands(buf, CmdAt(s, t), t)
    decreases t, 0
  {
    var e := s + |Print(l)| + 2;
    var end := s + |Print(t)|;
    PairParts(buf, s, t, l, c, r, e, end);
    TextInside(buf, s, l, e);
    TextInside(buf, e + 1, r, end);
    StandsPair(buf, s, t, l, c, r);
  }

  lemma {:induction false} StandsPair(buf: Line, s: int, t: Tree, l: Tree, c: char, r: Tree)
    requires IsPair(t, l, c, r) && Stands(buf, CmdAt(s + 1, l), l) && Stands(buf, CmdAt(s + |Print(l)| + 4, r), r)
    ensures Stands(buf, CmdAt(s, t), t)
  {
  }

  lemma {:induction false} TextRedirected(buf: Line, s: int, t: Tree)
    requires t.Redirected? && Has(buf, s, Print(t)) && Printable(t) && Ends(buf, s + |Print(t)|)
    ensures Stands(buf, CmdAt(s, t), t)
    decreases t, 0
  {
    var e := s + |Print(t.cmd)| + 2;
    RedirParts(buf, s, t, e, s + |Print(t)|);
    TextInside(buf, s, t.cmd, e);
  }

  lemma {:induction false} TextInBackground(buf: Line, s: int, t: Tree)
    requires t.InBackground? && Has(buf, s, Print(t)) && Printable(t) && Ends(buf, s + |Print(t)|)
    ensures Stands(buf, CmdAt(s, t), t)
    decreases t, 0
  {
    var e := s + |Print(t.cmd)| + 2;
    BackParts(buf, s, t, e);
    TextInside(buf, s, t.cmd, e);
  }

  /** And the words in the parsed command are those of t. */
  lemma {:induction false} TextAt(buf: Line, s: int, t: Tree)
    requires Printable(t) && Has(buf, s, Print(t)) && Ends(buf, s + |Print(t)|)
    ensures Stands(buf, CmdAt(s, t), t)
    decreases t, 2
  {
    match t {
      case Run(words) => SpansRead(buf, s, words);
      case Redirected(_, _, _) => TextRedirected(buf, s, t);
      case Piped(l, r) => TextPair(buf, s, t, l, '|', r);
      case Listed(l, r) => TextPair(buf, s, t, l, ';', r);
      case InBackground(_) => TextInBackground(buf, s, t);
    }
  }

  predicate NoNul(s: string) {
    forall i :: 0 <= i < |s| ==> s[i] != NUL
  }

  lemma {:induction false} SpacedNoNul(words: seq<string>)
    requires AllWords(words)
    ensures NoNul(Spaced(words))
    decreases |words|
  {
    if words != [] {
      assert IsWord(words[0]);
      SpacedNoNul(words[1..]);
    }
  }

  lemma {:induction false} PrintNoNul(t: Tree)
    requires Printable(t)
    ensures NoNul(Print(t))
  {
    match t {
      case Run(words) => SpacedNoNul(words);
      case Redirected(c, _, _) => PrintNoNul(c);
      case Piped(l, r) => PrintNoNul(l); PrintNoNul(r);
      case Listed(l, r) => PrintNoNul(l); PrintNoNul(r);
      case InBackground(c) => PrintNoNul(c);
    }
  }

  /** Printing a command with every part in parentheses and parsing the line rebuilds it. */
  lemma {:induction false} RoundTrip(t: Tree)
    requires Printable(t)
    ensures NoNul(Print(t)) && ParseCmd(Print(t)).Ok? && WordsOk(Print(t), ParseCmd(Print(t)).value)
    ensures Text(Print(t), ParseCmd(Print(t)).value) == t
  {
    PrintNoNul(t);
    LineAt(Print(t), 0, t);
    TextAt(Print(t), 0, t);
    CmdWords(Print(t));
  }
}
