/** The parser of user/sh.c as it runs: one cursor that every parser moves along the line. */
module Shell {
  import opened ShellGrammar
  import opened ShellPrint

  // ---- blanks before a token do not matter ----

  lemma SkipTwice(buf: Line, i: int)
    requires 0 <= i <= |buf|
    ensures SkipSpace(buf, SkipSpace(buf, i)) == SkipSpace(buf, i)
  {
    SkipSpaceStops(buf, i);
  }

  lemma TokenAfterBlanks(buf: Line, i: int)
    requires 0 <= i <= |buf|
    ensures GetToken(buf, SkipSpace(buf, i)) == GetToken(buf, i)
  {
    SkipTwice(buf, i);
  }

  lemma RedirsAfterBlanks(buf: Line, i: int)
    requires 0 <= i <= |buf|
    ensures Redirs(buf, SkipSpace(buf, i)) == Redirs(buf, i)
  {
    SkipTwice(buf, i);
    TokenAfterBlanks(buf, i);
  }

  lemma BlockAfterBlanks(buf: Line, i: int)
    requires 0 <= i <= |buf|
    ensures ParseBlock(buf, SkipSpace(buf, i)) == ParseBlock(buf, i)
  {
    SkipTwice(buf, i);
    TokenAfterBlanks(buf, i);
  }

  // ---- redirections around a command ----

  lemma {:induction false} WrapWrap(c: Cmd, a: seq<Redirection>, b: seq<Redirection>)
    ensures Wrap(Wrap(c, a), b) == Wrap(c, a + b)
    decreases |a|
  {
    if a == [] {
      assert a + b == b;
    } else {
      assert (a + b)[1..] == a[1..] + b;
      WrapWrap(Redir(c, a[0]), a[1..], b);
    }
  }

  /** The arguments go into the innermost command, through the pointer parseexec keeps to it. */
  function Fill(c: Cmd, argv: seq<Span>): Cmd {
    match c
    case Redir(d, to) => Redir(Fill(d, argv), to)
    case _ => Exec(argv)
  }

  lemma {:induction false} FillWrap(c: Cmd, rs: seq<Redirection>, argv: seq<Span>)
    ensures Fill(Wrap(c, rs), argv) == Wrap(Fill(c, argv), rs)
    decreases |rs|
  {
    if rs != [] {
      FillWrap(Redir(c, rs[0]), rs[1..], argv);
    }
  }

  /** What is left of parseredirs' loop, with the command d so far, against the whole of it. */
  ghost predicate RedirsLeft(buf: Line, from: int, c: Cmd, s: int, d: Cmd)
    requires 0 <= from <= |buf| && 0 <= s <= |buf|
  {
    var all, rest := Redirs(buf, from), Redirs(buf, s);
    all.Ok? == rest.Ok? && (all.Ok? ==> all.s == rest.s && Wrap(c, all.value) == Wrap(d, rest.value))
  }

  lemma RedirsLeftStep(buf: Line, from: int, c: Cmd, s: int, d: Cmd)
    requires 0 <= from <= |buf| && 0 <= s <= |buf| && RedirsLeft(buf, from, c, s, d)
    requires Peek(buf, s, {'<', '>'}) && GetToken(buf, GetToken(buf, s).next).kind == Word
    ensures var t, f := GetToken(buf, s), GetToken(buf, GetToken(buf, s).next);
            RedirsLeft(buf, from, c, f.next, Redir(d, Redirect(t.kind, f.span)))
  {
    var t, f := GetToken(buf, s), GetToken(buf, GetToken(buf, s).next);
    var to := Redirect(t.kind, f.span);
    var rest := Redirs(buf, f.next);
    if rest.Ok? {
      assert ([to] + rest.value)[1..] == rest.value;
    }
  }

  /** The same for parseexec's loop over the arguments: the whole result against argv and ret
      so far and the result of the rest. */
  ghost predicate ArgsLeft(all: Result<Simple>, first: seq<Redirection>, argv: seq<Span>, ret: Cmd,
      rest: Result<Simple>) {
    && all.Ok? == rest.Ok?
    && (all.Ok? ==> all.s == rest.s && all.value.argv == argv + rest.value.argv
                    && Wrap(Exec([]), first + all.value.rs) == Wrap(ret, rest.value.rs))
  }

  lemma ArgsLeftStart(all: Result<Simple>, first: seq<Redirection>)
    ensures ArgsLeft(all, first, [], Wrap(Exec([]), first), all)
  {
    if all.Ok? {
      WrapWrap(Exec([]), first, all.value.rs);
    }
  }

  lemma ArgsLeftMore(all: Result<Simple>, first: seq<Redirection>, argv: seq<Span>, ret: Cmd, rest: Result<Simple>,
                     w: Span, rs: seq<Redirection>, next: Result<Simple>)
    requires ArgsLeft(all, first, argv, ret, rest)
    requires rest == MoreArgs(next, w, rs)
    ensures ArgsLeft(all, first, argv + [w], Wrap(ret, rs), next)
  {
    if next.Ok? {
      WrapWrap(ret, rs, next.value.rs);
      assert argv + ([w] + next.value.argv) == argv + [w] + next.value.argv;
    }
  }

  lemma ArgsLeftDone(all: Result<Simple>, first: seq<Redirection>, argv: seq<Span>, ret: Cmd, rest: Result<Simple>)
    requires ArgsLeft(all, first, argv, ret, rest) && rest.Ok? && rest.value == Simple([], [])
    ensures all.Ok? && all.s == rest.s && Wrap(Exec(all.value.argv), first + all.value.rs) == Fill(ret, argv)
  {
    FillWrap(Exec([]), first + all.value.rs, argv);
    assert argv + [] == argv;
  }

  /** The state of the loop at the cursor s. */
  ghost predicate LoopAt(buf: Line, s: int, argc: nat, all: Result<Simple>, first: seq<Redirection>, argv: seq<Span>,
      ret: Cmd) {
    0 <= s <= |buf| && argc == |argv| < MAXARGS && ArgsLeft(all, first, argv, ret, Args(buf, s, argc))
  }

  lemma LoopOn(buf: Line, s: int, argc: nat, all: Result<Simple>, first: seq<Redirection>, argv: seq<Span>, ret: Cmd)
    requires LoopAt(buf, s, argc, all, first, argv, ret) && TurnAt(buf, s, argc).Arg?
    ensures var t := TurnAt(buf, s, argc); LoopAt(buf, t.s, argc + 1, all, first, argv + [t.w], Wrap(ret, t.rs))
  {
    var t := TurnAt(buf, s, argc);
    var rest := Args(buf, t.s, argc + 1);
    ArgsUnfold(buf, s, argc, t, rest);
    ArgsLeftMore(all, first, argv, ret, Args(buf, s, argc), t.w, t.rs, rest);
  }

  lemma LoopEnds(buf: Line, s: int, argc: nat, all: Result<Simple>, first: seq<Redirection>, argv: seq<Span>, ret: Cmd)
    requires LoopAt(buf, s, argc, all, first, argv, ret) && !TurnAt(buf, s, argc).Arg?
    ensures var t := TurnAt(buf, s, argc);
            if t.Bad? then all.Fail?
            else all.Ok? && all.s == t.s && Wrap(Exec(all.value.argv), first + all.value.rs) == Fill(ret, argv)
  {
    var t := TurnAt(buf, s, argc);
    ArgsEnd(buf, s, argc, t);
    if t.Stop? {
      ArgsLeftDone(all, first, argv, ret, Args(buf, s, argc));
    }
  }

  datatype Status = More | Done | Failed

  class Parser {
    const buf: Line
    var s: int                          // *ps

    constructor (line: Line)
      ensures buf == line && s == 0
    {
      buf, s := line, 0;
    }

    predicate InLine()
      reads this
    {
      0 <= s <= |buf|
    }

    method SkipBlanks(from: int) returns (i: int)
      requires 0 <= from <= |buf|
      ensures i == SkipSpace(buf, from)
    {
      i := from;
      while i < |buf| && IsSpace(buf[i])
        invariant 0 <= i <= |buf| && SkipSpace(buf, i) == SkipSpace(buf, from)
      {
        i := i + 1;
      }
    }

    /** gettoken: the cursor ends up at the next token. */
    method Next() returns (t: Token)
      requires InLine()
      modifies `s
      ensures InLine() && t == GetToken(buf, old(s)) && s == t.next
    {
      var q := SkipBlanks(s);
      SkipSpaceStops(buf, s);
      var c := At(buf, q);
      var e := q;
      var kind := End;
      if c == NUL {
      } else if c == '>' {
        e := q + 1;
        kind := Symbol('>');
        if At(buf, e) == '>' {
          kind := Append;
          e := e + 1;
        }
      } else if IsSymbol(c) {
        kind := Symbol(c);
        e := q + 1;
      } else {
        kind := Word;
        while e < |buf| && !IsSpace(buf[e]) && !IsSymbol(buf[e])
          invariant q <= e <= |buf| && WordEnd(buf, e) == WordEnd(buf, q)
        {
          e := e + 1;
        }
      }
      s := SkipBlanks(e);
      t := Token(kind, Span(q, e), s);
    }

    /** peek moves over blanks only. */
    method PeekFor(toks: set<char>) returns (b: bool)
      requires InLine()
      modifies `s
      ensures InLine() && b == Peek(buf, old(s), toks) && s == SkipSpace(buf, old(s))
    {
      s := SkipBlanks(s);
      b := At(buf, s) != NUL && At(buf, s) in toks;
    }

    /** parseredirs. */
    method ParseRedirs(c: Cmd) returns (ok: bool, d: Cmd)
      requires InLine()
      modifies `s
      ensures InLine() && old(s) <= s && ok == Redirs(buf, old(s)).Ok?
      ensures ok ==> s == Redirs(buf, old(s)).s && d == Wrap(c, Redirs(buf, old(s)).value)
    {
      d := c;
      var more := PeekFor({'<', '>'});
      RedirsAfterBlanks(buf, old(s));
      SkipTwice(buf, old(s));
      while more
        invariant InLine() && old(s) <= s && s == SkipSpace(buf, s) && more == Peek(buf, s, {'<', '>'})
        invariant RedirsLeft(buf, old(s), c, s, d)
        decreases |buf| - s
      {
        ghost var at := s;
        var t := Next();
        var f := Next();
        if f.kind != Word {
          return false, d;
        }
        RedirsLeftStep(buf, old(s), c, at, d);
        d := Redir(d, Redirect(t.kind, f.span));
        RedirsAfterBlanks(buf, s);
        SkipTwice(buf, s);
        more := PeekFor({'<', '>'});
      }
      ok := true;
    }

    /** The next token of a simple command; its end is the end of the line or a stop symbol. */
    method NextArgument() returns (t: Token)
      requires InLine()
      modifies `s
      ensures InLine() && s == t.next
      ensures if Peek(buf, old(s), {'|', ')', '&', ';'})
              then t.kind == End && s == SkipSpace(buf, old(s))
              else t == GetToken(buf, old(s))
    {
      TokenAfterBlanks(buf, s);
      var stop := PeekFor({'|', ')', '&', ';'});
      if stop {
        t := Token(End, Span(s, s), s);
      } else {
        t := Next();
      }
    }

    /** One turn of parseexec's loop: the end, an error, or an argument; ret then gets the
        redirections after it. */
    method NextTurn(ret: Cmd, argc: nat) returns (status: Status, c: Cmd, w: Span, ghost turn: Turn)
      requires InLine() && argc < MAXARGS
      modifies `s
      ensures InLine() && old(s) <= s && turn == TurnAt(buf, old(s), argc)
      ensures status == (if turn.Stop? then Done else if turn.Bad? then Failed else More)
      ensures status == Done ==> s == turn.s && c == ret
      ensures status == More ==> s == turn.s && w == turn.w && c == Wrap(ret, turn.rs)
    {
      c := ret;
      turn := TurnAt(buf, s, argc);
      var t := NextArgument();
      w := t.span;
      if t.kind == End {
        return Done, c, w, turn;
      }
      if t.kind != Word || argc + 1 >= MAXARGS {
        return Failed, c, w, turn;
      }
      var ok;
      ok, c := ParseRedirs(ret);
      return if ok then More else Failed, c, w, turn;
    }

    /** parseexec's loop, with ret the command and the redirections before the arguments. */
    method Arguments(ret: Cmd, ghost first: seq<Redirection>) returns (ok: bool, c: Cmd)
      requires InLine() && ret == Wrap(Exec([]), first)
      modifies `s
      ensures InLine() && old(s) <= s && ok == Args(buf, old(s), 0).Ok?
      ensures ok ==>
                var all := Args(buf, old(s), 0); s == all.s && c == Wrap(Exec(all.value.argv), first + all.value.rs)
    {
      c := ret;
      var argc, argv: seq<Span> := 0, [];
      ghost var all := Args(buf, s, 0);
      ArgsLeftStart(all, first);
      while true
        invariant InLine() && old(s) <= s && 0 <= argc < MAXARGS && LoopAt(buf, s, argc, all, first, argv, c)
        decreases |buf| - s
      {
        ghost var at, was := s, c;
        var status, w;
        ghost var turn;
        status, c, w, turn := NextTurn(c, argc);
        if status != More {
          LoopEnds(buf, at, argc, all, first, argv, was);
          return status == Done, if status == Done then Fill(c, argv) else c;
        }
        LoopOn(buf, at, argc, all, first, argv, was);
        argc, argv := argc + 1, argv + [w];
      }
    }

    method ParseSimple() returns (ok: bool, c: Cmd)
      requires InLine() && !Peek(buf, s, {'('})
      modifies `s
      ensures InLine() && old(s) <= s && ok == ParseExec(buf, old(s)).Ok?
      ensures ok ==> ParseExec(buf, old(s)) == Ok(c, s)
    {
      ghost var first := Redirs(buf, s);
      ok, c := ParseRedirs(Exec([]));
      if ok {
        ok, c := Arguments(c, first.value);
      }
    }

    /** parseexec. */
    method Single() returns (ok: bool, c: Cmd)
      requires InLine()
      modifies `s
      ensures InLine() && old(s) <= s && ok == ParseExec(buf, old(s)).Ok?
      ensures ok ==> ParseExec(buf, old(s)) == Ok(c, s)
      decreases |buf| - s, 1
    {
      var block := PeekFor({'('});
      SkipTwice(buf, old(s));
      if block {
        BlockAfterBlanks(buf, old(s));
        ok, c := Block();
      } else {
        RedirsAfterBlanks(buf, old(s));
        ok, c := ParseSimple();
      }
    }

    /** parseblock. */
    method Block() returns (ok: bool, c: Cmd)
      requires InLine()
      modifies `s
      ensures InLine() && old(s) <= s && ok == ParseBlock(buf, old(s)).Ok?
      ensures ok ==> ParseBlock(buf, old(s)) == Ok(c, s)
      decreases |buf| - s, 0
    {
      var open := PeekFor({'('});
      if !open {
        return false, Exec([]);
      }
      TokenAfterBlanks(buf, old(s));
      var t := Next();
      ok, c := Sequence();
      if !ok {
        return;
      }
      ghost var at := s;
      var close := PeekFor({')'});
      if !close {
        return false, c;
      }
      TokenAfterBlanks(buf, at);
      t := Next();
      ok, c := ParseRedirs(c);
    }

    /** parsepipe. */
    method Pipeline() returns (ok: bool, c: Cmd)
      requires InLine()
      modifies `s
      ensures InLine() && old(s) <= s && ok == ParsePipe(buf, old(s)).Ok?
      ensures ok ==> ParsePipe(buf, old(s)) == Ok(c, s)
      decreases |buf| - s, 2
    {
      ok, c := Single();
      if !ok {
        return;
      }
      ghost var at := s;
      var more := PeekFor({'|'});
      TokenAfterBlanks(buf, at);
      if more {
        var t := Next();
        var right;
        ok, right := Pipeline();
        c := Pipe(c, right);
      }
    }

    /** parseline. */
    method Sequence() returns (ok: bool, c: Cmd)
      requires InLine()
      modifies `s
      ensures InLine() && old(s) <= s && ok == ParseLine(buf, old(s)).Ok?
      ensures ok ==> ParseLine(buf, old(s)) == Ok(c, s)
      decreases |buf| - s, 3
    {
      ok, c := Pipeline();
      if !ok {
        return;
      }
      c := Ampersands(c);
      ghost var at := s;
      var more := PeekFor({';'});
      TokenAfterBlanks(buf, at);
      if more {
        var t := Next();
        var right;
        ok, right := Sequence();
        c := List(c, right);
      }
    }

    /** parseline's loop over '&'. */
    method Ampersands(c: Cmd) returns (d: Cmd)
      requires InLine()
      modifies `s
      ensures InLine() && old(s) <= s && Backs(buf, old(s), c) == Ok(d, s)
    {
      d := c;
      var more := PeekFor({'&'});
      SkipTwice(buf, old(s));
      TokenAfterBlanks(buf, old(s));
      while more
        invariant InLine() && old(s) <= s && s == SkipSpace(buf, s) && more == Peek(buf, s, {'&'})
        invariant Backs(buf, s, d) == Backs(buf, old(s), c)
        decreases |buf| - s
      {
        var t := Next();
        SkipTwice(buf, s);
        TokenAfterBlanks(buf, s);
        d := Back(d);
        more := PeekFor({'&'});
      }
    }

    /** parsecmd, up to nulterminate. */
    method Parse() returns (ok: bool, c: Cmd)
      requires s == 0
      modifies `s
      ensures ok == ParseCmd(buf).Ok? && (ok ==> c == ParseCmd(buf).value && WordsOk(buf, c))
    {
      ok, c := Sequence();
      if ok {
        var b := PeekFor({});
        ok := s == |buf|;
        LineWords(buf, 0);
      }
    }
  }

  // ---- cutting the line into C strings ----

  /** The tokens a command points to. */
  function Tokens(c: Cmd): seq<Span> {
    match c
    case Exec(argv) => argv
    case Redir(d, to) => Tokens(d) + [to.file]
    case Pipe(l, r) => Tokens(l) + Tokens(r)
    case List(l, r) => Tokens(l) + Tokens(r)
    case Back(d) => Tokens(d)
  }

  lemma {:induction false} TokensAreWords(buf: Line, c: Cmd)
    requires WordsOk(buf, c)
    ensures ArgsOk(buf, Tokens(c))
  {
    match c {
      case Exec(_) =>
      case Redir(d, _) => TokensAreWords(buf, d);
      case Pipe(l, r) => TokensAreWords(buf, l); TokensAreWords(buf, r);
      case List(l, r) => TokensAreWords(buf, l); TokensAreWords(buf, r);
      case Back(d) => TokensAreWords(buf, d);
    }
  }

  /** now is was with a NUL at the end of every token in ws, and nowhere else. */
  ghost predicate Cut(was: seq<char>, now: seq<char>, ws: seq<Span>) {
    && |now| == |was|
    && (forall i :: 0 <= i < |ws| ==> 0 <= ws[i].eq < |now| && now[ws[i].eq] == NUL)
    && (forall k :: 0 <= k < |now| && now[k] != was[k] ==> exists i :: 0 <= i < |ws| && ws[i].eq == k)
  }

  lemma CutMore(a: seq<char>, b: seq<char>, c: seq<char>, v: seq<Span>, w: seq<Span>)
    requires Cut(a, b, v) && Cut(b, c, w)
    ensures Cut(a, c, v + w)
  {
    forall k | 0 <= k < |c| && c[k] != a[k]
      ensures exists i :: 0 <= i < |v + w| && (v + w)[i].eq == k
    {
      if b[k] != a[k] {
        var i :| 0 <= i < |v| && v[i].eq == k;
        assert (v + w)[i].eq == k;
      } else {
        var i :| 0 <= i < |w| && w[i].eq == k;
        assert (v + w)[|v| + i].eq == k;
      }
    }
    forall i | 0 <= i < |v + w|
      ensures 0 <= (v + w)[i].eq < |c| && c[(v + w)[i].eq] == NUL
    {
      assert i < |v| ==> b[v[i].eq] == NUL;
    }
  }

  ghost predicate Within(ws: seq<Span>, n: int) {
    forall i :: 0 <= i < |ws| ==> 0 <= ws[i].eq < n
  }

  method CutAt(a: array<char>, w: Span)
    requires 0 <= w.eq < a.Length
    modifies a
    ensures Cut(old(a[..]), a[..], [w])
  {
    a[w.eq] := NUL;
    assert [w][0] == w;
  }

  /** nulterminate: writes a NUL right after each token of the command and nothing else. */
  method NulTerminate(a: array<char>, c: Cmd)
    requires Within(Tokens(c), a.Length)
    modifies a
    ensures Cut(old(a[..]), a[..], Tokens(c))
    decreases c
  {
    match c
    case Exec(argv) =>
      var i := 0;
      while i < |argv|
        invariant 0 <= i <= |argv| && Cut(old(a[..]), a[..], argv[..i])
      {
        ghost var was := a[..];
        CutAt(a, argv[i]);
        CutMore(old(a[..]), was, a[..], argv[..i], [argv[i]]);
        assert argv[..i] + [argv[i]] == argv[..i + 1];
        i := i + 1;
      }
      assert argv[..i] == argv;
    case Redir(d, to) =>
      SplitWithin(Tokens(d), [to.file], a.Length);
      assert [to.file][0] == to.file;
      NulTerminate(a, d);
      ghost var was := a[..];
      CutAt(a, to.file);
      CutMore(old(a[..]), was, a[..], Tokens(d), [to.file]);
    case Pipe(l, r) =>
      SplitWithin(Tokens(l), Tokens(r), a.Length);
      NulTerminate(a, l);
      ghost var was := a[..];
      NulTerminate(a, r);
      CutMore(old(a[..]), was, a[..], Tokens(l), Tokens(r));
    case List(l, r) =>
      SplitWithin(Tokens(l), Tokens(r), a.Length);
      NulTerminate(a, l);
      ghost var was := a[..];
      NulTerminate(a, r);
      CutMore(old(a[..]), was, a[..], Tokens(l), Tokens(r));
    case Back(d) =>
      NulTerminate(a, d);
  }

  lemma SplitWithin(v: seq<Span>, w: seq<Span>, n: int)
    requires Within(v + w, n)
    ensures Within(v, n) && Within(w, n) && (forall i :: 0 <= i < |w| ==> 0 <= w[i].eq < n)
  {
    forall i | 0 <= i < |v|
      ensures 0 <= v[i].eq < n
    {
      assert (v + w)[i] == v[i];
    }
    forall i | 0 <= i < |w|
      ensures 0 <= w[i].eq < n
    {
      assert (v + w)[|v| + i] == w[i];
    }
  }

  /** The C string at i: up to the first NUL, or the end. */
  function CString(a: seq<char>, i: int): string
    requires 0 <= i <= |a|
    decreases |a| - i
  {
    if i == |a| || a[i] == NUL then "" else [a[i]] + CString(a, i + 1)
  }

  lemma {:induction false} CStringIs(a: seq<char>, i: int, e: int)
    requires 0 <= i <= e < |a| && a[e] == NUL && forall k :: i <= k < e ==> a[k] != NUL
    ensures CString(a, i) == a[i..e]
    decreases e - i
  {
    if i < e {
      CStringIs(a, i + 1, e);
      assert a[i..e] == [a[i]] + a[i + 1..e];
    }
  }

  /** Cutting after whole words writes inside none of them: each then reads as itself. */
  lemma CutReads(buf: Line, now: seq<char>, ws: seq<Span>, j: int)
    requires ArgsOk(buf, ws) && Cut(buf + [NUL], now, ws) && 0 <= j < |ws|
    ensures CString(now, ws[j].q) == buf[ws[j].q..ws[j].eq]
  {
    var w := ws[j];
    forall k | w.q <= k < w.eq
      ensures now[k] == buf[k]
    {
      assert IsWordChar((buf + [NUL])[k]);
    }
    CStringIs(now, w.q, w.eq);
  }

  /** parsecmd: on success every argument and file name, read as a C string, is its token. */
  method Parsecmd(a: array<char>) returns (ok: bool, c: Cmd)
    requires a.Length > 0 && a[a.Length - 1] == NUL && forall i :: 0 <= i < a.Length - 1 ==> a[i] != NUL
    modifies a
    ensures ok == ParseCmd(old(a[..a.Length - 1])).Ok?
    ensures !ok ==> a[..] == old(a[..])
    ensures ok ==> c == ParseCmd(old(a[..a.Length - 1])).value && ArgsOk(old(a[..a.Length - 1]), Tokens(c))
    ensures ok ==> forall j :: 0 <= j < |Tokens(c)| ==>
              CString(a[..], Tokens(c)[j].q) == Read(old(a[..a.Length - 1]), Tokens(c)[j])
  {
    var line: Line := a[..a.Length - 1];
    var p := new Parser(line);
    ok, c := p.Parse();
    if ok {
      TokensAreWords(line, c);
      assert a[..] == line + [NUL];
      NulTerminate(a, c);
      forall j | 0 <= j < |Tokens(c)|
        ensures CString(a[..], Tokens(c)[j].q) == Read(line, Tokens(c)[j])
      {
        CutReads(line, a[..], Tokens(c), j);
      }
    }
  }
}
