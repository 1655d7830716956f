/** In the shell '>>' means what '>' means: rewriting it as '>' and a blank leaves the parse of
    every line the same. */
module ShellAppend {
  import opened ShellGrammar

  datatype Pair = Pair(a: Line, b: Line, i: int)

  /** A line a and the line b in which the second character of the token '>>' at i is blank. */
  type Rewrite = w: Pair | Blanked(w.a, w.b, w.i) witness Pair(">>", "> ", 0)

  predicate Blanked(a: Line, b: Line, i: int) {
    && 0 <= i && i + 1 < |a| && a[i] == '>' && a[i + 1] == '>' && (i > 0 ==> a[i - 1] != '>')
    && |b| == |a| && b[i + 1] == ' ' && forall k :: 0 <= k < |a| && k != i + 1 ==> b[k] == a[k]
  }

  /** A cursor not inside that token. */
  predicate On(w: Rewrite, k: int) {
    0 <= k <= |w.a| && k != w.i + 1
  }

  lemma {:induction false} SkipSame(w: Rewrite, k: int)
    requires On(w, k)
    ensures SkipSpace(w.a, k) == SkipSpace(w.b, k) && (SkipSpace(w.a, k) <= w.i <==> k <= w.i)
              && SkipSpace(w.a, k) != w.i + 1
    decreases |w.a| - k
  {
    if k < |w.a| && IsSpace(w.a[k]) {
      SkipSame(w, k + 1);
    }
  }

  lemma {:induction false} WordEndSame(w: Rewrite, k: int)
    requires On(w, k)
    ensures WordEnd(w.a, k) == WordEnd(w.b, k) && WordEnd(w.a, k) != w.i + 1
    decreases |w.a| - k
  {
    if k < |w.a| && IsWordChar(w.a[k]) {
      WordEndSame(w, k + 1);
    }
  }

  /** Tokens agree, but for that one, which is '>>' in a and '>' in b and ends the same way. */
  lemma TokenSame(w: Rewrite, s: int)
    requires On(w, s)
    ensures GetToken(w.a, s).next == GetToken(w.b, s).next != w.i + 1
    ensures GetToken(w.a, s) == GetToken(w.b, s)
              || (GetToken(w.a, s).kind == Append && GetToken(w.b, s).kind == Symbol('>'))
  {
    var q := SkipSpace(w.a, s);
    SkipSame(w, s);
    if q == w.i {
      SkipSame(w, w.i + 2);
      assert SkipSpace(w.b, w.i + 1) == SkipSpace(w.b, w.i + 2);
    } else if q < |w.a| {
      SkipSame(w, q + 1);
      if q + 1 < |w.a| && w.a[q] == '>' && w.a[q + 1] == '>' {
        SkipSame(w, q + 2);
      }
      WordEndSame(w, q);
      SkipSame(w, WordEnd(w.a, q));
    }
  }

  lemma PeekSame(w: Rewrite, s: int, toks: set<char>)
    requires On(w, s)
    ensures Peek(w.a, s, toks) == Peek(w.b, s, toks) && SkipSpace(w.a, s) == SkipSpace(w.b, s) != w.i + 1
  {
    SkipSame(w, s);
  }

  /** The two results are the same, and parsing goes on from a place outside the token. */
  ghost predicate Same<T>(r: Result<T>, t: Result<T>, i: int) {
    r == t && (r.Ok? ==> r.s != i + 1)
  }

  lemma {:induction false} RedirsSame(w: Rewrite, s: int)
    requires On(w, s)
    ensures Same(Redirs(w.a, s), Redirs(w.b, s), w.i)
    decreases |w.a| - s
  {
    PeekSame(w, s, {'<', '>'});
    if Peek(w.a, s, {'<', '>'}) {
      TokenSame(w, s);
      var next := GetToken(w.a, s).next;
      TokenSame(w, next);
      var f := GetToken(w.a, next);
      if f.kind == Word {
        RedirsSame(w, f.next);
        assert Redirect(GetToken(w.a, s).kind, f.span) == Redirect(GetToken(w.b, s).kind, f.span);
      }
    }
  }

  lemma TurnSame(w: Rewrite, s: int, argc: nat)
    requires On(w, s)
    ensures TurnAt(w.a, s, argc) == TurnAt(w.b, s, argc)
              && (!TurnAt(w.a, s, argc).Bad? ==> TurnAt(w.a, s, argc).s != w.i + 1)
  {
    PeekSame(w, s, {'|', ')', '&', ';'});
    TokenSame(w, s);
    RedirsSame(w, GetToken(w.a, s).next);
  }

  lemma {:induction false} ArgsSame(w: Rewrite, s: int, argc: nat)
    requires On(w, s) && argc < MAXARGS
    ensures Same(Args(w.a, s, argc), Args(w.b, s, argc), w.i)
    decreases |w.a| - s
  {
    TurnSame(w, s, argc);
    var t := TurnAt(w.a, s, argc);
    if t.Arg? {
      ArgsSame(w, t.s, argc + 1);
      ArgsUnfold(w.a, s, argc, t, Args(w.a, t.s, argc + 1));
      ArgsUnfold(w.b, s, argc, t, Args(w.a, t.s, argc + 1));
    }
  }

  lemma {:induction false} BacksSame(w: Rewrite, s: int, c: Cmd)
    requires On(w, s)
    ensures Same(Backs(w.a, s, c), Backs(w.b, s, c), w.i)
    decreases |w.a| - s
  {
    PeekSame(w, s, {'&'});
    if Peek(w.a, s, {'&'}) {
      TokenSame(w, s);
      BacksSame(w, GetToken(w.a, s).next, Back(c));
    }
  }

  lemma {:induction false} LineSame(w: Rewrite, s: int)
    requires On(w, s)
    ensures Same(ParseLine(w.a, s), ParseLine(w.b, s), w.i)
    decreases |w.a| - s, 3
  {
    PipeSame(w, s);
    var p := ParsePipe(w.a, s);
    if p.Ok? {
      BacksSame(w, p.s, p.value);
      var k := Backs(w.a, p.s, p.value).s;
      PeekSame(w, k, {';'});
      if Peek(w.a, k, {';'}) {
        TokenSame(w, k);
        LineSame(w, GetToken(w.a, k).next);
      }
    }
  }

  lemma {:induction false} PipeSame(w: Rewrite, s: int)
    requires On(w, s)
    ensures Same(ParsePipe(w.a, s), ParsePipe(w.b, s), w.i)
    decreases |w.a| - s, 2
  {
    ExecSame(w, s);
    var e := ParseExec(w.a, s);
    if e.Ok? {
      PeekSame(w, e.s, {'|'});
      if Peek(w.a, e.s, {'|'}) {
        TokenSame(w, e.s);
        PipeSame(w, GetToken(w.a, e.s).next);
      }
    }
  }

  lemma {:induction false} ExecSame(w: Rewrite, s: int)
    requires On(w, s)
    ensures Same(ParseExec(w.a, s), ParseExec(w.b, s), w.i)
    decreases |w.a| - s, 1
  {
    PeekSame(w, s, {'('});
    if Peek(w.a, s, {'('}) {
      BlockSame(w, s);
    } else {
      RedirsSame(w, s);
      if Redirs(w.a, s).Ok? {
        ArgsSame(w, Redirs(w.a, s).s, 0);
      }
    }
  }

  lemma {:induction false} BlockSame(w: Rewrite, s: int)
    requires On(w, s)
    ensures Same(ParseBlock(w.a, s), ParseBlock(w.b, s), w.i)
    decreases |w.a| - s, 0
  {
    PeekSame(w, s, {'('});
    if Peek(w.a, s, {'('}) {
      TokenSame(w, s);
      var next := GetToken(w.a, s).next;
      LineSame(w, next);
      var c := ParseLine(w.a, next);
      if c.Ok? {
        PeekSame(w, c.s, {')'});
        TokenSame(w, c.s);
        RedirsSame(w, GetToken(w.a, c.s).next);
      }
    }
  }

  /** For every line and every '>>' in it: with '>' and a blank instead the shell builds the
      same command, opening the same file in the same mode, or fails alike. */
  lemma {:induction false} AppendIsOut(line: Line, i: int)
    requires 0 <= i && i + 1 < |line| && line[i] == '>' && line[i + 1] == '>' && (i > 0 ==> line[i - 1] != '>')
    ensures ParseCmd(line) == ParseCmd(line[i + 1 := ' '])
  {
    var w: Rewrite := Pair(line, line[i + 1 := ' '], i);
    LineSame(w, 0);
    var c := ParseLine(line, 0);
    if c.Ok? {
      SkipSame(w, c.s);
    }
  }
}
