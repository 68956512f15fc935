/** The language that the AutoGen transition table accepts is exactly the printed syntax. */
module AutogenGrammar {
  import opened Options
  import opened Autogen
  import opened AutogenSyntax

  // The tokens whose text matters.
  predicate Carries(code: Code) {
    code == VarName || code == OtherName || code == Text || code == Number
  }

  predicate Alike(a: Token, b: Token) { a.code == b.code && (Carries(a.code) ==> a.text == b.text) }

  ghost predicate Same(a: seq<Token>, b: seq<Token>) {
    |a| == |b| && forall i :: 0 <= i < |a| ==> Alike(a[i], b[i])
  }

  lemma AlikeSteps(m: Machine, a: Token, b: Token)
    requires Alike(a, b)
    ensures Step(m, a) == Step(m, b)
  {
  }

  lemma {:induction false} SameRuns(m: Machine, a: seq<Token>, b: seq<Token>)
    requires Same(a, b)
    ensures Run(m, a) == Run(m, b)
    decreases |a|
  {
    hide Step, Alike;
    if a != [] && m.phase != Done {
      AlikeSteps(m, a[0], b[0]);
      if Step(m, a[0]).Some? { SameRuns(Step(m, a[0]).value, a[1..], b[1..]); }
    }
  }

  lemma SameParts(a: seq<Token>, b: seq<Token>, c: seq<Token>, d: seq<Token>)
    requires Same(a, c) && Same(b, d)
    ensures Same(a + b, c + d)
  {
    hide Alike;
  }

  lemma SameSelf(a: seq<Token>)
    ensures Same(a, a)
  {
  }

  // Running over tokens like `p` does what running over `p` does.
  lemma MovesLike(m: Machine, tokens: seq<Token>, p: seq<Token>, m': Machine)
    requires Moves(m, p, m') && |p| <= |tokens| && Same(tokens[..|p|], p)
    ensures Run(m, tokens) == Run(m', tokens[|p|..])
  {
    hide Alike, Run;
    var rest := tokens[|p|..];
    assert tokens == tokens[..|p|] + rest;
    SameSelf(rest);
    SameParts(tokens[..|p|], rest, p, rest);
    SameRuns(m, tokens, p + rest);
  }

  /* ---- following an accepted run ---- */

  // The parser is in the middle of a file that it will accept.
  ghost predicate Fed(m: Machine, tokens: seq<Token>) {
    WholeFile(tokens) && Run(m, tokens).Some? && |m.stack| > 0 && m.phase != Done
  }

  lemma StepPhase(m: Machine, t: Token)
    requires Step(m, t).Some?
    ensures Transition(m.phase, t.code).Some? && Step(m, t).value.phase == Transition(m.phase, t.code).value.0
    ensures t.code == Eof ==> m.phase == NeedName
  {
  }

  lemma Next(m: Machine, tokens: seq<Token>) returns (m1: Machine, rest: seq<Token>)
    requires Fed(m, tokens) && (m.phase == NeedName ==> tokens[0].code != Eof)
    ensures Step(m, tokens[0]) == Some(m1) && rest == tokens[1..] && Fed(m1, rest)
    ensures Transition(m.phase, tokens[0].code).Some?
    ensures m1.phase == Transition(m.phase, tokens[0].code).value.0
  {
    assert Step(m, tokens[0]).Some?;
    StepDepth(m, tokens[0]);
    OnlyEofFinishes(m, tokens[0]);
    StepPhase(m, tokens[0]);
    hide Step, Transition;
    m1, rest := Step(m, tokens[0]).value, tokens[1..];
    assert tokens[0].code != Eof;
    assert |tokens| > 1 && rest[|rest| - 1] == tokens[|tokens| - 1];
  }

  lemma {:induction false} ReadStmts(m: Machine, tokens: seq<Token>) returns (stmts: seq<Stmt>, k: nat)
    requires Fed(m, tokens) && m.phase == NeedName
    ensures k < |tokens| && Same(tokens[..k], PrintAll(stmts)) && WellFormed(stmts)
    ensures tokens[k].code == Eof || tokens[k].code == Rbrace
    decreases |tokens|, 3
  {
    hide Same, Fed, StmtOk;
    FedNonempty(m, tokens);
    var code := tokens[0].code;
    if code == Eof || code == Rbrace {
      stmts, k := [], 0;
      SameSelf([]);
      assert tokens[..0] == [];
    } else {
      var s, n, m1 := ReadStmt(m, tokens);
      var more, j := ReadStmts(m1, tokens[n..]);
      stmts, k := [s] + more, n + j;
      assert stmts[1..] == more;
      SameParts(tokens[..n], tokens[n..][..j], Print(s), PrintAll(more));
      assert tokens[..k] == tokens[..n] + tokens[n..][..j];
      assert tokens[k] == tokens[n..][j];
      forall i | 0 <= i < |stmts| ensures StmtOk(stmts[i]) {
        if i > 0 { assert stmts[i] == more[i - 1]; }
      }
    }
  }

  lemma FedNonempty(m: Machine, tokens: seq<Token>)
    requires Fed(m, tokens)
    ensures |tokens| > 0 && |m.stack| > 0
  {
  }

  lemma FedAfter(m: Machine, tokens: seq<Token>, n: nat, m1: Machine)
    requires Fed(m, tokens) && n < |tokens| && Run(m, tokens) == Run(m1, tokens[n..]) && |m1.stack| > 0 && m1.phase != Done
    ensures Fed(m1, tokens[n..])
  {
    hide Run;
    var rest := tokens[n..];
    assert rest[|rest| - 1] == tokens[|tokens| - 1];
  }

  lemma ReadHeader(m: Machine, tokens: seq<Token>) returns (template: Token, m1: Machine)
    requires Fed(m, tokens) && (m.phase == NeedName || m.phase == Init) && tokens[0].code == AutogenWord
    ensures |tokens| > 4 && TemplateToken(template) && Same(tokens[..4], Print(Header(template)))
    ensures m1 == m.(phase := NeedName) && Fed(m1, tokens[4..])
  {
    hide Fed;
    FedNonempty(m, tokens);
    var a, r1 := Next(m, tokens);
    FedNonempty(a, r1);
    var b, r2 := Next(a, r1);
    FedNonempty(b, r2);
    var c, r3 := Next(b, r2);
    FedNonempty(c, r3);
    var d, r4 := Next(c, r3);
    FedNonempty(d, r4);
    template, m1 := r2[0], d;
    assert r4 == tokens[4..] && tokens[..4] == [tokens[0], r1[0], r2[0], r3[0]];
  }

  lemma ReadName(m: Machine, tokens: seq<Token>) returns (index: Option<Token>, n: nat, m1: Machine)
    requires Fed(m, tokens) && m.phase == NeedName && tokens[0].code == VarName
    ensures 0 < n < |tokens| && (index.Some? ==> IndexToken(index.value))
    ensures Same(tokens[..n], [Token(VarName, tokens[0].text)] + PrintIndex(index))
    ensures (m1.phase == HaveName || m1.phase == IndxName) && Fed(m1, tokens[n..])
    ensures tokens[n].code == Semicolon || tokens[n].code == Equals
  {
    hide Fed, Step, Same, PrintIndex;
    FedNonempty(m, tokens);
    var a, r := Next(m, tokens);
    FedNonempty(a, r);
    var name := Token(VarName, tokens[0].text);
    OneAlike(tokens[0], name);
    if r[0].code != Lbracket {
      var b, r2 := Next(a, r);
      index, n, m1 := None, 1, a;
      NoIndex();
      assert [name] + [] == [name] && tokens[..1] == [tokens[0]];
    } else {
      var t, b := ReadIndex(a, r);
      FedNonempty(b, r[3..]);
      var c, r2 := Next(b, r[3..]);
      index, n, m1 := Some(t), 4, b;
      SameParts([tokens[0]], r[..3], [name], PrintIndex(index));
      assert tokens[..4] == [tokens[0]] + r[..3] && r[3..] == tokens[4..];
    }
  }

  lemma NoIndex()
    ensures PrintIndex(None) == []
  {
  }

  lemma ReadIndex(m: Machine, tokens: seq<Token>) returns (index: Token, m1: Machine)
    requires Fed(m, tokens) && m.phase == HaveName && tokens[0].code == Lbracket
    ensures |tokens| > 3 && IndexToken(index) && Same(tokens[..3], PrintIndex(Some(index)))
    ensures m1.phase == IndxName && Fed(m1, tokens[3..])
  {
    hide Fed, Step;
    FedNonempty(m, tokens);
    var a, r1 := Next(m, tokens);
    FedNonempty(a, r1);
    var b, r2 := Next(a, r1);
    FedNonempty(b, r2);
    var c, r3 := Next(b, r2);
    FedNonempty(c, r3);
    index, m1 := r1[0], c;
    assert r3 == tokens[3..] && tokens[..3] == [tokens[0], r1[0], r2[0]];
  }

  lemma {:induction false} ReadStmt(m: Machine, tokens: seq<Token>) returns (s: Stmt, n: nat, m1: Machine)
    requires Fed(m, tokens) && m.phase == NeedName && tokens[0].code != Eof && tokens[0].code != Rbrace
    ensures 0 < n < |tokens| && Same(tokens[..n], Print(s)) && StmtOk(s)
    ensures m1.phase == NeedName && Fed(m1, tokens[n..])
    decreases |tokens|, 2
  {
    hide Fed, Same;
    FedNonempty(m, tokens);
    var a, r := Next(m, tokens);
    if tokens[0].code == AutogenWord {
      var template, m2 := ReadHeader(m, tokens);
      s, n, m1 := Header(template), 4, m2;
    } else {
      s, n, m1 := ReadDefine(m, tokens);
    }
  }

  lemma {:induction false} ReadDefine(m: Machine, tokens: seq<Token>) returns (s: Stmt, n: nat, m1: Machine)
    requires Fed(m, tokens) && m.phase == NeedName && tokens[0].code == VarName
    ensures 0 < n < |tokens| && Same(tokens[..n], Print(s)) && StmtOk(s)
    ensures m1.phase == NeedName && Fed(m1, tokens[n..])
    decreases |tokens|, 1
  {
    hide Fed, Same, ValuesOk, Step;
    FedNonempty(m, tokens);
    var name := tokens[0].text;
    var index, k, a := ReadName(m, tokens);
    var rest := tokens[k..];
    hide Print, PrintIndex, PrintValues;
    var b, r := Next(a, rest);
    FedNonempty(b, r);
    assert rest[0] == tokens[k];
    if tokens[k].code == Semicolon {
      s, n, m1 := Define(name, index, []), k + 1, b;
      CutOne(tokens, k);
      JoinNone(s, tokens[..k], rest[0]);
      NoValues();
    } else {
      var values, j, c := ReadValues(b, r);
      var d, r2 := Next(c, r[j..]);
      FedNonempty(d, r2);
      s, n, m1 := Define(name, index, values), k + 1 + j + 1, d;
      CutTwo(tokens, k, j);
      JoinValues(s, tokens[..k], rest[0], r[..j], r[j]);
    }
  }

  lemma CutOne(tokens: seq<Token>, k: nat)
    requires k < |tokens|
    ensures tokens[..k + 1] == tokens[..k] + [tokens[k..][0]]
    ensures tokens[k..][1..] == tokens[k + 1..]
  {
  }

  lemma CutTwo(tokens: seq<Token>, k: nat, j: nat)
    requires k + 1 + j < |tokens|
    ensures var r := tokens[k..][1..];
            && r[j..][0] == r[j] && r[j..][1..] == tokens[k + 1 + j + 1..]
            && tokens[..k + 1 + j + 1] == tokens[..k] + [tokens[k..][0]] + r[..j] + [r[j]]
  {
  }

  lemma JoinNone(s: Stmt, x: seq<Token>, semi: Token)
    requires s.Define? && s.values == [] && Same(x, [Token(VarName, s.name)] + PrintIndex(s.index)) && semi.code == Semicolon
    ensures Same(x + [semi], Print(s))
  {
    hide Same;
    var head := [Token(VarName, s.name)] + PrintIndex(s.index);
    OneAlike(semi, SEMI);
    SameParts(x, [semi], head, [SEMI]);
    assert Print(s) == head + [SEMI];
  }

  lemma JoinValues(s: Stmt, x: seq<Token>, e: Token, y: seq<Token>, semi: Token)
    requires s.Define? && s.values != [] && Same(x, [Token(VarName, s.name)] + PrintIndex(s.index))
    requires e.code == Equals && Same(y, PrintValues(s.values)) && semi.code == Semicolon
    ensures Same(x + [e] + y + [semi], Print(s))
  {
    hide Same;
    var head := [Token(VarName, s.name)] + PrintIndex(s.index);
    var eq, values := Token(Equals, "="), PrintValues(s.values);
    OneAlike(e, eq);
    OneAlike(semi, SEMI);
    SameParts(x, [e], head, [eq]);
    SameParts(x + [e], y, head + [eq], values);
    SameParts(x + [e] + y, [semi], head + [eq] + values, [SEMI]);
    assert Print(s) == head + [eq] + values + [SEMI];
  }

  lemma NoValues()
    ensures ValuesOk([])
  {
  }

  lemma OneAlike(a: Token, b: Token)
    requires Alike(a, b)
    ensures Same([a], [b])
  {
  }

  lemma {:induction false} ReadValues(m: Machine, tokens: seq<Token>) returns (values: seq<Val>, k: nat, m1: Machine)
    requires Fed(m, tokens) && m.phase == NeedValue
    ensures 0 < k < |tokens| && values != [] && Same(tokens[..k], PrintValues(values)) && ValuesOk(values)
    ensures tokens[k].code == Semicolon && m1.phase == HaveValue && Fed(m1, tokens[k..])
    decreases |tokens|, 1
  {
    hide Fed, Same, ValOk;
    var v, n, a := ReadValue(m, tokens);
    var rest := tokens[n..];
    var b, r := Next(a, rest);
    FedNonempty(b, r);
    assert rest[0] == tokens[n];
    if rest[0].code == Semicolon {
      values, k, m1 := [v], n, a;
    } else {
      var more, j, c := ReadValues(b, r);
      values, k, m1 := [v] + more, n + 1 + j, c;
      var comma := Token(Comma, ",");
      OneAlike(rest[0], comma);
      SameParts(tokens[..n], [rest[0]], PrintValue(v), [comma]);
      SameParts(tokens[..n] + [rest[0]], r[..j], PrintValue(v) + [comma], PrintValues(more));
      assert values[1..] == more;
      assert tokens[..k] == tokens[..n] + [rest[0]] + r[..j];
      assert r[j..] == tokens[k..] && r[j] == tokens[k];
      forall i | 0 <= i < |values| ensures ValOk(values[i]) {
        if i > 0 { assert values[i] == more[i - 1]; }
      }
    }
  }

  lemma {:induction false} ReadValue(m: Machine, tokens: seq<Token>) returns (v: Val, n: nat, m1: Machine)
    requires Fed(m, tokens) && m.phase == NeedValue
    ensures 0 < n < |tokens| && Same(tokens[..n], PrintValue(v)) && ValOk(v)
    ensures m1.phase == HaveValue && Fed(m1, tokens[n..])
    decreases |tokens|, 0
  {
    hide Fed, Same, WellFormed, PrintAll;
    FedNonempty(m, tokens);
    var a, r := Next(m, tokens);
    FedNonempty(a, r);
    if tokens[0].code != Lbrace {
      v, n, m1 := Simple(tokens[0]), 1, a;
      SameSelf([tokens[0]]);
      assert tokens[..1] == [tokens[0]];
    } else {
      var stmts, k := ReadStmts(a, r);
      var b := AfterStmts(a, r, stmts, k);
      CloserIsBrace(b, r[k..]);
      var c, r2 := Next(b, r[k..]);
      FedNonempty(c, r2);
      v, n, m1 := Braces(stmts), 1 + k + 1, c;
      JoinBlock(stmts, tokens[0], r[..k], r[k]);
      CutTwo(tokens, 0, k);
      assert tokens[..0] + [tokens[0..][0]] == [tokens[0]] && tokens[0..] == tokens;
    }
  }

  lemma JoinBlock(stmts: seq<Stmt>, open: Token, x: seq<Token>, close: Token)
    requires open.code == Lbrace && Same(x, PrintAll(stmts)) && close.code == Rbrace
    ensures Same([open] + x + [close], PrintValue(Braces(stmts)))
  {
    hide Same, PrintAll;
    var l, r := Token(Lbrace, "{"), Token(Rbrace, "}");
    OneAlike(open, l);
    OneAlike(close, r);
    SameParts([open], x, [l], PrintAll(stmts));
    SameParts([open] + x, [close], [l] + PrintAll(stmts), [r]);
  }

  lemma AfterStmts(m: Machine, tokens: seq<Token>, stmts: seq<Stmt>, k: nat) returns (m1: Machine)
    requires Fed(m, tokens) && m.phase == NeedName && k < |tokens|
    requires Same(tokens[..k], PrintAll(stmts)) && WellFormed(stmts)
    ensures m1.phase == NeedName && m1.stack == m.stack && Fed(m1, tokens[k..])
  {
    hide Alike, Run, WellFormed;
    StmtsParse(m, stmts);
    m1 := m.(curdef := m.curdef + Items(stmts), newName := NameAfterAll(m.newName, stmts));
    MovesLike(m, tokens, PrintAll(stmts), m1);
    FedAfter(m, tokens, k, m1);
  }

  // Inside a block the end of the file is not accepted, and outside one a brace is not.
  lemma CloserIsBrace(m: Machine, tokens: seq<Token>)
    requires Fed(m, tokens) && m.phase == NeedName
    ensures |m.stack| > 1 ==> tokens[0].code != Eof
    ensures |m.stack| == 1 ==> tokens[0].code != Rbrace
  {
    assert Step(m, tokens[0]).Some?;
  }

  /* ---- the main result ---- */

  ghost predicate Printed(tokens: seq<Token>, template: Token, stmts: seq<Stmt>) {
    TemplateToken(template) && WellFormed(stmts) && Same(tokens, PrintFile(template, stmts))
  }

  lemma AcceptedIsPrinted(m: Machine, tokens: seq<Token>) returns (template: Token, stmts: seq<Stmt>)
    requires m.phase == Init && |m.stack| == 1 && WholeFile(tokens) && Run(m, tokens).Some?
    ensures Printed(tokens, template, stmts)
  {
    hide Same, WellFormed;
    assert Step(m, tokens[0]).Some?;
    var t, a := ReadHeader(m, tokens);
    var rest := tokens[4..];
    var ss, k := ReadStmts(a, rest);
    var b := AfterStmts(a, rest, ss, k);
    CloserIsBrace(b, rest[k..]);
    assert rest[k] == tokens[4 + k] && 4 + k == |tokens| - 1;
    template, stmts := t, ss;
    var eof := Token(Eof, "");
    OneAlike(rest[k], eof);
    SameParts(tokens[..4], rest[..k], Print(Header(t)), PrintAll(ss));
    SameParts(tokens[..4] + rest[..k], [rest[k]], Print(Header(t)) + PrintAll(ss), [eof]);
    assert tokens == tokens[..4] + rest[..k] + [rest[k]];
  }

  // A whole file is accepted exactly when it is a header and well-formed statements, nested
  // to any depth; and then the root definition gains exactly their items.
  lemma AcceptsExactlyTheGrammar(m: Machine, tokens: seq<Token>)
    requires m.phase == Init && |m.stack| == 1 && WholeFile(tokens)
    ensures Run(m, tokens).Some? <==> exists template, stmts :: Printed(tokens, template, stmts)
    ensures forall template, stmts | Printed(tokens, template, stmts) ::
              Run(m, tokens).Some? && Run(m, tokens).value.curdef == m.curdef + Items(stmts)
  {
    hide Same, WellFormed, Run, WholeFile, PrintFile;
    forall template, stmts | Printed(tokens, template, stmts)
      ensures Run(m, tokens).Some? && Run(m, tokens).value.curdef == m.curdef + Items(stmts)
    {
      FileParses(m, template, stmts);
      SameRuns(m, tokens, PrintFile(template, stmts));
    }
    if Run(m, tokens).Some? {
      var template, stmts := AcceptedIsPrinted(m, tokens);
    }
  }
}
