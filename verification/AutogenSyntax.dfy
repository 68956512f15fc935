/** The surface syntax that the AutoGen parser reads: printing it, what it means, and that
    parsing the printed tokens gives that meaning. */
module AutogenSyntax {
  import opened Options
  import opened Autogen

  // name[index] = value, value, ... ;   name[index] ;   autogen definitions template ;
  datatype Stmt = Define(name: string, index: Option<Token>, values: seq<Val>)
                | Header(template: Token)
  datatype Val = Simple(token: Token) | Braces(stmts: seq<Stmt>)

  predicate IndexToken(t: Token) { t.code == VarName || t.code == Number }
  predicate TemplateToken(t: Token) { t.code == VarName || t.code == OtherName || t.code == Text }
  predicate ValueToken(t: Token) { TemplateToken(t) || t.code == Number }

  predicate WellFormed(stmts: seq<Stmt>) {
    forall i :: 0 <= i < |stmts| ==> StmtOk(stmts[i])
  }

  predicate StmtOk(s: Stmt) {
    match s
    case Define(_, index, values) => (index.Some? ==> IndexToken(index.value)) && ValuesOk(values)
    case Header(template) => TemplateToken(template)
  }

  predicate ValuesOk(values: seq<Val>) {
    forall i :: 0 <= i < |values| ==> ValOk(values[i])
  }

  predicate ValOk(v: Val) {
    match v
    case Simple(token) => ValueToken(token)
    case Braces(stmts) => WellFormed(stmts)
  }

  /* ---- printing ---- */

  const SEMI := Token(Semicolon, ";")

  function PrintAll(stmts: seq<Stmt>): seq<Token> {
    if stmts == [] then [] else Print(stmts[0]) + PrintAll(stmts[1..])
  }

  function Print(s: Stmt): seq<Token> {
    match s
    case Header(template) => [Token(AutogenWord, "autogen"), Token(DefinitionsWord, "definitions"), template, SEMI]
    case Define(name, index, values) =>
      [Token(VarName, name)] + PrintIndex(index) + (if values == [] then [] else [Token(Equals, "=")] + PrintValues(values)) + [SEMI]
  }

  function PrintIndex(index: Option<Token>): seq<Token> {
    match index
    case None => []
    case Some(t) => [Token(Lbracket, "["), t, Token(Rbracket, "]")]
  }

  function PrintValues(values: seq<Val>): seq<Token>
    requires values != []
  {
    if |values| == 1 then PrintValue(values[0])
    else PrintValue(values[0]) + [Token(Comma, ",")] + PrintValues(values[1..])
  }

  function PrintValue(v: Val): seq<Token> {
    match v
    case Simple(token) => [token]
    case Braces(stmts) => [Token(Lbrace, "{")] + PrintAll(stmts) + [Token(Rbrace, "}")]
  }

  /* ---- what the parser makes of it ---- */

  // The name in force: an index replaces the name, and a block leaves behind the last name
  // read inside it.
  function OwnName(s: Stmt): string
    requires s.Define?
  {
    if s.index.Some? then s.index.value.text else s.name
  }

  function NameAfterAll(n: string, stmts: seq<Stmt>): string
    decreases stmts
  {
    if stmts == [] then n else NameAfterAll(NameAfter(n, stmts[0]), stmts[1..])
  }

  function NameAfter(n: string, s: Stmt): string
    decreases s
  {
    match s
    case Header(_) => n
    case Define(_, _, values) => NameAfterValues(OwnName(s), values)
  }

  function NameAfterValues(n: string, values: seq<Val>): string
    decreases values
  {
    if values == [] then n else NameAfterValues(NameAfterValue(n, values[0]), values[1..])
  }

  function NameAfterValue(n: string, v: Val): string
    decreases v
  {
    match v
    case Simple(_) => n
    case Braces(stmts) => NameAfterAll(n, stmts)
  }

  function Items(stmts: seq<Stmt>): seq<Item> {
    if stmts == [] then [] else ItemsOf(stmts[0]) + Items(stmts[1..])
  }

  function ItemsOf(s: Stmt): seq<Item> {
    match s
    case Header(_) => []
    case Define(_, _, values) =>
      if values == [] then [Item(OwnName(s), Plain(""))] else ValueItems(OwnName(s), values)
  }

  function ValueItems(n: string, values: seq<Val>): seq<Item>
    decreases values
  {
    if values == [] then []
    else [Item(n, ValueOf(values[0]))] + ValueItems(NameAfterValue(n, values[0]), values[1..])
  }

  function ValueOf(v: Val): Value {
    match v
    case Simple(token) => Plain(token.text)
    case Braces(stmts) => Block(Items(stmts))
  }

  /* ---- parsing what was printed ---- */

  // Running a token and then the rest.
  lemma RunCons(m: Machine, t: Token, rest: seq<Token>)
    requires m.phase != Done && Step(m, t).Some?
    ensures Run(m, [t] + rest) == Run(Step(m, t).value, rest)
  {
    assert ([t] + rest)[1..] == rest;
  }

  // The parser moves over some tokens from one state to another, whatever follows.
  ghost predicate Moves(m: Machine, tokens: seq<Token>, m': Machine) {
    forall rest :: Run(m, tokens + rest) == Run(m', rest)
  }

  lemma MovesNone(m: Machine)
    ensures Moves(m, [], m)
  {
    forall rest: seq<Token> ensures Run(m, [] + rest) == Run(m, rest) {
      assert [] + rest == rest;
    }
  }

  lemma MovesOne(m: Machine, t: Token)
    requires m.phase != Done && Step(m, t).Some?
    ensures Moves(m, [t], Step(m, t).value)
  {
    hide Step, Run;
    forall rest ensures Run(m, [t] + rest) == Run(Step(m, t).value, rest) {
      RunCons(m, t, rest);
    }
  }

  lemma MovesOn(m: Machine, a: seq<Token>, m1: Machine, b: seq<Token>, m2: Machine)
    requires Moves(m, a, m1) && Moves(m1, b, m2)
    ensures Moves(m, a + b, m2)
  {
    hide Run;
    forall rest ensures Run(m, a + b + rest) == Run(m2, rest) {
      assert a + b + rest == a + (b + rest);
    }
  }

  lemma {:induction false} StmtsParse(m: Machine, stmts: seq<Stmt>)
    requires m.phase == NeedName && |m.stack| > 0 && WellFormed(stmts)
    ensures Moves(m, PrintAll(stmts), m.(curdef := m.curdef + Items(stmts), newName := NameAfterAll(m.newName, stmts)))
    decreases stmts
  {
    hide Moves;
    if stmts == [] {
      MovesNone(m);
      assert m.curdef + [] == m.curdef;
    } else {
      StmtParses(m, stmts[0]);
      var m1 := m.(curdef := m.curdef + ItemsOf(stmts[0]), newName := NameAfter(m.newName, stmts[0]));
      StmtsParse(m1, stmts[1..]);
      assert m.curdef + Items(stmts) == m1.curdef + Items(stmts[1..]);
      MovesOn(m, Print(stmts[0]), m1, PrintAll(stmts[1..]),
              m.(curdef := m.curdef + Items(stmts), newName := NameAfterAll(m.newName, stmts)));
    }
  }

  lemma {:induction false} StmtParses(m: Machine, s: Stmt)
    requires m.phase == NeedName && |m.stack| > 0 && StmtOk(s)
    ensures Moves(m, Print(s), m.(curdef := m.curdef + ItemsOf(s), newName := NameAfter(m.newName, s)))
    decreases s
  {
    hide Moves, Step;
    match s
    case Header(template) =>
      HeaderParses(m, template);
      assert m.curdef + [] == m.curdef;
    case Define(name, index, values) =>
      var m1 := NameParses(m, name, index);
      if values == [] {
        EmptyAndSemi(m, m1, s);
      } else {
        ValuesAndSemi(m, m1, s);
      }
  }

  lemma EmptyAndSemi(m: Machine, m1: Machine, s: Stmt)
    requires s.Define? && s.values == [] && m.phase == NeedName
    requires m1.phase == HaveName || m1.phase == IndxName
    requires m1 == m.(phase := m1.phase, newName := OwnName(s))
    requires Moves(m, [Token(VarName, s.name)] + PrintIndex(s.index), m1)
    ensures Moves(m, Print(s), m.(curdef := m.curdef + ItemsOf(s), newName := NameAfter(m.newName, s)))
  {
    hide Moves;
    var head := [Token(VarName, s.name)] + PrintIndex(s.index);
    MovesOne(m1, SEMI);
    MovesOn(m, head, m1, [SEMI], Step(m1, SEMI).value);
    assert head + [] == head;
    assert NameAfterValues(OwnName(s), []) == OwnName(s);
  }

  lemma {:induction false} ValuesAndSemi(m: Machine, m1: Machine, s: Stmt)
    requires s.Define? && s.values != [] && StmtOk(s) && |m.stack| > 0
    requires m1.phase == HaveName || m1.phase == IndxName
    requires m1 == m.(phase := m1.phase, newName := OwnName(s))
    requires Moves(m, [Token(VarName, s.name)] + PrintIndex(s.index), m1)
    requires m.phase == NeedName
    ensures Moves(m, Print(s), m.(curdef := m.curdef + ItemsOf(s), newName := NameAfter(m.newName, s)))
    decreases s, 0
  {
    hide Moves;
    var m2 := m1.(phase := NeedValue);
    MovesOne(m1, Token(Equals, "="));
    ValuesParse(m2, s.values);
    var m3 := m2.(phase := HaveValue, curdef := m.curdef + ItemsOf(s), newName := NameAfter(m.newName, s));
    MovesOne(m3, SEMI);
    var head := [Token(VarName, s.name)] + PrintIndex(s.index);
    var body := [Token(Equals, "=")] + PrintValues(s.values);
    MovesOn(m1, [Token(Equals, "=")], m2, PrintValues(s.values), m3);
    MovesOn(m, head, m1, body, m3);
    MovesOn(m, head + body, m3, [SEMI], m3.(phase := NeedName));
  }

  lemma HeaderParses(m: Machine, template: Token)
    requires m.phase == NeedName || m.phase == Init
    requires TemplateToken(template)
    ensures Moves(m, Print(Header(template)), m.(phase := NeedName))
  {
    hide Moves;
    var a, d := Token(AutogenWord, "autogen"), Token(DefinitionsWord, "definitions");
    MovesOne(m, a);
    MovesOne(m.(phase := NeedDef), d);
    MovesOne(m.(phase := NeedTpl), template);
    MovesOne(m.(phase := NeedSemi), SEMI);
    MovesOn(m, [a], m.(phase := NeedDef), [d], m.(phase := NeedTpl));
    MovesOn(m, [a] + [d], m.(phase := NeedTpl), [template], m.(phase := NeedSemi));
    MovesOn(m, [a] + [d] + [template], m.(phase := NeedSemi), [SEMI], m.(phase := NeedName));
    assert Print(Header(template)) == [a] + [d] + [template] + [SEMI];
  }

  lemma NameParses(m: Machine, name: string, index: Option<Token>) returns (m1: Machine)
    requires m.phase == NeedName && (index.Some? ==> IndexToken(index.value))
    ensures m1.phase == HaveName || m1.phase == IndxName
    ensures m1 == m.(phase := m1.phase, newName := if index.Some? then index.value.text else name)
    ensures Moves(m, [Token(VarName, name)] + PrintIndex(index), m1)
  {
    hide Moves;
    var n, open, close := Token(VarName, name), Token(Lbracket, "["), Token(Rbracket, "]");
    m1 := m.(phase := HaveName, newName := name);
    MovesOne(m, n);
    if index.None? {
      assert [n] + PrintIndex(index) == [n];
    } else {
      var t := index.value;
      var m2 := m1.(phase := NeedIdx);
      var m3 := m1.(phase := NeedRbracket, newName := t.text);
      MovesOne(m1, open);
      MovesOne(m2, t);
      MovesOne(m3, close);
      MovesOn(m, [n], m1, [open], m2);
      MovesOn(m, [n] + [open], m2, [t], m3);
      m1 := m3.(phase := IndxName);
      MovesOn(m, [n] + [open] + [t], m3, [close], m1);
      assert [n] + PrintIndex(index) == [n] + [open] + [t] + [close];
    }
  }

  lemma OneValue(n: string, v: Val)
    ensures ValueItems(n, [v]) == [Item(n, ValueOf(v))]
    ensures NameAfterValues(n, [v]) == NameAfterValue(n, v)
  {
    var none := [v][1..];
    assert none == [];
    assert NameAfterValues(NameAfterValue(n, v), none) == NameAfterValue(n, v);
    assert ValueItems(NameAfterValue(n, v), none) == [];
  }

  lemma {:induction false} ValuesParse(m: Machine, values: seq<Val>)
    requires m.phase == NeedValue && |m.stack| > 0 && values != [] && ValuesOk(values)
    ensures Moves(m, PrintValues(values),
                  m.(phase := HaveValue, curdef := m.curdef + ValueItems(m.newName, values),
                     newName := NameAfterValues(m.newName, values)))
    decreases values
  {
    hide Moves;
    var v := values[0];
    ValueParses(m, v);
    var m1 := m.(phase := HaveValue, curdef := m.curdef + [Item(m.newName, ValueOf(v))], newName := NameAfterValue(m.newName, v));
    var end := m.(phase := HaveValue, curdef := m.curdef + ValueItems(m.newName, values), newName := NameAfterValues(m.newName, values));
    if |values| == 1 {
      assert values == [v];
      OneValue(m.newName, v);
    } else {
      var comma := Token(Comma, ",");
      var m2 := m1.(phase := NeedValue);
      MovesOne(m1, comma);
      ValuesParse(m2, values[1..]);
      assert m.curdef + ValueItems(m.newName, values) == m2.curdef + ValueItems(m2.newName, values[1..]);
      MovesOn(m, PrintValue(v), m1, [comma], m2);
      MovesOn(m, PrintValue(v) + [comma], m2, PrintValues(values[1..]), end);
    }
  }

  lemma {:induction false} ValueParses(m: Machine, v: Val)
    requires m.phase == NeedValue && |m.stack| > 0 && ValOk(v)
    ensures Moves(m, PrintValue(v),
                  m.(phase := HaveValue, curdef := m.curdef + [Item(m.newName, ValueOf(v))],
                     newName := NameAfterValue(m.newName, v)))
    decreases v
  {
    hide Moves;
    match v
    case Simple(token) =>
      MovesOne(m, token);
    case Braces(stmts) =>
      var open, close := Token(Lbrace, "{"), Token(Rbrace, "}");
      var m1 := m.(phase := NeedName, stack := m.stack + [Frame(m.newName, m.curdef)], curdef := []);
      MovesOne(m, open);
      StmtsParse(m1, stmts);
      assert [] + Items(stmts) == Items(stmts);
      var m2 := m1.(curdef := Items(stmts), newName := NameAfterAll(m.newName, stmts));
      MovesOne(m2, close);
      assert m2.stack[..|m2.stack| - 1] == m.stack;
      MovesOn(m, [open], m1, PrintAll(stmts), m2);
      MovesOn(m, [open] + PrintAll(stmts), m2, [close], Step(m2, close).value);
  }

  /* ---- whole files ---- */

  function PrintFile(template: Token, stmts: seq<Stmt>): seq<Token> {
    Print(Header(template)) + PrintAll(stmts) + [Token(Eof, "")]
  }

  // Any file with a header and well-formed statements, nested to any depth, is accepted, and
  // adds the statements' items to the root definition.
  lemma FileParses(m: Machine, template: Token, stmts: seq<Stmt>)
    requires m.phase == Init && |m.stack| == 1 && TemplateToken(template) && WellFormed(stmts)
    ensures Run(m, PrintFile(template, stmts))
         == Some(m.(phase := Done, curdef := m.curdef + Items(stmts), newName := NameAfterAll(m.newName, stmts)))
  {
    hide Moves, Run, Print, PrintAll, Items, NameAfterAll, WellFormed;
    HeaderParses(m, template);
    var m1 := m.(phase := NeedName);
    StmtsParse(m1, stmts);
    var m2 := m1.(curdef := m.curdef + Items(stmts), newName := NameAfterAll(m.newName, stmts));
    var eof := Token(Eof, "");
    MovesOn(m, Print(Header(template)), m1, PrintAll(stmts), m2);
    MovesOne(m2, eof);
    MovesOn(m, Print(Header(template)) + PrintAll(stmts), m2, [eof], m2.(phase := Done));
    MovesToEnd(m, PrintFile(template, stmts), m2.(phase := Done));
  }

  lemma MovesToEnd(m: Machine, tokens: seq<Token>, m': Machine)
    requires Moves(m, tokens, m')
    ensures Run(m, tokens) == Some(m')
  {
    assert tokens + [] == tokens;
    assert Run(m', []) == Some(m');
  }

  /* ---- definition trees ---- */

  // One statement an item, every text quoted.
  function Canonical(items: seq<Item>): seq<Stmt> {
    if items == [] then [] else [Define(items[0].name, None, [CanonicalValue(items[0].value)])] + Canonical(items[1..])
  }

  function CanonicalValue(v: Value): Val {
    match v
    case Plain(text) => Simple(Token(Text, text))
    case Block(items) => Braces(Canonical(items))
  }

  lemma {:induction false} CanonicalMeans(items: seq<Item>)
    ensures WellFormed(Canonical(items)) && Items(Canonical(items)) == items
    decreases items
  {
    if items != [] {
      var v := items[0].value;
      var s := Define(items[0].name, None, [CanonicalValue(v)]);
      CanonicalValueMeans(v);
      CanonicalMeans(items[1..]);
      var stmts := Canonical(items);
      assert stmts[0] == s && stmts[1..] == Canonical(items[1..]);
      OneValue(items[0].name, CanonicalValue(v));
      assert ItemsOf(s) == [items[0]];
      forall i | 0 <= i < |stmts| ensures StmtOk(stmts[i]) {
        if i > 0 { assert stmts[i] == Canonical(items[1..])[i - 1]; }
      }
    }
  }

  lemma {:induction false} CanonicalValueMeans(v: Value)
    ensures ValOk(CanonicalValue(v)) && ValueOf(CanonicalValue(v)) == v
    decreases v
  {
    if v.Block? { CanonicalMeans(v.items); }
  }

  // Every definition tree, of any depth, comes back from its printed tokens.
  lemma TreeRoundTrip(m: Machine, template: Token, tree: seq<Item>)
    requires m.phase == Init && |m.stack| == 1 && m.curdef == [] && TemplateToken(template)
    ensures var r := Run(m, PrintFile(template, Canonical(tree)));
            r.Some? && r.value.phase == Done && r.value.stack == m.stack && r.value.curdef == tree
  {
    hide Run, PrintFile;
    CanonicalMeans(tree);
    FileParses(m, template, Canonical(tree));
    assert [] + Items(Canonical(tree)) == tree;
  }

  /* ---- names ---- */

  // What the syntax says: each value belongs to the name its statement starts with.
  function Intended(stmts: seq<Stmt>): seq<Item> {
    if stmts == [] then [] else IntendedOf(stmts[0]) + Intended(stmts[1..])
  }

  function IntendedOf(s: Stmt): seq<Item> {
    match s
    case Header(_) => []
    case Define(name, _, values) =>
      if values == [] then [Item(name, Plain(""))] else IntendedItems(name, values)
  }

  function IntendedItems(n: string, values: seq<Val>): seq<Item>
    decreases values
  {
    if values == [] then [] else [Item(n, IntendedValue(values[0]))] + IntendedItems(n, values[1..])
  }

  function IntendedValue(v: Val): Value {
    match v
    case Simple(token) => Plain(token.text)
    case Braces(stmts) => Block(Intended(stmts))
  }

  // No name is lost: an index repeats its name, and a block that is followed by a comma
  // leaves the name as it was.
  predicate NamesKept(stmts: seq<Stmt>) {
    stmts == [] || (NameKept(stmts[0]) && NamesKept(stmts[1..]))
  }

  predicate NameKept(s: Stmt) {
    match s
    case Header(_) => true
    case Define(name, _, values) => OwnName(s) == name && ValuesKept(name, values)
  }

  predicate ValuesKept(n: string, values: seq<Val>)
    decreases values
  {
    values == [] || (ValueKept(values[0]) && (|values| > 1 ==> NameAfterValue(n, values[0]) == n) && ValuesKept(n, values[1..]))
  }

  predicate ValueKept(v: Val) {
    match v
    case Simple(_) => true
    case Braces(stmts) => NamesKept(stmts)
  }

  lemma {:induction false} Sizes(s: Stmt)
    ensures |ItemsOf(s)| == |IntendedOf(s)|
  {
    if s.Define? { ValueSizes(OwnName(s), s.name, s.values); }
  }

  lemma {:induction false} ValueSizes(n: string, k: string, values: seq<Val>)
    ensures |ValueItems(n, values)| == |IntendedItems(k, values)| == |values|
    decreases |values|
  {
    if values != [] { ValueSizes(NameAfterValue(n, values[0]), k, values[1..]); }
  }

  // The parser gives the intended items exactly when no name is lost.
  lemma {:induction false} IntendedIff(stmts: seq<Stmt>)
    ensures Items(stmts) == Intended(stmts) <==> NamesKept(stmts)
    decreases stmts
  {
    if stmts != [] {
      var s := stmts[0];
      IntendedStmtIff(s);
      IntendedIff(stmts[1..]);
      Sizes(s);
      SplitEqual(ItemsOf(s), Items(stmts[1..]), IntendedOf(s), Intended(stmts[1..]));
    }
  }

  lemma SplitEqual<T>(a: seq<T>, b: seq<T>, c: seq<T>, d: seq<T>)
    requires |a| == |c|
    ensures a + b == c + d <==> a == c && b == d
  {
    if a + b == c + d {
      assert a == (a + b)[..|a|] && c == (c + d)[..|c|];
      assert b == (a + b)[|a|..] && d == (c + d)[|c|..];
    }
  }

  lemma {:induction false} IntendedStmtIff(s: Stmt)
    ensures ItemsOf(s) == IntendedOf(s) <==> NameKept(s)
    decreases s
  {
    if s.Define? {
      if s.values == [] {
        assert ItemsOf(s)[0] == Item(OwnName(s), Plain("")) && IntendedOf(s)[0] == Item(s.name, Plain(""));
      } else {
        IntendedValuesIff(OwnName(s), s.name, s.values);
      }
    }
  }

  lemma {:induction false} IntendedValuesIff(n: string, k: string, values: seq<Val>)
    requires values != []
    ensures ValueItems(n, values) == IntendedItems(k, values) <==> n == k && ValuesKept(k, values)
    decreases values
  {
    var v := values[0];
    var next := NameAfterValue(n, v);
    IntendedValueIff(v);
    SplitEqual([Item(n, ValueOf(v))], ValueItems(next, values[1..]), [Item(k, IntendedValue(v))], IntendedItems(k, values[1..]));
    assert [Item(n, ValueOf(v))] == [Item(k, IntendedValue(v))] <==> Item(n, ValueOf(v)) == Item(k, IntendedValue(v)) by {
      assert [Item(n, ValueOf(v))][0] == Item(n, ValueOf(v)) && [Item(k, IntendedValue(v))][0] == Item(k, IntendedValue(v));
    }
    if |values| > 1 {
      IntendedValuesIff(next, k, values[1..]);
    }
  }

  lemma {:induction false} IntendedValueIff(v: Val)
    ensures ValueOf(v) == IntendedValue(v) <==> ValueKept(v)
    decreases v
  {
    if v.Braces? { IntendedIff(v.stmts); }
  }

  lemma OneStmt(n: string, s: Stmt)
    ensures Items([s]) == ItemsOf(s) && NameAfterAll(n, [s]) == NameAfter(n, s)
  {
    var none := [s][1..];
    assert none == [];
    assert Items(none) == [] && NameAfterAll(NameAfter(n, s), none) == NameAfter(n, s);
  }

  // a = { b = "x"; }, "y";  files "y" under b.
  lemma CommaAfterBlock()
    ensures var x, y := Token(Text, "x"), Token(Text, "y");
            var stmts := [Define("a", None, [Braces([Define("b", None, [Simple(x)])]), Simple(y)])];
            Items(stmts) == [Item("a", Block([Item("b", Plain("x"))])), Item("b", Plain("y"))]
  {
    var x, y := Token(Text, "x"), Token(Text, "y");
    var inner := Define("b", None, [Simple(x)]);
    var outer := Define("a", None, [Braces([inner]), Simple(y)]);
    OneValue("b", Simple(x));
    OneValue("b", Simple(y));
    OneStmt("a", inner);
    OneStmt("a", outer);
    var b := Braces([inner]);
    assert outer.values[1..] == [Simple(y)];
    assert NameAfterValue("a", b) == "b";
    assert ValueOf(b) == Block([Item("b", Plain("x"))]);
    assert ValueItems("a", outer.values) == [Item("a", ValueOf(b))] + ValueItems("b", [Simple(y)]);
  }
}
