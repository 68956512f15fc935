/** The AutoGen definitions parser of grub/gentpl.py: a transition table with an explicit
    stack, run over tokens. */
module Autogen {
  import opened Options

  datatype Code = AutogenWord | DefinitionsWord | Eof | VarName | OtherName | Text | Number
                | Semicolon | Equals | Comma | Lbrace | Rbrace | Lbracket | Rbracket

  datatype Token = Token(code: Code, text: string)

  datatype Phase = Init | NeedDef | NeedTpl | NeedSemi | NeedName | HaveName | NeedValue | NeedIdx
                 | NeedRbracket | IndxName | HaveValue | Done

  datatype Handler = Nothing | NeedNameEnd | NeedNameVarName | EndBlock | EmptyVal | StrValue
                   | StartBlock | IndexedName

  // AutogenDefinition: named values in order.
  datatype Item = Item(name: string, value: Value)
  datatype Value = Plain(text: string) | Block(items: seq<Item>)

  function Transition(phase: Phase, code: Code): Option<(Phase, Handler)> {
    match (phase, code)
    case (Init, AutogenWord) => Some((NeedDef, Nothing))
    case (NeedDef, DefinitionsWord) => Some((NeedTpl, Nothing))
    case (NeedTpl, VarName) => Some((NeedSemi, Nothing))
    case (NeedTpl, OtherName) => Some((NeedSemi, Nothing))
    case (NeedTpl, Text) => Some((NeedSemi, Nothing))
    case (NeedSemi, Semicolon) => Some((NeedName, Nothing))
    case (NeedName, AutogenWord) => Some((NeedDef, Nothing))
    case (NeedName, Eof) => Some((Done, NeedNameEnd))
    case (NeedName, VarName) => Some((HaveName, NeedNameVarName))
    case (NeedName, Rbrace) => Some((HaveValue, EndBlock))
    case (HaveName, Semicolon) => Some((NeedName, EmptyVal))
    case (HaveName, Equals) => Some((NeedValue, Nothing))
    case (HaveName, Lbracket) => Some((NeedIdx, Nothing))
    case (NeedValue, VarName) => Some((HaveValue, StrValue))
    case (NeedValue, OtherName) => Some((HaveValue, StrValue))
    case (NeedValue, Text) => Some((HaveValue, StrValue))
    case (NeedValue, Number) => Some((HaveValue, StrValue))
    case (NeedValue, Lbrace) => Some((NeedName, StartBlock))
    case (NeedIdx, VarName) => Some((NeedRbracket, IndexedName))
    case (NeedIdx, Number) => Some((NeedRbracket, IndexedName))
    case (NeedRbracket, Rbracket) => Some((IndxName, Nothing))
    case (IndxName, Semicolon) => Some((NeedName, EmptyVal))
    case (IndxName, Equals) => Some((NeedValue, Nothing))
    case (HaveValue, Semicolon) => Some((NeedName, Nothing))
    case (HaveValue, Comma) => Some((NeedValue, Nothing))
    case _ => None
  }

  /* ---- the machine ---- */

  // A saved definition with the name its open block will get.
  datatype Frame = Frame(name: string, def: seq<Item>)

  // def_stack, curdef and new_name.  The bottom frame stands for the root definition, which
  // is curdef while no block is open.
  datatype Machine = Machine(phase: Phase, stack: seq<Frame>, curdef: seq<Item>, newName: string)

  // None: the parser reports an error.
  function Handle(m: Machine, h: Handler, text: string): Option<Machine> {
    match h
    case Nothing => Some(m)
    case NeedNameEnd => if |m.stack| > 1 then None else Some(m)
    case NeedNameVarName => Some(m.(newName := text))
    case EndBlock =>
      if |m.stack| <= 1 then None
      else
        var top := m.stack[|m.stack| - 1];
        Some(m.(stack := m.stack[..|m.stack| - 1], curdef := top.def + [Item(top.name, Block(m.curdef))]))
    case EmptyVal => Some(m.(curdef := m.curdef + [Item(m.newName, Plain(""))]))
    case StrValue => Some(m.(curdef := m.curdef + [Item(m.newName, Plain(text))]))
    case StartBlock => Some(m.(stack := m.stack + [Frame(m.newName, m.curdef)], curdef := []))
    case IndexedName => Some(m.(newName := text))
  }

  function Step(m: Machine, t: Token): Option<Machine> {
    match Transition(m.phase, t.code)
    case None => None
    case Some(next) => Handle(m.(phase := next.0), next.1, t.text)
  }

  // The loop over the tokens, which stops at Done.
  function Run(m: Machine, tokens: seq<Token>): Option<Machine>
    decreases |tokens|
  {
    if m.phase == Done || tokens == [] then Some(m)
    else
      match Step(m, tokens[0])
      case None => None
      case Some(next) => Run(next, tokens[1..])
  }

  class Parser {
    var defStack: seq<Frame>
    var curdef: seq<Item>
    var newName: string
    ghost var phase: Phase

    constructor ()
      ensures defStack == [Frame("", [])] && curdef == []
    {
      defStack, curdef, newName, phase := [Frame("", [])], [], "", Init;
    }

    ghost function Now(): Machine
      reads this
    {
      Machine(phase, defStack, curdef, newName)
    }

    // Reads one more file on top of what is there.
    method ReadDefinitionsFile(tokens: seq<Token>) returns (ok: bool, state: Phase)
      requires |defStack| == 1
      modifies this
      ensures ok <==> Run(old(Now()).(phase := Init), tokens).Some?
      ensures ok ==> Run(old(Now()).(phase := Init), tokens) == Some(Now()) && state == phase
    {
      hide Step;
      ghost var start := Now().(phase := Init);
      state := Init;
      phase := Init;
      var i := 0;
      while i < |tokens| && state != Done
        invariant i <= |tokens| && state == phase
        invariant Run(start, tokens) == Run(Now(), tokens[i..])
      {
        assert tokens[i..][1..] == tokens[i + 1..] && tokens[i..][0] == tokens[i];
        ok, state := Feed(state, tokens[i]);
        if !ok { return; }
        i := i + 1;
      }
      ok := true;
    }

    method Feed(state: Phase, t: Token) returns (ok: bool, next: Phase)
      requires state == phase
      modifies this
      ensures ok <==> Step(old(Now()), t).Some?
      ensures ok ==> Step(old(Now()), t) == Some(Now()) && next == phase
    {
      next := state;
      var entry := Transition(state, t.code);
      if entry.None? { return false, next; }
      next := entry.value.0;
      phase := next;
      ok := true;
      match entry.value.1 {
        case Nothing =>
        case NeedNameEnd => ok := |defStack| <= 1;
        case NeedNameVarName => newName := t.text;
        case EndBlock =>
          if |defStack| <= 1 {
            ok := false;
          } else {
            var top := defStack[|defStack| - 1];
            defStack := defStack[..|defStack| - 1];
            curdef := top.def + [Item(top.name, Block(curdef))];
          }
        case EmptyVal => curdef := curdef + [Item(newName, Plain(""))];
        case StrValue => curdef := curdef + [Item(newName, Plain(t.text))];
        case StartBlock =>
          defStack := defStack + [Frame(newName, curdef)];
          curdef := [];
        case IndexedName => newName := t.text;
      }
    }
  }

  /* ---- balance ---- */

  function CountOf(tokens: seq<Token>, code: Code): nat {
    if tokens == [] then 0 else (if tokens[0].code == code then 1 else 0) + CountOf(tokens[1..], code)
  }

  lemma StepDepth(m: Machine, t: Token)
    requires Step(m, t).Some? && |m.stack| > 0
    ensures var next := Step(m, t).value;
            |next.stack| == |m.stack| + (if t.code == Lbrace then 1 else 0) - (if t.code == Rbrace then 1 else 0)
    ensures |Step(m, t).value.stack| > 0
  {
  }

  // In every run that has not finished early, the stack grows by the braces opened and not
  // closed.
  lemma {:induction false} DepthIsOpenBraces(m: Machine, tokens: seq<Token>)
    requires |m.stack| > 0 && m.phase != Done && Run(m, tokens).Some?
    requires forall i :: 0 <= i < |tokens| - 1 ==> tokens[i].code != Eof
    ensures var end := Run(m, tokens).value;
            |end.stack| - |m.stack| == CountOf(tokens, Lbrace) - CountOf(tokens, Rbrace) && |end.stack| > 0
    decreases |tokens|
  {
    hide Step;
    if tokens != [] {
      StepDepth(m, tokens[0]);
      var next := Step(m, tokens[0]).value;
      if next.phase == Done {
        OnlyEofFinishes(m, tokens[0]);
        assert tokens[1..] == [];
      } else {
        DepthIsOpenBraces(next, tokens[1..]);
      }
    }
  }

  lemma OnlyEofFinishes(m: Machine, t: Token)
    requires Step(m, t).Some? && m.phase != Done
    ensures Step(m, t).value.phase == Done ==> t.code == Eof && |m.stack| <= 1
    ensures t.code == Eof ==> Step(m, t).value.phase == Done
  {
  }

  lemma {:induction false} RunPrefix(m: Machine, tokens: seq<Token>, n: nat)
    requires n <= |tokens| && Run(m, tokens).Some?
    ensures Run(m, tokens[..n]).Some?
    decreases n
  {
    hide Step;
    if n > 0 && m.phase != Done {
      assert tokens[..n][1..] == tokens[1..][..n - 1] && tokens[..n][0] == tokens[0];
      RunPrefix(Step(m, tokens[0]).value, tokens[1..], n - 1);
    }
  }

  // A whole file: the tokens of its text and the end marker.
  ghost predicate WholeFile(tokens: seq<Token>) {
    |tokens| > 0 && tokens[|tokens| - 1].code == Eof && forall i :: 0 <= i < |tokens| - 1 ==> tokens[i].code != Eof
  }

  // Acceptance means balance: no prefix closes more braces than it opens, and the whole file
  // closes as many as it opens.
  lemma AcceptedIsBalanced(m: Machine, tokens: seq<Token>, n: nat)
    requires |m.stack| == 1 && m.phase == Init && WholeFile(tokens) && n <= |tokens| && Run(m, tokens).Some?
    ensures CountOf(tokens[..n], Rbrace) <= CountOf(tokens[..n], Lbrace)
    ensures CountOf(tokens, Rbrace) == CountOf(tokens, Lbrace)
    ensures Run(m, tokens).value.phase == Done
  {
    hide Step, CountOf, Run;
    RunPrefix(m, tokens, n);
    DepthIsOpenBraces(m, tokens[..n]);
    DepthIsOpenBraces(m, tokens);
    EndsClosed(m, tokens);
  }

  lemma {:induction false} EndsClosed(m: Machine, tokens: seq<Token>)
    requires |m.stack| > 0 && m.phase != Done && WholeFile(tokens) && Run(m, tokens).Some?
    ensures Run(m, tokens).value.phase == Done && |Run(m, tokens).value.stack| == 1
    decreases |tokens|
  {
    hide Step;
    var next := Step(m, tokens[0]).value;
    StepDepth(m, tokens[0]);
    OnlyEofFinishes(m, tokens[0]);
    if |tokens| > 1 {
      assert tokens[1..][|tokens| - 2] == tokens[|tokens| - 1];
      EndsClosed(next, tokens[1..]);
    }
  }
}
