/** The compiled bytes of a program compute what the program means. */
module FinshCorrect {
  import opened Prelude
  import opened FinshWords
  import opened FinshMachine
  import opened FinshCompiler
  import opened FinshLanguage

  // ---------------------------------------------------------------- the bytes of an expression, case by case

  function Step32(a: Word, op: BinOp): seq<Byte> {
    [OP_LD_VALUE_DWORD] + Set32(a) + [OP_LD_DWORD] + Set32(1) + [BaseOpcode(op) + 2] + [OP_ST_DWORD]
  }

  function Emitted(e: Expr): seq<Byte> {
    match e
    case Lit(v) => [OP_LD_DWORD] + Set32(v)
    case Get(VarPlace(v)) => [OP_LD_VALUE_DWORD] + Set32(v.address)
    case Get(DerefPlace(e1)) => Emitted(e1) + [OP_LD_VALUE_DWORD_STACK]
    case AddressOf(p) => EmittedPlace(p)
    case Binary(op, l, r) => Emitted(l) + Emitted(r) + [BaseOpcode(op) + 2]
    case Not(e1) => Emitted(e1) + [OP_BITWISE_DWORD]
    case Store(p, e1) => EmittedPlace(p) + Emitted(e1) + [OP_ST_DWORD, OP_LD_VALUE_DWORD_STACK]
    case Pre(op, v) => [OP_LD_DWORD] + Set32(v.address) + (Step32(v.address, op) + [OP_LD_VALUE_DWORD_STACK])
    case Post(op, v) =>
      [OP_LD_VALUE_DWORD] + Set32(v.address) + ([OP_LD_DWORD] + Set32(v.address) + Step32(v.address, op) + [OP_POP])
  }

  function EmittedPlace(p: Place): seq<Byte> {
    match p
    case VarPlace(v) => [OP_LD_DWORD] + Set32(v.address)
    case DerefPlace(e) => Emitted(e)
  }

  /** A checked tree whose root is double-word and whose bytes are `code`, then those of the siblings. */
  ghost predicate Compiles(t: Tree, code: seq<Byte>, sibling: Tree) {
    && t.Node? && t.info.dataType == Dword32
    && t.sibling == TypeCheck(sibling, false)
    && Code(t) == code + Code(TypeCheck(sibling, false))
  }

  /** An inner node: its code follows that of its children. */
  lemma CompilesInner(n: NodeType, isAddr: bool, c: Tree, code: seq<Byte>, own: seq<Byte>, sibling: Tree)
    requires n != NodeId && n != ValueChar && n != ValueLong
    requires var c' := TypeCheck(c, ChildFlag(n, isAddr));
             c'.Node? && c'.info.dataType == Dword32 && Code(c') == code
             && OwnCode(Fresh(n).(address := isAddr, dataType := Dword32), Some(c'.info)) == own
    ensures Compiles(TypeCheck(Node(Fresh(n), c, sibling), isAddr), code + own, sibling)
  {
    var c' := TypeCheck(c, ChildFlag(n, isAddr));
    var l := Fresh(n).(address := isAddr, dataType := Dword32);
    assert CheckedLabel(Fresh(n), isAddr, Root(c')) == l;
    assert TypeCheck(Node(Fresh(n), c, sibling), isAddr) == Node(l, c', TypeCheck(sibling, false));
    assert Code(Node(l, c', TypeCheck(sibling, false))) == code + own + Code(TypeCheck(sibling, false));
  }

  /** A variable, as a value or as an address. */
  lemma CompilesVar(v: Var, isAddr: bool, sibling: Tree)
    requires FourBytes(v.varType)
    ensures var t := TypeCheck(VarTree(v, sibling), isAddr);
            Compiles(t, [if isAddr then OP_LD_DWORD else OP_LD_VALUE_DWORD] + Set32(v.address), sibling)
            && t.info.nodeType == NodeId && t.info.value == v.address
  {
    var l := Label(NodeId, Dword32, if v.system then SysVarId else VarId, isAddr, v.address, v.varType);
    var own := [if isAddr then OP_LD_DWORD else OP_LD_VALUE_DWORD] + Set32(v.address);
    assert TypeCheck(VarTree(v, sibling), isAddr) == Node(l, Null, TypeCheck(sibling, false));
    assert OwnCode(l, None) == own;
    assert Code(Null) + own == own;
  }

  /** Type check gives every node of a well-typed expression the double-word type, and the address flag exactly where
      an address is wanted, so the compiler emits these bytes, followed by those of the siblings. */
  lemma {:induction false} CodeOfExpr(e: Expr, sibling: Tree)
    requires WellTyped(e)
    ensures Compiles(TypeCheck(Parsed(e, sibling), false), Emitted(e), sibling)
    decreases e
  {
    match e
    case Lit(v) => CompilesLiteral(v, sibling);
    case Get(VarPlace(v)) => CompilesVar(v, false, sibling);
    case Get(DerefPlace(e1)) =>
      CodeOfExpr(e1, Null);
      CompilesDeref(e1, sibling);
    case AddressOf(p) =>
      CodeOfPlace(p, Null);
      CompilesAddressOf(p, sibling);
    case Binary(op, l, r) =>
      CodeOfExpr(r, Null);
      CodeOfExpr(l, Parsed(r, Null));
      CompilesBinary(op, l, r, sibling);
    case Not(e1) =>
      CodeOfExpr(e1, Null);
      CompilesNot(e1, sibling);
    case Store(p, e1) =>
      CodeOfExpr(e1, Null);
      CodeOfPlace(p, Parsed(e1, Null));
      CompilesStore(p, e1, sibling);
    case Pre(op, v) => CompilesPre(op, v, sibling);
    case Post(op, v) => CompilesPost(op, v, sibling);
  }

  lemma CompilesDeref(e: Expr, sibling: Tree)
    requires Compiles(TypeCheck(Parsed(e, Null), false), Emitted(e), Null)
    ensures Compiles(TypeCheck(Parsed(Get(DerefPlace(e)), sibling), false), Emitted(Get(DerefPlace(e))), sibling)
  {
    assert Emitted(e) + [] == Emitted(e);
    CompilesInner(SysGetValue, false, Parsed(e, Null), Emitted(e), [OP_LD_VALUE_DWORD_STACK], sibling);
  }

  lemma CompilesAddressOf(p: Place, sibling: Tree)
    requires Compiles(TypeCheck(ParsedPlace(p, Null), true), EmittedPlace(p), Null)
    ensures Compiles(TypeCheck(Parsed(AddressOf(p), sibling), false), Emitted(AddressOf(p)), sibling)
  {
    assert EmittedPlace(p) + [] == EmittedPlace(p);
    CompilesInner(SysGetAddr, false, ParsedPlace(p, Null), EmittedPlace(p), [], sibling);
  }

  lemma CompilesNot(e: Expr, sibling: Tree)
    requires Compiles(TypeCheck(Parsed(e, Null), false), Emitted(e), Null)
    ensures Compiles(TypeCheck(Parsed(Not(e), sibling), false), Emitted(Not(e)), sibling)
  {
    assert Emitted(e) + [] == Emitted(e);
    CompilesInner(SysBitwise, false, Parsed(e, Null), Emitted(e), [OP_BITWISE_DWORD], sibling);
  }

  lemma CompilesBinary(op: BinOp, l: Expr, r: Expr, sibling: Tree)
    requires Compiles(TypeCheck(Parsed(r, Null), false), Emitted(r), Null)
    requires Compiles(TypeCheck(Parsed(l, Parsed(r, Null)), false), Emitted(l), Parsed(r, Null))
    ensures Compiles(TypeCheck(Parsed(Binary(op, l, r), sibling), false), Emitted(Binary(op, l, r)), sibling)
  {
    var first := Parsed(l, Parsed(r, Null));
    BinaryIs(op, TypeCheck(first, false).info);
    assert !ChildFlag(SysBin(op), false);
    assert Parsed(Binary(op, l, r), sibling) == Node(Fresh(SysBin(op)), first, sibling);
    assert Emitted(Binary(op, l, r)) == Emitted(l) + Emitted(r) + [BaseOpcode(op) + 2];
    hide Emitted, EmittedPlace, Parsed, ParsedPlace, OwnCode;
    NoSibling(TypeCheck(Parsed(r, Null), false), Emitted(r));
    hide Code, TypeCheck;
    CompilesInner(SysBin(op), false, first, Emitted(l) + Emitted(r), [BaseOpcode(op) + 2], sibling);
  }

  lemma BinaryIs(op: BinOp, child: Label)
    ensures OwnCode(Fresh(SysBin(op)).(address := false, dataType := Dword32), Some(child)) == [BaseOpcode(op) + 2]
  {
  }

  lemma CompilesStore(p: Place, e: Expr, sibling: Tree)
    requires Compiles(TypeCheck(Parsed(e, Null), false), Emitted(e), Null)
    requires var t := TypeCheck(ParsedPlace(p, Parsed(e, Null)), true);
             Compiles(t, EmittedPlace(p), Parsed(e, Null)) && t.info.nodeType in {NodeId, SysGetValue}
    ensures Compiles(TypeCheck(Parsed(Store(p, e), sibling), false), Emitted(Store(p, e)), sibling)
  {
    var first := ParsedPlace(p, Parsed(e, Null));
    StoreIs(TypeCheck(first, true).info);
    assert ChildFlag(SysAssign, false);
    assert Parsed(Store(p, e), sibling) == Node(Fresh(SysAssign), first, sibling);
    hide Emitted, EmittedPlace, Parsed, ParsedPlace, OwnCode;
    NoSibling(TypeCheck(Parsed(e, Null), false), Emitted(e));
    hide Code, TypeCheck;
    CompilesInner(SysAssign, false, first, EmittedPlace(p) + Emitted(e), [OP_ST_DWORD, OP_LD_VALUE_DWORD_STACK], sibling);
    EmittedStore(p, e);
  }

  lemma NoSibling(t: Tree, code: seq<Byte>)
    requires Compiles(t, code, Null)
    ensures Code(t) == code
  {
    assert code + [] == code;
  }

  lemma StoreIs(target: Label)
    requires target.dataType == Dword32 && target.nodeType in {NodeId, SysGetValue}
    ensures OwnCode(Fresh(SysAssign).(address := false, dataType := Dword32), Some(target))
         == [OP_ST_DWORD, OP_LD_VALUE_DWORD_STACK]
  {
  }

  lemma CompilesPre(op: BinOp, v: Var, sibling: Tree)
    requires WellTyped(Pre(op, v))
    ensures Compiles(TypeCheck(Parsed(Pre(op, v), sibling), false), Emitted(Pre(op, v)), sibling)
  {
    CompilesVar(v, true, Null);
    CompilesInner(StepNode(op, true), false, VarTree(v, Null), [OP_LD_DWORD] + Set32(v.address),
                  Step32(v.address, op) + [OP_LD_VALUE_DWORD_STACK], sibling);
  }

  lemma CompilesPost(op: BinOp, v: Var, sibling: Tree)
    requires WellTyped(Post(op, v))
    ensures Compiles(TypeCheck(Parsed(Post(op, v), sibling), false), Emitted(Post(op, v)), sibling)
  {
    CompilesVar(v, false, Null);
    CompilesInner(StepNode(op, false), false, VarTree(v, Null), [OP_LD_VALUE_DWORD] + Set32(v.address),
                  [OP_LD_DWORD] + Set32(v.address) + Step32(v.address, op) + [OP_POP], sibling);
  }

  lemma CompilesLiteral(v: Word, sibling: Tree)
    ensures Compiles(TypeCheck(Parsed(Lit(v), sibling), false), Emitted(Lit(v)), sibling)
  {
    var l := Fresh(ValueLong).(value := v, dataType := Dword32);
    assert TypeCheck(Parsed(Lit(v), sibling), false) == Node(l, Null, TypeCheck(sibling, false));
    assert Code(Null) + OwnCode(l, None) == Emitted(Lit(v));
  }

  lemma {:induction false} CodeOfPlace(p: Place, sibling: Tree)
    requires WellTypedPlace(p)
    ensures var t := TypeCheck(ParsedPlace(p, sibling), true);
            Compiles(t, EmittedPlace(p), sibling) && t.info.nodeType in {NodeId, SysGetValue}
    decreases p
  {
    match p
    case VarPlace(v) => CompilesVar(v, true, sibling);
    case DerefPlace(e) =>
      CodeOfExpr(e, Null);
      assert Emitted(e) + [] == Emitted(e);
      CompilesInner(SysGetValue, true, Parsed(e, Null), Emitted(e), [], sibling);
  }

  function EmittedStatements(prog: seq<Expr>): seq<Byte> {
    if prog == [] then [] else Emitted(prog[0]) + (if |prog| > 1 then [OP_POP] else []) + EmittedStatements(prog[1..])
  }

  // ---------------------------------------------------------------- running the bytes

  /** `code` stands in the text at `pc`. */
  ghost predicate Present(text: seq<Byte>, pc: nat, code: seq<Byte>) {
    pc + |code| <= |text| && text[pc..pc + |code|] == code
  }

  lemma PresentSplit(text: seq<Byte>, pc: nat, a: seq<Byte>, b: seq<Byte>)
    requires Present(text, pc, a + b)
    ensures Present(text, pc, a) && Present(text, pc + |a|, b)
  {
    assert text[pc..pc + |a|] == (a + b)[..|a|];
    assert text[pc + |a|..pc + |a| + |b|] == (a + b)[|a|..];
  }

  lemma PresentTwo(text: seq<Byte>, pc: nat, a: seq<Byte>, b: seq<Byte>, c: seq<Byte>)
    requires Present(text, pc, a + b + c)
    ensures Present(text, pc, a) && Present(text, pc + |a|, b)
  {
    PresentSplit(text, pc, a + b, c);
    PresentSplit(text, pc, a, b);
  }

  /** Running from `s` is the same as running from the outcome, pushed, after the code; a fault is a fault. */
  ghost predicate Computes(text: seq<Byte>, s: VmState, size: nat, o: Option<Outcome>) {
    match o
    case None => Run(text, s) == None
    case Some(Outcome(v, m)) => Run(text, s) == Run(text, VmState(s.pc + size, s.stack + [v], m))
  }

  lemma RunPush(text: seq<Byte>, s: VmState, v: Word)
    requires Present(text, s.pc, [OP_LD_DWORD] + Set32(v))
    requires |s.stack| < STACK_MAX
    ensures Computes(text, s, 5, Some(Outcome(v, s.mem)))
  {
    PresentSplit(text, s.pc, [OP_LD_DWORD], Set32(v));
    OperandRoundTrip(text, s.pc + 1, v);
    assert text[s.pc] == OP_LD_DWORD by { assert text[s.pc] == text[s.pc..s.pc + 1][0]; }
  }

  lemma RunLoad(text: seq<Byte>, s: VmState, a: Word)
    requires Present(text, s.pc, [OP_LD_VALUE_DWORD] + Set32(a))
    requires |s.stack| < STACK_MAX
    ensures Computes(text, s, 5, if Cell(a) in s.mem then Some(Outcome(s.mem[Cell(a)], s.mem)) else None)
  {
    PresentSplit(text, s.pc, [OP_LD_VALUE_DWORD], Set32(a));
    OperandRoundTrip(text, s.pc + 1, a);
    assert text[s.pc] == OP_LD_VALUE_DWORD by { assert text[s.pc] == text[s.pc..s.pc + 1][0]; }
  }

  /** The opcode of a binary operator is found again in the table. */
  lemma OperatorOpcode(op: BinOp)
    ensures DwordOperator(BaseOpcode(op) + 2) == Some(op)
    ensures BaseOpcode(op) + 2 !in {OP_NOOP, OP_POP, OP_LD_DWORD, OP_LD_VALUE_DWORD, OP_LD_VALUE_DWORD_STACK,
                                    OP_ST_DWORD, OP_BITWISE_DWORD}
  {
    match op case Add => case Sub => case Div => case Mod => case Mul =>
             case And => case Or => case Xor => case Shl => case Shr =>
  }

  lemma StepOperator(text: seq<Byte>, s: VmState, stack: seq<Word>, op: BinOp, a: Word, b: Word)
    requires Present(text, s.pc, [BaseOpcode(op) + 2])
    requires s.stack == stack + [a, b]
    ensures Step(text, s) == match Apply(op, a, b)
                             case None => None
                             case Some(v) => Some(VmState(s.pc + 1, stack + [v], s.mem))
  {
    hide Apply;
    assert text[s.pc] == BaseOpcode(op) + 2 by { assert text[s.pc] == text[s.pc..s.pc + 1][0]; }
    OperatorOpcode(op);
    hide BaseOpcode, DwordOperator;
    assert s.stack[|s.stack| - 2] == a && s.stack[|s.stack| - 1] == b;
    assert s.stack[..|s.stack| - 2] == stack;
  }

  lemma RunOperator(text: seq<Byte>, s: VmState, stack: seq<Word>, op: BinOp, a: Word, b: Word)
    requires Present(text, s.pc, [BaseOpcode(op) + 2])
    requires s.stack == stack + [a, b]
    ensures Run(text, s) == match Apply(op, a, b)
                            case None => None
                            case Some(v) => Run(text, VmState(s.pc + 1, stack + [v], s.mem))
  {
    hide Apply, Step, BaseOpcode;
    StepOperator(text, s, stack, op, a, b);
  }

  lemma RunStore(text: seq<Byte>, s: VmState, stack: seq<Word>, a: Word, v: Word)
    requires Present(text, s.pc, [OP_ST_DWORD])
    requires s.stack == stack + [a, v]
    ensures Run(text, s) == if Cell(a) in s.mem then Run(text, VmState(s.pc + 1, stack + [a], s.mem[Cell(a) := v])) else None
  {
    assert text[s.pc] == OP_ST_DWORD by { assert text[s.pc] == text[s.pc..s.pc + 1][0]; }
    assert s.stack[|s.stack| - 2] == a && s.stack[|s.stack| - 1] == v;
    assert s.stack[..|s.stack| - 1] == stack + [a];
  }

  /** The one-operand instructions and POP. */
  lemma RunTop(text: seq<Byte>, s: VmState, stack: seq<Word>, a: Word)
    requires s.stack == stack + [a]
    ensures Present(text, s.pc, [OP_LD_VALUE_DWORD_STACK]) ==>
              Run(text, s) == if Cell(a) in s.mem then Run(text, VmState(s.pc + 1, stack + [s.mem[Cell(a)]], s.mem)) else None
    ensures Present(text, s.pc, [OP_BITWISE_DWORD]) ==>
              Run(text, s) == Run(text, VmState(s.pc + 1, stack + [Complement(a)], s.mem))
    ensures Present(text, s.pc, [OP_POP]) ==>
              Run(text, s) == Run(text, VmState(s.pc + 1, stack, s.mem))
  {
    assert s.stack[|s.stack| - 1] == a && s.stack[..|s.stack| - 1] == stack;
    forall op | Present(text, s.pc, [op])
      ensures text[s.pc] == op
    {
      assert text[s.pc] == text[s.pc..s.pc + 1][0];
    }
  }

  /** Load, load one, operate, store: common to the four ++ and -- forms. The address is on top of the stack. */
  lemma RunStep32(text: seq<Byte>, s: VmState, stack: seq<Word>, a: Word, op: BinOp)
    requires Present(text, s.pc, Step32(a, op))
    requires s.stack == stack + [a] && |s.stack| + 2 <= STACK_MAX
    ensures Run(text, s) ==
            if Cell(a) !in s.mem then None
            else match Apply(op, s.mem[Cell(a)], 1)
                 case None => None
                 case Some(v) => Run(text, VmState(s.pc + 12, stack + [a], s.mem[Cell(a) := v]))
  {
    hide Run, Apply;
    var load, one := [OP_LD_VALUE_DWORD] + Set32(a), [OP_LD_DWORD] + Set32(1);
    assert Step32(a, op) == load + (one + ([BaseOpcode(op) + 2] + [OP_ST_DWORD]));
    PresentSplit(text, s.pc, load, one + ([BaseOpcode(op) + 2] + [OP_ST_DWORD]));
    PresentSplit(text, s.pc + 5, one, [BaseOpcode(op) + 2] + [OP_ST_DWORD]);
    PresentSplit(text, s.pc + 10, [BaseOpcode(op) + 2], [OP_ST_DWORD]);
    RunLoad(text, s, a);
    if Cell(a) in s.mem {
      var s1 := VmState(s.pc + 5, s.stack + [s.mem[Cell(a)]], s.mem);
      RunPush(text, s1, 1);
      var s2 := VmState(s.pc + 10, s1.stack + [1], s.mem);
      assert s2.stack == s.stack + [s.mem[Cell(a)], 1];
      RunOperator(text, s2, s.stack, op, s.mem[Cell(a)], 1);
      if Apply(op, s.mem[Cell(a)], 1).Some? {
        var v := Apply(op, s.mem[Cell(a)], 1).value;
        var s3 := VmState(s.pc + 11, s.stack + [v], s.mem);
        assert s3.stack == stack + [a, v];
        RunStore(text, s3, stack, a, v);
      }
    }
  }

  lemma RunPre(text: seq<Byte>, op: BinOp, v: Var, s: VmState)
    requires Present(text, s.pc, Emitted(Pre(op, v))) && |s.stack| + 3 <= STACK_MAX
    ensures Computes(text, s, |Emitted(Pre(op, v))|, Eval(Pre(op, v), s.mem))
  {
    hide Run, Apply;
    var a := v.address;
    PresentSplit(text, s.pc, [OP_LD_DWORD] + Set32(a), Step32(a, op) + [OP_LD_VALUE_DWORD_STACK]);
    PresentSplit(text, s.pc + 5, Step32(a, op), [OP_LD_VALUE_DWORD_STACK]);
    RunPush(text, s, a);
    var s1 := VmState(s.pc + 5, s.stack + [a], s.mem);
    RunStep32(text, s1, s.stack, a, op);
    if Cell(a) in s.mem && Apply(op, s.mem[Cell(a)], 1).Some? {
      var s2 := VmState(s1.pc + 12, s.stack + [a], s.mem[Cell(a) := Apply(op, s.mem[Cell(a)], 1).value]);
      RunTop(text, s2, s.stack, a);
    }
  }

  lemma RunPost(text: seq<Byte>, op: BinOp, v: Var, s: VmState)
    requires Present(text, s.pc, Emitted(Post(op, v))) && |s.stack| + 4 <= STACK_MAX
    ensures Computes(text, s, |Emitted(Post(op, v))|, Eval(Post(op, v), s.mem))
  {
    hide Run, Apply;
    var a := v.address;
    var push := [OP_LD_DWORD] + Set32(a);
    assert push + Step32(a, op) + [OP_POP] == push + (Step32(a, op) + [OP_POP]);
    PresentSplit(text, s.pc, [OP_LD_VALUE_DWORD] + Set32(a), push + (Step32(a, op) + [OP_POP]));
    PresentSplit(text, s.pc + 5, push, Step32(a, op) + [OP_POP]);
    PresentSplit(text, s.pc + 10, Step32(a, op), [OP_POP]);
    RunLoad(text, s, a);
    if Cell(a) in s.mem {
      var x := s.mem[Cell(a)];
      var s1 := VmState(s.pc + 5, s.stack + [x], s.mem);
      RunPush(text, s1, a);
      var s2 := VmState(s.pc + 10, s1.stack + [a], s.mem);
      RunStep32(text, s2, s1.stack, a, op);
      if Apply(op, x, 1).Some? {
        RunTop(text, VmState(s2.pc + 12, s1.stack + [a], s.mem[Cell(a) := Apply(op, x, 1).value]), s1.stack, a);
      }
    }
  }

  /** State after an expression of `size` bytes has pushed its value. */
  function Pushed(s: VmState, size: nat, o: Outcome): VmState {
    VmState(s.pc + size, s.stack + [o.value], o.mem)
  }

  lemma RunBinary(text: seq<Byte>, op: BinOp, l: Expr, r: Expr, s: VmState)
    requires Present(text, s.pc, Emitted(l) + Emitted(r) + [BaseOpcode(op) + 2])
    requires Computes(text, s, |Emitted(l)|, Eval(l, s.mem))
    requires Eval(l, s.mem).Some? ==>
               var s1 := Pushed(s, |Emitted(l)|, Eval(l, s.mem).value);
               Computes(text, s1, |Emitted(r)|, Eval(r, s1.mem))
    ensures Computes(text, s, |Emitted(Binary(op, l, r))|, Eval(Binary(op, l, r), s.mem))
  {
    hide Run, Apply, Emitted, BaseOpcode;
    PresentSplit(text, s.pc, Emitted(l) + Emitted(r), [BaseOpcode(op) + 2]);
    assert |Emitted(Binary(op, l, r))| == |Emitted(l)| + |Emitted(r)| + 1 by { EmittedBinary(op, l, r); }
    if Eval(l, s.mem).Some? {
      var Outcome(a, m1) := Eval(l, s.mem).value;
      if Eval(r, m1).Some? {
        var Outcome(b, m2) := Eval(r, m1).value;
        var s2 := VmState(s.pc + |Emitted(l) + Emitted(r)|, s.stack + [a] + [b], m2);
        assert s2.stack == s.stack + [a, b];
        RunOperator(text, s2, s.stack, op, a, b);
      }
    }
  }

  lemma EmittedBinary(op: BinOp, l: Expr, r: Expr)
    ensures Emitted(Binary(op, l, r)) == Emitted(l) + Emitted(r) + [BaseOpcode(op) + 2]
  {
  }

  lemma EmittedDeref(e: Expr)
    ensures Emitted(Get(DerefPlace(e))) == Emitted(e) + [OP_LD_VALUE_DWORD_STACK]
  {
  }

  lemma EmittedStore(p: Place, e: Expr)
    ensures Emitted(Store(p, e)) == EmittedPlace(p) + Emitted(e) + [OP_ST_DWORD, OP_LD_VALUE_DWORD_STACK]
  {
  }

  lemma RunStoreExpr(text: seq<Byte>, p: Place, e: Expr, s: VmState)
    requires Present(text, s.pc, EmittedPlace(p) + Emitted(e) + [OP_ST_DWORD, OP_LD_VALUE_DWORD_STACK])
    requires Computes(text, s, |EmittedPlace(p)|, EvalPlace(p, s.mem))
    requires EvalPlace(p, s.mem).Some? ==>
               var s1 := Pushed(s, |EmittedPlace(p)|, EvalPlace(p, s.mem).value);
               Computes(text, s1, |Emitted(e)|, Eval(e, s1.mem))
    ensures Computes(text, s, |Emitted(Store(p, e))|, Eval(Store(p, e), s.mem))
  {
    hide Run, Apply, Emitted, EmittedPlace;
    PresentSplit(text, s.pc, EmittedPlace(p) + Emitted(e), [OP_ST_DWORD, OP_LD_VALUE_DWORD_STACK]);
    assert |Emitted(Store(p, e))| == |EmittedPlace(p)| + |Emitted(e)| + 2 by { EmittedStore(p, e); }
    if EvalPlace(p, s.mem).Some? {
      var Outcome(a, m1) := EvalPlace(p, s.mem).value;
      if Eval(e, m1).Some? {
        var Outcome(v, m2) := Eval(e, m1).value;
        RunAssign(text, VmState(s.pc + |EmittedPlace(p) + Emitted(e)|, s.stack + [a] + [v], m2), s.stack, a, v);
      }
    }
  }

  lemma RunNot(text: seq<Byte>, e: Expr, s: VmState)
    requires Present(text, s.pc, Emitted(e) + [OP_BITWISE_DWORD])
    requires Computes(text, s, |Emitted(e)|, Eval(e, s.mem))
    ensures Computes(text, s, |Emitted(Not(e))|, Eval(Not(e), s.mem))
  {
    hide Run;
    PresentSplit(text, s.pc, Emitted(e), [OP_BITWISE_DWORD]);
    if Eval(e, s.mem).Some? {
      var o := Eval(e, s.mem).value;
      RunTop(text, Pushed(s, |Emitted(e)|, o), s.stack, o.value);
    }
  }

  lemma RunDeref(text: seq<Byte>, e: Expr, s: VmState)
    requires Present(text, s.pc, Emitted(e) + [OP_LD_VALUE_DWORD_STACK])
    requires Computes(text, s, |Emitted(e)|, Eval(e, s.mem))
    ensures Computes(text, s, |Emitted(Get(DerefPlace(e)))|, Eval(Get(DerefPlace(e)), s.mem))
  {
    hide Run, Emitted;
    PresentSplit(text, s.pc, Emitted(e), [OP_LD_VALUE_DWORD_STACK]);
    assert |Emitted(Get(DerefPlace(e)))| == |Emitted(e)| + 1 by { EmittedDeref(e); }
    if Eval(e, s.mem).Some? {
      var o := Eval(e, s.mem).value;
      RunTop(text, Pushed(s, |Emitted(e)|, o), s.stack, o.value);
    }
  }

  /** Expression by expression: the bytes push the value and change memory as the meaning says, or both fail. */
  lemma {:induction false} RunExpr(text: seq<Byte>, e: Expr, s: VmState)
    requires Present(text, s.pc, Emitted(e)) && |s.stack| + Depth(e) <= STACK_MAX
    ensures Computes(text, s, |Emitted(e)|, Eval(e, s.mem))
    decreases e
  {
    hide Run, Apply, Set32;
    match e
    case Lit(v) => RunPush(text, s, v);
    case Get(VarPlace(v)) => RunLoad(text, s, v.address);
    case Get(DerefPlace(e1)) =>
      PresentSplit(text, s.pc, Emitted(e1), [OP_LD_VALUE_DWORD_STACK]);
      RunExpr(text, e1, s);
      RunDeref(text, e1, s);
    case AddressOf(p) => RunPlace(text, p, s);
    case Binary(op, l, r) =>
      PresentTwo(text, s.pc, Emitted(l), Emitted(r), [BaseOpcode(op) + 2]);
      RunExpr(text, l, s);
      if Eval(l, s.mem).Some? {
        RunExpr(text, r, Pushed(s, |Emitted(l)|, Eval(l, s.mem).value));
      }
      RunBinary(text, op, l, r, s);
    case Not(e1) =>
      PresentSplit(text, s.pc, Emitted(e1), [OP_BITWISE_DWORD]);
      RunExpr(text, e1, s);
      RunNot(text, e1, s);
    case Store(p, e1) =>
      PresentTwo(text, s.pc, EmittedPlace(p), Emitted(e1), [OP_ST_DWORD, OP_LD_VALUE_DWORD_STACK]);
      RunPlace(text, p, s);
      if EvalPlace(p, s.mem).Some? {
        RunExpr(text, e1, Pushed(s, |EmittedPlace(p)|, EvalPlace(p, s.mem).value));
      }
      RunStoreExpr(text, p, e1, s);
    case Pre(op, v) => RunPre(text, op, v, s);
    case Post(op, v) => RunPost(text, op, v, s);
  }

  lemma RunAssign(text: seq<Byte>, s: VmState, stack: seq<Word>, a: Word, v: Word)
    requires Present(text, s.pc, [OP_ST_DWORD, OP_LD_VALUE_DWORD_STACK])
    requires s.stack == stack + [a] + [v]
    ensures Run(text, s) == if Cell(a) in s.mem then Run(text, VmState(s.pc + 2, stack + [v], s.mem[Cell(a) := v])) else None
  {
    hide Run;
    assert [OP_ST_DWORD, OP_LD_VALUE_DWORD_STACK] == [OP_ST_DWORD] + [OP_LD_VALUE_DWORD_STACK];
    PresentSplit(text, s.pc, [OP_ST_DWORD], [OP_LD_VALUE_DWORD_STACK]);
    assert s.stack == stack + [a, v];
    RunStore(text, s, stack, a, v);
    if Cell(a) in s.mem {
      RunTop(text, VmState(s.pc + 1, stack + [a], s.mem[Cell(a) := v]), stack, a);
    }
  }

  lemma {:induction false} RunPlace(text: seq<Byte>, p: Place, s: VmState)
    requires Present(text, s.pc, EmittedPlace(p)) && |s.stack| + PlaceDepth(p) <= STACK_MAX
    ensures Computes(text, s, |EmittedPlace(p)|, EvalPlace(p, s.mem))
    decreases p
  {
    match p
    case VarPlace(v) => RunPush(text, s, v.address);
    case DerefPlace(e) => RunExpr(text, e, s);
  }

  // ---------------------------------------------------------------- whole programs

  ghost predicate WellTypedProgram(prog: seq<Expr>) {
    forall e :: e in prog ==> WellTyped(e)
  }

  /** A list of statements compiles to their bytes with POP in between. */
  lemma {:induction false} CodeOfProgram(prog: seq<Expr>)
    requires WellTypedProgram(prog)
    ensures StatementsCode(TypeCheck(ParsedStatements(prog), false)) == EmittedStatements(prog)
  {
    if prog != [] {
      hide WellTyped, Emitted, Code, TypeCheck, StatementsCode, Compiles, Parsed;
      var e, rest := prog[0], ParsedStatements(prog[1..]);
      CodeOfExpr(e, rest);
      CodeOfProgram(prog[1..]);
      ParsedIsNode(prog[1..]);
      FirstStatement(TypeCheck(Parsed(e, rest), false), Emitted(e), rest);
    } else {
      assert StatementsCode(TypeCheck(ParsedStatements(prog), false)) == [];
    }
  }

  lemma ParsedIsNode(prog: seq<Expr>)
    ensures ParsedStatements(prog).Node? <==> prog != []
  {
    if prog != [] {
      ParsedNode(prog[0], ParsedStatements(prog[1..]));
    }
  }

  lemma ParsedNode(e: Expr, sibling: Tree)
    ensures Parsed(e, sibling).Node?
  {
  }

  /** Cutting the sibling link of a statement cuts off exactly the bytes of the statements after it. */
  lemma FirstStatement(t: Tree, code: seq<Byte>, sibling: Tree)
    requires Compiles(t, code, sibling)
    ensures Code(Node(t.info, t.child, Null)) == code
    ensures StatementsCode(t)
         == code + (if sibling.Node? then [OP_POP] else []) + StatementsCode(TypeCheck(sibling, false))
  {
    var own := Code(t.child) + OwnCode(t.info, Root(t.child));
    var tail := Code(TypeCheck(sibling, false));
    assert own + tail == code + tail;
    assert own == (own + tail)[..|own|] && code == (code + tail)[..|code|];
    assert own + [] == own;
  }

  /** Running the statements from an empty stack leaves the value of the last one, alone on the stack. */
  lemma {:induction false} RunStatements(text: seq<Byte>, prog: seq<Expr>, s: VmState)
    requires prog != [] && Present(text, s.pc, EmittedStatements(prog)) && s.stack == []
    requires forall e :: e in prog ==> Depth(e) <= STACK_MAX
    ensures Computes(text, s, |EmittedStatements(prog)|, EvalStatements(prog, s.mem))
  {
    hide Run, Eval, Emitted;
    var e := prog[0];
    if |prog| == 1 {
      assert prog[1..] == [];
      assert EmittedStatements(prog) == Emitted(e) by { EmittedOne(prog); }
      RunExpr(text, e, s);
    } else {
      var rest := EmittedStatements(prog[1..]);
      PresentTwo(text, s.pc, Emitted(e), [OP_POP], rest);
      PresentSplit(text, s.pc, Emitted(e) + [OP_POP], rest);
      RunExpr(text, e, s);
      if Eval(e, s.mem).Some? {
        var Outcome(v, m) := Eval(e, s.mem).value;
        RunTop(text, VmState(s.pc + |Emitted(e)|, s.stack + [v], m), [], v);
        RunStatements(text, prog[1..], VmState(s.pc + |Emitted(e)| + 1, [], m));
      }
    }
  }

  lemma EmittedOne(prog: seq<Expr>)
    requires |prog| == 1
    ensures EmittedStatements(prog) == Emitted(prog[0])
  {
    assert prog[1..] == [];
  }

  /** The text segment after compilation: the code, then zeros. */
  ghost predicate Loaded(text: seq<Byte>, code: seq<Byte>) {
    && |text| == TEXT_MAX && |code| <= TEXT_MAX && text[..|code|] == code
    && forall i :: |code| <= i < TEXT_MAX ==> text[i] == OP_NOOP
  }

  /** Compiler correctness: for every well-typed program whose code fits and whose expressions fit the stack, the
      machine faults exactly when the program has no meaning, and otherwise ends with the program's value in stack
      slot 0, nothing else on the stack, and the program's memory. */
  lemma ProgramCorrect(text: seq<Byte>, prog: seq<Expr>, mem: Memory)
    requires prog != [] && WellTypedProgram(prog)
    requires forall e :: e in prog ==> Depth(e) <= STACK_MAX
    requires Loaded(text, StatementsCode(TypeCheck(ParsedStatements(prog), false)))
    ensures Run(text, VmState(0, [], mem))
         == match EvalStatements(prog, mem)
            case None => None
            case Some(Outcome(v, m)) => Some(VmState(TEXT_MAX, [v], m))
  {
    hide Run, EvalStatements;
    CodeOfProgram(prog);
    var code := EmittedStatements(prog);
    assert Present(text, 0, code);
    RunStatements(text, prog, VmState(0, [], mem));
    if EvalStatements(prog, mem).Some? {
      var Outcome(v, m) := EvalStatements(prog, mem).value;
      assert [] + [v] == [v];
      ZeroTail(text, VmState(|code|, [v], m));
    }
  }

  // ---------------------------------------------------------------- room

  /** The bytes of an expression, counted without looking at its code. */
  lemma {:induction false} ExprSize(e: Expr)
    ensures |Emitted(e)| == Bytes(CountsOf(e))
    decreases e
  {
    SizeOf(e);
    hide Bytes, CountsOf;
    match e
    case Lit(_) =>
    case Get(VarPlace(_)) =>
    case Get(DerefPlace(e1)) => ExprSize(e1);
    case AddressOf(p) => PlaceSize(p);
    case Binary(_, l, r) => ExprSize(l); ExprSize(r);
    case Not(e1) => ExprSize(e1);
    case Store(p, e1) => PlaceSize(p); ExprSize(e1);
    case Pre(_, _) =>
    case Post(_, _) =>
  }

  lemma {:induction false} PlaceSize(p: Place)
    ensures |EmittedPlace(p)| == Bytes(PlaceCounts(p))
    decreases p
  {
    match p
    case VarPlace(_) =>
    case DerefPlace(e) => ExprSize(e);
  }

  lemma BytesPlus(a: Counts, b: Counts)
    ensures Bytes(Plus(a, b)) == Bytes(a) + Bytes(b)
  {
  }

  lemma NoBytes()
    ensures Bytes(ProgramCounts([])) == 0
  {
  }

  lemma {:induction false} ProgramSize(prog: seq<Expr>)
    requires prog != []
    ensures |EmittedStatements(prog)| == Bytes(ProgramCounts(prog)) + |prog| - 1
  {
    hide Emitted, CountsOf, Bytes, Plus;
    ExprSize(prog[0]);
    BytesPlus(CountsOf(prog[0]), ProgramCounts(prog[1..]));
    if |prog| == 1 {
      EmittedOne(prog);
      NoBytes();
    } else {
      ProgramSize(prog[1..]);
    }
  }

  /** Exactly the programs whose bytes, with a POP between two statements, come to at most 128 fit the text. */
  lemma TextFits(prog: seq<Expr>)
    requires prog != [] && WellTypedProgram(prog)
    ensures |StatementsCode(TypeCheck(ParsedStatements(prog), false))| <= TEXT_MAX
       <==> Bytes(ProgramCounts(prog)) + |prog| - 1 <= TEXT_MAX
  {
    CodeOfProgram(prog);
    ProgramSize(prog);
  }

  /** An expression of n nodes needs at most n + 2 stack slots, 12n - 1 bytes, and 6n - 1 bytes without ++ and --. */
  lemma ExprBounds(e: Expr)
    ensures Depth(e) <= Nodes(e) + 2
    ensures |Emitted(e)| <= 12 * Nodes(e) - 1
    ensures StepFree(e) ==> Depth(e) <= Nodes(e) && |Emitted(e)| <= 6 * Nodes(e) - 1
  {
    hide Emitted, Bytes, CountsOf, Depth, Nodes;
    ExprSize(e);
    CountBounds(e);
  }

  /** The bytes of an expression by those of its parts. */
  lemma SizeOf(e: Expr)
    ensures Bytes(CountsOf(e)) ==
              match e {
                case Lit(_) => 5
                case Get(VarPlace(_)) => 5
                case Get(DerefPlace(e1)) => Bytes(CountsOf(e1)) + 1
                case AddressOf(p) => Bytes(PlaceCounts(p))
                case Binary(_, l, r) => Bytes(CountsOf(l)) + Bytes(CountsOf(r)) + 1
                case Not(e1) => Bytes(CountsOf(e1)) + 1
                case Store(p, e1) => Bytes(PlaceCounts(p)) + Bytes(CountsOf(e1)) + 2
                case Pre(_, _) => 18
                case Post(_, _) => 23
              }
  {
  }

  lemma {:induction false} CountBounds(e: Expr)
    ensures Depth(e) <= Nodes(e) + 2
    ensures Bytes(CountsOf(e)) <= 12 * Nodes(e) - 1
    ensures StepFree(e) ==> Depth(e) <= Nodes(e) && Bytes(CountsOf(e)) <= 6 * Nodes(e) - 1
    decreases e
  {
    SizeOf(e);
    hide Bytes, CountsOf, PlaceCounts;
    match e
    case Lit(_) =>
    case Get(p) => PlaceBounds(p);
    case AddressOf(p) => PlaceBounds(p);
    case Binary(_, l, r) => CountBounds(l); CountBounds(r);
    case Not(e1) => CountBounds(e1);
    case Store(p, e1) => PlaceBounds(p); CountBounds(e1);
    case Pre(_, _) =>
    case Post(_, _) =>
  }

  lemma {:induction false} PlaceBounds(p: Place)
    ensures PlaceDepth(p) <= PlaceNodes(p) + 2
    ensures Bytes(PlaceCounts(p)) <= 12 * PlaceNodes(p) - 1
    ensures Bytes(CountsOf(Get(p))) <= 12 * PlaceNodes(p) - 1
    ensures StepFreePlace(p) ==> PlaceDepth(p) <= PlaceNodes(p) && Bytes(PlaceCounts(p)) <= 6 * PlaceNodes(p) - 1
                                 && Bytes(CountsOf(Get(p))) <= 6 * PlaceNodes(p) - 1
    decreases p
  {
    SizeOf(Get(p));
    match p
    case VarPlace(_) =>
    case DerefPlace(e) => CountBounds(e);
  }

  lemma {:induction false} ProgramBounds(prog: seq<Expr>)
    requires prog != []
    ensures |EmittedStatements(prog)| <= 12 * ProgramNodes(prog) - 1
    ensures (forall e :: e in prog ==> StepFree(e)) ==> |EmittedStatements(prog)| <= 6 * ProgramNodes(prog) - 1
    ensures forall e :: e in prog ==> Depth(e) <= ProgramNodes(prog) + 2
  {
    ExprBounds(prog[0]);
    if |prog| == 1 {
      assert prog[1..] == [];
    } else {
      ProgramBounds(prog[1..]);
      assert forall e :: e in prog ==> e == prog[0] || e in prog[1..];
    }
  }

  /** The node table holds 16 nodes, so the stack never fills: 18 of 64 slots at most. The text holds every program
      of at most 10 nodes, and every program of the full table that has no ++ and no --. */
  lemma TableFits(prog: seq<Expr>)
    requires prog != [] && WellTypedProgram(prog) && ProgramNodes(prog) <= 16
    ensures forall e :: e in prog ==> Depth(e) <= 18
    ensures ProgramNodes(prog) <= 10 || (forall e :: e in prog ==> StepFree(e)) ==>
              |StatementsCode(TypeCheck(ParsedStatements(prog), false))| <= TEXT_MAX
  {
    ProgramBounds(prog);
    CodeOfProgram(prog);
  }

  /** Eight increments fill the node table and need 191 bytes: the room in the table does not bound the text. */
  lemma IncrementsOverflowText(v: Var)
    requires !v.system && FourBytes(v.varType)
    ensures var prog := seq(8, _ => Post(Add, v));
            WellTypedProgram(prog) && ProgramNodes(prog) == 16
            && |StatementsCode(TypeCheck(ParsedStatements(prog), false))| == 191
  {
    var prog := seq(8, _ => Post(Add, v));
    CodeOfProgram(prog);
    Increments(v, prog);
  }

  lemma {:induction false} Increments(v: Var, prog: seq<Expr>)
    requires forall e :: e in prog ==> e == Post(Add, v)
    ensures ProgramNodes(prog) == 2 * |prog|
    ensures prog != [] ==> |EmittedStatements(prog)| == 24 * |prog| - 1
  {
    if prog != [] {
      assert forall e :: e in prog[1..] ==> e in prog;
      Increments(v, prog[1..]);
      assert prog[0] in prog;
      assert |Emitted(prog[0])| == 23;
    }
  }

  /** Exactly the variables of the four-byte types are typed as double words and loaded: a variable typed as a double word is
      loaded iff its type is one of them, and the only other such type, for which no byte is emitted, is `void *`. */
  lemma LoadedIffFourBytes(v: Var, isAddr: bool)
    ensures var t := TypeCheck(VarTree(v, Null), isAddr);
            && (t.info.dataType == Dword32 && Code(t) != [] <==> FourBytes(v.varType))
            && (t.info.dataType == Dword32 ==> (Code(t) == [] <==> v.varType == TVoidp))
            && (t.info.dataType != Dword32 ==> (Code(t) == [] <==> t.info.dataType == Void))
            && (t.info.dataType == Dword32 <==> DataTypeOf(v.varType) == Dword32)
  {
    var t := TypeCheck(VarTree(v, Null), isAddr);
    assert t.child == Null && t.sibling == Null && t.info.varType == v.varType && t.info.dataType == DataTypeOf(v.varType);
    assert Code(t) == Code(Null) + LoadCode(t.info) + Code(Null);
    hide Set32;
  }
}
