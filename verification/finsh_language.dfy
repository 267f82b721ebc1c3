/** The expressions of the shell that work on four-byte operands, their meaning, and the node trees the parser
    builds for them (finsh_parser.c). */
module FinshLanguage {
  import opened Prelude
  import opened FinshWords
  import opened FinshMachine
  import opened FinshCompiler

  /** A variable: where it is declared, the address of its value, and its type. */
  datatype Var = Var(system: bool, address: Word, varType: VarType)

  datatype Place = VarPlace(v: Var) | DerefPlace(e: Expr)

  datatype Expr =
    | Lit(value: Word)
    | Get(place: Place)
    | AddressOf(place: Place)
    | Binary(op: BinOp, left: Expr, right: Expr)
    | Not(e: Expr)
    | Store(target: Place, source: Expr)
    | Pre(op: BinOp, v: Var)
    | Post(op: BinOp, v: Var)

  /** The variables of a type the compiler loads and stores as four bytes. `void *` is not one of them. */
  predicate FourBytes(t: VarType) {
    t in {TInt, TUint, TLong, TUlong, TCharp, TShortp, TIntp, TLongp}
  }

  /** Four-byte variables only; ++ and -- add or subtract, on variables of the shell itself. */
  predicate WellTyped(e: Expr) {
    match e
    case Lit(_) => true
    case Get(p) => WellTypedPlace(p)
    case AddressOf(p) => WellTypedPlace(p)
    case Binary(_, l, r) => WellTyped(l) && WellTyped(r)
    case Not(e1) => WellTyped(e1)
    case Store(p, e1) => WellTypedPlace(p) && WellTyped(e1)
    case Pre(op, v) => op in {Add, Sub} && !v.system && FourBytes(v.varType)
    case Post(op, v) => op in {Add, Sub} && !v.system && FourBytes(v.varType)
  }

  predicate WellTypedPlace(p: Place) {
    match p
    case VarPlace(v) => FourBytes(v.varType)
    case DerefPlace(e) => WellTyped(e)
  }

  // ---------------------------------------------------------------- meaning

  datatype Outcome = Outcome(value: Word, mem: Memory)

  /** Evaluation from left to right. None: an operator without a value, or an address that is no variable's. */
  function Eval(e: Expr, mem: Memory): Option<Outcome> {
    match e
    case Lit(v) => Some(Outcome(v, mem))
    case Get(p) =>
      (match EvalPlace(p, mem)
       case None => None
       case Some(Outcome(a, m)) => if Cell(a) in m then Some(Outcome(m[Cell(a)], m)) else None)
    case AddressOf(p) => EvalPlace(p, mem)
    case Binary(op, l, r) =>
      (match Eval(l, mem)
       case None => None
       case Some(Outcome(a, m1)) =>
         match Eval(r, m1)
         case None => None
         case Some(Outcome(b, m2)) =>
           match Apply(op, a, b)
           case None => None
           case Some(v) => Some(Outcome(v, m2)))
    case Not(e1) =>
      (match Eval(e1, mem)
       case None => None
       case Some(Outcome(v, m)) => Some(Outcome(Complement(v), m)))
    case Store(p, e1) =>
      (match EvalPlace(p, mem)
       case None => None
       case Some(Outcome(a, m1)) =>
         match Eval(e1, m1)
         case None => None
         case Some(Outcome(v, m2)) => if Cell(a) in m2 then Some(Outcome(v, m2[Cell(a) := v])) else None)
    case Pre(op, v) =>
      if Cell(v.address) !in mem then None
      else
        (match Apply(op, mem[Cell(v.address)], 1)
         case None => None
         case Some(x) => Some(Outcome(x, mem[Cell(v.address) := x])))
    case Post(op, v) =>
      if Cell(v.address) !in mem then None
      else
        (match Apply(op, mem[Cell(v.address)], 1)
         case None => None
         case Some(x) => Some(Outcome(mem[Cell(v.address)], mem[Cell(v.address) := x])))
  }

  /** The address a place denotes. */
  function EvalPlace(p: Place, mem: Memory): Option<Outcome> {
    match p
    case VarPlace(v) => Some(Outcome(v.address, mem))
    case DerefPlace(e) => Eval(e, mem)
  }

  /** Statements one after the other; the value is that of the last one. */
  function EvalStatements(prog: seq<Expr>, mem: Memory): Option<Outcome>
    requires prog != []
  {
    match Eval(prog[0], mem)
    case None => None
    case Some(Outcome(v, m)) => if |prog| == 1 then Some(Outcome(v, m)) else EvalStatements(prog[1..], m)
  }

  /** The value of a binary expression is the one C gives the operator on the values of its operands, the left one
      evaluated first; there is none exactly when an operand or the operator has none. */
  lemma BinaryMeans(op: BinOp, l: Expr, r: Expr, mem: Memory)
    ensures var left := Eval(l, mem);
            var right := if left.Some? then Eval(r, left.value.mem) else None;
            var o := Eval(Binary(op, l, r), mem);
            && (o.Some? <==> right.Some? && HasValue(op, right.value.value))
            && (o.Some? ==> o.value.mem == right.value.mem && Means(op, left.value.value, right.value.value, o.value.value))
  {
    hide Apply, Means;
    var left := Eval(l, mem);
    if left.Some? {
      var right := Eval(r, left.value.mem);
      if right.Some? {
        OperatorMeans(op, left.value.value, right.value.value);
      }
    }
  }

  /** ++ and -- change the signed value of their variable by one, modulo 2^32, and nothing else; written before the
      variable they give the new value, written behind it the old one. */
  lemma StepMeans(op: BinOp, v: Var, mem: Memory)
    requires op in {Add, Sub} && Cell(v.address) in mem
    ensures var pre, post := Eval(Pre(op, v), mem), Eval(Post(op, v), mem);
            && pre.Some? && post.Some? && pre.value.mem == post.value.mem
            && pre.value.mem.Keys == mem.Keys && (forall c :: c in mem && c != Cell(v.address) ==> pre.value.mem[c] == mem[c])
            && pre.value.value == pre.value.mem[Cell(v.address)] && post.value.value == mem[Cell(v.address)]
            && Congruent(Signed(pre.value.value), Signed(post.value.value) + (if op == Add then 1 else -1))
  {
    OperatorMeans(op, mem[Cell(v.address)], 1);
    hide Apply;
  }

  /** An assignment gives the value of its right side, and the variable then reads as that value while every other
      one keeps what the right side left in it. */
  lemma AssignedReads(v: Var, e: Expr, mem: Memory)
    ensures var right, o := Eval(e, mem), Eval(Store(VarPlace(v), e), mem);
            && (o.Some? <==> right.Some? && Cell(v.address) in right.value.mem)
            && (o.Some? ==>
                  && o.value.value == right.value.value
                  && Eval(Get(VarPlace(v)), o.value.mem) == Some(Outcome(right.value.value, o.value.mem))
                  && forall w: Var :: w.address != v.address ==>
                       var before, after := Eval(Get(VarPlace(w)), right.value.mem), Eval(Get(VarPlace(w)), o.value.mem);
                       before.Some? == after.Some? && (before.Some? ==> after.value.value == before.value.value))
  {
  }

  /** Following the address of a place is reading the place, and assigning through it is assigning to the place. */
  lemma AddressIsPlace(p: Place, e: Expr, mem: Memory)
    ensures Eval(Get(DerefPlace(AddressOf(p))), mem) == Eval(Get(p), mem)
    ensures Eval(Store(DerefPlace(AddressOf(p)), e), mem) == Eval(Store(p, e), mem)
  {
    assert EvalPlace(DerefPlace(AddressOf(p)), mem) == Eval(AddressOf(p), mem) == EvalPlace(p, mem);
  }

  /** A program followed by another means the second one in the memory the first one leaves. */
  lemma {:induction false} StatementsCompose(p: seq<Expr>, q: seq<Expr>, mem: Memory)
    requires p != [] && q != []
    ensures EvalStatements(p + q, mem) ==
            match EvalStatements(p, mem)
            case None => None
            case Some(o) => EvalStatements(q, o.mem)
    decreases |p|
  {
    hide Eval;
    assert (p + q)[0] == p[0] && (p + q)[1..] == p[1..] + q;
    if |p| == 1 {
      assert p[1..] + q == q;
    } else if Eval(p[0], mem).Some? {
      StatementsCompose(p[1..], q, Eval(p[0], mem).value.mem);
    }
  }

  /** `5-3` is 2, and `3-5` is -2. */
  lemma Difference(mem: Memory)
    ensures Eval(Binary(Sub, Lit(5), Lit(3)), mem) == Some(Outcome(2, mem))
    ensures Eval(Binary(Sub, Lit(3), Lit(5)), mem) == Some(Outcome(Complement(1), mem)) && Signed(Complement(1)) == -2
  {
    OperatorIs(Sub, 5, 3, 2);
    OperatorIs(Sub, 3, 5, Complement(1));
  }

  // ---------------------------------------------------------------- the trees of the parser

  function Fresh(n: NodeType): Label {
    Label(n, Void, NoId, false, 0, TUnknown)
  }

  function VarTree(v: Var, sibling: Tree): Tree {
    Node(Label(NodeId, Void, if v.system then SysVarId else VarId, false, v.address, v.varType), Null, sibling)
  }

  function StepNode(op: BinOp, pre: bool): NodeType {
    if op == Add then (if pre then SysPreInc else SysInc) else (if pre then SysPreDec else SysDec)
  }

  function Parsed(e: Expr, sibling: Tree): Tree {
    match e
    case Lit(v) => Node(Fresh(ValueLong).(value := v), Null, sibling)
    case Get(p) => ParsedPlace(p, sibling)
    case AddressOf(p) => Node(Fresh(SysGetAddr), ParsedPlace(p, Null), sibling)
    case Binary(op, l, r) => Node(Fresh(SysBin(op)), Parsed(l, Parsed(r, Null)), sibling)
    case Not(e1) => Node(Fresh(SysBitwise), Parsed(e1, Null), sibling)
    case Store(p, e1) => Node(Fresh(SysAssign), ParsedPlace(p, Parsed(e1, Null)), sibling)
    case Pre(op, v) => Node(Fresh(StepNode(op, true)), VarTree(v, Null), sibling)
    case Post(op, v) => Node(Fresh(StepNode(op, false)), VarTree(v, Null), sibling)
  }

  function ParsedPlace(p: Place, sibling: Tree): Tree {
    match p
    case VarPlace(v) => VarTree(v, sibling)
    case DerefPlace(e) => Node(Fresh(SysGetValue), Parsed(e, Null), sibling)
  }

  function ParsedStatements(prog: seq<Expr>): Tree {
    if prog == [] then Null else Parsed(prog[0], ParsedStatements(prog[1..]))
  }

  // ---------------------------------------------------------------- resources

  /** Nodes of the table an expression takes. */
  function Nodes(e: Expr): nat {
    match e
    case Lit(_) => 1
    case Get(p) => PlaceNodes(p)
    case AddressOf(p) => 1 + PlaceNodes(p)
    case Binary(_, l, r) => 1 + Nodes(l) + Nodes(r)
    case Not(e1) => 1 + Nodes(e1)
    case Store(p, e1) => 1 + PlaceNodes(p) + Nodes(e1)
    case Pre(_, _) => 2
    case Post(_, _) => 2
  }

  function PlaceNodes(p: Place): nat {
    match p
    case VarPlace(_) => 1
    case DerefPlace(e) => 1 + Nodes(e)
  }

  function ProgramNodes(prog: seq<Expr>): nat {
    if prog == [] then 0 else Nodes(prog[0]) + ProgramNodes(prog[1..])
  }

  /** How often an expression loads a constant, an address or a variable; applies an operator or follows a pointer;
      assigns; and has ++ or -- before or behind a variable. */
  datatype Counts = Counts(loads: nat, operators: nat, stores: nat, pres: nat, posts: nat)

  function Plus(a: Counts, b: Counts): Counts {
    Counts(a.loads + b.loads, a.operators + b.operators, a.stores + b.stores, a.pres + b.pres, a.posts + b.posts)
  }

  const OPERATOR := Counts(0, 1, 0, 0, 0)

  function CountsOf(e: Expr): Counts {
    match e
    case Lit(_) => Counts(1, 0, 0, 0, 0)
    case Get(VarPlace(_)) => Counts(1, 0, 0, 0, 0)
    case Get(DerefPlace(e1)) => Plus(CountsOf(e1), OPERATOR)
    case AddressOf(p) => PlaceCounts(p)
    case Binary(_, l, r) => Plus(Plus(CountsOf(l), CountsOf(r)), OPERATOR)
    case Not(e1) => Plus(CountsOf(e1), OPERATOR)
    case Store(p, e1) => Plus(Plus(PlaceCounts(p), CountsOf(e1)), Counts(0, 0, 1, 0, 0))
    case Pre(_, _) => Counts(0, 0, 0, 1, 0)
    case Post(_, _) => Counts(0, 0, 0, 0, 1)
  }

  function PlaceCounts(p: Place): Counts {
    match p
    case VarPlace(_) => Counts(1, 0, 0, 0, 0)
    case DerefPlace(e) => CountsOf(e)
  }

  function ProgramCounts(prog: seq<Expr>): Counts {
    if prog == [] then Counts(0, 0, 0, 0, 0) else Plus(CountsOf(prog[0]), ProgramCounts(prog[1..]))
  }

  /** Bytes: five for a load, one for an operator, two for an assignment, 18 and 23 for a step before and behind. */
  function Bytes(c: Counts): nat {
    5 * c.loads + c.operators + 2 * c.stores + 18 * c.pres + 23 * c.posts
  }

  /** No ++ and no --. */
  predicate StepFree(e: Expr) {
    match e
    case Lit(_) => true
    case Get(p) => StepFreePlace(p)
    case AddressOf(p) => StepFreePlace(p)
    case Binary(_, l, r) => StepFree(l) && StepFree(r)
    case Not(e1) => StepFree(e1)
    case Store(p, e1) => StepFreePlace(p) && StepFree(e1)
    case Pre(_, _) => false
    case Post(_, _) => false
  }

  predicate StepFreePlace(p: Place) {
    match p
    case VarPlace(_) => true
    case DerefPlace(e) => StepFree(e)
  }

  /** Stack slots used while an expression runs. */
  function Depth(e: Expr): nat {
    match e
    case Lit(_) => 1
    case Get(p) => PlaceDepth(p)
    case AddressOf(p) => PlaceDepth(p)
    case Binary(_, l, r) => Max(Depth(l), 1 + Depth(r))
    case Not(e1) => Depth(e1)
    case Store(p, e1) => Max(PlaceDepth(p), 1 + Depth(e1))
    case Pre(_, _) => 3
    case Post(_, _) => 4
  }

  function PlaceDepth(p: Place): nat {
    match p
    case VarPlace(_) => 1
    case DerefPlace(e) => Depth(e)
  }

  function Max(a: nat, b: nat): nat { if a < b then b else a }
}
