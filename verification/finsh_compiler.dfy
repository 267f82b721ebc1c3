/** The node table of the finsh shell and its two tree walks: finsh_type_check, which sets flags in place, and
    finsh_compile, which writes bytes at finsh_compile_pc (finsh_compiler.c). */
module FinshCompiler {
  import opened FinshWords
  import opened FinshMachine
  import opened Prelude

  /** enum finsh_type. */
  datatype VarType =
    | TUnknown | TVoid | TVoidp | TChar | TUchar | TCharp | TShort | TUshort | TShortp
    | TInt | TUint | TIntp | TLong | TUlong | TLongp

  datatype DataType = Void | Byte8 | Word16 | Dword32

  /** The bits of idtype: which table the identifier is in, and FINSH_IDTYPE_ADDRESS. */
  datatype IdKind = NoId | VarId | SysVarId | SyscallId

  datatype NodeType =
    | NodeId | ValueChar | ValueLong
    | SysBin(op: BinOp) | SysBitwise | SysAssign
    | SysPreInc | SysPreDec | SysInc | SysDec
    | SysGetValue | SysGetAddr

  /** What a node holds besides its links. `value` is a literal or the address of the variable's value. */
  datatype Label = Label(nodeType: NodeType, dataType: DataType, kind: IdKind, address: bool, value: Word, varType: VarType)

  /** A tree of nodes, first child and next sibling. */
  datatype Tree = Null | Node(info: Label, child: Tree, sibling: Tree)

  function Root(t: Tree): Option<Label> {
    if t.Node? then Some(t.info) else None
  }

  // ---------------------------------------------------------------- type check, as a function on trees

  function DataTypeOf(t: VarType): DataType {
    match t
    case TChar | TUchar => Byte8
    case TShort | TUshort => Word16
    case TInt | TUint | TLong | TUlong | TCharp | TVoidp | TShortp | TIntp | TLongp => Dword32
    case TVoid | TUnknown => Void
  }

  /** The address flag a node passes to its first child. */
  function ChildFlag(n: NodeType, isAddr: bool): bool {
    if n in {SysAssign, SysPreInc, SysPreDec, SysGetAddr} then true
    else if n == SysGetValue && isAddr then false
    else isAddr
  }

  /** The info after the check; `child` is the first child, already checked. */
  function CheckedLabel(l: Label, isAddr: bool, child: Option<Label>): Label {
    var l1 := if l.kind != SyscallId then l.(address := l.address || isAddr) else l;
    if child.Some? then l1.(dataType := child.value.dataType)
    else
      match l.nodeType
      case NodeId =>
        if l.kind in {VarId, SysVarId} && l.varType != TUnknown then l1.(dataType := DataTypeOf(l.varType)) else l1
      case ValueChar => l1.(dataType := Byte8)
      case ValueLong => l1.(dataType := Dword32)
      case _ => l1
  }

  function TypeCheck(t: Tree, isAddr: bool): Tree {
    match t
    case Null => Null
    case Node(l, c, s) =>
      var c' := TypeCheck(c, ChildFlag(l.nodeType, isAddr));
      Node(CheckedLabel(l, isAddr, Root(c')), c', TypeCheck(s, false))
  }

  // ---------------------------------------------------------------- code, as a function on trees

  /** The member of an opcode family for a data type; nothing is emitted for VOID. */
  function Sized(base: Byte, d: DataType): seq<Byte>
    requires base <= 0xFD
  {
    match d
    case Void => []
    case Byte8 => [base]
    case Word16 => [base + 1]
    case Dword32 => [base + 2]
  }

  /** Load the address of a variable, or its value, by its declared type. `void *` has no case of its own. */
  function LoadCode(l: Label): seq<Byte> {
    match l.varType
    case TChar | TUchar => [if l.address then OP_LD_DWORD else OP_LD_VALUE_BYTE] + Set32(l.value)
    case TShort | TUshort => [if l.address then OP_LD_DWORD else OP_LD_VALUE_WORD] + Set32(l.value)
    case TInt | TUint | TLong | TUlong | TCharp | TShortp | TIntp | TLongp =>
      [if l.address then OP_LD_DWORD else OP_LD_VALUE_DWORD] + Set32(l.value)
    case TVoid | TVoidp | TUnknown => []
  }

  /** Store to the address below the top of the stack, then load the stored value. */
  function StoreCode(d: DataType): seq<Byte> {
    match d
    case Void => []
    case Byte8 => [OP_ST_BYTE, OP_LD_VALUE_BYTE_STACK]
    case Word16 => [OP_ST_WORD, OP_LD_VALUE_WORD_STACK]
    case Dword32 => [OP_ST_DWORD, OP_LD_VALUE_DWORD_STACK]
  }

  /** Load the variable at `a`, load one, apply `op`, store. */
  function StepCode(a: Word, op: BinOp, d: DataType): seq<Byte> {
    match d
    case Void => []
    case Byte8 => [OP_LD_VALUE_BYTE] + Set32(a) + [OP_LD_BYTE, 1] + Sized(BaseOpcode(op), d) + [OP_ST_BYTE]
    case Word16 => [OP_LD_VALUE_WORD] + Set32(a) + [OP_LD_WORD, 1, 0] + Sized(BaseOpcode(op), d) + [OP_ST_WORD]
    case Dword32 =>
      [OP_LD_VALUE_DWORD] + Set32(a) + [OP_LD_DWORD] + Set32(1) + Sized(BaseOpcode(op), d) + [OP_ST_DWORD]
  }

  function PreStepCode(c: Option<Label>, op: BinOp, d: DataType): seq<Byte> {
    if c.Some? && c.value.nodeType == NodeId && d != Void then
      StepCode(c.value.value, op, d) + [OP_LD_VALUE_DWORD_STACK]
    else []
  }

  function PostStepCode(c: Option<Label>, op: BinOp, d: DataType): seq<Byte> {
    if c.Some? && c.value.nodeType == NodeId && d != Void then
      [OP_LD_DWORD] + Set32(c.value.value) + StepCode(c.value.value, op, d) + [OP_POP]
    else []
  }

  /** What one node emits after its children. */
  function OwnCode(l: Label, c: Option<Label>): seq<Byte> {
    match l.nodeType
    case NodeId => if l.kind == SyscallId then [OP_LD_DWORD] + Set32(l.value) else LoadCode(l)
    case ValueChar => [OP_LD_BYTE, l.value % 0x100]
    case ValueLong => [OP_LD_DWORD] + Set32(l.value)
    case SysBin(op) => Sized(BaseOpcode(op), l.dataType)
    case SysBitwise => Sized(OP_BITWISE_BYTE, l.dataType)
    case SysAssign =>
      if c.Some? && c.value.nodeType in {NodeId, SysGetValue} then StoreCode(c.value.dataType) else []
    case SysPreInc => PreStepCode(c, Add, l.dataType)
    case SysPreDec => PreStepCode(c, Sub, l.dataType)
    case SysInc => PostStepCode(c, Add, l.dataType)
    case SysDec => PostStepCode(c, Sub, l.dataType)
    case SysGetValue => if l.address then [] else Sized(OP_LD_VALUE_BYTE_STACK, l.dataType)
    case SysGetAddr => []
  }

  /** The bytes of a tree: first child, the node itself, next sibling. */
  function Code(t: Tree): seq<Byte> {
    match t
    case Null => []
    case Node(l, c, s) => Code(c) + OwnCode(l, Root(c)) + Code(s)
  }

  /** The bytes of a list of statements: the value of every statement but the last is popped. */
  function StatementsCode(t: Tree): seq<Byte> {
    match t
    case Null => []
    case Node(l, c, s) => Code(Node(l, c, Null)) + (if s.Node? then [OP_POP] else []) + StatementsCode(s)
  }

  // ---------------------------------------------------------------- the node table

  /** One entry of global_node_table; `child` and `sibling` are table indices, or -1 for NULL. */
  datatype Entry = Entry(info: Label, child: int, sibling: int)

  /** Which table entries make up a tree, and how. */
  datatype Shape = Nil | At(id: nat, child: Shape, sibling: Shape)

  ghost function Ids(s: Shape): set<nat> {
    match s
    case Nil => {}
    case At(id, c, n) => {id} + Ids(c) + Ids(n)
  }

  /** The links from entry `p` have shape `s`, and no entry is met twice. */
  ghost predicate Shaped(table: seq<Entry>, p: int, s: Shape)
    decreases s
  {
    match s
    case Nil => p == -1
    case At(id, c, n) =>
      && p == id < |table|
      && id !in Ids(c) && id !in Ids(n) && Ids(c) !! Ids(n)
      && Shaped(table, table[id].child, c)
      && Shaped(table, table[id].sibling, n)
  }

  /** The tree stored at a shape. */
  ghost function Stored(table: seq<Entry>, s: Shape): Tree {
    match s
    case Nil => Null
    case At(id, c, n) => if id < |table| then Node(table[id].info, Stored(table, c), Stored(table, n)) else Null
  }

  /** A tree does not change when only entries outside it do. */
  lemma {:induction false} StoredFrame(table: seq<Entry>, table': seq<Entry>, p: int, s: Shape)
    requires |table| == |table'|
    requires Shaped(table, p, s)
    requires forall i :: i in Ids(s) && i < |table| ==> table[i] == table'[i]
    ensures Shaped(table', p, s) && Stored(table', s) == Stored(table, s)
    decreases s
  {
    if s.At? {
      StoredFrame(table, table', table[s.id].child, s.child);
      StoredFrame(table, table', table[s.id].sibling, s.sibling);
    }
  }

  /** Entries outside the set are the same in both tables. */
  ghost predicate Outside(table: seq<Entry>, table': seq<Entry>, ids: set<nat>) {
    |table| == |table'| && forall i :: 0 <= i < |table| && i !in ids ==> table[i] == table'[i]
  }

  /** Checking the children, then the siblings, then the node itself checks the tree. */
  lemma CheckedTree(t0: seq<Entry>, t1: seq<Entry>, t2: seq<Entry>, t3: seq<Entry>, p: int, isAddr: bool, s: Shape)
    requires s.At? && Shaped(t0, p, s)
    requires Outside(t0, t1, Ids(s.child)) && Outside(t1, t2, Ids(s.sibling))
    requires Shaped(t1, t0[p].child, s.child)
    requires Stored(t1, s.child) == TypeCheck(Stored(t0, s.child), ChildFlag(t0[p].info.nodeType, isAddr))
    requires Shaped(t2, t0[p].sibling, s.sibling)
    requires Stored(t2, s.sibling) == TypeCheck(Stored(t1, s.sibling), false)
    requires t3 == t2[p := t2[p].(info := CheckedLabel(t2[p].info, isAddr, Root(Stored(t1, s.child))))]
    ensures Shaped(t3, p, s)
    ensures Stored(t3, s) == TypeCheck(Stored(t0, s), isAddr)
    ensures Outside(t0, t3, Ids(s))
  {
    hide CheckedLabel, ChildFlag;
    StoredFrame(t0, t1, t0[p].sibling, s.sibling);
    StoredFrame(t1, t2, t0[p].child, s.child);
    StoredFrame(t2, t3, t0[p].child, s.child);
    StoredFrame(t2, t3, t0[p].sibling, s.sibling);
  }

  lemma Joined<T>(w: seq<T>, a: seq<T>, b: seq<T>, c: seq<T>)
    ensures ((w + a) + b) + c == w + ((a + b) + c)
  {
  }

  class Compiler {
    const nodes: array<Entry>
    const text: array<Byte>
    var pc: nat

    constructor (nodes: array<Entry>, text: array<Byte>)
      requires text.Length == TEXT_MAX
      ensures this.nodes == nodes && this.text == text
    {
      this.nodes, this.text, pc := nodes, text, 0;
    }

    /** finsh_type_check: the entries of the tree are updated in place, all others stay. */
    method TypeCheckNode(p: int, isAddr: bool, ghost s: Shape)
      requires Shaped(nodes[..], p, s)
      modifies nodes
      ensures Shaped(nodes[..], p, s)
      ensures Stored(nodes[..], s) == TypeCheck(old(Stored(nodes[..], s)), isAddr)
      ensures Outside(old(nodes[..]), nodes[..], Ids(s))
      decreases s
    {
      if p == -1 {
        return;
      }
      hide CheckedLabel;
      ghost var t0 := nodes[..];
      var nodeType := nodes[p].info.nodeType;
      if nodeType == SysAssign || nodeType == SysPreInc || nodeType == SysPreDec || nodeType == SysGetAddr {
        TypeCheckNode(nodes[p].child, true, s.child);
      } else if nodeType == SysGetValue && isAddr {
        TypeCheckNode(nodes[p].child, false, s.child);
      } else {
        TypeCheckNode(nodes[p].child, isAddr, s.child);
      }
      ghost var t1 := nodes[..];
      StoredFrame(t0, t1, t0[p].sibling, s.sibling);
      TypeCheckNode(nodes[p].sibling, false, s.sibling);
      ghost var t2 := nodes[..];
      StoredFrame(t1, t2, t0[p].child, s.child);
      SetInfo(p, isAddr);
      CheckedTree(t0, t1, t2, nodes[..], p, isAddr, s);
    }

    /** The attributes of one node, set after its children and siblings. */
    method SetInfo(p: int, isAddr: bool)
      requires 0 <= p < nodes.Length && -1 <= nodes[p].child < nodes.Length
      modifies nodes
      ensures nodes[..] == old(nodes[..])[p := old(nodes[p]).(info := CheckedLabel(old(nodes[p].info), isAddr, old(ChildInfo(p))))]
    {
      var l := nodes[p].info;
      if l.kind != SyscallId {
        l := l.(address := l.address || isAddr);
      }
      if nodes[p].child != -1 {
        l := l.(dataType := nodes[nodes[p].child].info.dataType);
      } else if l.nodeType == NodeId {
        if (l.kind == VarId || l.kind == SysVarId) && l.varType != TUnknown {
          l := l.(dataType := DataTypeOf(l.varType));
        }
      } else if l.nodeType == ValueChar {
        l := l.(dataType := Byte8);
      } else if l.nodeType == ValueLong {
        l := l.(dataType := Dword32);
      }
      nodes[p] := nodes[p].(info := l);
    }

    /** finsh_code_byte and finsh_code_dword. The source writes without a bound; the caller answers for the room. */
    method Emit(bytes: seq<Byte>)
      requires pc + |bytes| <= text.Length
      modifies text, `pc
      ensures pc == old(pc) + |bytes|
      ensures text[..pc] == old(text[..pc]) + bytes
      ensures forall i :: pc <= i < text.Length ==> text[i] == old(text[i])
    {
      var i := 0;
      while i < |bytes|
        invariant 0 <= i <= |bytes| && pc == old(pc) + i
        invariant text[..pc] == old(text[..pc]) + bytes[..i]
        invariant forall j :: pc <= j < text.Length ==> text[j] == old(text[j])
      {
        text[pc] := bytes[i];
        pc := pc + 1;
        i := i + 1;
      }
    }

    /** finsh_compile: the bytes of the tree are appended to the text, and nothing after them is touched. */
    method CompileNode(p: int, ghost s: Shape)
      requires Shaped(nodes[..], p, s)
      requires nodes as object != text
      requires pc + |Code(Stored(nodes[..], s))| <= text.Length
      modifies text, `pc
      ensures pc == old(pc) + |Code(Stored(nodes[..], s))|
      ensures text[..pc] == old(text[..pc]) + Code(Stored(nodes[..], s))
      ensures forall i :: pc <= i < text.Length ==> text[i] == old(text[i])
      decreases s
    {
      if p == -1 {
        return;
      }
      ghost var t, w0 := nodes[..], text[..pc];
      ghost var tree := Stored(t, s);
      ghost var own := OwnCode(tree.info, Root(tree.child));
      Joined(w0, Code(tree.child), own, Code(tree.sibling));
      if nodes[p].child != -1 {
        CompileNode(nodes[p].child, s.child);
      }
      ghost var w1 := text[..pc];
      assert w1 == w0 + Code(tree.child) && nodes[..] == t;
      CompileOwn(p);
      ghost var w2 := text[..pc];
      assert w2 == w1 + own && nodes[..] == t;
      if nodes[p].sibling != -1 {
        CompileNode(nodes[p].sibling, s.sibling);
      }
      assert text[..pc] == w2 + Code(tree.sibling);
    }

    /** The first child's info, as the source reads it through the link. */
    function ChildInfo(p: int): Option<Label>
      reads nodes
      requires 0 <= p < nodes.Length && -1 <= nodes[p].child < nodes.Length
    {
      if nodes[p].child == -1 then None else Some(nodes[nodes[p].child].info)
    }

    /** The switch of finsh_compile on the type of the current node: the bytes it emits. */
    method Switch(l: Label, c: Option<Label>) returns (bytes: seq<Byte>)
      ensures bytes == OwnCode(l, c)
    {
      hide Set32, LoadCode, StoreCode, Sized, PreStepCode, PostStepCode, BaseOpcode;
      bytes := [];
      match l.nodeType {
        case NodeId =>
          if l.kind == SyscallId {
            bytes := [OP_LD_DWORD] + Set32(l.value);
          } else {
            bytes := LoadCode(l);
          }
        case ValueChar => bytes := [OP_LD_BYTE, l.value % 0x100];
        case ValueLong => bytes := [OP_LD_DWORD] + Set32(l.value);
        case SysBin(op) => bytes := Sized(BaseOpcode(op), l.dataType);
        case SysBitwise => bytes := Sized(OP_BITWISE_BYTE, l.dataType);
        case SysAssign =>
          if c.Some? && (c.value.nodeType == NodeId || c.value.nodeType == SysGetValue) {
            bytes := StoreCode(c.value.dataType);
          }
        case SysPreInc => bytes := PreStepCode(c, Add, l.dataType);
        case SysPreDec => bytes := PreStepCode(c, Sub, l.dataType);
        case SysInc => bytes := PostStepCode(c, Add, l.dataType);
        case SysDec => bytes := PostStepCode(c, Sub, l.dataType);
        case SysGetValue =>
          if !l.address {
            bytes := Sized(OP_LD_VALUE_BYTE_STACK, l.dataType);
          }
        case SysGetAddr =>
      }
    }

    method CompileOwn(p: int)
      requires 0 <= p < nodes.Length && -1 <= nodes[p].child < nodes.Length
      requires nodes as object != text
      requires pc + |OwnCode(nodes[p].info, ChildInfo(p))| <= text.Length
      modifies text, `pc
      ensures pc == old(pc) + |OwnCode(nodes[p].info, ChildInfo(p))|
      ensures text[..pc] == old(text[..pc]) + OwnCode(nodes[p].info, ChildInfo(p))
      ensures forall i :: pc <= i < text.Length ==> text[i] == old(text[i])
    {
      hide OwnCode;
      var bytes := Switch(nodes[p].info, ChildInfo(p));
      Emit(bytes);
    }

    /** memset over the text. */
    method ClearText()
      modifies text, `pc
      ensures pc == 0 && forall j :: 0 <= j < text.Length ==> text[j] == OP_NOOP
    {
      var i := 0;
      while i < text.Length
        invariant 0 <= i <= text.Length
        invariant forall j :: 0 <= j < i ==> text[j] == OP_NOOP
      {
        text[i] := OP_NOOP;
        i := i + 1;
      }
      pc := 0;
    }

    /** finsh_compiler_run: check the list, clear the text, then compile one statement after the other. The list is
        taken apart on the way: each statement's sibling link is cut before it is compiled. */
    method CompilerRun(root: int, ghost s: Shape)
      requires Shaped(nodes[..], root, s)
      requires nodes as object != text && text.Length == TEXT_MAX
      requires |StatementsCode(TypeCheck(Stored(nodes[..], s), false))| <= TEXT_MAX
      modifies nodes, text, `pc
      ensures var code := StatementsCode(TypeCheck(old(Stored(nodes[..], s)), false));
              && |code| <= text.Length && text[..|code|] == code
              && forall i :: |code| <= i < text.Length ==> text[i] == OP_NOOP
    {
      hide OwnCode, CheckedLabel;
      TypeCheckNode(root, false, s);
      ghost var tree := Stored(nodes[..], s);
      ghost var code := StatementsCode(tree);
      ClearText();
      var sibling := root;
      ghost var rest := s;
      while sibling != -1
        invariant Shaped(nodes[..], sibling, rest)
        invariant pc + |StatementsCode(Stored(nodes[..], rest))| <= TEXT_MAX
        invariant text[..pc] + StatementsCode(Stored(nodes[..], rest)) == code
        invariant forall j :: pc <= j < text.Length ==> text[j] == OP_NOOP
        decreases rest
      {
        var current := sibling;
        ghost var t0 := nodes[..];
        ghost var here := Stored(t0, rest);
        ghost var written := text[..pc];
        ghost var single := At(rest.id, rest.child, Nil);
        sibling := nodes[current].sibling;
        nodes[current] := nodes[current].(sibling := -1);
        ghost var t1 := nodes[..];
        StoredFrame(t0, t1, t0[current].child, rest.child);
        StoredFrame(t0, t1, sibling, rest.sibling);
        ghost var first := Node(here.info, here.child, Null);
        ghost var pop := if here.sibling.Node? then [OP_POP] else [];
        assert Stored(t1, single) == first;
        Joined(written, Code(first), pop, StatementsCode(here.sibling));
        CompileNode(current, single);
        ghost var w1 := text[..pc];
        assert w1 == written + Code(first) && nodes[..] == t1;
        if sibling != -1 {
          Emit([OP_POP]);
        }
        assert text[..pc] == w1 + pop && nodes[..] == t1;
        rest := rest.sibling;
      }
      assert text[..pc] == code;
    }
  }
}
