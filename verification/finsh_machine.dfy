/** The finsh byte code (finsh_ops.h, finsh_ops.c) and the machine that runs it (finsh_vm.c), for operands of four
    bytes. */
module FinshMachine {
  import opened Prelude
  import opened FinshWords

  /** The `value` union of one variable, named by its address. */
  datatype Cell = Cell(address: Word)
  type Memory = map<Cell, Word>

  const STACK_MAX: nat := 64
  const TEXT_MAX: nat := 128

  // Opcodes. The arithmetic families list their byte, word and double-word members in consecutive codes.
  const OP_NOOP: Byte := 0x00
  const OP_BITWISE_BYTE: Byte := 0x19
  const OP_BITWISE_DWORD: Byte := 0x1B
  const OP_LD_BYTE: Byte := 0x22
  const OP_LD_WORD: Byte := 0x23
  const OP_LD_DWORD: Byte := 0x24
  const OP_LD_VALUE_BYTE: Byte := 0x25
  const OP_LD_VALUE_WORD: Byte := 0x26
  const OP_LD_VALUE_DWORD: Byte := 0x27
  const OP_ST_BYTE: Byte := 0x28
  const OP_ST_WORD: Byte := 0x29
  const OP_ST_DWORD: Byte := 0x2A
  const OP_POP: Byte := 0x2B
  const OP_LD_VALUE_BYTE_STACK: Byte := 0x2D
  const OP_LD_VALUE_WORD_STACK: Byte := 0x2E
  const OP_LD_VALUE_DWORD_STACK: Byte := 0x2F

  /** First opcode of the family of a binary operator. */
  function BaseOpcode(op: BinOp): (code: Byte)
    ensures 0 < code <= 0x1F
  {
    match op
    case Add => 0x01
    case Sub => 0x04
    case Div => 0x07
    case Mod => 0x0A
    case Mul => 0x0D
    case And => 0x10
    case Or => 0x13
    case Xor => 0x16
    case Shl => 0x1C
    case Shr => 0x1F
  }

  /** The operator whose double-word opcode is `code`. */
  function DwordOperator(code: Byte): Option<BinOp> {
    if code == 0x03 then Some(Add)
    else if code == 0x06 then Some(Sub)
    else if code == 0x09 then Some(Div)
    else if code == 0x0C then Some(Mod)
    else if code == 0x0F then Some(Mul)
    else if code == 0x12 then Some(And)
    else if code == 0x15 then Some(Or)
    else if code == 0x18 then Some(Xor)
    else if code == 0x1E then Some(Shl)
    else if code == 0x21 then Some(Shr)
    else None
  }

  /** FINSH_SET32: the four bytes of a word, lowest first. */
  function Set32(v: Word): (bytes: seq<Byte>)
    ensures |bytes| == 4
  {
    [v % 0x100, v / 0x100 % 0x100, v / 0x1_0000 % 0x100, v / 0x100_0000]
  }

  /** FINSH_GET32 at `pc`. */
  function Get32(text: seq<Byte>, pc: nat): Word
    requires pc + 4 <= |text|
  {
    var low, high: int := text[pc] as int + text[pc + 1] as int * 0x100, text[pc + 2] as int + text[pc + 3] as int * 0x100;
    low + high * 0x1_0000
  }

  /** An operand reads back as it was written. */
  lemma OperandRoundTrip(text: seq<Byte>, pc: nat, v: Word)
    requires pc + 4 <= |text|
    requires text[pc..pc + 4] == Set32(v)
    ensures Get32(text, pc) == v
  {
    var bytes := text[pc..pc + 4];
    assert text[pc] == bytes[0] && text[pc + 1] == bytes[1] && text[pc + 2] == bytes[2] && text[pc + 3] == bytes[3];
    Halves(v);
  }

  lemma Halves(v: Word)
    ensures v % 0x100 + v / 0x100 % 0x100 * 0x100 == v % 0x1_0000
    ensures v / 0x1_0000 % 0x100 + v / 0x100_0000 * 0x100 == v / 0x1_0000
  {
  }

  /** `stack` is the part of finsh_vm_stack below finsh_sp. */
  datatype VmState = VmState(pc: nat, stack: seq<Word>, mem: Memory)

  /** Fetch and execute one instruction. None is a fault: a missing operand, an empty or full stack, an address that
      is no cell, an operation without a value, or an opcode that is not part of this model. */
  function Step(text: seq<Byte>, s: VmState): (r: Option<VmState>)
    requires s.pc < |text|
    ensures r.Some? ==> s.pc < r.value.pc <= |text|
  {
    var op := text[s.pc];
    var pc := s.pc + 1;
    var sp := |s.stack|;
    if op == OP_NOOP then
      Some(s.(pc := pc))
    else if op == OP_POP then
      if sp == 0 then None else Some(VmState(pc, s.stack[..sp - 1], s.mem))
    else if op == OP_LD_DWORD || op == OP_LD_VALUE_DWORD then
      if pc + 4 > |text| || sp >= STACK_MAX then None
      else
        var v := Get32(text, pc);
        if op == OP_LD_DWORD then Some(VmState(pc + 4, s.stack + [v], s.mem))
        else if Cell(v) in s.mem then Some(VmState(pc + 4, s.stack + [s.mem[Cell(v)]], s.mem))
        else None
    else if op == OP_LD_VALUE_DWORD_STACK then
      if sp == 0 || Cell(s.stack[sp - 1]) !in s.mem then None
      else Some(VmState(pc, s.stack[..sp - 1] + [s.mem[Cell(s.stack[sp - 1])]], s.mem))
    else if op == OP_ST_DWORD then
      if sp < 2 || Cell(s.stack[sp - 2]) !in s.mem then None
      else Some(VmState(pc, s.stack[..sp - 1], s.mem[Cell(s.stack[sp - 2]) := s.stack[sp - 1]]))
    else if op == OP_BITWISE_DWORD then
      if sp == 0 then None else Some(VmState(pc, s.stack[..sp - 1] + [Complement(s.stack[sp - 1])], s.mem))
    else
      match DwordOperator(op)
      case None => None
      case Some(o) =>
        if sp < 2 then None
        else
          match Apply(o, s.stack[sp - 2], s.stack[sp - 1])
          case None => None
          case Some(v) => Some(VmState(pc, s.stack[..sp - 2] + [v], s.mem))
  }

  /** The instruction of an operator replaces the two top words by the one that C computes from them, the lower as
      the left operand, and faults only without two words or without a value. */
  lemma StepOperates(text: seq<Byte>, s: VmState, op: BinOp)
    requires s.pc < |text| && DwordOperator(text[s.pc]) == Some(op)
    ensures Step(text, s).Some? <==> |s.stack| >= 2 && HasValue(op, s.stack[|s.stack| - 1])
    ensures Step(text, s).Some? ==>
              var n, s' := |s.stack| - 2, Step(text, s).value;
              && s'.pc == s.pc + 1 && s'.mem == s.mem
              && |s'.stack| == n + 1 && s'.stack[..n] == s.stack[..n]
              && Means(op, s.stack[n], s.stack[n + 1], s'.stack[n])
  {
    hide Apply, Means;
    if |s.stack| >= 2 {
      OperatorMeans(op, s.stack[|s.stack| - 2], s.stack[|s.stack| - 1]);
    }
  }

  /** Run until the program counter leaves the text. It always does: each instruction moves it forward. */
  function Run(text: seq<Byte>, s: VmState): Option<VmState>
    decreases |text| - s.pc
  {
    if s.pc >= |text| then Some(s)
    else
      match Step(text, s)
      case None => None
      case Some(s') => Run(text, s')
  }

  /** Unused text is zero, and zero bytes change nothing. */
  lemma {:induction false} ZeroTail(text: seq<Byte>, s: VmState)
    requires s.pc <= |text|
    requires forall i :: s.pc <= i < |text| ==> text[i] == OP_NOOP
    ensures Run(text, s) == Some(s.(pc := |text|))
    decreases |text| - s.pc
  {
    if s.pc < |text| {
      ZeroTail(text, s.(pc := s.pc + 1));
    }
  }
}
