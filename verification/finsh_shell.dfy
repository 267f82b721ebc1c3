/** The virtual machine as the source has it, updating its stack, its memory and its registers in place
    (finsh_vm.c, finsh_ops.c), and the shell's compile-and-run step on top of it. */
module FinshShell {
  import opened Prelude
  import opened FinshWords
  import opened FinshMachine
  import opened FinshCompiler
  import opened FinshLanguage
  import opened FinshCorrect

  class Machine {
    const text: array<Byte>
    const stack: array<Word>
    var sp: nat
    var pc: nat
    var mem: Memory

    constructor (text: array<Byte>, stack: array<Word>, mem: Memory)
      ensures this.text == text && this.stack == stack && this.mem == mem
    {
      this.text, this.stack, this.mem := text, stack, mem;
      sp, pc := 0, 0;
    }

    ghost predicate Valid()
      reads this
    {
      stack.Length == STACK_MAX && sp <= STACK_MAX && text.Length == TEXT_MAX
    }

    ghost function State(): VmState
      reads this, stack
      requires sp <= stack.Length
    {
      VmState(pc, stack[..sp], mem)
    }

    /** Fetch an opcode and execute it; `ok` is false on a fault. */
    method Instruction() returns (ok: bool)
      requires Valid() && pc < TEXT_MAX
      modifies this, stack
      ensures Valid()
      ensures match Step(text[..], old(State()))
              case None => !ok
              case Some(s) => ok && State() == s
    {
      hide Apply, Get32, DwordOperator;
      ghost var s0 := State();
      var op := text[pc];
      pc := pc + 1;
      ok := true;
      if op == OP_NOOP {
      } else if op == OP_POP {
        ok := sp > 0;
        if ok {
          sp := sp - 1;
          assert stack[..sp] == s0.stack[..sp];
        }
      } else if op == OP_LD_DWORD || op == OP_LD_VALUE_DWORD {
        ok := Load(op == OP_LD_VALUE_DWORD);
      } else {
        ok := StackInstruction(op);
      }
    }

    /** The instructions without an operand in the text; the opcode has been fetched. */
    method StackInstruction(op: Byte) returns (ok: bool)
      requires Valid() && 0 < pc <= TEXT_MAX && text[pc - 1] == op
      requires op != OP_NOOP && op != OP_POP && op != OP_LD_DWORD && op != OP_LD_VALUE_DWORD
      modifies `sp, `mem, stack
      ensures Valid()
      ensures match Step(text[..], old(State()).(pc := pc - 1))
              case None => !ok
              case Some(s) => ok && State() == s
    {
      hide Apply, Get32, DwordOperator;
      if op == OP_LD_VALUE_DWORD_STACK {
        ok := Dereference();
      } else if op == OP_ST_DWORD {
        ok := StoreTop();
      } else if op == OP_BITWISE_DWORD {
        ok := Complement();
      } else {
        ok := Operate(DwordOperator(op));
      }
    }

    /** OP_ld_value_dword_stack. */
    method Dereference() returns (ok: bool)
      requires Valid()
      modifies stack
      ensures ok <==> sp > 0 && Cell(old(stack[sp - 1])) in mem
      ensures ok ==> stack[..sp] == old(stack[..sp - 1]) + [mem[Cell(old(stack[sp - 1]))]]
    {
      if sp == 0 || Cell(stack[sp - 1]) !in mem {
        return false;
      }
      stack[sp - 1] := mem[Cell(stack[sp - 1])];
      assert stack[..sp] == stack[..sp - 1] + [stack[sp - 1]];
      return true;
    }

    /** OP_st_dword: the address stays on the stack. */
    method StoreTop() returns (ok: bool)
      requires Valid()
      modifies `sp, `mem
      ensures Valid()
      ensures ok <==> old(sp) >= 2 && Cell(stack[old(sp) - 2]) in old(mem)
      ensures ok ==> sp == old(sp) - 1 && mem == old(mem)[Cell(stack[sp - 1]) := stack[sp]]
    {
      if sp < 2 || Cell(stack[sp - 2]) !in mem {
        return false;
      }
      mem := mem[Cell(stack[sp - 2]) := stack[sp - 1]];
      sp := sp - 1;
      return true;
    }

    /** OP_bw_dword. */
    method Complement() returns (ok: bool)
      requires Valid()
      modifies stack
      ensures ok <==> sp > 0
      ensures ok ==> stack[..sp] == old(stack[..sp - 1]) + [FinshWords.Complement(old(stack[sp - 1]))]
    {
      if sp == 0 {
        return false;
      }
      stack[sp - 1] := FinshWords.Complement(stack[sp - 1]);
      assert stack[..sp] == stack[..sp - 1] + [stack[sp - 1]];
      return true;
    }

    /** OP_ld_dword and OP_ld_value_dword; the opcode has been fetched. */
    method Load(indirect: bool) returns (ok: bool)
      requires Valid() && pc <= TEXT_MAX
      modifies `sp, `pc, stack
      ensures Valid()
      ensures ok <==> old(pc) + 4 <= TEXT_MAX && old(sp) < STACK_MAX
                      && (indirect ==> Cell(Get32(text[..], old(pc))) in mem)
      ensures ok ==> pc == old(pc) + 4 && sp == old(sp) + 1
      ensures ok ==> var v := Get32(text[..], old(pc));
                     stack[..sp] == old(stack[..sp]) + [if indirect then mem[Cell(v)] else v]
    {
      if pc + 4 > TEXT_MAX || sp >= STACK_MAX {
        return false;
      }
      var v := Get32(text[..], pc);
      if indirect && Cell(v) !in mem {
        return false;
      }
      ghost var below := stack[..sp];
      stack[sp] := if indirect then mem[Cell(v)] else v;
      sp := sp + 1;
      pc := pc + 4;
      assert stack[..sp] == below + [stack[sp - 1]];
      return true;
    }

    /** OP_BIN_DWORD: combine the two top words in place. */
    method Operate(op: Option<BinOp>) returns (ok: bool)
      requires Valid()
      modifies `sp, stack
      ensures Valid()
      ensures ok <==> op.Some? && old(sp) >= 2 && Apply(op.value, old(stack[sp - 2]), old(stack[sp - 1])).Some?
      ensures ok ==> var v := Apply(op.value, old(stack[sp - 2]), old(stack[sp - 1])).value;
                     sp == old(sp) - 1 && stack[..sp] == old(stack[..sp - 2]) + [v]
      ensures ok <==> op.Some? && old(sp) >= 2 && HasValue(op.value, old(stack[sp - 1]))
      ensures ok ==> Means(op.value, old(stack[sp - 2]), old(stack[sp - 1]), stack[sp - 1])
    {
      hide Apply, Means;
      if op == None || sp < 2 {
        return false;
      }
      OperatorMeans(op.value, stack[sp - 2], stack[sp - 1]);
      var r := Apply(op.value, stack[sp - 2], stack[sp - 1]);
      if r == None {
        return false;
      }
      ghost var below := stack[..sp - 2];
      stack[sp - 2] := r.value;
      sp := sp - 1;
      assert stack[..sp] == below + [r.value];
      return true;
    }

    /** finsh_vm_run: from the start of the text until the program counter leaves it. */
    method VmRun() returns (ok: bool)
      requires Valid() && text as object != stack
      modifies this, stack
      ensures Valid()
      ensures match Run(old(text[..]), VmState(0, [], old(mem)))
              case None => !ok
              case Some(s) => ok && State() == s
    {
      sp := 0;
      pc := 0;
      ghost var code := text[..];
      assert State() == VmState(0, [], mem);
      ok := true;
      while ok && pc < TEXT_MAX
        invariant Valid() && text[..] == code
        invariant if ok then Run(code, State()) == Run(code, VmState(0, [], old(mem)))
                  else Run(code, VmState(0, [], old(mem))) == None
        decreases ok, TEXT_MAX - pc
      {
        hide Step;
        ghost var s := State();
        ok := Instruction();
        assert Run(code, s) == match Step(code, s) case None => None case Some(s') => Run(code, s');
        assert ok ==> State().pc > s.pc;
      }
    }
  }

  /** Compile a parsed line and run it. For every well-typed program that fits, the shell's answer, stack slot 0, and
      the variables afterwards are those of the program's meaning, and a fault is reported exactly when it has none. */
  method EvaluateLine(c: Compiler, m: Machine, root: int, ghost shape: Shape, ghost prog: seq<Expr>)
    returns (ok: bool, value: Word)
    requires m.Valid() && c.text == m.text && c.nodes as object != c.text && m.stack as object != m.text
    requires prog != [] && WellTypedProgram(prog)
    requires Shaped(c.nodes[..], root, shape) && Stored(c.nodes[..], shape) == ParsedStatements(prog)
    requires Bytes(ProgramCounts(prog)) + |prog| - 1 <= TEXT_MAX
    requires forall e :: e in prog ==> Depth(e) <= STACK_MAX
    modifies c, c.nodes, c.text, m, m.stack
    ensures match EvalStatements(prog, old(m.mem))
            case None => !ok
            case Some(o) => ok && value == o.value && m.mem == o.mem && m.sp == 1
  {
    hide Run, EvalStatements, StatementsCode, TypeCheck, ParsedStatements, ProgramCounts;
    value := 0;
    TextFits(prog);
    c.CompilerRun(root, shape);
    ProgramCorrect(c.text[..], prog, m.mem);
    ok := m.VmRun();
    if ok {
      assert m.State().stack == m.stack[..m.sp];
      value := m.stack[0];
    }
  }
}
