/** The execution engine of the magenta virtual machine as a pure
    specification: the machine state, the effect of every opcode, one
    iteration of the fetch-dispatch loop, and a run bounded by fuel.

    Conventions: a stack is a sequence whose last element is its top; the
    program is the whole file, header included, so the program counter and
    every jump target are absolute file offsets. Where the reference code has
    undefined behaviour (a stack underflow or overflow, an access outside the
    memory or past the end of the program, a scan that never ends), the step
    stops with a `Fault` instead. */
module Machine {
  import opened Bytes
  import Decimal

  /** Capacity of each stack: `initstack(1 << 16)`. */
  const STACK_CAPACITY: nat := 0x1_0000
  /** Size of the memory: `unsigned char mmemory[1 << 8]`. */
  const MEMORY_SIZE: nat := 0x100
  /** Length of the magic header; execution starts right after it. */
  const HEADER_SIZE: nat := 4
  /** The file size comes from `ftell`, a `long`, so it is below 2^63. */
  const MAX_PROGRAM_SIZE: nat := 0x8000_0000_0000_0000

  datatype Mode = Normal | Push

  datatype Fault =
    | InvalidOpcode(at: nat, opcode: Byte)   // the fatal "invalid opcode" stop
    | StackUnderflow
    | StackOverflow
    | MemoryFault                            // memory access outside mmemory
    | CodeOverrun                            // a literal operand past the end of the program
    | EndlessScan                            // read-string with the pointer at 0

  datatype Result<T> = Ok(value: T) | Err(fault: Fault)

  datatype Option<T> = None | Some(value: T)

  datatype State = State(
    counter: U64,         // program counter, an absolute file offset
    mode: Mode,           // normal, or push (escape) mode
    width: Width,         // operand width in bytes
    regs: seq<U64>,       // registers A..H
    mpointer: U32,        // memory pointer
    mem: seq<Byte>,       // memory
    sstack: seq<Byte>,    // data stack
    cstack: seq<Byte>,    // call stack
    out: seq<Byte>)       // characters written so far
  {
    predicate Inv()
    {
      |regs| == 8 && |mem| == MEMORY_SIZE &&
      |sstack| <= STACK_CAPACITY && |cstack| <= STACK_CAPACITY
    }
  }

  /** What a bounded run ends in. */
  datatype Outcome =
    | BadHeader                           // the magic header check failed
    | Halted(final: State)                // the counter reached the end of the program
    | Faulted(fault: Fault, at: State)    // a step stopped with a fault, in state `at`
    | OutOfFuel(last: State)              // still running when the fuel ran out

  /** The magic header: a newline followed by "MVM". */
  predicate MagicOk(file: seq<Byte>)
  {
    |file| >= HEADER_SIZE &&
    file[0] == 0x0A && file[1] == 0x4D && file[2] == 0x56 && file[3] == 0x4D
  }

  predicate ValidProgram(code: seq<Byte>)
  {
    |code| < MAX_PROGRAM_SIZE
  }

  /** The state before the first step. Every register and the memory pointer
      start at 1; the memory is never initialised, so its contents are given. */
  function Initial(mem0: seq<Byte>): (s: State)
    requires |mem0| == MEMORY_SIZE
    ensures s.Inv()
  {
    State(HEADER_SIZE, Normal, 1, seq(8, _ => 1), 1, mem0, [], [], [])
  }

  /** Wrap-around of `unsigned long` arithmetic. */
  function Wrap(x: int): (r: U64)
  {
    x % WORD
  }

  /** Setting the counter to `x - 1` before the loop's increment lands on
      `x`, even for `x == 0`, where the counter wraps to 2^64 - 1 and back. */
  lemma WrapPredecessor(x: U64)
    ensures Wrap(Wrap(x - 1) + 1) == x
  {
    if x == 0 {
      assert Wrap(-1) == WORD - 1;
    } else {
      assert Wrap(x - 1) == x - 1;
    }
  }

  /** The low `w` bytes of `x`. */
  function Low(x: nat, w: Width): (r: nat)
  {
    x % Pow256(w)
  }

  predicate IsNoop(c: Byte)
  {
    c == 0x05 || c == 0x0A || c == 0x0B || c == 0x11 || c == 0x13 || c == 0x1F
  }

  /** The opcodes that have a case in the normal-mode switch. */
  predicate IsOpcode(c: Byte)
  {
    IsNoop(c) || c <= 0x03 || 0x06 <= c <= 0x10 || c == 0x12 || 0x14 <= c <= 0x16 ||
    0x1A <= c <= 0x1E || 0x20 <= c <= 0x2F
  }

  /** The opcodes that set the counter themselves. */
  predicate MovesCounter(c: Byte)
  {
    c == 0x01 || c == 0x08 || c == 0x09 || 0x0C <= c <= 0x0F
  }

  /** The set-width opcodes 0x1A..0x1D select widths 1, 2, 4 and 8. */
  function WidthOf(c: Byte): (w: Width)
    requires 0x1A <= c <= 0x1D
  {
    if c == 0x1A then 1 else if c == 0x1B then 2 else if c == 0x1C then 4 else 8
  }

  // ---- stack primitives ----

  /** Pushes `bs` onto the data stack, first byte deepest. */
  function PushData(s: State, bs: seq<Byte>): (r: Result<State>)
    requires s.Inv()
    ensures r.Ok? ==> r.value.Inv()
    ensures r.Ok? <==> |s.sstack| + |bs| <= STACK_CAPACITY
  {
    if |s.sstack| + |bs| > STACK_CAPACITY then Err(StackOverflow)
    else Ok(s.(sstack := s.sstack + bs))
  }

  /** `stack_pop_width`: the value of the top `w` bytes, and what is left. */
  function PopValue(st: seq<Byte>, w: Width): (r: Result<(U64, seq<Byte>)>)
    ensures r.Ok? <==> |st| >= w
    ensures r.Ok? ==> r.value.1 == st[..|st| - w] && r.value.0 < Pow256(w)
  {
    if |st| < w then Err(StackUnderflow)
    else
      var v := Decode(st[|st| - w..]);
      WidthFitsWord(w);
      Ok((v, st[..|st| - w]))
  }

  /** Position of the topmost zero byte of a stack, if there is one. */
  function LastZero(st: seq<Byte>): (r: Option<nat>)
    ensures r.Some? ==> r.value < |st| && st[r.value] == 0
  {
    if st == [] then None
    else if st[|st| - 1] == 0 then Some(|st| - 1)
    else LastZero(st[..|st| - 1])
  }

  /** No zero lies above the one `LastZero` finds, and none at all when it
      finds none. */
  lemma {:induction false} LastZeroTopmost(st: seq<Byte>)
    ensures LastZero(st).Some? ==> forall j :: LastZero(st).value < j < |st| ==> st[j] != 0
    ensures LastZero(st).None? ==> forall j :: 0 <= j < |st| ==> st[j] != 0
  {
    if st != [] && st[|st| - 1] != 0 {
      LastZeroTopmost(st[..|st| - 1]);
    }
  }

  /** Position of the first zero byte of `mem` at or after `p`, if any. */
  function FindZero(mem: seq<Byte>, p: nat): (r: Option<nat>)
    ensures r.Some? ==> p <= r.value < |mem| && mem[r.value] == 0
    decreases |mem| - p
  {
    if p >= |mem| then None
    else if mem[p] == 0 then Some(p)
    else FindZero(mem, p + 1)
  }

  /** No zero lies between `p` and the one `FindZero` finds, and none at or
      after `p` when it finds none. */
  lemma {:induction false} FindZeroFirst(mem: seq<Byte>, p: nat)
    ensures FindZero(mem, p).Some? ==> forall j :: p <= j < FindZero(mem, p).value ==> mem[j] != 0
    ensures FindZero(mem, p).None? ==> forall j :: p <= j < |mem| ==> mem[j] != 0
    decreases |mem| - p
  {
    if p < |mem| && mem[p] != 0 {
      FindZeroFirst(mem, p + 1);
    }
  }

  // ---- the opcodes ----

  /** 0x01: push the next `width` program bytes in stream order and skip them. */
  function PushLiteral(code: seq<Byte>, s: State): (r: Result<State>)
    requires s.Inv() && s.counter < |code| < MAX_PROGRAM_SIZE
    ensures r.Ok? ==> r.value.Inv()
  {
    if s.counter + s.width >= |code| then Err(CodeOverrun)
    else
      match PushData(s, code[s.counter + 1..s.counter + 1 + s.width])
      case Err(f) => Err(f)
      case Ok(t) => Ok(t.(counter := s.counter + s.width))
  }

  /** 0x02: pop and drop one byte. */
  function Discard(s: State): (r: Result<State>)
    requires s.Inv()
    ensures r.Ok? ==> r.value.Inv()
  {
    if s.sstack == [] then Err(StackUnderflow)
    else Ok(s.(sstack := s.sstack[..|s.sstack| - 1]))
  }

  /** 0x03: pop a value and push its decimal digits, last digit first, so
      that the leading digit ends on top. */
  function Convert(s: State): (r: Result<State>)
    requires s.Inv()
    ensures r.Ok? ==> r.value.Inv()
  {
    match PopValue(s.sstack, s.width)
    case Err(f) => Err(f)
    case Ok((v, rest)) => PushData(s.(sstack := rest), Reverse(Decimal.Digits(v)))
  }

  /** The value the arithmetic opcodes compute: the low `w` bytes of A minus
      those of B, modulo 2^(8w). The reference selects addition when the
      opcode is 0x08, which never happens inside the case for 0x06 and 0x07,
      so both opcodes subtract. */
  function Difference(a: nat, b: nat, w: Width): (d: nat)
  {
    (Low(a, w) - Low(b, w)) % Pow256(w)
  }

  /** 0x06 and 0x07: push the difference of A and B at the current width. */
  function Arith(s: State): (r: Result<State>)
    requires s.Inv()
    ensures r.Ok? ==> r.value.Inv()
  {
    PushData(s, Encode(Difference(s.regs[0], s.regs[1], s.width), s.width))
  }

  /** 0x08 and 0x09: pop a target; jump to it unless the condition holds
      (A > B for 0x08, A == B for 0x09). */
  function Branch(s: State, c: Byte): (r: Result<State>)
    requires s.Inv()
    ensures r.Ok? ==> r.value.Inv()
  {
    match PopValue(s.sstack, s.width)
    case Err(f) => Err(f)
    case Ok((target, rest)) =>
      var condition := if c == 0x08 then s.regs[0] > s.regs[1] else s.regs[0] == s.regs[1];
      Ok(s.(sstack := rest, counter := if condition then s.counter else Wrap(target - 1)))
  }

  /** 0x0C (jump) and 0x0D (call): a call first pushes the low byte of the
      counter onto the call stack; both then pop a target and jump to it. */
  function Jump(s: State, c: Byte): (r: Result<State>)
    requires s.Inv()
    ensures r.Ok? ==> r.value.Inv()
  {
    if c == 0x0D && |s.cstack| >= STACK_CAPACITY then Err(StackOverflow)
    else
      var cstack := if c == 0x0D then s.cstack + [s.counter % 0x100] else s.cstack;
      match PopValue(s.sstack, s.width)
      case Err(f) => Err(f)
      case Ok((target, rest)) => Ok(s.(cstack := cstack, sstack := rest, counter := Wrap(target - 1)))
  }

  /** 0x0F: pop a width-wide value from the call stack into the counter. */
  function Return(s: State): (r: Result<State>)
    requires s.Inv()
    ensures r.Ok? ==> r.value.Inv()
  {
    match PopValue(s.cstack, s.width)
    case Err(f) => Err(f)
    case Ok((v, rest)) => Ok(s.(cstack := rest, counter := v))
  }

  /** 0x10: pop a value into the memory pointer, an `unsigned int`. */
  function SetPointer(s: State): (r: Result<State>)
    requires s.Inv()
    ensures r.Ok? ==> r.value.Inv()
  {
    match PopValue(s.sstack, s.width)
    case Err(f) => Err(f)
    case Ok((v, rest)) => Ok(s.(sstack := rest, mpointer := v % 0x1_0000_0000))
  }

  /** 0x12: push the memory pointer at the current width. */
  function PushPointer(s: State): (r: Result<State>)
    requires s.Inv()
    ensures r.Ok? ==> r.value.Inv()
  {
    PushData(s, Encode(s.mpointer, s.width))
  }

  /** 0x14: push the `width` memory bytes at the pointer, highest address
      first. */
  function ReadBlock(s: State): (r: Result<State>)
    requires s.Inv()
    ensures r.Ok? ==> r.value.Inv()
  {
    if s.mpointer + s.width > MEMORY_SIZE then Err(MemoryFault)
    else PushData(s, Reverse(s.mem[s.mpointer..s.mpointer + s.width]))
  }

  /** 0x15: push the bytes from the pointer up to the first zero byte, last
      byte first. With the pointer at 0 the reference's descending unsigned
      loop never ends. */
  function ReadString(s: State): (r: Result<State>)
    requires s.Inv()
    ensures r.Ok? ==> r.value.Inv()
  {
    var p := s.mpointer;
    if p >= MEMORY_SIZE then Err(MemoryFault)
    else
      match FindZero(s.mem, p)
      case None => Err(MemoryFault)
      case Some(e) =>
        if p == 0 then Err(EndlessScan)
        else PushData(s, Reverse(s.mem[p..e]))
  }

  /** `a` with the bytes from `p` on overwritten by `x`. */
  function Splice(a: seq<Byte>, p: nat, x: seq<Byte>): (r: seq<Byte>)
    requires p + |x| <= |a|
  {
    a[..p] + x + a[p + |x|..]
  }

  /** Each cell of a splice comes from `x` inside the block and from `a`
      outside it. */
  lemma SpliceIndex(a: seq<Byte>, p: nat, x: seq<Byte>)
    requires p + |x| <= |a|
    ensures |Splice(a, p, x)| == |a|
    ensures forall j :: 0 <= j < |a| ==> Splice(a, p, x)[j] == if p <= j < p + |x| then x[j - p] else a[j]
  {
  }

  /** The block of a splice holds `x`. */
  lemma SpliceBlock(a: seq<Byte>, p: nat, x: seq<Byte>)
    requires p + |x| <= |a|
    ensures Splice(a, p, x)[p..p + |x|] == x
  {
    assert Splice(a, p, x)[p..p + |x|] == (a[..p] + x)[p..];
  }

  /** A sequence that agrees with a splice cell by cell is that splice. */
  lemma SpliceUnique(r: seq<Byte>, a: seq<Byte>, p: nat, x: seq<Byte>)
    requires p + |x| <= |a| && |r| == |a|
    requires forall j :: 0 <= j < |a| ==> r[j] == if p <= j < p + |x| then x[j - p] else a[j]
    ensures r == Splice(a, p, x)
  {
    SpliceIndex(a, p, x);
  }

  /** 0x16: pop `width` bytes into memory, the first popped at the highest
      address; the block ends up holding the popped bytes in stack order. */
  function WriteBlock(s: State): (r: Result<State>)
    requires s.Inv()
    ensures r.Ok? ==> r.value.Inv()
  {
    var p, w, n := s.mpointer, s.width, |s.sstack|;
    if p + w > MEMORY_SIZE then Err(MemoryFault)
    else if n < w then Err(StackUnderflow)
    else Ok(s.(mem := Splice(s.mem, p, s.sstack[n - w..]), sstack := s.sstack[..n - w]))
  }

  /** 0x1E: pop and print bytes until the top is zero, then pop the zero. */
  function Log(s: State): (r: Result<State>)
    requires s.Inv()
    ensures r.Ok? ==> r.value.Inv()
  {
    match LastZero(s.sstack)
    case None => Err(StackUnderflow)
    case Some(k) => Ok(s.(sstack := s.sstack[..k], out := s.out + Reverse(s.sstack[k + 1..])))
  }

  /** 0x20, 0x22, .., 0x2E: pop a value into register `r` (0 is A). */
  function StoreRegister(s: State, r: nat): (res: Result<State>)
    requires s.Inv() && r < 8
    ensures res.Ok? ==> res.value.Inv()
  {
    match PopValue(s.sstack, s.width)
    case Err(f) => Err(f)
    case Ok((v, rest)) => Ok(s.(sstack := rest, regs := s.regs[r := v]))
  }

  /** 0x21, 0x23, .., 0x2F: push register `r` at the current width. */
  function LoadRegister(s: State, r: nat): (res: Result<State>)
    requires s.Inv() && r < 8
    ensures res.Ok? ==> res.value.Inv()
  {
    PushData(s, Encode(s.regs[r], s.width))
  }

  /** The effect of opcode `c` in normal mode, before the counter increment. */
  function Dispatch(code: seq<Byte>, s: State, c: Byte): (r: Result<State>)
    requires s.Inv() && s.counter < |code| < MAX_PROGRAM_SIZE
    ensures r.Ok? ==> r.value.Inv()
    ensures !IsOpcode(c) ==> r == Err(InvalidOpcode(s.counter, c))
    ensures IsOpcode(c) ==> !(r.Err? && r.fault.InvalidOpcode?)
    ensures r.Ok? && !MovesCounter(c) ==> r.value.counter == s.counter
  {
    if IsNoop(c) then Ok(s)
    else if c == 0x00 then Ok(s.(mode := Push))
    else if c == 0x01 then PushLiteral(code, s)
    else if c == 0x02 then Discard(s)
    else if c == 0x03 then Convert(s)
    else if c == 0x06 || c == 0x07 then Arith(s)
    else if c == 0x08 || c == 0x09 then Branch(s, c)
    else if c == 0x0C || c == 0x0D then Jump(s, c)
    else if c == 0x0E then Ok(s.(counter := |code|))
    else if c == 0x0F then Return(s)
    else if c == 0x10 then SetPointer(s)
    else if c == 0x12 then PushPointer(s)
    else if c == 0x14 then ReadBlock(s)
    else if c == 0x15 then ReadString(s)
    else if c == 0x16 then WriteBlock(s)
    else if 0x1A <= c <= 0x1D then Ok(s.(width := WidthOf(c)))
    else if c == 0x1E then Log(s)
    else if 0x20 <= c <= 0x2F && c % 2 == 0 then StoreRegister(s, (c - 0x20) / 2)
    else if 0x20 <= c <= 0x2F then LoadRegister(s, (c - 0x20) / 2)
    else Err(InvalidOpcode(s.counter, c))
  }

  /** The effect of the byte at the counter in push (escape) mode: 0x00 leaves
      the mode, 0xFF pushes a zero byte, any other byte is pushed as is. */
  function Escaped(s: State, c: Byte): (r: Result<State>)
    requires s.Inv()
    ensures r.Ok? ==> r.value.Inv()
  {
    if c == 0x00 then Ok(s.(mode := Normal))
    else if c == 0xFF then PushData(s, [0x00])
    else PushData(s, [c])
  }

  /** One iteration of the loop: fetch the byte at the counter, dispatch on
      the mode and the byte, then increment the counter. */
  function Next(code: seq<Byte>, s: State): (r: Result<State>)
    requires s.Inv() && s.counter < |code| < MAX_PROGRAM_SIZE
    ensures r.Ok? ==> r.value.Inv()
  {
    var c := code[s.counter];
    var effect := if s.mode == Push then Escaped(s, c) else Dispatch(code, s, c);
    match effect
    case Err(f) => Err(f)
    case Ok(t) => Ok(t.(counter := Wrap(t.counter + 1)))
  }

  /** The loop `while (counter < size)`, for at most `fuel` iterations. */
  function Run(code: seq<Byte>, s: State, fuel: nat): (r: Outcome)
    requires s.Inv() && ValidProgram(code)
    ensures !r.BadHeader?
    decreases fuel, 0
  {
    if s.counter >= |code| then Halted(s)
    else if fuel == 0 then OutOfFuel(s)
    else Continue(code, s, Next(code, s), fuel - 1)
  }

  /** The rest of the loop after the iteration from `s` gave `step`. */
  function Continue(code: seq<Byte>, s: State, step: Result<State>, fuel: nat): (r: Outcome)
    requires s.Inv() && ValidProgram(code)
    requires step.Ok? ==> step.value.Inv()
    ensures !r.BadHeader?
    decreases fuel, 1
  {
    match step
    case Err(f) => Faulted(f, s)
    case Ok(t) => Run(code, t, fuel)
  }

  /** The loop halts only once the counter has reached the end of the
      program; it stops on a fault, or for want of fuel, only while the
      counter is still inside it, and a fault is reported in the state
      before the failed iteration. */
  lemma {:induction false} RunEnds(code: seq<Byte>, s: State, fuel: nat)
    requires s.Inv() && ValidProgram(code)
    ensures var r := Run(code, s, fuel);
      (r.Halted? ==> r.final.counter >= |code|) &&
      (r.Faulted? ==> r.at.Inv() && r.at.counter < |code| && Next(code, r.at).Err? && r.fault == Next(code, r.at).fault) &&
      (r.OutOfFuel? ==> r.last.counter < |code|)
    decreases fuel
  {
    if s.counter < |code| && fuel > 0 && Next(code, s).Ok? {
      RunEnds(code, Next(code, s).value, fuel - 1);
    }
  }

  /** A whole execution of a program file: the header check, then the loop
      from offset 4 with every register and the pointer at 1. */
  function RunFile(file: seq<Byte>, mem0: seq<Byte>, fuel: nat): (r: Outcome)
    requires |mem0| == MEMORY_SIZE && ValidProgram(file)
    ensures r.BadHeader? <==> !MagicOk(file)
  {
    if !MagicOk(file) then BadHeader else Run(file, Initial(mem0), fuel)
  }
}
