/** The interpreter loop of `main` as an object whose fields are the loop's
    variables: each method changes them in place the way the reference does,
    and is proved to agree with the specification in module Machine. */
module Engine {
  import opened Bytes
  import Decimal
  import opened Machine

  /** `stack_pop_width`: pops `w` bytes, the first popped being the least
      significant. Returns the value and the remaining stack. */
  method PopWidth(st: seq<Byte>, w: Width) returns (v: U64, rest: seq<Byte>)
    requires |st| >= w
    ensures v == Decode(st[|st| - w..]) && v < Pow256(w)
    ensures rest == st[..|st| - w]
  {
    var acc: nat := 0;
    var scale: nat := 1;
    rest := st;
    for i := 0 to w
      invariant rest == st[..|st| - i]
      invariant scale == Pow256(i)
      invariant acc == Decode(st[|st| - i..])
    {
      var b := rest[|rest| - 1];
      rest := rest[..|rest| - 1];
      DecodeSuffix(st, i);
      acc := acc + b * scale;
      scale := scale * 0x100;
    }
    WidthFitsWord(w);
    v := acc;
  }

  class VM {
    const code: seq<Byte>
    const mem: array<Byte>
    var counter: U64
    var mode: Mode
    var width: Width
    var regs: seq<U64>
    var mpointer: U32
    var sstack: seq<Byte>
    var cstack: seq<Byte>
    var out: seq<Byte>

    ghost predicate Valid()
      reads this, mem
    {
      mem.Length == MEMORY_SIZE && |regs| == 8 &&
      |sstack| <= STACK_CAPACITY && |cstack| <= STACK_CAPACITY &&
      ValidProgram(code)
    }

    /** The machine state the fields and the memory hold. */
    function Snapshot(): State
      reads this, mem
    {
      State(counter, mode, width, regs, mpointer, mem[..], sstack, cstack, out)
    }

    /** The method's fault report and new state agree with `r`, the
        specified effect; on a fault nothing has changed. */
    ghost predicate Reflects(fault: Option<Fault>, r: Result<State>, before: State)
      reads this, mem
    {
      match r
      case Ok(t) => fault.None? && Snapshot() == t
      case Err(f) => fault == Some(f) && Snapshot() == before
    }

    /** The state right after the header check: counter 4, normal mode,
        width 1, every register and the pointer at 1, empty stacks. */
    constructor (file: seq<Byte>, mem0: seq<Byte>)
      requires |mem0| == MEMORY_SIZE && ValidProgram(file)
      ensures Valid() && code == file && fresh(mem) && Snapshot() == Initial(mem0)
    {
      code := file;
      mem := new Byte[MEMORY_SIZE](i => if 0 <= i < |mem0| then mem0[i] else 0);
      counter := HEADER_SIZE;
      mode := Normal;
      width := 1;
      regs := seq(8, _ => 1);
      mpointer := 1;
      sstack := [];
      cstack := [];
      out := [];
      new;
      assert mem[..] == mem0;
    }

    /** Pushes the low `width` bytes of `x`, most significant first. */
    method PushWidth(x: nat)
      requires Valid() && |sstack| + width <= STACK_CAPACITY
      modifies this`sstack
      ensures Valid() && sstack == old(sstack) + Encode(x, width)
    {
      for i := 0 to width
        modifies this`sstack
        invariant sstack == old(sstack) + Encode(x, width)[..i]
      {
        EncodeNthByte(x, width, width - 1 - i);
        assert Encode(x, width)[..i + 1] == Encode(x, width)[..i] + [NthByte(width - 1 - i, x)];
        sstack := sstack + [NthByte(width - 1 - i, x)];
      }
    }

    method ExecPushLiteral() returns (fault: Option<Fault>)
      requires Valid() && counter < |code|
      modifies this
      ensures Valid() && Reflects(fault, PushLiteral(code, old(Snapshot())), old(Snapshot()))
    {
      if counter + width >= |code| {
        return Some(CodeOverrun);
      }
      if |sstack| + width > STACK_CAPACITY {
        return Some(StackOverflow);
      }
      for i := 0 to width
        modifies this`sstack
        invariant sstack == old(sstack) + code[counter + 1..counter + 1 + i]
      {
        assert code[counter + 1..counter + 1 + (i + 1)]
            == code[counter + 1..counter + 1 + i] + [code[counter + i + 1]];
        sstack := sstack + [code[counter + i + 1]];
      }
      counter := counter + width;
      fault := None;
    }

    method ExecDiscard() returns (fault: Option<Fault>)
      requires Valid()
      modifies this
      ensures Valid() && Reflects(fault, Discard(old(Snapshot())), old(Snapshot()))
    {
      if sstack == [] {
        return Some(StackUnderflow);
      }
      sstack := sstack[..|sstack| - 1];
      fault := None;
    }

    method ExecConvert() returns (fault: Option<Fault>)
      requires Valid()
      modifies this
      ensures Valid() && Reflects(fault, Convert(old(Snapshot())), old(Snapshot()))
    {
      if |sstack| < width {
        return Some(StackUnderflow);
      }
      ghost var before := Snapshot();
      var v, rest := PopWidth(sstack, width);
      assert PopValue(before.sstack, before.width) == Ok((v, rest));
      // sprintf("%lu") then strrev: the digits, last one first
      var str := Reverse(Decimal.Digits(v));
      if |rest| + |str| > STACK_CAPACITY {
        return Some(StackOverflow);
      }
      sstack := rest;
      PushAll(str);
      fault := None;
    }

    /** Pushes the bytes of `bs` one at a time, the first one deepest. */
    method PushAll(bs: seq<Byte>)
      requires Valid() && |sstack| + |bs| <= STACK_CAPACITY
      modifies this`sstack
      ensures Valid() && sstack == old(sstack) + bs
    {
      for i := 0 to |bs|
        modifies this`sstack
        invariant sstack == old(sstack) + bs[..i]
      {
        assert bs[..i + 1] == bs[..i] + [bs[i]];
        sstack := sstack + [bs[i]];
      }
    }

    method ExecArith() returns (fault: Option<Fault>)
      requires Valid()
      modifies this
      ensures Valid() && Reflects(fault, Arith(old(Snapshot())), old(Snapshot()))
    {
      if |sstack| + width > STACK_CAPACITY {
        return Some(StackOverflow);
      }
      var a := regs[0] % Pow256(width);
      var b := regs[1] % Pow256(width);
      PushWidth((a - b) % Pow256(width));
      fault := None;
    }

    method ExecBranch(c: Byte) returns (fault: Option<Fault>)
      requires Valid()
      modifies this
      ensures Valid() && Reflects(fault, Branch(old(Snapshot()), c), old(Snapshot()))
    {
      if |sstack| < width {
        return Some(StackUnderflow);
      }
      ghost var before := Snapshot();
      var target, rest := PopWidth(sstack, width);
      assert PopValue(before.sstack, before.width) == Ok((target, rest));
      sstack := rest;
      var condition := false;
      if c == 0x08 {
        condition := regs[0] > regs[1];
      } else {
        condition := regs[0] == regs[1];
      }
      if !condition {
        counter := (target - 1) % WORD;
      }
      fault := None;
    }

    method ExecJump(c: Byte) returns (fault: Option<Fault>)
      requires Valid()
      modifies this
      ensures Valid() && Reflects(fault, Jump(old(Snapshot()), c), old(Snapshot()))
    {
      ghost var before := Snapshot();
      if c == 0x0D && |cstack| >= STACK_CAPACITY {
        return Some(StackOverflow);
      }
      if |sstack| < width {
        return Some(StackUnderflow);
      }
      if c == 0x0D {
        cstack := cstack + [counter % 0x100];
      }
      var target, rest := PopWidth(sstack, width);
      assert PopValue(before.sstack, before.width) == Ok((target, rest));
      sstack := rest;
      counter := (target - 1) % WORD;
      fault := None;
    }

    method ExecReturn() returns (fault: Option<Fault>)
      requires Valid()
      modifies this
      ensures Valid() && Reflects(fault, Return(old(Snapshot())), old(Snapshot()))
    {
      if |cstack| < width {
        return Some(StackUnderflow);
      }
      var target, rest := PopWidth(cstack, width);
      cstack := rest;
      counter := target;
      fault := None;
    }

    method ExecSetPointer() returns (fault: Option<Fault>)
      requires Valid()
      modifies this
      ensures Valid() && Reflects(fault, SetPointer(old(Snapshot())), old(Snapshot()))
    {
      if |sstack| < width {
        return Some(StackUnderflow);
      }
      var v, rest := PopWidth(sstack, width);
      sstack := rest;
      mpointer := v % 0x1_0000_0000;
      fault := None;
    }

    method ExecPushPointer() returns (fault: Option<Fault>)
      requires Valid()
      modifies this
      ensures Valid() && Reflects(fault, PushPointer(old(Snapshot())), old(Snapshot()))
    {
      if |sstack| + width > STACK_CAPACITY {
        return Some(StackOverflow);
      }
      PushWidth(mpointer);
      fault := None;
    }

    method ExecReadBlock() returns (fault: Option<Fault>)
      requires Valid()
      modifies this
      ensures Valid() && Reflects(fault, ReadBlock(old(Snapshot())), old(Snapshot()))
    {
      if mpointer + width > MEMORY_SIZE {
        return Some(MemoryFault);
      }
      if |sstack| + width > STACK_CAPACITY {
        return Some(StackOverflow);
      }
      ghost var block := mem[mpointer..mpointer + width];
      for k := 0 to width
        modifies this`sstack
        invariant sstack == old(sstack) + Reverse(block)[..k]
      {
        assert Reverse(block)[..k + 1] == Reverse(block)[..k] + [mem[mpointer + width - 1 - k]];
        sstack := sstack + [mem[mpointer + width - 1 - k]];
      }
      fault := None;
    }

    method ExecReadString() returns (fault: Option<Fault>)
      requires Valid()
      modifies this
      ensures Valid() && Reflects(fault, ReadString(old(Snapshot())), old(Snapshot()))
    {
      if mpointer >= MEMORY_SIZE {
        return Some(MemoryFault);
      }
      var i, strend := ScanString(mpointer);
      if i == MEMORY_SIZE {
        return Some(MemoryFault);
      }
      if mpointer == 0 {
        return Some(EndlessScan);
      }
      if |sstack| + (i - mpointer) > STACK_CAPACITY {
        return Some(StackOverflow);
      }
      PushString(mpointer, i, strend);
      fault := None;
    }

    /** Pushes the string at `mem[p..e]` from its last byte down to its
        first, `strend` being the position of the last byte (0 when the
        string is empty). */
    method PushString(p: nat, e: nat, strend: nat)
      requires Valid() && 0 < p <= e <= MEMORY_SIZE && |sstack| + (e - p) <= STACK_CAPACITY
      requires strend == if e == p then 0 else e - 1
      modifies this`sstack
      ensures Valid() && sstack == old(sstack) + Reverse(mem[p..e])
    {
      ghost var str := mem[p..e];
      var k := strend;
      while k >= p
        modifies this`sstack
        invariant e == p ==> k == 0 && sstack == old(sstack)
        invariant e > p ==> p - 1 <= k <= e - 1
        invariant e > p ==> sstack == old(sstack) + Reverse(str)[..e - 1 - k]
        decreases k
      {
        sstack := sstack + [mem[k]];
        k := k - 1;
      }
    }

    /** Scans forward from `p` to the terminating zero: `i` is where the
        scan stopped (the zero, or the end of memory) and `strend` the last
        byte before it, 0 when there is none. */
    method ScanString(p: nat) returns (i: nat, strend: nat)
      requires Valid() && p < MEMORY_SIZE
      ensures p <= i <= MEMORY_SIZE
      ensures FindZero(mem[..], p) == if i == MEMORY_SIZE then None else Some(i)
      ensures strend == if i == p then 0 else i - 1
    {
      strend := 0;
      i := p;
      while i < MEMORY_SIZE && mem[i] != 0
        invariant p <= i <= MEMORY_SIZE
        invariant forall j :: p <= j < i ==> mem[j] != 0
        invariant strend == if i == p then 0 else i - 1
      {
        strend := i;
        i := i + 1;
      }
      FindZeroFirst(mem[..], p);
    }

    method ExecWriteBlock() returns (fault: Option<Fault>)
      requires Valid()
      modifies this, mem
      ensures Valid() && Reflects(fault, WriteBlock(old(Snapshot())), old(Snapshot()))
    {
      if mpointer + width > MEMORY_SIZE {
        return Some(MemoryFault);
      }
      if |sstack| < width {
        return Some(StackUnderflow);
      }
      PopBlock(mpointer, width);
      fault := None;
    }

    /** Pops `w` bytes into the memory block at `p`, the first popped at the
        highest address. */
    method PopBlock(p: nat, w: nat)
      requires Valid() && p + w <= MEMORY_SIZE && |sstack| >= w
      modifies mem, this`sstack
      ensures Valid()
      ensures mem[..] == Splice(old(mem[..]), p, old(sstack)[|old(sstack)| - w..])
      ensures sstack == old(sstack)[..|old(sstack)| - w]
    {
      ghost var n := |sstack|;
      ghost var st := sstack;
      ghost var before := mem[..];
      for k := 0 to w
        modifies mem, this`sstack
        invariant sstack == st[..n - k]
        invariant forall j :: 0 <= j < MEMORY_SIZE && !(p + w - k <= j < p + w) ==> mem[j] == before[j]
        invariant forall j :: p + w - k <= j < p + w ==> mem[j] == st[n - (p + w - j)]
      {
        assert sstack[|sstack| - 1] == st[n - 1 - k];
        mem[p + w - 1 - k] := sstack[|sstack| - 1];
        sstack := sstack[..|sstack| - 1];
      }
      SpliceUnique(mem[..], before, p, st[n - w..]);
    }

    method ExecLog() returns (fault: Option<Fault>)
      requires Valid()
      modifies this
      ensures Valid() && Reflects(fault, Log(old(Snapshot())), old(Snapshot()))
    {
      var z := LastZero(sstack);
      if z.None? {
        return Some(StackUnderflow);
      }
      EmitString(z.value);
      sstack := sstack[..|sstack| - 1];
      fault := None;
    }

    /** Pops and prints bytes while the top is not zero; `k` is the position
        of the topmost zero, which stays on the stack. */
    method EmitString(ghost k: nat)
      requires Valid() && LastZero(sstack) == Some(k)
      modifies this`sstack, this`out
      ensures Valid() && sstack == old(sstack)[..k + 1]
      ensures out == old(out) + Reverse(old(sstack)[k + 1..])
    {
      ghost var st := sstack;
      LastZeroTopmost(st);
      while sstack[|sstack| - 1] != 0
        modifies this`sstack, this`out
        invariant k < |sstack| <= |st| && sstack == st[..|sstack|]
        invariant out == old(out) + Reverse(st[|sstack|..])
        decreases |sstack|
      {
        var top := sstack[|sstack| - 1];
        ReverseExtend(st, |sstack|);
        out := out + [top];
        sstack := sstack[..|sstack| - 1];
      }
    }

    method ExecStoreRegister(r: nat) returns (fault: Option<Fault>)
      requires Valid() && r < 8
      modifies this
      ensures Valid() && Reflects(fault, StoreRegister(old(Snapshot()), r), old(Snapshot()))
    {
      if |sstack| < width {
        return Some(StackUnderflow);
      }
      var v, rest := PopWidth(sstack, width);
      sstack := rest;
      regs := regs[r := v];
      fault := None;
    }

    method ExecLoadRegister(r: nat) returns (fault: Option<Fault>)
      requires Valid() && r < 8
      modifies this
      ensures Valid() && Reflects(fault, LoadRegister(old(Snapshot()), r), old(Snapshot()))
    {
      if |sstack| + width > STACK_CAPACITY {
        return Some(StackOverflow);
      }
      PushWidth(regs[r]);
      fault := None;
    }

    /** The normal-mode `switch (c)`. */
    method ExecOpcode(c: Byte) returns (fault: Option<Fault>)
      requires Valid() && counter < |code|
      modifies this, mem
      ensures Valid() && Reflects(fault, Dispatch(code, old(Snapshot()), c), old(Snapshot()))
    {
      fault := None;
      if IsNoop(c) {
      } else if c == 0x00 {
        mode := Push;
      } else if c == 0x01 {
        fault := ExecPushLiteral();
      } else if c == 0x02 {
        fault := ExecDiscard();
      } else if c == 0x03 {
        fault := ExecConvert();
      } else if c == 0x06 || c == 0x07 {
        fault := ExecArith();
      } else if c == 0x08 || c == 0x09 {
        fault := ExecBranch(c);
      } else if c == 0x0C || c == 0x0D {
        fault := ExecJump(c);
      } else if c == 0x0E {
        counter := |code|;
      } else if c == 0x0F {
        fault := ExecReturn();
      } else if c == 0x10 {
        fault := ExecSetPointer();
      } else if c == 0x12 {
        fault := ExecPushPointer();
      } else if c == 0x14 {
        fault := ExecReadBlock();
      } else if c == 0x15 {
        fault := ExecReadString();
      } else if c == 0x16 {
        fault := ExecWriteBlock();
      } else if 0x1A <= c <= 0x1D {
        width := WidthOf(c);
      } else if c == 0x1E {
        fault := ExecLog();
      } else if 0x20 <= c <= 0x2F && c % 2 == 0 {
        fault := ExecStoreRegister((c - 0x20) / 2);
      } else if 0x20 <= c <= 0x2F {
        fault := ExecLoadRegister((c - 0x20) / 2);
      } else {
        fault := Some(InvalidOpcode(counter, c));
      }
    }

    /** One iteration of `while (counter < size)`. */
    method Step() returns (fault: Option<Fault>)
      requires Valid() && counter < |code|
      modifies this, mem
      ensures Valid() && Reflects(fault, Next(code, old(Snapshot())), old(Snapshot()))
    {
      var c := code[counter];
      if mode == Push {
        if c == 0x00 {
          mode := Normal;
          fault := None;
        } else if |sstack| >= STACK_CAPACITY {
          fault := Some(StackOverflow);
        } else {
          sstack := sstack + [if c == 0xFF then 0x00 else c];
          fault := None;
        }
      } else {
        fault := ExecOpcode(c);
      }
      if fault.None? {
        counter := (counter + 1) % WORD;
      }
    }

    /** The loop, for at most `fuel` iterations. */
    method Run(fuel: nat) returns (outcome: Outcome)
      requires Valid()
      modifies this, mem
      ensures Valid() && outcome == Machine.Run(code, old(Snapshot()), fuel)
    {
      var n := fuel;
      while counter < |code| && n > 0
        invariant Valid()
        invariant Machine.Run(code, Snapshot(), n) == Machine.Run(code, old(Snapshot()), fuel)
        decreases n
      {
        var fault := Step();
        if fault.Some? {
          return Faulted(fault.value, Snapshot());
        }
        n := n - 1;
      }
      if counter >= |code| {
        outcome := Halted(Snapshot());
      } else {
        outcome := OutOfFuel(Snapshot());
      }
    }
  }

  /** Checks the magic header, then runs the program from offset 4. The
      memory is never initialised by the reference, so its contents are a
      parameter. */
  method RunProgram(file: seq<Byte>, mem0: seq<Byte>, fuel: nat) returns (outcome: Outcome)
    requires |mem0| == MEMORY_SIZE && ValidProgram(file)
    ensures outcome == RunFile(file, mem0, fuel)
  {
    if !MagicOk(file) {
      return BadHeader;
    }
    var vm := new VM(file, mem0);
    outcome := vm.Run(fuel);
  }
}
