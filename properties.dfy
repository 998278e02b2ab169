/** What the opcodes promise, stated about the specification in module
    Machine: the escape protocol, how the counter moves, the conditionals,
    call and return, the arithmetic, the register file, the memory block
    operations and the text-shaped operations. */
module Properties {
  import opened Bytes
  import opened Decimal
  import opened Machine
  import opened Steps

  // ---- escape protocol ----

  /** In normal mode 0x00 enters push mode and pushes nothing; in push mode
      0x00 leaves it without pushing, 0xFF pushes a zero byte and any other
      byte pushes itself. Nothing else changes but the counter. */
  lemma EscapeProtocol(code: seq<Byte>, s: State)
    requires Ready(code, s) && (s.mode == Push || code[s.counter] == 0x00)
    requires code[s.counter] == 0x00 || |s.sstack| < STACK_CAPACITY
    ensures Next(code, s).Ok?
    ensures var t, c := Next(code, s).value, code[s.counter];
      t.counter == s.counter + 1 && t.regs == s.regs && t.mem == s.mem &&
      t.cstack == s.cstack && t.width == s.width && t.mpointer == s.mpointer && t.out == s.out &&
      (c == 0x00 ==> t.sstack == s.sstack && t.mode != s.mode) &&
      (c != 0x00 ==> t.mode == Push && t.sstack == s.sstack + [if c == 0xFF then 0x00 else c])
  {
    if s.mode == Push {
      StepEscaped(code, s);
    } else {
      StepEnterPush(code, s);
    }
  }

  /** The payload bytes of an escape sequence: a zero is written as 0xFF. */
  function Stuff(payload: seq<Byte>): (r: seq<Byte>)
    ensures |r| == |payload|
    ensures forall i :: 0 <= i < |r| ==> r[i] != 0x00
  {
    seq(|payload|, i requires 0 <= i < |payload| => if payload[i] == 0x00 then 0xFF else payload[i])
  }

  /** One iteration more of the loop is one step of `Next`. */
  lemma RunUnfold(code: seq<Byte>, s: State, t: State, fuel: nat)
    requires Ready(code, s) && Next(code, s) == Ok(t)
    ensures Run(code, s, fuel + 1) == Run(code, t, fuel)
  {
  }

  /** The loop gets from `s` to `t` in exactly `n` iterations: with any fuel
      left after them, running from `s` with `n` more is running from `t`. */
  ghost predicate Leads(code: seq<Byte>, s: State, t: State, n: nat)
    requires ValidProgram(code) && s.Inv() && t.Inv()
  {
    forall fuel: nat :: Run(code, s, fuel + n) == Run(code, t, fuel)
  }

  lemma LeadsStep(code: seq<Byte>, s: State, t: State)
    requires Ready(code, s) && Next(code, s) == Ok(t)
    ensures Leads(code, s, t, 1)
  {
    forall fuel: nat
      ensures Run(code, s, fuel + 1) == Run(code, t, fuel)
    {
      RunUnfold(code, s, t, fuel);
    }
  }

  lemma LeadsTrans(code: seq<Byte>, s: State, t: State, u: State, m: nat, n: nat)
    requires ValidProgram(code) && s.Inv() && t.Inv() && u.Inv()
    requires Leads(code, s, t, m) && Leads(code, t, u, n)
    ensures Leads(code, s, u, m + n)
  {
    forall fuel: nat
      ensures Run(code, s, fuel + (m + n)) == Run(code, u, fuel)
    {
      assert Run(code, s, (fuel + n) + m) == Run(code, t, fuel + n);
    }
  }

  /** In push mode, stuffed payload bytes followed by the closing 0x00 push
      the payload, in order, and return to normal mode. */
  lemma {:induction false} EscapedRun(code: seq<Byte>, s: State, payload: seq<Byte>)
    requires Ready(code, s) && s.mode == Push
    requires s.counter + |payload| < |code|
    requires code[s.counter..s.counter + |payload| + 1] == Stuff(payload) + [0x00]
    requires forall i :: 0 <= i < |payload| ==> payload[i] != 0xFF
    requires |s.sstack| + |payload| <= STACK_CAPACITY
    ensures Leads(code, s, s.(mode := Normal, sstack := s.sstack + payload, counter := s.counter + |payload| + 1),
                  |payload| + 1)
    decreases |payload|
  {
    var u := s.(mode := Normal, sstack := s.sstack + payload, counter := s.counter + |payload| + 1);
    if payload == [] {
      assert s.sstack + payload == s.sstack;
      assert u == s.(mode := Normal, counter := s.counter + 1);
      StepEscaped(code, s);
      LeadsStep(code, s, u);
    } else {
      var rest := payload[1..];
      var t := s.(sstack := s.sstack + [payload[0]], counter := s.counter + 1);
      EscapedHead(code, s, payload);
      EscapedRun(code, t, rest);
      assert t.sstack + rest == s.sstack + payload;
      assert t.(mode := Normal, sstack := t.sstack + rest, counter := t.counter + |rest| + 1) == u;
      LeadsTrans(code, s, t, u, 1, |rest| + 1);
    }
  }

  /** The first byte of a non-empty stuffed payload pushes the payload's
      first byte, and the rest of the escape sequence follows it. */
  lemma EscapedHead(code: seq<Byte>, s: State, payload: seq<Byte>)
    requires Ready(code, s) && s.mode == Push && payload != [] && payload[0] != 0xFF
    requires s.counter + |payload| < |code|
    requires code[s.counter..s.counter + |payload| + 1] == Stuff(payload) + [0x00]
    requires |s.sstack| < STACK_CAPACITY
    ensures Leads(code, s, s.(sstack := s.sstack + [payload[0]], counter := s.counter + 1), 1)
    ensures code[s.counter + 1..s.counter + 1 + |payload|] == Stuff(payload[1..]) + [0x00]
  {
    var n := |payload|;
    assert code[s.counter] == Stuff(payload)[0];
    StepEscaped(code, s);
    LeadsStep(code, s, s.(sstack := s.sstack + [payload[0]], counter := s.counter + 1));
    calc {
      code[s.counter + 1..s.counter + 1 + n];
      code[s.counter..s.counter + n + 1][1..];
      (Stuff(payload) + [0x00])[1..];
      Stuff(payload)[1..] + [0x00];
      { assert Stuff(payload)[1..] == Stuff(payload[1..]); }
      Stuff(payload[1..]) + [0x00];
    }
  }

  /** Byte stuffing: `0x00, stuffed payload, 0x00` pushes exactly the
      payload, first byte deepest, and leaves the machine in normal mode,
      for any payload without 0xFF (which the protocol cannot express). */
  lemma EscapeSequence(code: seq<Byte>, s: State, payload: seq<Byte>, fuel: nat)
    requires At(code, s, 0x00)
    requires s.counter + |payload| + 1 < |code|
    requires code[s.counter + 1..s.counter + |payload| + 2] == Stuff(payload) + [0x00]
    requires forall i :: 0 <= i < |payload| ==> payload[i] != 0xFF
    requires |s.sstack| + |payload| <= STACK_CAPACITY
    ensures Run(code, s, fuel + |payload| + 2) ==
            Run(code, s.(sstack := s.sstack + payload, counter := s.counter + |payload| + 2), fuel)
  {
    var t := s.(mode := Push, counter := s.counter + 1);
    var u := s.(sstack := s.sstack + payload, counter := s.counter + |payload| + 2);
    StepEnterPush(code, s);
    LeadsStep(code, s, t);
    EscapedRun(code, t, payload);
    assert t.(mode := Normal, sstack := t.sstack + payload, counter := t.counter + |payload| + 1) == u;
    LeadsTrans(code, s, t, u, 1, |payload| + 1);
    assert Run(code, s, fuel + (1 + (|payload| + 1))) == Run(code, u, fuel);
  }

  // ---- counter movement ----

  /** Every opcode that does not set the counter itself moves it to the
      next byte. */
  lemma CounterAdvances(code: seq<Byte>, s: State)
    requires Ready(code, s) && Next(code, s).Ok?
    requires s.mode == Push || !MovesCounter(code[s.counter])
    ensures Next(code, s).value.counter == s.counter + 1
  {
  }

  /** 0x01 pushes the `width` bytes after it in stream order (the first one
      deepest) and execution continues after them; if they run past the end
      of the program the step faults. */
  lemma PushLiteralSkipsOperand(code: seq<Byte>, s: State)
    requires At(code, s, 0x01) && |s.sstack| + s.width <= STACK_CAPACITY
    ensures s.counter + s.width < |code| ==>
      Next(code, s) == Ok(s.(sstack := s.sstack + code[s.counter + 1..s.counter + 1 + s.width],
                            counter := s.counter + s.width + 1))
    ensures s.counter + s.width >= |code| ==> Next(code, s) == Err(CodeOverrun)
  {
  }

  /** The next byte executed after a jump is the one at the absolute offset
      popped, even offset 0 (the counter wraps to 2^64 - 1 and back). */
  lemma JumpLandsOnTarget(code: seq<Byte>, s: State)
    requires At(code, s, 0x0C) && |s.sstack| >= s.width
    ensures Next(code, s) ==
      Ok(s.(sstack := Below(s.sstack, s.width), counter := Decode(Top(s.sstack, s.width))))
  {
    WidthFitsWord(s.width);
    WrapPredecessor(Decode(Top(s.sstack, s.width)));
  }

  /** 0x0E sets the counter to the end of the program: the loop ends with
      the state otherwise unchanged. */
  lemma HaltEndsRun(code: seq<Byte>, s: State, fuel: nat)
    requires At(code, s, 0x0E)
    ensures Next(code, s) == Ok(s.(counter := |code| + 1))
    ensures Run(code, s, fuel + 1) == Halted(s.(counter := |code| + 1))
  {
    RunUnfold(code, s, s.(counter := |code| + 1), fuel);
  }

  /** A byte with no case in normal mode stops the machine at that byte;
      every byte with a case is not reported as invalid. */
  lemma InvalidOpcodeStops(code: seq<Byte>, s: State, fuel: nat)
    requires Ready(code, s) && s.mode == Normal
    ensures !IsOpcode(code[s.counter]) ==>
      Next(code, s) == Err(InvalidOpcode(s.counter, code[s.counter])) &&
      Run(code, s, fuel + 1) == Faulted(InvalidOpcode(s.counter, code[s.counter]), s)
    ensures IsOpcode(code[s.counter]) ==> !(Next(code, s).Err? && Next(code, s).fault.InvalidOpcode?)
  {
  }

  // ---- conditionals ----

  /** 0x08 and 0x09 always pop a target; 0x08 jumps to it iff A is not
      greater than B, 0x09 iff A differs from B (full 64-bit registers);
      otherwise execution falls through to the next byte. */
  lemma BranchSemantics(code: seq<Byte>, s: State)
    requires Ready(code, s) && s.mode == Normal
    requires code[s.counter] == 0x08 || code[s.counter] == 0x09
    requires |s.sstack| >= s.width
    ensures Next(code, s).Ok?
    ensures var t, c := Next(code, s).value, code[s.counter];
      var jumps := if c == 0x08 then !(s.regs[0] > s.regs[1]) else s.regs[0] != s.regs[1];
      t.sstack == Below(s.sstack, s.width) &&
      t.counter == (if jumps then Decode(Top(s.sstack, s.width)) else s.counter + 1) &&
      t.regs == s.regs && t.mem == s.mem && t.cstack == s.cstack && t.out == s.out
  {
    if BranchStays(s, code[s.counter]) {
      StepBranchStays(code, s);
    } else {
      StepBranchJumps(code, s);
    }
  }

  /** Registers A = B = 5: 0x09 falls through, 0x08 jumps. */
  lemma BranchOnEqualRegisters(code: seq<Byte>, s: State)
    requires Ready(code, s) && s.mode == Normal && |s.sstack| >= s.width
    requires s.regs[0] == 5 && s.regs[1] == 5
    ensures code[s.counter] == 0x09 ==> Next(code, s).value.counter == s.counter + 1
    ensures code[s.counter] == 0x08 ==> Next(code, s).value.counter == Decode(Top(s.sstack, s.width))
  {
    if code[s.counter] == 0x08 || code[s.counter] == 0x09 {
      BranchSemantics(code, s);
    }
  }

  // ---- call and return ----

  /** 0x0D pushes the low byte of the counter (not a width-wide value) onto
      the call stack and jumps to the popped target. */
  lemma CallPushesOneByte(code: seq<Byte>, s: State)
    requires At(code, s, 0x0D) && |s.sstack| >= s.width && |s.cstack| < STACK_CAPACITY
    ensures Next(code, s) ==
      Ok(s.(cstack := s.cstack + [s.counter % 0x100], sstack := Below(s.sstack, s.width),
            counter := Decode(Top(s.sstack, s.width))))
  {
    WidthFitsWord(s.width);
    WrapPredecessor(Decode(Top(s.sstack, s.width)));
  }

  /** 0x0F pops `width` bytes of the call stack and resumes at the byte
      after the offset they denote. */
  lemma ReturnPopsWidth(code: seq<Byte>, s: State)
    requires At(code, s, 0x0F) && |s.cstack| >= s.width
    ensures Next(code, s) ==
      Ok(s.(cstack := Below(s.cstack, s.width), counter := Wrap(Decode(Top(s.cstack, s.width)) + 1)))
  {
    WidthFitsWord(s.width);
  }

  /** With width 1 and a call at an offset below 256, a later return that
      finds the call stack as the call left it resumes right after the call. */
  lemma CallThenReturn(code: seq<Byte>, s: State, u: State)
    requires At(code, s, 0x0D) && s.width == 1 && s.counter < 0x100
    requires |s.sstack| >= 1 && |s.cstack| < STACK_CAPACITY
    requires At(code, u, 0x0F) && u.width == 1 && u.cstack == Next(code, s).value.cstack
    ensures Next(code, u) == Ok(u.(cstack := s.cstack, counter := s.counter + 1))
  {
    var cs := s.cstack + [s.counter];
    CallPushesOneByte(code, s);
    assert s.counter % 0x100 == s.counter;
    assert u.cstack == cs;
    ReturnPopsWidth(code, u);
    assert Top(cs, 1) == [s.counter] && Below(cs, 1) == s.cstack;
    assert Decode([s.counter]) == Decode([]) * 0x100 + s.counter;
  }

  // ---- arithmetic ----

  /** Reducing the operands first does not change a difference modulo p. */
  lemma ModDifference(a: int, b: int, p: int)
    requires p > 0
    ensures (a % p - b % p) % p == (a - b) % p
  {
    var d := (a - b) % p;
    var q := (a - b) / p;
    DivModUnique(a % p - b % p, p, q - a / p + b / p, d);
  }

  /** The value the arithmetic opcodes compute is A - B modulo
      2^(8 * width), whatever the registers hold above the low bytes. */
  lemma DifferenceModular(a: nat, b: nat, w: Width)
    ensures Difference(a, b, w) == (a - b) % Pow256(w)
  {
    ModDifference(a, b, Pow256(w));
  }

  /** 0x06 and 0x07 both push the difference A - B at the current width,
      most significant byte first, so the least significant byte is on top;
      registers, memory and the call stack are unchanged. */
  lemma ArithPushesDifference(code: seq<Byte>, s: State)
    requires Ready(code, s) && s.mode == Normal
    requires code[s.counter] == 0x06 || code[s.counter] == 0x07
    requires |s.sstack| + s.width <= STACK_CAPACITY
    ensures Next(code, s).Ok?
    ensures var t, d := Next(code, s).value, Difference(s.regs[0], s.regs[1], s.width);
      Below(t.sstack, s.width) == s.sstack &&
      Decode(Top(t.sstack, s.width)) == d &&
      t.sstack[|t.sstack| - 1] == NthByte(0, d) &&
      t.regs == s.regs && t.mem == s.mem && t.cstack == s.cstack && t.counter == s.counter + 1
  {
    StepArith(code, s);
    PushedValue(s.sstack, Difference(s.regs[0], s.regs[1], s.width), s.width);
  }

  /** With width 1, A = 250 and B = 10, opcode 0x06 pushes 240: it
      subtracts like 0x07 rather than adding (250 + 10 would give 4). */
  lemma ArithExample(code: seq<Byte>, s: State)
    requires At(code, s, 0x06) && s.width == 1 && |s.sstack| < STACK_CAPACITY
    requires s.regs[0] == 250 && s.regs[1] == 10
    ensures Next(code, s).value.sstack == s.sstack + [240]
  {
  }

  // ---- registers ----

  /** Store-register pops a value into exactly the named register. */
  lemma StoreRegisterOnly(code: seq<Byte>, s: State, r: nat)
    requires r < 8 && At(code, s, 0x20 + 2 * r) && |s.sstack| >= s.width
    ensures Next(code, s).Ok?
    ensures var t := Next(code, s).value;
      t.regs[r] == Decode(Top(s.sstack, s.width)) &&
      (forall j :: 0 <= j < 8 && j != r ==> t.regs[j] == s.regs[j]) &&
      t.sstack == Below(s.sstack, s.width) && t.mem == s.mem && t.cstack == s.cstack &&
      t.width == s.width && t.counter == s.counter + 1
  {
    StepStore(code, s, r);
  }

  /** Load-register pushes the named register's low `width` bytes, most
      significant first, and changes no register. */
  lemma LoadRegisterPushes(code: seq<Byte>, s: State, r: nat)
    requires r < 8 && At(code, s, 0x21 + 2 * r) && |s.sstack| + s.width <= STACK_CAPACITY
    ensures Next(code, s).Ok?
    ensures var t := Next(code, s).value;
      t.sstack == s.sstack + Encode(s.regs[r], s.width) &&
      Decode(Top(t.sstack, s.width)) == Low(s.regs[r], s.width) &&
      t.regs == s.regs && t.mem == s.mem && t.cstack == s.cstack && t.counter == s.counter + 1
  {
    StepLoad(code, s, r);
    var t := Next(code, s).value;
    assert Top(t.sstack, s.width) == Encode(s.regs[r], s.width);
    DecodeEncode(s.regs[r], s.width);
  }

  /** Loading register `r` and storing into register `q` copies the low
      `width` bytes of `r` into `q` and leaves the stack as it was. */
  lemma LoadThenStore(code: seq<Byte>, s: State, r: nat, q: nat)
    requires r < 8 && q < 8 && At(code, s, 0x21 + 2 * r) && |s.sstack| + s.width <= STACK_CAPACITY
    requires s.counter + 1 < |code| && code[s.counter + 1] == 0x20 + 2 * q
    ensures Next(code, s).Ok? && Next(code, Next(code, s).value).Ok?
    ensures var u := Next(code, Next(code, s).value).value;
      u.regs == s.regs[q := Low(s.regs[r], s.width)] && u.sstack == s.sstack && u.counter == s.counter + 2
  {
    StepLoad(code, s, r);
    var t := Next(code, s).value;
    var e := Encode(s.regs[r], s.width);
    assert t.sstack == s.sstack + e;
    assert Top(t.sstack, s.width) == e && Below(t.sstack, s.width) == s.sstack;
    DecodeEncode(s.regs[r], s.width);
    StepStore(code, t, q);
  }

  /** Storing into register `r` and loading it back restores the stack. */
  lemma StoreThenLoad(code: seq<Byte>, s: State, r: nat)
    requires r < 8 && At(code, s, 0x20 + 2 * r) && |s.sstack| >= s.width
    requires s.counter + 1 < |code| && code[s.counter + 1] == 0x21 + 2 * r
    ensures Next(code, s).Ok? && Next(code, Next(code, s).value).Ok?
    ensures Next(code, Next(code, s).value).value.sstack == s.sstack
  {
    var v := Decode(Top(s.sstack, s.width));
    WidthFitsWord(s.width);
    var t := s.(sstack := Below(s.sstack, s.width), regs := s.regs[r := v], counter := s.counter + 1);
    StepStore(code, s, r);
    StepLoad(code, t, r);
    PopPushRestores(s.sstack, s.width);
  }

  /** Pushing back the value just popped at the same width restores the
      stack. */
  lemma PopPushRestores(st: seq<Byte>, w: Width)
    requires |st| >= w
    ensures Below(st, w) + Encode(Decode(Top(st, w)), w) == st
  {
    EncodeDecode(Top(st, w));
    assert Below(st, w) + Top(st, w) == st;
  }

  /** Set-width and the no-operation opcodes change nothing but the width
      (for set-width) and the counter. */
  lemma WidthAndNoops(code: seq<Byte>, s: State)
    requires Ready(code, s) && s.mode == Normal
    ensures IsNoop(code[s.counter]) ==> Next(code, s) == Ok(s.(counter := s.counter + 1))
    ensures code[s.counter] == 0x1A ==> Next(code, s) == Ok(s.(width := 1, counter := s.counter + 1))
    ensures code[s.counter] == 0x1B ==> Next(code, s) == Ok(s.(width := 2, counter := s.counter + 1))
    ensures code[s.counter] == 0x1C ==> Next(code, s) == Ok(s.(width := 4, counter := s.counter + 1))
    ensures code[s.counter] == 0x1D ==> Next(code, s) == Ok(s.(width := 8, counter := s.counter + 1))
  {
  }

  // ---- memory ----

  /** Set-pointer keeps the low 32 bits of the popped value. */
  lemma SetPointerTruncates(code: seq<Byte>, s: State)
    requires At(code, s, 0x10) && |s.sstack| >= s.width
    ensures Next(code, s).Ok?
    ensures var t := Next(code, s).value;
      t.mpointer == Decode(Top(s.sstack, s.width)) % 0x1_0000_0000 &&
      t.sstack == Below(s.sstack, s.width) && t.mem == s.mem && t.regs == s.regs
  {
    StepSetPointer(code, s);
  }

  /** Push-pointer pushes the pointer's low `width` bytes, most significant
      first. */
  lemma PushPointerBytes(code: seq<Byte>, s: State)
    requires At(code, s, 0x12) && |s.sstack| + s.width <= STACK_CAPACITY
    ensures Next(code, s).Ok?
    ensures var t := Next(code, s).value;
      Below(t.sstack, s.width) == s.sstack &&
      Decode(Top(t.sstack, s.width)) == Low(s.mpointer, s.width) && t.mpointer == s.mpointer
  {
    StepPushPointer(code, s);
    var t := Next(code, s).value;
    assert Top(t.sstack, s.width) == Encode(s.mpointer, s.width);
    DecodeEncode(s.mpointer, s.width);
  }

  /** Read-block faults exactly when the block leaves the memory. */
  lemma ReadBlockBounds(code: seq<Byte>, s: State)
    requires At(code, s, 0x14) && |s.sstack| + s.width <= STACK_CAPACITY
    ensures s.mpointer + s.width > MEMORY_SIZE <==> Next(code, s) == Err(MemoryFault)
  {
    if s.mpointer + s.width <= MEMORY_SIZE {
      StepReadBlock(code, s);
    }
  }

  /** The bytes read-block pushes (see StepReadBlock): the block's highest
      byte first and the byte at the pointer last, on top. */
  lemma ReadBlockOrder(st: seq<Byte>, m: seq<Byte>, p: nat, w: Width)
    requires p + w <= |m|
    ensures var r := st + Reverse(m[p..p + w]);
      |r| == |st| + w && Below(r, w) == st &&
      (forall i :: |st| <= i < |st| + w ==> r[i] == m[p + w - 1 - (i - |st|)]) &&
      r[|st| + w - 1] == m[p]
  {
    var r := st + Reverse(m[p..p + w]);
    assert Below(r, w) == st;
  }

  /** Write-block pops `width` bytes: the first popped goes to the highest
      address of the block, the last popped to the pointer, and no other
      cell changes. */
  lemma WriteBlockOrder(code: seq<Byte>, s: State)
    requires At(code, s, 0x16) && |s.sstack| >= s.width && s.mpointer + s.width <= MEMORY_SIZE
    ensures Next(code, s).Ok?
    ensures var t, p, n, w := Next(code, s).value, s.mpointer, |s.sstack|, s.width;
      t.mem[p + w - 1] == s.sstack[n - 1] && t.mem[p] == s.sstack[n - w] &&
      t.mem[p..p + w] == Top(s.sstack, w) &&
      (forall j :: 0 <= j < MEMORY_SIZE && !(p <= j < p + w) ==> t.mem[j] == s.mem[j]) &&
      t.sstack == Below(s.sstack, w)
  {
    StepWriteBlock(code, s);
  }

  /** A read-block followed by a write-block at the same pointer and width
      reverses the block (for widths above 1) and restores the stack. */
  lemma ReadThenWriteReverses(code: seq<Byte>, s: State)
    requires At(code, s, 0x14) && s.counter + 1 < |code| && code[s.counter + 1] == 0x16
    requires s.mpointer + s.width <= MEMORY_SIZE && |s.sstack| + s.width <= STACK_CAPACITY
    ensures Next(code, s).Ok? && Next(code, Next(code, s).value).Ok?
    ensures var u, p, w := Next(code, Next(code, s).value).value, s.mpointer, s.width;
      u.mem[p..p + w] == Reverse(s.mem[p..p + w]) &&
      (forall j :: 0 <= j < MEMORY_SIZE && !(p <= j < p + w) ==> u.mem[j] == s.mem[j]) &&
      u.sstack == s.sstack
  {
    var p, w := s.mpointer, s.width;
    var block := s.mem[p..p + w];
    var t := s.(sstack := s.sstack + Reverse(block), counter := s.counter + 1);
    StepReadBlock(code, s);
    assert Top(t.sstack, w) == Reverse(block) && Below(t.sstack, w) == s.sstack;
    StepWriteBlock(code, t);
    SpliceIndex(s.mem, p, Reverse(block));
    SpliceBlock(s.mem, p, Reverse(block));
  }

  // ---- text-shaped operations ----

  /** The bytes convert pushes for a popped value `v` (see StepConvert):
      at most 20 of them, the leading digit on top, so that popping them one
      by one yields the digits left to right, which read back as `v`. */
  lemma ConvertDigits(below: seq<Byte>, v: U64)
    ensures var d, r := Digits(v), below + Reverse(Digits(v));
      1 <= |d| <= 20 && |r| == |below| + |d| &&
      (forall i :: 0 <= i < |d| ==> r[|r| - 1 - i] == d[i]) &&
      (forall i :: 0 <= i < |d| ==> IsDigit(d[i])) && Value(d) == v
  {
    ConvertBufferSufficient(v);
    ValueDigits(v);
  }

  /** Read-string pushes the bytes from the pointer up to the first zero,
      the byte at the pointer on top; an empty string pushes nothing. */
  lemma ReadStringOrder(code: seq<Byte>, s: State, e: nat)
    requires At(code, s, 0x15) && 0 < s.mpointer < MEMORY_SIZE
    requires FindZero(s.mem, s.mpointer) == Some(e)
    requires |s.sstack| + (e - s.mpointer) <= STACK_CAPACITY
    ensures Next(code, s).Ok?
    ensures var t, p := Next(code, s).value, s.mpointer;
      t.sstack == s.sstack + Reverse(s.mem[p..e]) &&
      (e == p ==> t.sstack == s.sstack) &&
      (e > p ==> t.sstack[|t.sstack| - 1] == s.mem[p])
  {
    StepReadString(code, s, e);
  }

  /** Read-string faults when the pointer is outside the memory or no zero
      byte follows it, and with the pointer at 0, where the reference's
      descending loop never ends. */
  lemma ReadStringFaults(code: seq<Byte>, s: State)
    requires At(code, s, 0x15)
    ensures s.mpointer >= MEMORY_SIZE ==> Next(code, s) == Err(MemoryFault)
    ensures s.mpointer < MEMORY_SIZE && FindZero(s.mem, s.mpointer).None? ==> Next(code, s) == Err(MemoryFault)
    ensures s.mpointer == 0 && FindZero(s.mem, 0).Some? ==> Next(code, s) == Err(EndlessScan)
  {
  }

  /** Debug-log prints the bytes above the topmost zero, top first, and
      pops them and the zero; without a zero on the stack it faults. */
  lemma LogOutput(code: seq<Byte>, s: State)
    requires At(code, s, 0x1E)
    ensures LastZero(s.sstack).None? ==> Next(code, s) == Err(StackUnderflow)
    ensures LastZero(s.sstack).Some? ==>
      var k := LastZero(s.sstack).value;
      Next(code, s).Ok? &&
      Next(code, s).value.out == s.out + Reverse(s.sstack[k + 1..]) &&
      Next(code, s).value.sstack == s.sstack[..k]
  {
    if LastZero(s.sstack).Some? {
      StepLog(code, s, LastZero(s.sstack).value);
    }
  }

  lemma ReverseReverse(x: seq<Byte>)
    ensures Reverse(Reverse(x)) == x
  {
  }

  /** The topmost zero of a stack with nonzero bytes pushed on it is where
      it was. */
  lemma LastZeroBeneath(st: seq<Byte>, r: seq<Byte>)
    requires st != [] && st[|st| - 1] == 0
    requires forall i :: 0 <= i < |r| ==> r[i] != 0
    ensures LastZero(st + r) == Some(|st| - 1)
  {
    var x := LastZero(st + r);
    LastZeroTopmost(st + r);
    assert (st + r)[|st| - 1] == 0;
  }

  /** Reversal keeps a run free of zero bytes. */
  lemma ReverseNonzero(x: seq<Byte>)
    requires forall i :: 0 <= i < |x| ==> x[i] != 0
    ensures forall i :: 0 <= i < |x| ==> Reverse(x)[i] != 0
  {
  }

  /** A debug-log over a zero-free `x` pushed in reverse on top of a zero
      prints `x` and pops it and the zero. */
  lemma LogPrintsPushed(code: seq<Byte>, t: State, below: seq<Byte>, x: seq<Byte>)
    requires At(code, t, 0x1E) && t.sstack == below + Reverse(x)
    requires below != [] && below[|below| - 1] == 0
    requires forall i :: 0 <= i < |x| ==> x[i] != 0
    ensures Next(code, t) == Ok(t.(sstack := Below(below, 1), out := t.out + x, counter := t.counter + 1))
  {
    ReverseNonzero(x);
    LastZeroBeneath(below, Reverse(x));
    var k := |below| - 1;
    assert t.sstack[..k] == Below(below, 1);
    assert t.sstack[k + 1..] == Reverse(x);
    ReverseReverse(x);
    StepLog(code, t, k);
  }

  /** A read-string followed by a debug-log, over a zero terminator already
      on the stack, prints the string in its forward order. */
  lemma ReadStringThenLog(code: seq<Byte>, s: State, e: nat)
    requires At(code, s, 0x15) && 0 < s.mpointer < MEMORY_SIZE
    requires FindZero(s.mem, s.mpointer) == Some(e)
    requires |s.sstack| + (e - s.mpointer) <= STACK_CAPACITY
    requires s.sstack != [] && s.sstack[|s.sstack| - 1] == 0
    requires s.counter + 1 < |code| && code[s.counter + 1] == 0x1E
    ensures Next(code, s).Ok? && Next(code, Next(code, s).value).Ok?
    ensures var u := Next(code, Next(code, s).value).value;
      u.out == s.out + s.mem[s.mpointer..e] && u.sstack == Below(s.sstack, 1)
  {
    var str := s.mem[s.mpointer..e];
    var t := s.(sstack := s.sstack + Reverse(str), counter := s.counter + 1);
    StepReadString(code, s, e);
    FindZeroFirst(s.mem, s.mpointer);
    assert forall i :: 0 <= i < |str| ==> str[i] == s.mem[s.mpointer + i];
    LogPrintsPushed(code, t, s.sstack, str);
  }

  /** A convert followed by a debug-log, over a zero terminator beneath the
      converted value, prints the value in decimal. */
  lemma ConvertThenLog(code: seq<Byte>, s: State)
    requires At(code, s, 0x03) && |s.sstack| > s.width
    requires |s.sstack| - s.width + 20 <= STACK_CAPACITY
    requires s.sstack[|s.sstack| - s.width - 1] == 0
    requires s.counter + 1 < |code| && code[s.counter + 1] == 0x1E
    ensures Next(code, s).Ok? && Next(code, Next(code, s).value).Ok?
    ensures var u := Next(code, Next(code, s).value).value;
      u.out == s.out + Digits(Decode(Top(s.sstack, s.width))) &&
      u.sstack == s.sstack[..|s.sstack| - s.width - 1]
  {
    var v := Decode(Top(s.sstack, s.width));
    var d := Digits(v);
    var below := Below(s.sstack, s.width);
    WidthFitsWord(s.width);
    ConvertBufferSufficient(v);
    StepConvert(code, s);
    DigitsAreDigits(v);
    LogPrintsPushed(code, s.(sstack := below + Reverse(d), counter := s.counter + 1), below, d);
    assert Below(below, 1) == s.sstack[..|s.sstack| - s.width - 1];
  }

  // ---- whole programs ----

  /** The file `\n MVM 00 FF 48 00 1E` prints "H": enter escape mode, push
      a zero, push 'H', leave escape mode, log. */
  lemma PrintsH(mem0: seq<Byte>)
    requires |mem0| == MEMORY_SIZE
    ensures var file := [0x0A, 0x4D, 0x56, 0x4D, 0x00, 0xFF, 0x48, 0x00, 0x1E];
      var r := RunFile(file, mem0, 5);
      r.Halted? && r.final.out == [0x48] && r.final.sstack == []
  {
    var file: seq<Byte> := [0x0A, 0x4D, 0x56, 0x4D, 0x00, 0xFF, 0x48, 0x00, 0x1E];
    PrintsHFrom(file, Initial(mem0));
  }

  /** The five iterations of the "H" program, from any state at its first
      opcode with empty stacks and nothing printed yet. */
  lemma PrintsHFrom(file: seq<Byte>, s0: State)
    requires file == [0x0A, 0x4D, 0x56, 0x4D, 0x00, 0xFF, 0x48, 0x00, 0x1E]
    requires s0.Inv() && s0.counter == 4 && s0.mode == Normal && s0.sstack == [] && s0.out == []
    ensures Run(file, s0, 5) == Halted(s0.(out := [0x48], counter := 9))
  {
    var s1 := s0.(mode := Push, counter := 5);
    StepEnterPush(file, s0);
    RunUnfold(file, s0, s1, 4);
    PrintsHFromPayload(file, s1);
  }

  /** The escaped payload 0xFF 0x48 pushes a zero byte and then 'H'. */
  lemma PrintsHFromPayload(file: seq<Byte>, s1: State)
    requires file == [0x0A, 0x4D, 0x56, 0x4D, 0x00, 0xFF, 0x48, 0x00, 0x1E]
    requires s1.Inv() && s1.counter == 5 && s1.mode == Push && s1.sstack == []
    ensures Run(file, s1, 4) == Halted(s1.(mode := Normal, out := s1.out + [0x48], counter := 9))
  {
    var s2 := s1.(sstack := [0x00], counter := 6);
    var s3 := s2.(sstack := [0x00, 0x48], counter := 7);
    StepEscaped(file, s1);
    assert s1.sstack + [0x00] == s2.sstack;
    RunUnfold(file, s1, s2, 3);
    StepEscaped(file, s2);
    assert s2.sstack + [0x48] == s3.sstack;
    RunUnfold(file, s2, s3, 2);
    PrintsHFromClose(file, s3);
  }

  /** The closing 0x00 leaves push mode and 0x1E prints the 'H' above the
      zero byte. */
  lemma PrintsHFromClose(file: seq<Byte>, s3: State)
    requires file == [0x0A, 0x4D, 0x56, 0x4D, 0x00, 0xFF, 0x48, 0x00, 0x1E]
    requires s3.Inv() && s3.counter == 7 && s3.mode == Push && s3.sstack == [0x00, 0x48]
    ensures Run(file, s3, 2) == Halted(s3.(mode := Normal, sstack := [], out := s3.out + [0x48], counter := 9))
  {
    var s4 := s3.(mode := Normal, counter := 8);
    var s5 := s4.(sstack := [], out := s4.out + [0x48], counter := 9);
    StepEscaped(file, s3);
    RunUnfold(file, s3, s4, 1);
    assert LastZero(s4.sstack) == Some(0);
    StepLog(file, s4, 0);
    assert s4.sstack[1..] == [0x48] && s4.sstack[..0] == [];
    assert Reverse([0x48]) == [0x48];
    RunUnfold(file, s4, s5, 0);
  }

  /** A file that does not start with the magic header runs nothing. */
  lemma HeaderGate(file: seq<Byte>, mem0: seq<Byte>, fuel: nat)
    requires |mem0| == MEMORY_SIZE && ValidProgram(file)
    ensures !MagicOk(file) ==> RunFile(file, mem0, fuel) == BadHeader
    ensures MagicOk(file) ==> RunFile(file, mem0, fuel) == Run(file, Initial(mem0), fuel)
  {
  }
}
