/** One iteration of the interpreter loop for each opcode, stated as the
    exact state it produces. The lemmas about what the opcodes mean, in
    module Properties, start from these. */
module Steps {
  import opened Bytes
  import opened Decimal
  import opened Machine

  /** `s` is about to execute the byte at its counter. */
  predicate Ready(code: seq<Byte>, s: State)
  {
    ValidProgram(code) && s.Inv() && s.counter < |code|
  }

  /** `s` is about to execute opcode `c` in normal mode. */
  predicate At(code: seq<Byte>, s: State, c: Byte)
  {
    Ready(code, s) && s.mode == Normal && code[s.counter] == c
  }

  /** The top `n` bytes of a stack, deepest first. */
  function Top(st: seq<Byte>, n: nat): (r: seq<Byte>)
    requires n <= |st|
  {
    st[|st| - n..]
  }

  /** A stack without its top `n` bytes. */
  function Below(st: seq<Byte>, n: nat): (r: seq<Byte>)
    requires n <= |st|
  {
    st[..|st| - n]
  }

  /** A value pushed `w` bytes wide sits on top of the old stack, and its
      least significant byte is the topmost. */
  lemma PushedValue(st: seq<Byte>, x: nat, w: nat)
    requires x < Pow256(w) && w > 0
    ensures Below(st + Encode(x, w), w) == st
    ensures Decode(Top(st + Encode(x, w), w)) == x
    ensures (st + Encode(x, w))[|st| + w - 1] == NthByte(0, x)
  {
    var e := Encode(x, w);
    assert Top(st + e, w) == e;
    assert (st + e)[|st| + w - 1] == e[w - 1];
    DecodeEncodeSmall(x, w);
    EncodeNthByte(x, w, 0);
  }

  /** 0x00 enters push mode. */
  lemma StepEnterPush(code: seq<Byte>, s: State)
    requires At(code, s, 0x00)
    ensures Next(code, s) == Ok(s.(mode := Push, counter := s.counter + 1))
  {
  }

  /** In push mode 0x00 leaves the mode, 0xFF pushes a zero byte and any
      other byte pushes itself. */
  lemma StepEscaped(code: seq<Byte>, s: State)
    requires Ready(code, s) && s.mode == Push
    requires code[s.counter] == 0x00 || |s.sstack| < STACK_CAPACITY
    ensures var c := code[s.counter];
      Next(code, s) ==
        if c == 0x00 then Ok(s.(mode := Normal, counter := s.counter + 1))
        else Ok(s.(sstack := s.sstack + [if c == 0xFF then 0x00 else c], counter := s.counter + 1))
  {
  }

  /** 0x02 pops exactly the top byte and changes nothing else; on an empty
      stack it faults. */
  lemma StepDiscard(code: seq<Byte>, s: State)
    requires At(code, s, 0x02)
    ensures s.sstack == [] ==> Next(code, s) == Err(StackUnderflow)
    ensures s.sstack != [] ==> Next(code, s) == Ok(s.(sstack := Below(s.sstack, 1), counter := s.counter + 1))
  {
  }

  /** 0x06 and 0x07 push the difference A - B at the current width. */
  lemma StepArith(code: seq<Byte>, s: State)
    requires Ready(code, s) && s.mode == Normal
    requires code[s.counter] == 0x06 || code[s.counter] == 0x07
    requires |s.sstack| + s.width <= STACK_CAPACITY
    ensures Next(code, s) ==
      Ok(s.(sstack := s.sstack + Encode(Difference(s.regs[0], s.regs[1], s.width), s.width),
            counter := s.counter + 1))
  {
  }

  /** Whether 0x08 (A > B) or 0x09 (A == B) falls through. */
  predicate BranchStays(s: State, c: Byte)
    requires |s.regs| == 8
  {
    if c == 0x08 then s.regs[0] > s.regs[1] else s.regs[0] == s.regs[1]
  }

  /** 0x08 and 0x09 pop a target; when their condition holds execution
      falls through to the next byte. */
  lemma StepBranchStays(code: seq<Byte>, s: State)
    requires Ready(code, s) && s.mode == Normal
    requires code[s.counter] == 0x08 || code[s.counter] == 0x09
    requires |s.sstack| >= s.width && BranchStays(s, code[s.counter])
    ensures Next(code, s) == Ok(s.(sstack := Below(s.sstack, s.width), counter := s.counter + 1))
  {
  }

  /** Otherwise the counter moves to the popped target. */
  lemma StepBranchJumps(code: seq<Byte>, s: State)
    requires Ready(code, s) && s.mode == Normal
    requires code[s.counter] == 0x08 || code[s.counter] == 0x09
    requires |s.sstack| >= s.width && !BranchStays(s, code[s.counter])
    ensures Next(code, s) ==
      Ok(s.(sstack := Below(s.sstack, s.width), counter := Decode(Top(s.sstack, s.width))))
  {
    WidthFitsWord(s.width);
    WrapPredecessor(Decode(Top(s.sstack, s.width)));
  }

  /** Store-register `r` pops a value into register `r`. */
  lemma StepStore(code: seq<Byte>, s: State, r: nat)
    requires r < 8 && At(code, s, 0x20 + 2 * r) && |s.sstack| >= s.width
    ensures Next(code, s) ==
      Ok(s.(sstack := Below(s.sstack, s.width), regs := s.regs[r := Decode(Top(s.sstack, s.width))],
            counter := s.counter + 1))
  {
    WidthFitsWord(s.width);
    assert (0x20 + 2 * r - 0x20) / 2 == r;
  }

  /** Load-register `r` pushes register `r` at the current width. */
  lemma StepLoad(code: seq<Byte>, s: State, r: nat)
    requires r < 8 && At(code, s, 0x21 + 2 * r) && |s.sstack| + s.width <= STACK_CAPACITY
    ensures Next(code, s) ==
      Ok(s.(sstack := s.sstack + Encode(s.regs[r], s.width), counter := s.counter + 1))
  {
    assert (0x21 + 2 * r - 0x20) / 2 == r;
  }

  /** Set-pointer pops a value into the pointer, truncated to 32 bits. */
  lemma StepSetPointer(code: seq<Byte>, s: State)
    requires At(code, s, 0x10) && |s.sstack| >= s.width
    ensures Next(code, s) ==
      Ok(s.(sstack := Below(s.sstack, s.width), mpointer := Decode(Top(s.sstack, s.width)) % 0x1_0000_0000,
            counter := s.counter + 1))
  {
    WidthFitsWord(s.width);
  }

  /** Push-pointer pushes the pointer at the current width. */
  lemma StepPushPointer(code: seq<Byte>, s: State)
    requires At(code, s, 0x12) && |s.sstack| + s.width <= STACK_CAPACITY
    ensures Next(code, s) ==
      Ok(s.(sstack := s.sstack + Encode(s.mpointer, s.width), counter := s.counter + 1))
  {
  }

  /** Read-block pushes the memory block at the pointer in reverse. */
  lemma StepReadBlock(code: seq<Byte>, s: State)
    requires At(code, s, 0x14) && |s.sstack| + s.width <= STACK_CAPACITY
    requires s.mpointer + s.width <= MEMORY_SIZE
    ensures Next(code, s) ==
      Ok(s.(sstack := s.sstack + Reverse(s.mem[s.mpointer..s.mpointer + s.width]), counter := s.counter + 1))
  {
  }

  /** Write-block moves the top `width` bytes into the block at the pointer. */
  lemma StepWriteBlock(code: seq<Byte>, s: State)
    requires At(code, s, 0x16) && |s.sstack| >= s.width && s.mpointer + s.width <= MEMORY_SIZE
    ensures Next(code, s) ==
      Ok(s.(mem := Splice(s.mem, s.mpointer, Top(s.sstack, s.width)),
            sstack := Below(s.sstack, s.width), counter := s.counter + 1))
  {
  }

  /** Convert replaces the popped value by its digits, reversed. */
  lemma StepConvert(code: seq<Byte>, s: State)
    requires At(code, s, 0x03) && |s.sstack| >= s.width
    requires |s.sstack| - s.width + |Digits(Decode(Top(s.sstack, s.width)))| <= STACK_CAPACITY
    ensures Next(code, s) ==
      Ok(s.(sstack := Below(s.sstack, s.width) + Reverse(Digits(Decode(Top(s.sstack, s.width)))),
            counter := s.counter + 1))
  {
    WidthFitsWord(s.width);
  }

  /** Read-string pushes the string at the pointer, ending before the zero
      at `e`, in reverse. */
  lemma StepReadString(code: seq<Byte>, s: State, e: nat)
    requires At(code, s, 0x15) && 0 < s.mpointer < MEMORY_SIZE
    requires FindZero(s.mem, s.mpointer) == Some(e)
    requires |s.sstack| + (e - s.mpointer) <= STACK_CAPACITY
    ensures Next(code, s) ==
      Ok(s.(sstack := s.sstack + Reverse(s.mem[s.mpointer..e]), counter := s.counter + 1))
  {
  }

  /** Debug-log moves the bytes above the topmost zero, at `k`, to the
      output in reverse and pops them and the zero. */
  lemma StepLog(code: seq<Byte>, s: State, k: nat)
    requires At(code, s, 0x1E) && LastZero(s.sstack) == Some(k)
    ensures Next(code, s) ==
      Ok(s.(sstack := s.sstack[..k], out := s.out + Reverse(s.sstack[k + 1..]), counter := s.counter + 1))
  {
  }
}
