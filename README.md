# mvm: a verified model of the magenta virtual machine's interpreter loop

`mvm` runs magenta bytecode. A program file starts with the four-byte magic header
`\n M V M`. After the header, `main` runs a byte-at-a-time interpreter:

- the `while (counter < size)` loop fetches the byte at the program counter;
- in normal mode it dispatches on that byte, and in push (escape) mode it pushes the byte;
- then it increments the counter.

The machine has:

- eight 64-bit registers A..H;
- an operand width of 1, 2, 4 or 8 bytes;
- a 32-bit memory pointer into a 256-byte memory;
- a data stack and a call stack of bytes;
- character output.

Multi-byte values go onto a stack most significant byte first, so the least significant byte
ends on top. Popping `width` bytes reads the first popped byte as the least significant.

The project has six modules:

- `Bytes` (bytes.dfy): bytes, 64- and 32-bit words, and the layout of a width-wide value on
  a stack. `Encode` is the most-significant-first push and `Decode` is the width-wide pop.
  Also proved here: the round trips between the two, and that the explicit `nth_byte` pushes
  are that layout.
- `Decimal` (decimal.dfy): the `%lu` rendering that the convert opcode pushes, and reading
  it back.
- `Machine` (machine.dfy): the interpreter as a pure specification.
  - `State` holds counter, mode, width, registers, pointer, memory, both stacks and output.
  - There is one function per opcode.
  - `Dispatch` is the normal-mode switch and `Escaped` is the push-mode case.
  - `Next` is one loop iteration, including the final `counter++`.
  - `Run` is the loop bounded by fuel; `RunFile` adds the header check.
  - Where the C code has undefined behaviour, the step stops with a `Fault` and the state is
    left unchanged. The exceptions are listed under "Left out".
- `Engine` (engine.dfy): the loop as the C code runs it, state changed in place.
  - `VM` is a class whose fields are the loop's variables, with the memory as an `array`.
  - The stacks are `seq` fields that the methods reassign. The byte-by-byte `for` loops of
    the source are `for`/`while` loops with invariants.
  - Each `Exec*` method, `Step` and `Run` is proved to produce exactly the state (or fault)
    that the corresponding `Machine` function specifies.
- `Steps` (steps.dfy): the exact state one iteration produces for each opcode.
- `Properties` (properties.dfy): what the opcodes promise, stated over `Next` and `Run`:
  - the escape protocol and byte stuffing;
  - how the counter moves; conditionals; call and return;
  - arithmetic; registers; memory blocks; the text-shaped opcodes;
  - whole programs.

These quirks of the C code are modelled as written:

- 0x06 and 0x07 both subtract. The add/subtract selector tests `c == 0x08` inside the case for
  0x06/0x07, so its addition branch is unreachable. The model follows the code:
  `Properties.ArithExample` shows 0x06 pushing 240 for 250 and 10 at width 1.
- Jump targets are absolute file offsets that include the header. Jumping to 0 wraps the
  64-bit counter to 2^64 - 1 and back (`Machine.WrapPredecessor`).
- A call pushes one byte, the low byte of the counter, but a return pops `width` bytes.
- Set-pointer keeps the low 32 bits of the popped value.
- The memory is never initialised, so its initial contents are a parameter (`mem0`).

## Model

| member | source | states |
|---|---|---|
| Bytes.Encode | main.c:359-376 | The pushed bytes of a width-wide value number exactly `w`. |
| Bytes.Decode | main.c:122 | A `w`-byte pop yields a value below 2^(8w). |
| Bytes.WidthFitsWord | main.c:80 | Every width-wide value fits a 64-bit word. |
| Bytes.EncodeNthByte | main.c:359-376 | The byte pushed at depth position `w-1-i` is `nth_byte(i, x)`: the explicit push sequences are the most-significant-first layout. |
| Bytes.DecodeEncode | main.c:345-378 | Popping a value pushed at width `w` yields its low `w` bytes (x mod 2^(8w)). |
| Bytes.DecodeEncodeSmall | main.c:345-378 | A value below 2^(8w) survives a push and pop at width `w` unchanged. |
| Bytes.EncodeDecode | main.c:329-342 | Pushing back a popped value at the same width restores the same bytes. |
| Bytes.DecodePrepend | main.c:122 | A byte beneath a run of `n` bytes contributes as the most significant byte, scaled by 2^(8n). |
| Bytes.DecodeSuffix | main.c:122 | Popping one byte more adds it scaled past the bytes already popped. |
| Decimal.Digits | main.c:125 | The rendering is non-empty and starts with '0' exactly when the value is 0 (no leading zeros). |
| Decimal.DigitsAreDigits | main.c:125 | Every byte of the rendering is an ASCII digit. |
| Decimal.ValueDigits | main.c:125 | Reading the rendering back as decimal gives the rendered number. |
| Decimal.DigitsLength | main.c:123-125 | A number below 10^k has at most k digits; one at or above 10^k has more than k. |
| Decimal.ConvertBufferOverflow | main.c:123-125 | Every value from 10^19 up has 20 or more digits, so its rendering and NUL do not fit `char str[20]`. |
| Decimal.TwentyDigitWords | main.c:121-125 | 10^19 is below 2^64, so a width-8 pop can yield such a value. |
| Decimal.ConvertBufferSufficient | main.c:123-125 | Every 64-bit value's rendering plus NUL fits 21 bytes. |
| Machine.Initial | main.c:65-80 | The initial state meets the invariant: empty stacks, eight registers, 256 bytes of memory. |
| Machine.WrapPredecessor | main.c:198 | Setting the counter to `target - 1` before the loop's increment lands on `target`, including 0. |
| Machine.PushData | main.c:65-67 | A push succeeds exactly when the stack stays within its 65536-byte capacity, and keeps the invariant. |
| Machine.PopValue | main.c:122 | A width-wide pop succeeds exactly when the stack holds `w` bytes; it leaves the stack without its top `w` bytes and returns a value below 2^(8w). |
| Machine.LastZero | main.c:322-325 | When found, the position holds a zero byte of the stack. |
| Machine.LastZeroTopmost | main.c:322-325 | No zero lies above the one found; none lies anywhere when none is found. |
| Machine.FindZero | main.c:283-284 | When found, the position is at or after the pointer and holds a zero. |
| Machine.FindZeroFirst | main.c:283-284 | No zero lies between the pointer and the one found; none lies at or after the pointer when none is found. |
| Machine.PushLiteral | main.c:109-114 | Its results keep the state invariant; the exact effect is in Properties.PushLiteralSkipsOperand. |
| Machine.Discard | main.c:117 | Its results keep the state invariant; the effect is in Steps.StepDiscard. |
| Machine.Convert | main.c:120-130 | Its results keep the state invariant; the effect is in Steps.StepConvert and Properties.ConvertDigits. |
| Machine.Arith | main.c:133-183 | Its results keep the state invariant; the effect is in Properties.ArithPushesDifference. |
| Machine.Branch | main.c:186-200 | Its results keep the state invariant; the effect is in Properties.BranchSemantics. |
| Machine.Jump | main.c:203-210 | Its results keep the state invariant; the effect is in Properties.JumpLandsOnTarget and Properties.CallPushesOneByte. |
| Machine.Return | main.c:216-220 | Its results keep the state invariant; the effect is in Properties.ReturnPopsWidth. |
| Machine.SetPointer | main.c:223-227 | Its results keep the state invariant; the effect is in Properties.SetPointerTruncates. |
| Machine.PushPointer | main.c:230-251 | Its results keep the state invariant; the effect is in Properties.PushPointerBytes. |
| Machine.ReadBlock | main.c:254-275 | Its results keep the state invariant; the effect is in Properties.ReadBlockBounds and Properties.ReadBlockOrder. |
| Machine.ReadString | main.c:278-288 | Its results keep the state invariant; the effect is in Properties.ReadStringOrder and Properties.ReadStringFaults. |
| Machine.SpliceIndex | main.c:291-312 | A memory block write changes exactly the cells of the block, to the written bytes, and keeps the memory size. |
| Machine.SpliceBlock | main.c:291-312 | After a block write the block holds the written bytes. |
| Machine.SpliceUnique | main.c:291-312 | A memory that agrees cell by cell with a block write is that block write. |
| Machine.WriteBlock | main.c:291-312 | Its results keep the state invariant; the effect is in Properties.WriteBlockOrder. |
| Machine.Log | main.c:321-326 | Its results keep the state invariant; the effect is in Properties.LogOutput. |
| Machine.StoreRegister | main.c:329-342 | Its results keep the state invariant; the effect is in Properties.StoreRegisterOnly. |
| Machine.LoadRegister | main.c:345-378 | Its results keep the state invariant; the effect is in Properties.LoadRegisterPushes. |
| Machine.Dispatch | main.c:96-385 | Keeps the invariant. A byte without a case is exactly the invalid-opcode stop at the counter. Every opcode except those that set the counter leaves the counter for the final increment. |
| Machine.Escaped | main.c:387-395 | Its results keep the state invariant; the effect is in Properties.EscapeProtocol. |
| Machine.Next | main.c:91-398 | One iteration keeps the state invariant. |
| Machine.Run | main.c:91-399 | A bounded run never reports a bad header; where it ends is stated by Machine.RunEnds. |
| Machine.Continue | main.c:91-399 | The rest of a run never reports a bad header. |
| Machine.RunEnds | main.c:91-399 | The loop halts only with the counter at or past the end of the program. It stops on a fault, or out of fuel, only with the counter inside the program, and a fault is the one the failed iteration reports, in the state before it. |
| Machine.RunFile | main.c:83-86 | A run reports a bad header exactly when the magic bytes `\n M V M` are missing. |
| Engine.PopWidth | main.c:122 | The pop loop returns the value of the top `w` bytes, the first popped least significant, and the stack without them. |
| Engine.VM.constructor | main.c:48-80 | The fields hold the initial state: counter 4, normal mode, width 1, registers and pointer 1, empty stacks, the given memory. |
| Engine.VM.PushWidth | main.c:359-376 | Pushing byte by byte, `nth_byte(width-1)` down to `nth_byte(0)`, appends exactly the most-significant-first encoding. |
| Engine.VM.ExecPushLiteral | main.c:109-114 | The byte-by-byte push loop produces exactly `Machine.PushLiteral`'s state or fault. |
| Engine.VM.ExecDiscard | main.c:117 | Produces exactly `Machine.Discard`'s state or fault. |
| Engine.VM.ExecConvert | main.c:120-130 | Produces exactly `Machine.Convert`'s state or fault. |
| Engine.VM.PushAll | main.c:128-129 | The push loop appends the given bytes in order, the first deepest. |
| Engine.VM.ExecArith | main.c:133-183 | Produces exactly `Machine.Arith`'s state or fault. |
| Engine.VM.ExecBranch | main.c:186-200 | Produces exactly `Machine.Branch`'s state or fault. |
| Engine.VM.ExecJump | main.c:203-210 | Produces exactly `Machine.Jump`'s state or fault. |
| Engine.VM.ExecReturn | main.c:216-220 | Produces exactly `Machine.Return`'s state or fault. |
| Engine.VM.ExecSetPointer | main.c:223-227 | Produces exactly `Machine.SetPointer`'s state or fault. |
| Engine.VM.ExecPushPointer | main.c:230-251 | Produces exactly `Machine.PushPointer`'s state or fault. |
| Engine.VM.ExecReadBlock | main.c:254-275 | Produces exactly `Machine.ReadBlock`'s state or fault. |
| Engine.VM.ScanString | main.c:283-284 | The forward scan stops at the first zero at or after the pointer, or at the end of memory when there is none; `strend` is the last byte before it, 0 for an empty string. |
| Engine.VM.PushString | main.c:286-287 | The descending loop from `strend` to the pointer appends the string reversed, its first byte on top. |
| Engine.VM.ExecReadString | main.c:278-288 | Produces exactly `Machine.ReadString`'s state or fault. |
| Engine.VM.PopBlock | main.c:292-311 | Popping into `mem[p+w-1]` down to `mem[p]` writes the top `w` bytes into the block in stack order and changes no other cell. |
| Engine.VM.ExecWriteBlock | main.c:291-312 | Produces exactly `Machine.WriteBlock`'s state or fault. |
| Engine.VM.EmitString | main.c:322-323 | The peek-pop-print loop prints the bytes above the topmost zero, top first, and leaves the zero on the stack. |
| Engine.VM.ExecLog | main.c:321-326 | Produces exactly `Machine.Log`'s state or fault. |
| Engine.VM.ExecStoreRegister | main.c:329-342 | Produces exactly `Machine.StoreRegister`'s state or fault. |
| Engine.VM.ExecLoadRegister | main.c:345-378 | Produces exactly `Machine.LoadRegister`'s state or fault. |
| Engine.VM.ExecOpcode | main.c:96-385 | The normal-mode switch produces exactly `Machine.Dispatch`'s state or fault. |
| Engine.VM.Step | main.c:92-398 | One iteration on the fields produces exactly `Machine.Next`'s state, or its fault with nothing changed. |
| Engine.VM.Run | main.c:91-399 | The loop on the fields ends in exactly the outcome of `Machine.Run` with the same fuel. |
| Engine.RunProgram | main.c:83-399 | The header check and loop end in exactly `Machine.RunFile`'s outcome. |
| Steps.PushedValue | main.c:149-150 | A value pushed `w` bytes wide sits on the old stack, pops back as itself, and has its least significant byte on top. |
| Steps.StepEnterPush | main.c:104-106 | 0x00 in normal mode switches to push mode and moves to the next byte, nothing else changing. |
| Steps.StepEscaped | main.c:387-395 | In push mode, 0x00 returns to normal mode; 0xFF pushes 0x00; any other byte pushes itself. |
| Steps.StepDiscard | main.c:117 | 0x02 pops exactly the top byte and changes nothing else but the counter; on an empty stack it faults. |
| Steps.StepArith | main.c:133-183 | 0x06 and 0x07 push the width-truncated difference A - B, nothing else changing. |
| Steps.StepBranchStays | main.c:186-200 | When the condition holds, a conditional pops the target and falls through. |
| Steps.StepBranchJumps | main.c:186-200 | When the condition fails, the next byte executed is the popped target. |
| Steps.StepStore | main.c:329-342 | Store-register `r` pops a value into register `r`. |
| Steps.StepLoad | main.c:345-378 | Load-register `r` pushes the register's encoding at the current width. |
| Steps.StepSetPointer | main.c:223-227 | Set-pointer pops a value and keeps its low 32 bits as the pointer. |
| Steps.StepPushPointer | main.c:230-251 | Push-pointer pushes the pointer's encoding at the current width. |
| Steps.StepReadBlock | main.c:254-275 | Read-block pushes the block at the pointer reversed, nothing else changing. |
| Steps.StepWriteBlock | main.c:291-312 | Write-block moves the top `width` bytes into the block at the pointer. |
| Steps.StepConvert | main.c:120-130 | Convert replaces the popped value by its decimal digits, reversed. |
| Steps.StepReadString | main.c:278-288 | Read-string pushes the string before the zero reversed. |
| Steps.StepLog | main.c:321-326 | Debug-log appends the bytes above the topmost zero to the output, top first, and pops them and the zero. |
| Properties.EscapeProtocol | main.c:387-395 | The escape protocol. In normal mode 0x00 enters push mode and pushes nothing. In push mode 0x00 leaves it without pushing, 0xFF pushes 0x00 and other bytes push themselves. Only the counter changes otherwise. |
| Properties.Stuff | main.c:387-395 | A stuffed payload has the payload's length and contains no 0x00. |
| Properties.EscapedRun | main.c:387-395 | In push mode, a stuffed payload followed by 0x00 pushes exactly the payload in order and returns to normal mode, after one iteration per byte. |
| Properties.EscapedHead | main.c:391-392 | The first stuffed byte pushes the payload's first byte; the rest of the sequence follows it. |
| Properties.EscapeSequence | main.c:104-106 | Running `00, stuff(payload), 00` is the same as pushing the payload and skipping the sequence. |
| Properties.CounterAdvances | main.c:398 | Every step that does not set the counter itself advances it by exactly one. |
| Properties.PushLiteralSkipsOperand | main.c:109-114 | 0x01 pushes the next `width` bytes in stream order and continues after them; an operand past the end of the program faults. |
| Properties.JumpLandsOnTarget | main.c:203-210 | After 0x0C the next byte executed is at the popped absolute offset. |
| Properties.HaltEndsRun | main.c:213 | 0x0E ends the run, with the state otherwise unchanged. |
| Properties.InvalidOpcodeStops | main.c:380-384 | A byte with no case stops the run at that byte; a byte with a case is never reported invalid. |
| Properties.BranchSemantics | main.c:186-200 | Conditionals always pop the target. 0x08 jumps iff !(A > B) and 0x09 iff A != B, on full 64-bit registers; otherwise they fall through. |
| Properties.BranchOnEqualRegisters | main.c:186-200 | With A = B = 5, 0x09 falls through and 0x08 jumps. |
| Properties.CallPushesOneByte | main.c:203-210 | 0x0D pushes one byte, the counter's low byte, onto the call stack, then jumps. |
| Properties.ReturnPopsWidth | main.c:216-220 | 0x0F pops `width` call-stack bytes and resumes after the offset they denote. |
| Properties.CallThenReturn | main.c:203-220 | At width 1, with a call below offset 256, the matching return resumes right after the call and restores the call stack. |
| Properties.DifferenceModular | main.c:133-183 | The arithmetic result is (A - B) mod 2^(8·width), whatever the registers hold above the low bytes. |
| Properties.ArithPushesDifference | main.c:133-183 | 0x06 and 0x07 push the difference most significant byte first, least significant on top; registers, memory and call stack are unchanged. |
| Properties.ArithExample | main.c:139-150 | At width 1, A = 250, B = 10, opcode 0x06 pushes 240: it subtracts. |
| Properties.StoreRegisterOnly | main.c:329-342 | Store-register pops into exactly the named register; the other seven are unchanged. |
| Properties.LoadRegisterPushes | main.c:345-378 | Load-register pushes the register's low `width` bytes most significant first and changes no register. |
| Properties.LoadThenStore | main.c:329-378 | Load `r` then store `q` copies the low `width` bytes of `r` into `q` and leaves the stack as it was. |
| Properties.StoreThenLoad | main.c:329-378 | Store `r` then load `r` restores the stack. |
| Properties.PopPushRestores | main.c:329-378 | Pushing back the value just popped, at the same width, restores the stack byte for byte. |
| Properties.WidthAndNoops | main.c:96-101 | The no-ops change only the counter; 0x1A..0x1D set width 1, 2, 4, 8 (main.c:315-318) and change nothing else. |
| Properties.SetPointerTruncates | main.c:223-227 | Set-pointer keeps the low 32 bits of the popped value, leaving memory and registers alone. |
| Properties.PushPointerBytes | main.c:230-251 | Push-pointer pushes the pointer's low `width` bytes most significant first. |
| Properties.ReadBlockBounds | main.c:254-275 | Read-block faults exactly when the block leaves the memory. |
| Properties.ReadBlockOrder | main.c:254-275 | Read-block pushes `mem[p+w-1]` first and `mem[p]` last, on top, over the old stack. |
| Properties.WriteBlockOrder | main.c:291-312 | Write-block puts the first-popped byte at `p+w-1` and the last at `p`, touching no other cell. |
| Properties.ReadThenWriteReverses | main.c:254-312 | Read-block then write-block at the same pointer reverses the block and restores the stack. |
| Properties.ConvertDigits | main.c:120-130 | Convert pushes at most 20 ASCII digits, leading digit on top, that read back as the popped value. |
| Properties.ReadStringOrder | main.c:278-288 | Read-string pushes the bytes up to the first zero with `mem[pointer]` on top, and nothing for an empty string. |
| Properties.ReadStringFaults | main.c:278-288 | Read-string faults for a pointer outside memory, with no zero ahead, or with the pointer at 0 (an endless descending loop). |
| Properties.LogOutput | main.c:321-326 | Debug-log prints the bytes above the topmost zero, top first, and pops them and the zero. With no zero on the stack it faults. |
| Properties.LastZeroBeneath | main.c:322-325 | Nonzero bytes pushed over a zero leave that zero the topmost. |
| Properties.LogPrintsPushed | main.c:321-326 | Logging a zero-free string pushed in reverse over a zero prints the string in forward order. |
| Properties.ReadStringThenLog | main.c:278-326 | Read-string then debug-log, over a zero terminator, prints the memory string in order. |
| Properties.ConvertThenLog | main.c:120-326 | Convert then debug-log, over a zero terminator, prints the popped value in decimal. |
| Properties.PrintsH | main.c:83-399 | The file `\n M V M 00 FF 48 00 1E` halts after five iterations, having printed "H" with an empty stack. |
| Properties.PrintsHFrom | main.c:91-399 | The five iterations of that program from its first opcode print "H". |
| Properties.PrintsHFromPayload | main.c:387-395 | The escaped payload `FF 48` pushes a zero byte and 'H'. |
| Properties.PrintsHFromClose | main.c:321-326 | The closing 0x00 and 0x1E print the 'H' above the zero byte. |
| Properties.HeaderGate | main.c:83-86 | A file without the magic header runs nothing; with it, execution starts at offset 4 in the initial state. |

## Left out

- Command-line handling, usage text, and opening, sizing and reading the file (main.c:14-62) are
  process and file I/O. The program is the whole file, given as a byte sequence.
- Error and diagnostic messages are left out. Faults carry only their kind, and the invalid
  opcode fault also carries the position and the byte.
- `stack.h` and `util.h` are not part of this model. Their roles are specified here instead:
  - a stack is a byte sequence of capacity 65536, taken from `initstack(1 << 16)`;
  - `stack_pop_width` pops `w` bytes, the first popped least significant;
  - `nth_byte(i, x)` is byte `i` of `x`;
  - `strrev` reverses the rendering.
- tests/test.js is not part of this model. It starts the binary as a child process and compares
  its output.
- `currentindex` (main.c:90, main.c:93) is never read. Cleanup with `free` (main.c:402-404) has
  no observable effect.
- Output is modelled as the sequence of bytes passed to `putchar`. Buffering is left out.
- Undefined behaviour in the C code is not reproduced. Apart from the cases listed under
  Machine.Difference, Machine.Convert and Machine.RunFile below, each case becomes a `Fault` that ends the run
  with the state as it was before that step. The cases are:
  - popping an empty stack;
  - pushing onto a full one;
  - a memory access outside `mmemory`;
  - a literal operand read past the end of the program;
  - a string scan without a terminating zero;
  - read-string with the pointer at 0, whose descending unsigned loop never ends.
- Machine.Difference: at widths 4 and 8 the C code builds the operands with `int` shifts by 24
  bits or more, which is undefined. The model uses the intended low-`width`-bytes value of
  each register.
- Machine.Convert: the overflow of `char str[20]` for values of 10^19 and more (see Findings)
  is not a fault in the model. Convert pushes all 20 digits, the evidently intended result.
- Machine.RunFile: for a file shorter than 4 bytes, the C code reads uninitialised cells of
  `bytecode[maxul(size, 4)]` (main.c:49, main.c:83). The model always reports `BadHeader`
  for such a file.
- Machine.Run: runs are bounded by fuel. A program that loops forever is seen only as
  `OutOfFuel` after any finite number of iterations.
- Machine.ValidProgram: the file size is taken as below 2^63, as `ftell` returns a `long`.
- The op functions (`Machine.PushLiteral` .. `Machine.LoadRegister`, `Machine.Escaped`) promise
  only the state invariant in their own contracts. What they compute is stated by the
  `Steps` and `Properties` lemmas over `Machine.Next`.

## Findings

| source | as written | input that shows it | evidently intended | confidence | as-written member | corrected member |
|---|---|---|---|---|---|---|
| main.c:123-125 | `sprintf(str, "%lu", byte)` renders into `char str[20]` | width 8 and a popped value of at least 10^19, e.g. the eight bytes `FF` (2^64 - 1 has 20 digits): 20 digits plus the NUL write 21 bytes into 20 | a buffer of at least 21 bytes, which holds every 64-bit value's rendering and its NUL | not executed | Decimal.ConvertBufferOverflow | Decimal.ConvertBufferSufficient |
