/** Bytes, machine words, and the layout a multi-byte value takes on one of
    the machine's byte stacks: pushed most significant byte first, so that the
    least significant byte ends up on top. A stack is a sequence whose LAST
    element is its top. */
module Bytes {

  type Byte = b: int | 0 <= b < 0x100

  /** 2^64: `unsigned long` (registers, the program counter) wraps modulo this. */
  const WORD: nat := 0x1_0000_0000_0000_0000

  type U64 = x: int | 0 <= x < 0x1_0000_0000_0000_0000

  /** `unsigned int`, the type of the memory pointer. */
  type U32 = x: int | 0 <= x < 0x1_0000_0000

  /** The operand width in bytes. */
  type Width = w: int | w == 1 || w == 2 || w == 4 || w == 8 witness 1

  function Pow256(n: nat): (r: nat)
    ensures r > 0
  {
    if n == 0 then 1 else 0x100 * Pow256(n - 1)
  }

  lemma {:induction false} Pow256Monotone(m: nat, n: nat)
    requires m <= n
    ensures Pow256(m) <= Pow256(n)
  {
    if m < n {
      Pow256Monotone(m, n - 1);
    }
  }

  /** Every width-wide value fits a 64-bit word. */
  lemma WidthFitsWord(w: Width)
    ensures Pow256(w) <= WORD
  {
    assert Pow256(8) == WORD;
    Pow256Monotone(w, 8);
  }

  /** Euclidean division is unique: the quotient and remainder are determined. */
  lemma DivModUnique(x: int, d: int, q: int, r: int)
    requires d > 0 && 0 <= r < d && x == q * d + r
    ensures x / d == q && x % d == r
  {
    var q0, r0 := x / d, x % d;
    var k := q - q0;
    assert k * d == r0 - r by {
      assert x == q0 * d + r0;
      assert q * d - q0 * d == (q - q0) * d;
    }
    if k > 0 {
      MulAtLeast(k, d);
    } else if k < 0 {
      MulAtLeast(-k, d);
    }
  }

  lemma MulAtLeast(k: int, d: int)
    requires k >= 1 && d > 0
    ensures k * d >= d
  {
    assert k * d == (k - 1) * d + d;
    assert (k - 1) * d >= 0;
  }

  /** `nth_byte(i, x)`: byte i of x, byte 0 being the least significant. */
  function NthByte(i: nat, x: nat): (b: Byte)
  {
    (x / Pow256(i)) % 0x100
  }

  /** The bytes pushed for the low `w` bytes of `x`, in push order: most
      significant first, least significant last (on top). */
  function Encode(x: nat, w: nat): (r: seq<Byte>)
    ensures |r| == w
  {
    if w == 0 then [] else Encode(x / 0x100, w - 1) + [x % 0x100]
  }

  /** `stack_pop_width`: the value of a run of stack bytes, the top (last)
      byte being the least significant. */
  function Decode(s: seq<Byte>): (r: nat)
    ensures r < Pow256(|s|)
  {
    if s == [] then 0 else Decode(s[..|s| - 1]) * 0x100 + s[|s| - 1]
  }

  /** The byte pushed at position `w - 1 - i` (counting from the deepest) is
      byte `i` of the value: the explicit `nth_byte` pushes of the source. */
  lemma {:induction false} EncodeNthByte(x: nat, w: nat, i: nat)
    requires i < w
    ensures Encode(x, w)[w - 1 - i] == NthByte(i, x)
  {
    if i > 0 {
      EncodeNthByte(x / 0x100, w - 1, i - 1);
      DivDiv(x, Pow256(i - 1));
    }
  }

  /** Dividing by 256 and then by `p` is dividing by `256 * p`. */
  lemma DivDiv(x: nat, p: nat)
    requires p > 0
    ensures x / 0x100 / p == x / (0x100 * p)
  {
    var q, r := x / 0x100 / p, x / 0x100 % p;
    assert x == (q * p + r) * 0x100 + x % 0x100;
    ShiftSum(q, p, r);
    assert r * 0x100 <= (p - 1) * 0x100;
    DivModUnique(x, 0x100 * p, q, r * 0x100 + x % 0x100);
  }

  /** Dropping the top byte of a value's encoding shifts it down by a byte. */
  lemma ModShift(x: nat, p: nat)
    requires p > 0
    ensures (x / 0x100 % p) * 0x100 + x % 0x100 == x % (0x100 * p)
  {
    DivModUnique(x, 0x100 * p, x / 0x100 / p, (x / 0x100 % p) * 0x100 + x % 0x100);
  }

  /** Popping a width-wide value that was pushed width-wide yields its low
      `w` bytes. */
  lemma {:induction false} DecodeEncode(x: nat, w: nat)
    ensures Decode(Encode(x, w)) == x % Pow256(w)
  {
    if w > 0 {
      var e := Encode(x, w);
      assert e[..w - 1] == Encode(x / 0x100, w - 1);
      DecodeEncode(x / 0x100, w - 1);
      ModShift(x, Pow256(w - 1));
    }
  }

  /** A value below 2^(8w) survives a push and pop at width `w`. */
  lemma DecodeEncodeSmall(x: nat, w: nat)
    requires x < Pow256(w)
    ensures Decode(Encode(x, w)) == x
  {
    DecodeEncode(x, w);
    DivModUnique(x, Pow256(w), 0, x);
  }

  /** Pushing back a popped value at the same width restores the bytes. */
  lemma {:induction false} EncodeDecode(s: seq<Byte>)
    ensures Encode(Decode(s), |s|) == s
  {
    if s != [] {
      var n := |s|;
      var d := Decode(s[..n - 1]);
      DivModUnique(d * 0x100 + s[n - 1], 0x100, d, s[n - 1]);
      EncodeDecode(s[..n - 1]);
      assert s == s[..n - 1] + [s[n - 1]];
    }
  }

  /** A byte added beneath a run of `|t|` bytes becomes its most significant
      byte: the step `value |= pop() << (8 * i)` of `stack_pop_width`. */
  lemma {:induction false} DecodePrepend(b: Byte, t: seq<Byte>)
    ensures Decode([b] + t) == b * Pow256(|t|) + Decode(t)
  {
    if t != [] {
      var n, u := |t|, t[..|t| - 1];
      assert ([b] + t)[..n] == [b] + u;
      assert Decode([b] + t) == Decode([b] + u) * 0x100 + t[n - 1];
      DecodePrepend(b, u);
      ShiftSum(b, Pow256(n - 1), Decode(u));
    }
  }

  lemma ShiftSum(b: int, p: int, d: int)
    ensures (b * p + d) * 0x100 == b * (0x100 * p) + d * 0x100
  {
  }

  /** One byte more of a stack's top run adds that byte, scaled past the
      `i` bytes above it. */
  lemma DecodeSuffix(st: seq<Byte>, i: nat)
    requires i < |st|
    ensures Decode(st[|st| - (i + 1)..]) == st[|st| - 1 - i] * Pow256(i) + Decode(st[|st| - i..])
  {
    var u := st[|st| - i..];
    assert |u| == i;
    assert st[|st| - (i + 1)..] == [st[|st| - 1 - i]] + u;
    DecodePrepend(st[|st| - 1 - i], u);
  }

  /** The bytes of `s` in the opposite order. */
  function Reverse(s: seq<Byte>): (r: seq<Byte>)
  {
    seq(|s|, i requires 0 <= i < |s| => s[|s| - 1 - i])
  }

  /** Reversing one byte more of a suffix appends that byte. */
  lemma ReverseExtend(s: seq<Byte>, j: nat)
    requires 0 < j <= |s|
    ensures Reverse(s[j - 1..]) == Reverse(s[j..]) + [s[j - 1]]
  {
  }
}
