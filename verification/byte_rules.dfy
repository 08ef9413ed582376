/** The four single-byte corruption rules of `corrupt_byte`.

    A byte is a Python `int` in 0..255 (the walk only ever passes the result of
    `ord` on a one-byte read). The two rules that consult the global random
    generator take their draw as a parameter instead: a `Draw` carries the bit
    index `flip_bit` would pick and the value `randomize` would pick.
 */
module ByteRules {

  predicate IsByte(b: int) {
    0 <= b < 256
  }

  /** The random choices one call of `corrupt_byte` may consume:
      `randint(0, 7)` for `flip_bit` and `randint(0, 255)` for `randomize`. */
  datatype Draw = Draw(bit: int, value: int)

  predicate ValidDraw(d: Draw) {
    0 <= d.bit < 8 && IsByte(d.value)
  }

  /** The method names the command line accepts. */
  datatype Method = FlipBit | Increment | Decrement | Randomize

  function MethodName(m: Method): string {
    match m
    case FlipBit => "flip_bit"
    case Increment => "increment"
    case Decrement => "decrement"
    case Randomize => "randomize"
  }

  predicate IsKnownName(name: string) {
    name == "flip_bit" || name == "increment" || name == "decrement" || name == "randomize"
  }

  /** The dispatch of `corrupt_byte` on its method name: exact string
      comparison, no trimming and no case folding. */
  function ParseMethod(name: string): (m: Option<Method>)
    ensures m.Some? <==> IsKnownName(name)
    ensures m.Some? ==> MethodName(m.value) == name
  {
    if name == "flip_bit" then Some(FlipBit)
    else if name == "increment" then Some(Increment)
    else if name == "decrement" then Some(Decrement)
    else if name == "randomize" then Some(Randomize)
    else None
  }

  datatype Option<T> = None | Some(value: T)

  /** 2 to the power k, which is Python's `1 << k`. */
  function Pow2(k: nat): (p: nat)
    ensures p >= 1
  {
    if k == 0 then 1 else 2 * Pow2(k - 1)
  }

  /** Bit j of a, counting from the least significant bit. */
  function BitOf(a: nat, j: nat): bool {
    if j == 0 then a % 2 == 1 else BitOf(a / 2, j - 1)
  }

  /** Python's `^` on non-negative integers, one binary digit at a time. */
  function Xor(a: nat, b: nat): nat
    decreases a + b
  {
    if a == 0 && b == 0 then 0
    else 2 * Xor(a / 2, b / 2) + (a % 2 + b % 2) % 2
  }

  /** `byte ^ (1 << k)`: the rule `flip_bit` with the bit index k drawn. */
  function FlipBitAt(b: int, k: int): (r: int)
    requires IsByte(b) && 0 <= k < 8
    ensures IsByte(r)
    ensures r != b
  {
    Pow2Below(k, 8);
    XorBelowPow2(b, Pow2(k), 8);
    XorBit(b, Pow2(k), k);
    Pow2Bit(k, k);
    Xor(b, Pow2(k))
  }

  /** `(byte + 1) % 256`. */
  function IncrementByte(b: int): (r: int)
    requires IsByte(b)
    ensures IsByte(r)
    ensures r == (if b == 255 then 0 else b + 1)
  {
    (b + 1) % 256
  }

  /** `(byte - 1) % 256`, with Python's floored `%`: never negative, since
      Dafny's `%` agrees with Python's on a positive divisor. */
  function DecrementByte(b: int): (r: int)
    requires IsByte(b)
    ensures IsByte(r)
    ensures r == (if b == 0 then 255 else b - 1)
    ensures IncrementByte(r) == b
  {
    (b - 1) % 256
  }

  /** One rule applied to one byte. */
  function Apply(m: Method, b: int, d: Draw): (r: int)
    requires IsByte(b) && ValidDraw(d)
    ensures IsByte(r)
    ensures m == Randomize ==> r == d.value
    ensures m == FlipBit ==> r == FlipBitAt(b, d.bit) && r != b
    ensures m == Increment || m == Decrement ==> r != b
  {
    match m
    case FlipBit => FlipBitAt(b, d.bit)
    case Increment => IncrementByte(b)
    case Decrement => DecrementByte(b)
    case Randomize => d.value
  }

  /** The outcome of `corrupt_byte`: a new byte, or the `ValueError` raised
      for a method name outside the four rules. */
  datatype ByteResult = Corrupted(value: int) | UnknownMethod(name: string)

  function CorruptByte(b: int, name: string, d: Draw): (r: ByteResult)
    requires IsByte(b) && ValidDraw(d)
    ensures r.Corrupted? <==> IsKnownName(name)
    ensures r.Corrupted? ==> IsByte(r.value)
    ensures r.UnknownMethod? ==> r.name == name
    ensures name == "flip_bit" ==> r == Corrupted(FlipBitAt(b, d.bit))
    ensures name == "randomize" ==> r == Corrupted(d.value)
    ensures name == "increment" ==> r == Corrupted(if b == 255 then 0 else b + 1)
    ensures name == "decrement" ==> r == Corrupted(if b == 0 then 255 else b - 1)
  {
    match ParseMethod(name)
    case Some(m) => Corrupted(Apply(m, b, d))
    case None => UnknownMethod(name)
  }

  lemma ParseMethodName(m: Method)
    ensures ParseMethod(MethodName(m)) == Some(m)
  {
  }

  /** `increment` and `decrement` undo each other on every byte, wrapping at
      both ends. */
  lemma IncrementDecrementInverse(b: int)
    requires IsByte(b)
    ensures DecrementByte(IncrementByte(b)) == b
    ensures IncrementByte(DecrementByte(b)) == b
    ensures IncrementByte(255) == 0 && DecrementByte(0) == 255
  {
  }

  lemma {:induction false} Pow2Below(k: nat, n: nat)
    requires k < n
    ensures Pow2(k) < Pow2(n)
  {
    if n > k + 1 {
      Pow2Below(k, n - 1);
    }
  }

  lemma {:induction false} ZeroHasNoBits(j: nat)
    ensures !BitOf(0, j)
  {
    if j > 0 {
      ZeroHasNoBits(j - 1);
    }
  }

  /** `1 << k` has exactly bit k set. */
  lemma {:induction false} Pow2Bit(k: nat, j: nat)
    ensures BitOf(Pow2(k), j) <==> j == k
  {
    if k == 0 {
      if j > 0 {
        ZeroHasNoBits(j - 1);
      }
    } else if j > 0 {
      Pow2Bit(k - 1, j - 1);
    }
  }

  /** Each bit of `a ^ b` is the exclusive or of the operands' bits. */
  lemma {:induction false} XorBit(a: nat, b: nat, j: nat)
    ensures BitOf(Xor(a, b), j) == (BitOf(a, j) != BitOf(b, j))
    decreases j
  {
    if a == 0 && b == 0 {
      ZeroHasNoBits(j);
    } else if j > 0 {
      XorBit(a / 2, b / 2, j - 1);
    }
  }

  /** `^` never leaves the range of n-bit numbers. */
  lemma {:induction false} XorBelowPow2(a: nat, b: nat, n: nat)
    requires a < Pow2(n) && b < Pow2(n)
    ensures Xor(a, b) < Pow2(n)
  {
    if a != 0 || b != 0 {
      XorBelowPow2(a / 2, b / 2, n - 1);
    }
  }

  /** Two numbers with the same bits are equal. */
  lemma {:induction false} SameBitsEqual(a: nat, b: nat)
    requires forall j: nat :: BitOf(a, j) == BitOf(b, j)
    ensures a == b
    decreases a + b
  {
    if a != 0 || b != 0 {
      assert BitOf(a, 0) == BitOf(b, 0);
      forall j: nat
        ensures BitOf(a / 2, j) == BitOf(b / 2, j)
      {
        assert BitOf(a, j + 1) == BitOf(b, j + 1);
      }
      SameBitsEqual(a / 2, b / 2);
    }
  }

  /** `x ^ m ^ m == x`. */
  lemma XorCancel(a: nat, m: nat)
    ensures Xor(Xor(a, m), m) == a
  {
    forall j: nat
      ensures BitOf(Xor(Xor(a, m), m), j) == BitOf(a, j)
    {
      XorBit(Xor(a, m), m, j);
      XorBit(a, m, j);
    }
    SameBitsEqual(Xor(Xor(a, m), m), a);
  }

  /** Flipping the same bit twice restores the byte. */
  lemma FlipBitInvolution(b: int, k: int)
    requires IsByte(b) && 0 <= k < 8
    ensures FlipBitAt(FlipBitAt(b, k), k) == b
  {
    XorCancel(b, Pow2(k));
  }

  /** `flip_bit` changes bit k and no other bit. */
  lemma FlipBitChangesExactlyBitK(b: int, k: int, j: nat)
    requires IsByte(b) && 0 <= k < 8
    ensures BitOf(FlipBitAt(b, k), j) == (if j == k then !BitOf(b, j) else BitOf(b, j))
  {
    XorBit(b, Pow2(k), j);
    Pow2Bit(k, j);
  }
}
