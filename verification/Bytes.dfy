/** Fixed-width integers, optional and fallible values, and little-endian words. */
module Bytes {

  const U16_LIMIT := 0x1_0000
  const U32_LIMIT := 0x1_0000_0000
  const U64_LIMIT := 0x1_0000_0000_0000_0000

  type byte = x: int | 0 <= x < 0x100
  type u16 = x: int | 0 <= x < 0x1_0000
  type u32 = x: int | 0 <= x < 0x1_0000_0000
  type u64 = x: int | 0 <= x < 0x1_0000_0000_0000_0000

  datatype Option<+T> = None | Some(value: T)

  /** The failures of the conversion pipeline.  `ArithmeticPanic` stands for an
      unchecked machine operation whose exact result does not fit its type. */
  datatype Error =
    | IntegerOverflow
    | InvalidAlignment
    | InvalidAddressRange
    | ContextMismatch
    | ArithmeticPanic

  datatype Result<+T> = Ok(value: T) | Err(error: Error) {
    predicate IsFailure() { Err? }

    function PropagateFailure<U>(): Result<U>
      requires Err?
    {
      Err(error)
    }

    function Extract(): T
      requires Ok?
    {
      value
    }
  }

  function Zeros(n: nat): (s: seq<byte>)
    ensures |s| == n
    ensures forall i :: 0 <= i < n ==> s[i] == 0
  {
    seq(n, i => 0)
  }

  /** The number of values an `n`-byte word can hold. */
  function Pow256(n: nat): nat {
    if n == 0 then 1 else 256 * Pow256(n - 1)
  }

  /** The `n` low bytes of `x`, least significant first. */
  function LE(x: nat, n: nat): (s: seq<byte>)
    ensures |s| == n
  {
    if n == 0 then [] else [x % 256] + LE(x / 256, n - 1)
  }

  function FromLE(s: seq<byte>): (x: nat)
    ensures x < Pow256(|s|)
  {
    if s == [] then 0 else s[0] + 256 * FromLE(s[1..])
  }

  lemma {:induction false} DecodeEncode(x: nat, n: nat)
    requires x < Pow256(n)
    ensures FromLE(LE(x, n)) == x
  {
    if n == 0 {
    } else {
      DecodeEncode(x / 256, n - 1);
      assert LE(x, n)[1..] == LE(x / 256, n - 1);
    }
  }

  /** Byte `i` of a word is its digit of weight 256 to the power of `i`. */
  lemma {:induction false} LEByte(x: nat, n: nat, i: nat)
    requires i < n
    ensures Pow256(i) > 0 && LE(x, n)[i] == x / Pow256(i) % 256
    decreases n
  {
    if i == 0 {
    } else {
      LEByte(x / 256, n - 1, i - 1);
      DivideTwice(x, Pow256(i - 1));
    }
  }

  lemma DivideTwice(x: nat, p: nat)
    requires p > 0
    ensures x / 256 / p == x / (256 * p)
  {
    var q, r := x / 256 / p, x / 256 % p;
    assert x / 256 == p * q + r;
    assert x == 256 * (x / 256) + x % 256;
    assert 256 * (p * q + r) == (256 * p) * q + 256 * r;
    QuotientIs(x, 256 * p, q, 256 * r + x % 256);
  }

  lemma QuotientIs(x: nat, p: nat, q: nat, r: nat)
    requires p > 0 && x == p * q + r && r < p
    ensures x / p == q
  {
    var d := x / p;
    assert x == p * d + x % p;
    Monotone(p, d + 1, q);
    Monotone(p, q + 1, d);
  }

  lemma Monotone(p: nat, a: nat, b: nat)
    ensures a <= b ==> p * a <= p * b
  {
  }

  lemma WordLimits()
    ensures Pow256(2) == U16_LIMIT && Pow256(4) == U32_LIMIT && Pow256(8) == U64_LIMIT
  {
  }

  /** The width in bytes of an `unsigned long` of the target. */
  type WordSize = w: nat | w == 4 || w == 8 witness 4

  /** `x` can be represented in one word. */
  predicate FitsWord(x: int, word: WordSize) {
    0 <= x < if word == 8 then 0x1_0000_0000_0000_0000 else 0x1_0000_0000
  }

  lemma FitsWordLimit(x: int, word: WordSize)
    requires FitsWord(x, word)
    ensures x < Pow256(word)
  {
    WordLimits();
  }

  /** Reads the `n`-byte little-endian word at `off`; None when it is out of bounds. */
  function ReadLE(bytes: seq<byte>, off: int, n: nat): (r: Option<nat>)
    ensures r.Some? <==> 0 <= off && off + n <= |bytes|
    ensures r.Some? ==> r.value < Pow256(n)
  {
    if 0 <= off && off + n <= |bytes| then Some(FromLE(bytes[off..off + n])) else None
  }

  lemma ReadBack(bytes: seq<byte>, off: nat, n: nat, x: nat)
    requires off + n <= |bytes| && bytes[off..off + n] == LE(x, n)
    requires x < Pow256(n)
    ensures ReadLE(bytes, off, n) == Some(x)
  {
    DecodeEncode(x, n);
  }

  /** Appends one word of the target; a value that does not fit is rejected. */
  method PushWord(data: seq<byte>, value: nat, word: WordSize) returns (r: Result<seq<byte>>)
    ensures FitsWord(value, word) ==> r == Ok(data + LE(value, word))
    ensures !FitsWord(value, word) ==> r.Err?
  {
    if word == 8 {
      if value >= U64_LIMIT {
        return Err(ArithmeticPanic);
      }
      return Ok(data + LE(value, 8));
    }
    if value >= U32_LIMIT {
      return Err(IntegerOverflow);
    }
    return Ok(data + LE(value, 4));
  }

  // ---------- joining sequences ----------

  lemma Join2<T>(p: seq<T>, a: seq<T>, b: seq<T>)
    ensures p + a + b == p + (a + b)
  {
  }

  lemma Join3<T>(p: seq<T>, a: seq<T>, b: seq<T>, c: seq<T>)
    ensures p + a + b + c == p + (a + b + c)
  {
  }

  lemma Join4<T>(p: seq<T>, a: seq<T>, b: seq<T>, c: seq<T>, d: seq<T>)
    ensures p + a + b + c + d == p + (a + b + c + d)
  {
  }

  lemma Join5<T>(p: seq<T>, a: seq<T>, b: seq<T>, c: seq<T>, d: seq<T>, e: seq<T>)
    ensures p + a + b + c + d + e == p + (a + b + c + d + e)
  {
  }

  lemma NothingBefore<T>(s: seq<T>)
    ensures [] + s == s
  {
  }

  // ---------- sequences written piece by piece ----------

  /** The pieces one after the other. */
  function Flatten(parts: seq<seq<byte>>): seq<byte> {
    if parts == [] then [] else Flatten(parts[..|parts| - 1]) + parts[|parts| - 1]
  }

  lemma FlattenNext(parts: seq<seq<byte>>, i: nat)
    requires i < |parts|
    ensures Flatten(parts[..i + 1]) == Flatten(parts[..i]) + parts[i]
  {
    assert parts[..i + 1][..i] == parts[..i];
  }

  lemma FlattenNone(parts: seq<seq<byte>>)
    ensures Flatten(parts[..0]) == []
  {
  }

  lemma FlattenAll(parts: seq<seq<byte>>)
    ensures Flatten(parts[..|parts|]) == Flatten(parts)
  {
    assert parts[..|parts|] == parts;
  }

  /** Where piece `i` begins. */
  function PartOffset(parts: seq<seq<byte>>, i: nat): nat
    requires i <= |parts|
  {
    |Flatten(parts[..i])|
  }

  lemma {:induction false} FlattenPart(parts: seq<seq<byte>>, i: nat)
    requires i < |parts|
    ensures PartOffset(parts, i) + |parts[i]| <= |Flatten(parts)|
    ensures Flatten(parts)[PartOffset(parts, i)..PartOffset(parts, i) + |parts[i]|] == parts[i]
    decreases |parts|
  {
    var n := |parts| - 1;
    if i == n {
      assert parts[..i] == parts[..n];
    } else {
      FlattenPart(parts[..n], i);
      assert parts[..n][..i] == parts[..i];
    }
  }
}
