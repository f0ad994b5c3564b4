/** Bytes, fixed-width integers and big-endian numbers: the vocabulary every wire format below shares. */
module Octets {

  type Byte = b: int | 0 <= b < 256
  type U16 = x: int | 0 <= x < 0x1_0000
  type U32 = x: int | 0 <= x < 0x1_0000_0000
  type U64 = x: int | 0 <= x < 0x1_0000_0000_0000_0000
  type U128 = x: int | 0 <= x < 0x1_0000_0000_0000_0000_0000_0000_0000_0000

  type Octets = seq<Byte>

  datatype Option<+T> = None | Some(value: T)

  /** The decoder errors of src/error.rs. */
  datatype DecodeError =
    | Underflow
    | InvalidIpVersion(version: Byte)
    | InvalidPrefixLength(ipVersion: Byte, prefixLen: Byte)
    | InvalidVarInt
    | BufferTooShort(needed: nat, available: nat)
    | TrailingBytes(count: nat)

  datatype Result<+T, +E> = Ok(value: T) | Err(error: E) {
    predicate IsFailure() {
      Err?
    }
    function PropagateFailure<U>(): Result<U, E>
      requires Err?
    {
      Err(error)
    }
    function Extract(): T
      requires Ok?
    {
      value
    }
  }

  type Decoded<+T> = Result<T, DecodeError>

  function Min(a: int, b: int): int {
    if a <= b then a else b
  }

  function Pow256(n: nat): (p: nat)
    ensures p >= 1
  {
    if n == 0 then 1 else 256 * Pow256(n - 1)
  }

  /** The low `n` octets of `x`, most significant first (`to_be_bytes` after a truncating cast). */
  function BE(n: nat, x: nat): (s: Octets)
    ensures |s| == n
  {
    if n == 0 then [] else BE(n - 1, x / 256) + [x % 256]
  }

  /** The number a big-endian octet string denotes. */
  function Value(s: Octets): (v: nat) {
    if s == [] then 0 else Value(s[..|s| - 1]) * 256 + s[|s| - 1]
  }

  lemma {:induction false} ValueBound(s: Octets)
    ensures Value(s) < Pow256(|s|)
  {
    if s != [] {
      ValueBound(s[..|s| - 1]);
    }
  }

  lemma {:induction false} ValueOfBE(n: nat, x: nat)
    ensures Value(BE(n, x)) == x % Pow256(n)
    ensures x < Pow256(n) ==> Value(BE(n, x)) == x
  {
    if n > 0 {
      ValueOfBE(n - 1, x / 256);
      assert BE(n, x)[..n - 1] == BE(n - 1, x / 256);
      OctetStep(x, Pow256(n - 1));
    }
  }

  /** Drop the low `n` octets. */
  function ShiftRight(x: nat, n: nat): nat {
    if n == 0 then x else ShiftRight(x / 256, n - 1)
  }

  /** A longer number splits into its high and low octets. */
  lemma {:induction false} BESplit(m: nat, n: nat, x: nat)
    ensures BE(m + n, x) == BE(m, ShiftRight(x, n)) + BE(n, x)
  {
    if n > 0 {
      BESplit(m, n - 1, x / 256);
      assert BE(m + n, x) == BE(m + (n - 1), x / 256) + [x % 256];
    }
  }

  lemma OctetStep(x: nat, p: nat)
    requires p > 0
    ensures 256 * p > 0
    ensures x / (256 * p) == x / 256 / p
    ensures x % (256 * p) == x / 256 % p * 256 + x % 256
    ensures x < 256 * p ==> x % (256 * p) == x
  {
    DivDiv(x, 256, p);
    var q, r := x / 256 / p, x / 256 % p;
    assert x / 256 == p * q + r;
    Associate(256, p, q);
    QuotientUnique(x, 256 * p, q, 256 * r + x % 256);
    if x < 256 * p {
      QuotientUnique(x, 256 * p, 0, x);
    }
  }

  lemma DivDiv(x: nat, a: nat, b: nat)
    requires a > 0 && b > 0
    ensures a * b > 0 && x / (a * b) == x / a / b
  {
    var q, r := x / a, x % a;
    var q', r' := q / b, q % b;
    assert x == a * q + r && q == b * q' + r';
    assert x == (a * b) * q' + (a * r' + r) by {
      assert a * (b * q' + r') == a * b * q' + a * r' by {
        Distribute(a, b * q', r');
        Associate(a, b, q');
      }
    }
    assert 0 <= a * r' + r < a * b by {
      assert a * r' <= a * (b - 1) by {
        Monotone(a, r', b - 1);
      }
      Distribute(a, b, -1);
    }
    QuotientUnique(x, a * b, q', a * r' + r);
  }

  lemma Distribute(a: int, b: int, c: int)
    ensures a * (b + c) == a * b + a * c
  {
  }

  lemma Associate(a: int, b: int, c: int)
    ensures a * (b * c) == a * b * c
  {
  }

  lemma Monotone(a: nat, b: int, c: int)
    requires b <= c
    ensures a * b <= a * c
  {
  }

  lemma QuotientUnique(x: int, d: int, q: int, r: int)
    requires d > 0 && 0 <= r < d && x == d * q + r
    ensures x / d == q && x % d == r
  {
    var q', r' := x / d, x % d;
    assert x == d * q' + r';
    if q' < q {
      Monotone(d, q' + 1, q);
      Distribute(d, q', 1);
    } else if q < q' {
      Monotone(d, q + 1, q');
      Distribute(d, q, 1);
    }
  }

  lemma {:induction false} BEOfValue(s: Octets)
    ensures BE(|s|, Value(s)) == s
  {
    if s != [] {
      BEOfValue(s[..|s| - 1]);
      assert s == s[..|s| - 1] + [s[|s| - 1]];
    }
  }

  lemma Shift(p: nat, q: nat)
    ensures p * (256 * q) == p * q * 256
  {
  }

  lemma {:induction false} ValueConcat(a: Octets, b: Octets)
    ensures Value(a + b) == Value(a) * Pow256(|b|) + Value(b)
  {
    if b == [] {
      assert a + b == a;
    } else {
      var b' := b[..|b| - 1];
      ValueConcat(a, b');
      assert (a + b)[..|a + b| - 1] == a + b';
      Shift(Value(a), Pow256(|b'|));
    }
  }

  /** Octet-wise lexicographic `<` on strings of one length (`<[u8; N] as Ord>::cmp`). */
  predicate LexLess(a: Octets, b: Octets)
    requires |a| == |b|
  {
    a != [] && (a[0] < b[0] || (a[0] == b[0] && LexLess(a[1..], b[1..])))
  }

  /** Octet-lexicographic order is numeric order. */
  lemma {:induction false} LexIsNumeric(a: Octets, b: Octets)
    requires |a| == |b|
    ensures LexLess(a, b) <==> Value(a) < Value(b)
    ensures a == b <==> Value(a) == Value(b)
  {
    if a != [] {
      var n := |a| - 1;
      LexIsNumeric(a[1..], b[1..]);
      ValueConcat(a[..1], a[1..]);
      ValueConcat(b[..1], b[1..]);
      assert a == a[..1] + a[1..] && b == b[..1] + b[1..];
      ValueBound(a[1..]);
      ValueBound(b[1..]);
      HeadValue(a);
      HeadValue(b);
      HeadDecides(a[0], b[0], Value(a[1..]), Value(b[1..]), Pow256(n));
    }
  }

  lemma HeadValue(a: Octets)
    requires a != []
    ensures Value(a[..1]) == a[0]
  {
    assert a[..1][..0] == [];
  }

  lemma HeadDecides(x: nat, y: nat, r: nat, t: nat, p: nat)
    requires r < p && t < p
    ensures x < y ==> x * p + r < y * p + t
    ensures y < x ==> y * p + t < x * p + r
  {
    if x < y {
      assert (x + 1) * p <= y * p;
    } else if y < x {
      assert (y + 1) * p <= x * p;
    }
  }
}
