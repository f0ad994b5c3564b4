/** The Internet checksum (RFC 1071), as src/forwarding/vnet.rs and src/forwarding/packet.rs compute it. */
module Rfc1071 {
  import opened Octets

  function Word(hi: Byte, lo: Byte): U16 {
    (hi as int) * 256 + lo
  }

  /** The sum of the big-endian 16-bit words, an odd last octet padded with zero. */
  function WordSum(s: Octets): (sum: nat) {
    if |s| == 0 then 0
    else if |s| == 1 then Word(s[0], 0)
    else Word(s[0], s[1]) + WordSum(s[2..])
  }

  /** End-around carry until the sum fits 16 bits: the residue mod 65535 and non-zeroness survive. */
  function Fold(sum: nat): (r: nat)
    ensures r <= 0xffff
    ensures r % 0xffff == sum % 0xffff
    ensures r == 0 <==> sum == 0
    decreases sum
  {
    if sum <= 0xffff then sum else FoldStep(sum); Fold(sum % 0x1_0000 + sum / 0x1_0000)
  }

  /** One carry. */
  lemma FoldStep(sum: nat)
    requires sum > 0xffff
    ensures var next := sum % 0x1_0000 + sum / 0x1_0000;
            0 < next < sum && next % 0xffff == sum % 0xffff
  {
    var hi, lo := sum / 0x1_0000, sum % 0x1_0000;
    var q, r := (hi + lo) / 0xffff, (hi + lo) % 0xffff;
    assert sum == 0xffff * (hi + q) + r;
    QuotientUnique(sum, 0xffff, hi + q, r);
  }

  function Checksum(seed: nat, s: Octets): (c: U16) {
    0xffff - Fold(seed + WordSum(s))
  }

  /** A receiver's check: the complement of the folded sum, checksum field included, is zero. */
  predicate Verifies(seed: nat, s: Octets) {
    Checksum(seed, s) == 0
  }

  function Sums(parts: seq<Octets>): nat {
    if parts == [] then 0 else WordSum(parts[0]) + Sums(parts[1..])
  }

  lemma {:induction false} WordSumBound(s: Octets)
    ensures WordSum(s) <= 0xffff * ((|s| + 1) / 2)
  {
    if |s| > 1 {
      WordSumBound(s[2..]);
    }
  }

  lemma {:induction false} WordSumConcat(a: Octets, b: Octets)
    requires |a| % 2 == 0
    ensures WordSum(a + b) == WordSum(a) + WordSum(b)
  {
    if a == [] {
      assert a + b == b;
    } else {
      WordSumConcat(a[2..], b);
      assert (a + b)[2..] == a[2..] + b;
    }
  }

  /** The data as RFC 1071 reads it: an odd octet string is padded with a zero octet. */
  function Padded(s: Octets): (p: Octets)
    ensures |p| % 2 == 0
  {
    if |s| % 2 == 1 then s + [0] else s
  }

  /** One 16-bit word more: a carry of 2^16 is a carry of 1 in one's complement. */
  lemma Carry(x: nat, w: nat)
    ensures (x * 0x1_0000 + w) % 0xffff == (x + w) % 0xffff
  {
    var q, r := (x + w) / 0xffff, (x + w) % 0xffff;
    assert x * 0x1_0000 + w == 0xffff * (x + q) + r;
    QuotientUnique(x * 0x1_0000 + w, 0xffff, x + q, r);
  }

  lemma LastWord(s: Octets)
    requires |s| >= 2
    ensures Value(s) == Value(s[..|s| - 2]) * 0x1_0000 + Word(s[|s| - 2], s[|s| - 1])
  {
    var t := s[..|s| - 1];
    assert t[..|t| - 1] == s[..|s| - 2];
    assert Value(t) == Value(s[..|s| - 2]) * 256 + s[|s| - 2];
  }

  lemma {:induction false} EvenSumIsValue(s: Octets)
    requires |s| % 2 == 0
    ensures WordSum(s) % 0xffff == Value(s) % 0xffff
  {
    if s != [] {
      var a, w := s[..|s| - 2], Word(s[|s| - 2], s[|s| - 1]);
      EvenSumIsValue(a);
      LastSum(s);
      LastWord(s);
      OneMore(WordSum(a), Value(a), w, WordSum(s), Value(s));
    }
  }

  lemma OneMore(sum: nat, value: nat, w: nat, sum': nat, value': nat)
    requires sum % 0xffff == value % 0xffff && sum' == sum + w && value' == value * 0x1_0000 + w
    ensures sum' % 0xffff == value' % 0xffff
  {
    Carry(value, w);
    SameResidue(sum, value, w);
  }

  lemma LastSum(s: Octets)
    requires |s| >= 2 && |s| % 2 == 0
    ensures WordSum(s) == WordSum(s[..|s| - 2]) + Word(s[|s| - 2], s[|s| - 1])
  {
    SumAround(s, |s| - 2);
    assert s[|s| - 2 + 2..] == [];
  }

  lemma SameResidue(x: nat, y: nat, w: nat)
    requires x % 0xffff == y % 0xffff
    ensures (x + w) % 0xffff == (y + w) % 0xffff
  {
  }

  lemma {:induction false} PaddingAddsNothing(s: Octets)
    ensures WordSum(Padded(s)) == WordSum(s)
  {
    if |s| == 1 {
      assert Padded(s)[2..] == [];
    } else if |s| >= 2 {
      PaddingAddsNothing(s[2..]);
      assert Padded(s)[2..] == Padded(s[2..]);
    }
  }

  /** The sum of the words is, modulo 2^16 - 1, the number the padded data denotes. */
  lemma WordSumIsValue(s: Octets)
    ensures WordSum(s) % 0xffff == Value(Padded(s)) % 0xffff
  {
    PaddingAddsNothing(s);
    EvenSumIsValue(Padded(s));
  }

  lemma {:induction false} WordSumZero(s: Octets)
    ensures WordSum(s) == 0 <==> forall k :: 0 <= k < |s| ==> s[k] == 0
  {
    if |s| >= 2 {
      WordSumZero(s[2..]);
      assert forall k :: 2 <= k < |s| ==> s[k] == s[2..][k - 2];
    }
  }

  /** The checksum of any data, odd or even, under any seed: the one 16-bit number that brings seed and data to a multiple
      of 2^16 - 1, and of the two that do when the sum is a multiple already, 0xffff only where everything is zero. */
  lemma ChecksumExactly(seed: nat, s: Octets, c: U16)
    ensures c == Checksum(seed, s) <==>
            && (seed + Value(Padded(s)) + c) % 0xffff == 0
            && (c == 0xffff <==> seed == 0 && forall k :: 0 <= k < |s| ==> s[k] == 0)
  {
    WordSumIsValue(s);
    WordSumZero(s);
    SameResidue(WordSum(s), Value(Padded(s)), seed);
    Complement(seed + WordSum(s), seed + Value(Padded(s)), Fold(seed + WordSum(s)), c);
  }

  lemma Complement(sum: nat, value: nat, f: nat, c: U16)
    requires f <= 0xffff && f % 0xffff == sum % 0xffff == value % 0xffff && (f == 0 <==> sum == 0)
    ensures c == 0xffff - f <==> (value + c) % 0xffff == 0 && (c == 0xffff <==> sum == 0)
  {
    SameResidue(value, f, c);
  }

  /** What a receiver accepts: seed and data, checksum included, a multiple of 2^16 - 1 and not all zero. */
  lemma VerifiesExactly(seed: nat, s: Octets)
    ensures Verifies(seed, s) <==>
            (seed + Value(Padded(s))) % 0xffff == 0 && !(seed == 0 && forall k :: 0 <= k < |s| ==> s[k] == 0)
  {
    ChecksumExactly(seed, s, 0);
  }

  function Joined(parts: seq<Octets>): Octets {
    if parts == [] then [] else parts[0] + Joined(parts[1..])
  }

  /** Summing part by part is summing them joined, as long as only the last is odd. */
  lemma {:induction false} SumsJoined(parts: seq<Octets>)
    requires forall i :: 0 <= i < |parts| - 1 ==> |parts[i]| % 2 == 0
    ensures Sums(parts) == WordSum(Joined(parts))
  {
    if |parts| == 1 {
      assert parts[1..] == [];
      assert parts[0] + [] == parts[0];
    } else if parts != [] {
      SumsJoined(parts[1..]);
      WordSumConcat(parts[0], Joined(parts[1..]));
    }
  }

  /** Overwrite `b` at `at`. */
  function Put(s: Octets, at: nat, b: Octets): (r: Octets)
    requires at + |b| <= |s|
    ensures |r| == |s|
    ensures forall k :: 0 <= k < |s| ==> r[k] == if at <= k < at + |b| then b[k - at] else s[k]
  {
    s[..at] + b + s[at + |b|..]
  }

  lemma WordOf(v: U16)
    ensures BE(2, v) == [v / 256, v % 256]
    ensures WordSum(BE(2, v)) == v
    ensures Value(BE(2, v)) == v
  {
    assert BE(1, v / 256) == BE(0, v / 256 / 256) + [v / 256 % 256];
    assert BE(2, v) == BE(1, v / 256) + [v % 256];
    assert WordSum([v / 256, v % 256][2..]) == 0;
    assert Pow256(2) == 256 * Pow256(1) == 0x1_0000;
    ValueOfBE(2, v);
  }

  /** Writing a word at an even offset changes the sum by that word. */
  lemma WordSumPut(s: Octets, at: nat, v: U16)
    requires at % 2 == 0 && at + 2 <= |s|
    ensures WordSum(Put(s, at, BE(2, v))) == WordSum(s) - Word(s[at], s[at + 1]) + v
  {
    var r := Put(s, at, BE(2, v));
    SumAround(s, at);
    SumAround(r, at);
    assert r[..at] == s[..at] && r[at + 2..] == s[at + 2..];
    WordOf(v);
  }

  lemma SumAround(s: Octets, at: nat)
    requires at % 2 == 0 && at + 2 <= |s|
    ensures WordSum(s) == WordSum(s[..at]) + Word(s[at], s[at + 1]) + WordSum(s[at + 2..])
  {
    WordSumConcat(s[..at], s[at..]);
    assert s == s[..at] + s[at..];
    assert s[at..][2..] == s[at + 2..];
  }

  /** Filling a zeroed, word-aligned field with the checksum makes the whole verify. */
  lemma FilledVerifies(seed: nat, s: Octets, at: nat)
    requires at % 2 == 0 && at + 2 <= |s| && s[at] == 0 && s[at + 1] == 0
    ensures Verifies(seed, Put(s, at, BE(2, Checksum(seed, s))))
  {
    var r := Put(s, at, BE(2, Checksum(seed, s)));
    assert WordSum(r) == WordSum(s) + Checksum(seed, s) by {
      WordSumPut(s, at, Checksum(seed, s));
    }
    var sum := seed + WordSum(s);
    assert seed + WordSum(r) == sum + (0xffff - Fold(sum));
    ComplementCancels(sum);
  }

  lemma ComplementCancels(sum: nat)
    ensures Fold(sum + (0xffff - Fold(sum))) == 0xffff
  {
    Residue(sum, Fold(sum));
    assert Fold(sum + (0xffff - Fold(sum))) % 0xffff == 0;
  }

  lemma Residue(sum: nat, f: nat)
    requires f <= 0xffff && f % 0xffff == sum % 0xffff && (f == 0 <==> sum == 0)
    ensures (sum + (0xffff - f)) % 0xffff == 0 && sum + (0xffff - f) > 0
  {
  }

  /** `internet_checksum`: accumulate the words of every part in a 32-bit register, fold, complement. The precondition
      is that the register does not overflow. */
  method InternetChecksum(seed: U32, parts: seq<Octets>) returns (c: U16)
    requires seed + Sums(parts) < 0x1_0000_0000
    ensures c == 0xffff - Fold(seed + Sums(parts))
  {
    var sum: U32 := seed;
    for i := 0 to |parts|
      invariant sum + Sums(parts[i..]) == seed + Sums(parts)
    {
      var part := parts[i];
      assert parts[i..][1..] == parts[i + 1..];
      var k := 0;
      while k + 2 <= |part|
        invariant k <= |part| && k % 2 == 0
        invariant sum + WordSum(part[k..]) + Sums(parts[i + 1..]) == seed + Sums(parts)
      {
        assert part[k..][2..] == part[k + 2..];
        sum := sum + Word(part[k], part[k + 1]);
        k := k + 2;
      }
      if k < |part| {
        assert part[k..] == [part[k]];
        sum := sum + Word(part[k], 0);
      } else {
        assert part[k..] == [];
      }
    }
    assert parts[|parts|..] == [];
    while sum > 0xffff
      invariant Fold(sum) == Fold(seed + Sums(parts))
    {
      sum := sum % 0x1_0000 + sum / 0x1_0000;
    }
    c := 0xffff - sum;
  }

  /** `ipv4_checksum` over one slice. */
  method SliceChecksum(data: Octets) returns (c: U16)
    requires |data| <= 0x1_0000
    ensures c == Checksum(0, data)
  {
    WordSumBound(data);
    assert Sums([data]) == WordSum(data) + Sums([data][1..]);
    c := InternetChecksum(0, [data]);
  }
}
