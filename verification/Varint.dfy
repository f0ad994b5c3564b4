/** QUIC variable-length integers (section 16 of RFC 9000), src/capsule/codec.rs. */
module Varint {
  import opened Octets

  const VARINT_MAX: nat := 0x3fff_ffff_ffff_ffff

  /** `varint_len`: the shortest of the four encodings that holds `val`. */
  function Length(val: U64): (r: Decoded<nat>)
    ensures r.Ok? <==> val <= VARINT_MAX
    ensures r.Ok? ==> r.value in {1, 2, 4, 8} && 4 * val < Pow256(r.value)
    ensures r.Ok? ==> forall n :: n in {1, 2, 4, 8} && n < r.value ==> Pow256(n) <= 4 * val
  {
    Powers();
    if val <= 63 then Ok(1)
    else if val <= 16383 then Ok(2)
    else if val <= 1_073_741_823 then Ok(4)
    else if val <= VARINT_MAX then Ok(8)
    else Err(InvalidVarInt)
  }

  lemma Powers()
    ensures Pow256(0) == 1 && Pow256(1) == 0x100 && Pow256(2) == 0x1_0000 && Pow256(3) == 0x100_0000
    ensures Pow256(4) == 0x1_0000_0000
    ensures Pow256(7) == 0x100_0000_0000_0000
    ensures Pow256(8) == 0x1_0000_0000_0000_0000
    ensures Pow256(16) == 0x1_0000_0000_0000_0000_0000_0000_0000_0000
  {
    assert Pow256(4) == 256 * Pow256(3);
    assert Pow256(6) == 256 * Pow256(5);
    assert Pow256(8) == 256 * Pow256(7);
    assert Pow256(10) == 256 * Pow256(9);
    assert Pow256(12) == 256 * Pow256(11);
    assert Pow256(14) == 256 * Pow256(13);
    assert Pow256(16) == 256 * Pow256(15);
  }

  /** The two-bit length tag of an encoding of `n` octets. */
  function Tag(n: nat): Byte
    requires n in {1, 2, 4, 8}
  {
    if n == 1 then 0 else if n == 2 then 64 else if n == 4 then 128 else 192
  }

  /** The encoding length announced by a first octet (`1 << (first >> 6)`). */
  function Announced(first: Byte): (n: nat)
    ensures n in {1, 2, 4, 8} && Tag(n) <= first < Tag(n) + 64
  {
    if first < 64 then 1 else if first < 128 then 2 else if first < 192 then 4 else 8
  }

  /** The encoding of `val`: the tag over the top octet, then the remaining octets. */
  function Encode(val: U64): (s: Octets)
    requires val <= VARINT_MAX
    ensures |s| == Length(val).value
  {
    Powers();
    var n := Length(val).value;
    [Tag(n) + val / Pow256(n - 1)] + BE(n - 1, val)
  }

  /** `read_varint`: the value and the unread rest, or `Underflow`. */
  function Read(s: Octets): (r: Decoded<(U64, Octets)>)
    ensures r.Ok? ==> r.value.0 <= VARINT_MAX && |r.value.1| < |s|
    ensures r.Ok? <==> s != [] && Announced(s[0]) <= |s|
    ensures r.Err? ==> r.error == Underflow
  {
    if s == [] then Err(Underflow)
    else
      var n := Announced(s[0]);
      if |s| < n then Err(Underflow)
      else
        Powers();
        ValueBound(s[1..n]);
        Ok(((s[0] - Tag(n)) * Pow256(n - 1) + Value(s[1..n]), s[n..]))
  }

  lemma ReadPieces(n: nat, top: nat, body: Octets, rest: Octets)
    requires n in {1, 2, 4, 8} && top < 64 && |body| == n - 1
    ensures var r := Read([Tag(n) + top] + body + rest);
            r.Ok? && r.value.0 == top * Pow256(n - 1) + Value(body) && r.value.1 == rest
  {
    var s := [Tag(n) + top] + body + rest;
    assert Announced(s[0]) == n;
    assert s[1..n] == body && s[n..] == rest;
  }

  lemma Recombine(x: nat, p: nat)
    requires p > 0
    ensures x / p * p + x % p == x
  {
  }

  lemma TopBound(val: U64)
    requires val <= VARINT_MAX
    ensures var n := Length(val).value; val / Pow256(n - 1) < 64
  {
    Powers();
  }

  /** Reading undoes writing and leaves what follows untouched. */
  lemma ReadEncode(val: U64, rest: Octets)
    requires val <= VARINT_MAX
    ensures Read(Encode(val) + rest) == Ok((val, rest))
  {
    var n := Length(val).value;
    var top, body := val / Pow256(n - 1), BE(n - 1, val);
    TopBound(val);
    ReadPieces(n, top, body, rest);
    assert Encode(val) == [Tag(n) + top] + body;
    assert top * Pow256(n - 1) + Value(body) == val by {
      ValueOfBE(n - 1, val);
      Recombine(val, Pow256(n - 1));
    }
  }

  /** Appending bytes never changes a complete read. */
  lemma ReadExtend(s: Octets, more: Octets)
    requires Read(s).Ok?
    ensures Read(s + more) == Ok((Read(s).value.0, Read(s).value.1 + more))
  {
    Extended(s, more, Announced(s[0]));
  }

  lemma Extended(s: Octets, more: Octets, n: nat)
    requires 1 <= n <= |s|
    ensures (s + more)[0] == s[0] && (s + more)[1..n] == s[1..n] && (s + more)[n..] == s[n..] + more
  {
  }

  /** The read loop of `read_varint`: one octet at a time into an accumulator. */
  method ReadVarint(s: Octets) returns (r: Decoded<(U64, Octets)>)
    ensures r == Read(s)
  {
    if s == [] {
      return Err(Underflow);
    }
    var first := s[0];
    var len := Announced(first);
    var rest := s[1..];
    if |rest| < len - 1 {
      return Err(Underflow);
    }
    var top := first - Tag(len);
    var val: nat := top;
    for i := 1 to len
      invariant rest == s[i..]
      invariant val == top * Pow256(i - 1) + Value(s[1..i])
    {
      Accumulate(top, s, i);
      val := val * 256 + rest[0];
      rest := rest[1..];
    }
    assert val == Read(s).value.0;
    return Ok((val, rest));
  }

  lemma Accumulate(top: nat, s: Octets, i: nat)
    requires 1 <= i < |s|
    ensures (top * Pow256(i - 1) + Value(s[1..i])) * 256 + s[i] == top * Pow256(i) + Value(s[1..i + 1])
  {
    assert s[1..i + 1][..i - 1] == s[1..i];
    assert Value(s[1..i + 1]) == Value(s[1..i]) * 256 + s[i];
    Associate(top, Pow256(i - 1), 256);
  }

  /** `write_varint`: append the octets, or refuse a value over 2^62 - 1. */
  method WriteVarint(buf: Octets, val: U64) returns (r: Decoded<Octets>)
    ensures r == if val <= VARINT_MAX then Ok(buf + Encode(val)) else Err(InvalidVarInt)
  {
    var len := Length(val);
    if len.Err? {
      return Err(InvalidVarInt);
    }
    match len.value {
      case 1 =>
        Encode1(val);
        return Ok(buf + [val]);
      case 2 =>
        Encode2(val);
        return Ok(buf + [0x40 + val / 0x100, val % 0x100]);
      case 4 =>
        Encode4(val);
        return Ok(buf + [0x80 + val / 0x100_0000, val / 0x1_0000 % 0x100, val / 0x100 % 0x100, val % 0x100]);
      case _ =>
        var hi := val / 0x1_0000_0000;
        Encode8(val);
        return Ok(buf + [0xc0 + hi / 0x100_0000, hi / 0x1_0000 % 0x100, hi / 0x100 % 0x100, hi % 0x100,
                         val / 0x100_0000 % 0x100, val / 0x1_0000 % 0x100, val / 0x100 % 0x100, val % 0x100]);
    }
  }

  lemma Encode1(val: U64)
    requires val <= 63
    ensures Encode(val) == [val]
  {
    Powers();
  }

  lemma Encode2(val: U64)
    requires 63 < val <= 16383
    ensures Encode(val) == [0x40 + val / 0x100, val % 0x100]
  {
    Powers();
    assert BE(1, val) == BE(0, val / 256) + [val % 256];
  }

  lemma Encode4(val: U64)
    requires 16383 < val <= 1_073_741_823
    ensures Encode(val) == [0x80 + val / 0x100_0000, val / 0x1_0000 % 0x100, val / 0x100 % 0x100, val % 0x100]
  {
    Powers();
    BE3(val);
  }

  lemma Encode8(val: U64)
    requires 1_073_741_823 < val <= VARINT_MAX
    ensures var hi := val / 0x1_0000_0000;
            Encode(val) == [0xc0 + hi / 0x100_0000, hi / 0x1_0000 % 0x100, hi / 0x100 % 0x100, hi % 0x100,
                            val / 0x100_0000 % 0x100, val / 0x1_0000 % 0x100, val / 0x100 % 0x100, val % 0x100]
  {
    var hi := val / 0x1_0000_0000;
    assert Encode(val) == [0xc0 + hi / 0x100_0000] + BE(7, val) by {
      Powers();
      assert val / 0x100_0000_0000_0000 == hi / 0x100_0000;
    }
    BE7(val);
  }

  lemma BE3(x: nat)
    ensures BE(3, x) == [x / 0x1_0000 % 0x100, x / 0x100 % 0x100, x % 0x100]
  {
    var y := x / 256;
    var z := y / 256;
    assert BE(1, z) == BE(0, z / 256) + [z % 256];
    assert BE(2, y) == BE(1, z) + [y % 256];
  }

  lemma BE4(x: nat)
    ensures BE(4, x) == [x / 0x100_0000 % 0x100, x / 0x1_0000 % 0x100, x / 0x100 % 0x100, x % 0x100]
  {
    var y := x / 256;
    BE3(y);
    assert BE(4, x) == BE(3, y) + [x % 256];
    assert y / 0x1_0000 == x / 0x100_0000 && y / 0x100 == x / 0x1_0000;
  }

  lemma ShiftRight4(x: nat)
    ensures ShiftRight(x, 4) == x / 0x1_0000_0000
  {
    var y := x / 256;
    assert ShiftRight(x, 4) == ShiftRight(y, 3);
    assert ShiftRight(y, 3) == ShiftRight(y / 256, 2);
    ShiftRight2(y / 256);
    DivDiv(x, 256, 256);
    DivDiv(x, 0x1_0000, 0x1_0000);
  }

  lemma ShiftRight2(x: nat)
    ensures ShiftRight(x, 2) == x / 0x1_0000
  {
    assert ShiftRight(x, 2) == ShiftRight(x / 256, 1);
    assert ShiftRight(x / 256, 1) == x / 256 / 256;
    DivDiv(x, 256, 256);
  }

  /** The low seven octets of a 64-bit value, as shifts of its two halves. */
  lemma BE7(val: U64)
    ensures var hi := val / 0x1_0000_0000;
            BE(7, val) == [hi / 0x1_0000 % 0x100, hi / 0x100 % 0x100, hi % 0x100,
                           val / 0x100_0000 % 0x100, val / 0x1_0000 % 0x100, val / 0x100 % 0x100, val % 0x100]
  {
    var hi := val / 0x1_0000_0000;
    assert BE(7, val) == BE(3, hi) + BE(4, val) by {
      BESplit(3, 4, val);
      ShiftRight4(val);
    }
    BE3(hi);
    BE4(val);
  }
}
