/** CIDR prefixes: the arithmetic of the `ipnet` crate that the source relies on. */
module Net {
  import opened Octets
  import opened Address

  function Pow2(n: nat): (p: nat)
    ensures p >= 1
  {
    if n == 0 then 1 else 2 * Pow2(n - 1)
  }

  function Bits(v4: bool): nat {
    if v4 then 32 else 128
  }

  /** A prefix as configured: host bits of `addr` may be set. */
  datatype IpNet = IpNet(addr: IpAddr, len: nat) {

    predicate Valid() {
      len <= Bits(addr.V4?)
    }

    function Size(): (n: nat)
      requires Valid()
      ensures n >= 1
    {
      Pow2(Bits(addr.V4?) - len)
    }

    function Network(): (k: nat)
      requires Valid()
      ensures k <= addr.Key() && k % Size() == 0
    {
      Floor(addr.Key(), Size())
    }

    /** The last address of the prefix (`broadcast`). */
    function Last(): nat
      requires Valid()
    {
      Network() + (Size() - 1)
    }

    predicate Contains(ip: IpAddr)
      requires Valid()
    {
      ip.V4? == addr.V4? && Network() <= ip.Key() <= Last()
    }
  }

  /** A prefix contains the addresses of its family that agree with it in the first `len` bits. */
  lemma ContainsExactly(net: IpNet, ip: IpAddr)
    requires net.Valid()
    ensures net.Contains(ip) <==>
            ip.V4? == net.addr.V4? && ip.Key() / Pow2(Bits(ip.V4?) - net.len) == net.addr.Key() / Pow2(Bits(ip.V4?) - net.len)
  {
    if ip.V4? == net.addr.V4? {
      SameBlock(ip.Key(), net.addr.Key(), net.Size());
    }
  }

  lemma SameBlock(x: nat, y: nat, n: nat)
    requires n >= 1
    ensures Floor(y, n) <= x <= Floor(y, n) + (n - 1) <==> x / n == y / n
  {
    var q, r := x / n, x % n;
    assert x == n * q + r;
    var start := Floor(y, n);
    if start <= x <= start + (n - 1) {
      QuotientUnique(x, n, y / n, x - start);
    }
  }

  /** `pool_nets`: the prefixes addresses are assigned from. */
  function PoolNets(net4: IpNet, net6: Option<IpNet>): seq<IpNet> {
    if net6.Some? then [net4, net6.value] else [net4]
  }

  /** The start of the aligned block of `n` around `x`. */
  function Floor(x: nat, n: nat): (f: nat)
    requires n >= 1
    ensures f <= x < f + n && f % n == 0
  {
    Aligned(x, n);
    x / n * n
  }

  lemma Aligned(x: nat, n: nat)
    requires n >= 1
    ensures 0 <= x / n * n <= x < x / n * n + n
    ensures (x / n * n) % n == 0
  {
    var q, r := x / n, x % n;
    assert x == n * q + r;
    QuotientUnique(q * n, n, q, 0);
  }

  lemma PowersOfTwo()
    ensures Pow2(0) == 1 && Pow2(8) == 0x100 && Pow2(16) == 0x1_0000
    ensures Pow2(32) == 0x1_0000_0000 && Pow2(64) == 0x1_0000_0000_0000_0000
    ensures Pow2(128) == 0x1_0000_0000_0000_0000_0000_0000_0000_0000
  {
    assert Pow2(4) == 16;
    assert Pow2(8) == 16 * 16 by { Pow2Add(4, 4); }
    assert Pow2(16) == 0x100 * 0x100 by { Pow2Add(8, 8); }
    assert Pow2(32) == 0x1_0000 * 0x1_0000 by { Pow2Add(16, 16); }
    assert Pow2(64) == 0x1_0000_0000 * 0x1_0000_0000 by { Pow2Add(32, 32); }
    assert Pow2(128) == 0x1_0000_0000_0000_0000 * 0x1_0000_0000_0000_0000 by { Pow2Add(64, 64); }
  }

  lemma {:induction false} Pow2Add(a: nat, b: nat)
    ensures Pow2(a + b) == Pow2(a) * Pow2(b)
  {
    if a > 0 {
      Pow2Add(a - 1, b);
      Associate(2, Pow2(a - 1), Pow2(b));
    }
  }

  /** A prefix ends inside its address family. */
  lemma NetBounds(net: IpNet)
    requires net.Valid()
    ensures net.Last() < net.addr.Space()
  {
    var bits := Bits(net.addr.V4?);
    var n, m := Pow2(bits - net.len), Pow2(net.len);
    assert net.addr.Space() == m * n by {
      PowersOfTwo();
      Pow2Add(net.len, bits - net.len);
    }
    BlockFits(net.addr.Key(), n, m);
  }

  lemma BlockFits(x: nat, n: nat, m: nat)
    requires n >= 1 && x < m * n
    ensures x / n * n + n <= m * n
  {
    Aligned(x, n);
    var q := x / n;
    if q >= m {
      Monotone(n, m, q);
    } else {
      Monotone(n, q + 1, m);
      Distribute(n, q, 1);
    }
  }
}
