/** Bytes, and numbers as bytes with the least significant first. */
module ByteOrder {

  type Byte = b: int | 0 <= b < 256
  type Bytes = seq<Byte>

  const U32_MAX := 0xFFFF_FFFF
  const U64_MAX := 0xFFFF_FFFF_FFFF_FFFF

  function Pow256(k: nat): (p: nat)
    ensures p >= 1
  {
    if k == 0 then 1 else 256 * Pow256(k - 1)
  }

  lemma Powers()
    ensures Pow256(2) == 0x1_0000 && Pow256(4) == U32_MAX + 1 && Pow256(8) == U64_MAX + 1
  {
    assert Pow256(1) == 256 * Pow256(0);
    assert Pow256(2) == 256 * Pow256(1);
    assert Pow256(3) == 256 * Pow256(2);
    assert Pow256(4) == 256 * Pow256(3);
    assert Pow256(5) == 256 * Pow256(4);
    assert Pow256(6) == 256 * Pow256(5);
    assert Pow256(7) == 256 * Pow256(6);
    assert Pow256(8) == 256 * Pow256(7);
  }

  function Le(b: Bytes): nat {
    if b == [] then 0 else b[0] as int + 256 * Le(b[1..])
  }

  function ToLe(n: nat, k: nat): (b: Bytes)
    ensures |b| == k
  {
    if k == 0 then [] else [n % 256] + ToLe(n / 256, k - 1)
  }

  lemma {:induction false} LeOfToLe(n: nat, k: nat)
    requires n < Pow256(k)
    ensures Le(ToLe(n, k)) == n
  {
    if k > 0 {
      LeOfToLe(n / 256, k - 1);
      assert ToLe(n, k)[1..] == ToLe(n / 256, k - 1);
    }
  }

  lemma {:induction false} ToLeOfLe(b: Bytes)
    ensures Le(b) < Pow256(|b|) && ToLe(Le(b), |b|) == b
  {
    if b != [] {
      ToLeOfLe(b[1..]);
      assert Le(b) % 256 == b[0] && Le(b) / 256 == Le(b[1..]);
    }
  }

  lemma TwoBytes(n: nat)
    requires n < 65536
    ensures ToLe(n, 2) == [n % 256, n / 256]
  {
    assert ToLe(n / 256, 1) == [n / 256 % 256] + ToLe(n / 256 / 256, 0);
  }

  lemma FourBytes(n: nat)
    requires n <= U32_MAX
    ensures ToLe(n, 4) == [n % 256, n / 256 % 256, n / 65536 % 256, n / 16777216]
  {
    var n1 := n / 256;
    var n2 := n1 / 256;
    var n3 := n2 / 256;
    assert n2 == n / 65536 && n3 == n / 16777216 && n3 < 256;
    assert ToLe(n, 4) == [n % 256] + ToLe(n1, 3);
    assert ToLe(n1, 3) == [n1 % 256] + ToLe(n2, 2);
    assert ToLe(n2, 2) == [n2 % 256] + ToLe(n3, 1);
    assert ToLe(n3, 1) == [n3 % 256] + ToLe(n3 / 256, 0);
  }

  lemma EightBytes(n: nat)
    requires n <= U64_MAX
    ensures ToLe(n, 8) == ToLe(n % 0x1_0000_0000, 4) + ToLe(n / 0x1_0000_0000, 4)
  {
    HalvesMean(n % 0x1_0000_0000, n / 0x1_0000_0000);
    ToLeOfLe(ToLe(n % 0x1_0000_0000, 4) + ToLe(n / 0x1_0000_0000, 4));
  }

  lemma HalvesMean(low: nat, high: nat)
    requires low <= U32_MAX && high <= U32_MAX
    ensures Le(ToLe(low, 4) + ToLe(high, 4)) == low + 0x1_0000_0000 * high
  {
    Powers();
    LeOfToLe(low, 4);
    LeOfToLe(high, 4);
    LeOfSum(ToLe(low, 4), ToLe(high, 4));
  }

  lemma {:induction false} LeOfSum(a: Bytes, b: Bytes)
    ensures Le(a + b) == Le(a) + Pow256(|a|) * Le(b)
  {
    if a == [] {
      assert a + b == b;
    } else {
      LeOfSum(a[1..], b);
      assert (a + b)[1..] == a[1..] + b;
      TimesPower(|a| - 1, Le(b));
    }
  }

  lemma TimesPower(k: nat, n: nat)
    ensures Pow256(k + 1) * n == 256 * (Pow256(k) * n)
  {}

  lemma FourBytesMean(b: Bytes)
    requires |b| == 4
    ensures Le(b) == b[0] as int + 256 * b[1] as int + 65536 * b[2] as int + 16777216 * b[3] as int
  {
    var b1 := b[1..];
    var b2 := b1[1..];
    var b3 := b2[1..];
    assert Le(b3) == b[3] as int && Le(b2) == b[2] as int + 256 * Le(b3) && Le(b1) == b[1] as int + 256 * Le(b2);
  }
}
