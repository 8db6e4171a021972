/** Big-endian integers as byte sequences. */
module Bytes {
  import opened Arithmetic
  import opened Results

  function Pow256(k: nat): (p: nat)
    ensures p > 0
  {
    if k == 0 then 1 else 0x100 * Pow256(k - 1)
  }

  /** The low `k` bytes of `n`, most significant first. */
  function ToBe(n: nat, k: nat): (s: seq<byte>)
    ensures |s| == k
    decreases k
  {
    if k == 0 then [] else ToBe(n / 0x100, k - 1) + [n % 0x100]
  }

  function FromBe(s: seq<byte>): nat
  {
    if s == [] then 0 else FromBe(s[..|s| - 1]) * 0x100 + s[|s| - 1]
  }

  lemma {:induction false} FromToBe(n: nat, k: nat)
    requires n < Pow256(k)
    ensures FromBe(ToBe(n, k)) == n
    decreases k
  {
    if k > 0 {
      FromToBe(n / 0x100, k - 1);
      assert ToBe(n, k)[..k - 1] == ToBe(n / 0x100, k - 1);
    }
  }

  lemma {:induction false} ToFromBe(s: seq<byte>)
    ensures FromBe(s) < Pow256(|s|)
    ensures ToBe(FromBe(s), |s|) == s
  {
    if s != [] {
      var t := s[..|s| - 1];
      ToFromBe(t);
      assert FromBe(s) / 0x100 == FromBe(t) && FromBe(s) % 0x100 == s[|s| - 1];
      assert s == t + [s[|s| - 1]];
    }
  }

  lemma ToBeInjective(n: nat, m: nat, k: nat)
    requires n < Pow256(k) && m < Pow256(k)
    ensures ToBe(n, k) == ToBe(m, k) <==> n == m
  {
    FromToBe(n, k);
    FromToBe(m, k);
  }

  lemma Powers()
    ensures Pow256(2) == 0x1_0000
    ensures Pow256(4) == 0x1_0000_0000
    ensures Pow256(8) == 0x1_0000_0000_0000_0000
  {
    assert Pow256(1) == 0x100;
    assert Pow256(3) == 0x100_0000;
    assert Pow256(5) == 0x100_0000_0000;
    assert Pow256(6) == 0x1_0000_0000_0000;
    assert Pow256(7) == 0x100_0000_0000_0000;
  }

  function ZeroBytes(n: nat): (z: seq<byte>)
    ensures |z| == n
  {
    seq(n, _ => 0)
  }

  /** The field of two or four bytes at offset `o`. */
  function Be16(b: seq<byte>, o: nat): u16
    requires o + 2 <= |b|
  {
    ToFromBe(b[o..o + 2]);
    Powers();
    FromBe(b[o..o + 2])
  }

  function Be32(b: seq<byte>, o: nat): u32
    requires o + 4 <= |b|
  {
    ToFromBe(b[o..o + 4]);
    Powers();
    FromBe(b[o..o + 4])
  }

  /** Most significant first: the byte at place `i` of `k` counts 256^(k-1-i). */
  lemma {:induction false} ByteOf(n: nat, k: nat, i: nat)
    requires i < k
    ensures ToBe(n, k)[i] == n / Pow256(k - 1 - i) % 0x100
    decreases k
  {
    if i < k - 1 {
      ByteOf(n / 0x100, k - 1, i);
      DivTwice(n, Pow256(k - 2 - i));
    }
  }

  lemma DivTwice(n: nat, p: nat)
    requires p > 0
    ensures n / 0x100 / p == n / (0x100 * p)
  {
    var q, r := n / 0x100 / p, n / 0x100 % p;
    assert n / 0x100 == p * q + r;
    var s := n % 0x100;
    assert n == 0x100 * (n / 0x100) + s;
    assert n == (0x100 * p) * q + (0x100 * r + s) by {
      assert 0x100 * (p * q + r) == (0x100 * p) * q + 0x100 * r;
    }
    DivUnique(n, 0x100 * p, q, 0x100 * r + s);
  }

  /** Two or four bytes at offset `o`, as `from_be_bytes` takes them. */
  function At16(b: seq<byte>, o: nat): nat
    requires o + 2 <= |b|
  {
    0x100 * b[o] as int + b[o + 1] as int
  }

  function At32(b: seq<byte>, o: nat): nat
    requires o + 4 <= |b|
  {
    0x100_0000 * b[o] as int + 0x1_0000 * b[o + 1] as int + 0x100 * b[o + 2] as int + b[o + 3] as int
  }

  lemma Field16(b: seq<byte>, o: nat)
    requires o + 2 <= |b|
    ensures Be16(b, o) == At16(b, o)
  {
    var s := b[o..o + 2];
    assert s[..1] == [b[o]] && s[..1][..0] == [];
    assert FromBe(s[..1]) == b[o];
  }

  lemma Field32(b: seq<byte>, o: nat)
    requires o + 4 <= |b|
    ensures Be32(b, o) == At32(b, o)
  {
    var s := b[o..o + 4];
    assert s[..3][..2] == s[..2] && s[..2][..1] == s[..1] && s[..1][..0] == [];
    assert FromBe(s[..1]) == b[o];
    assert FromBe(s[..2]) == 0x100 * b[o] as int + b[o + 1] as int;
    assert FromBe(s[..3]) == 0x1_0000 * b[o] as int + 0x100 * b[o + 1] as int + b[o + 2] as int;
  }

  function At64(b: seq<byte>, o: nat): nat
    requires o + 8 <= |b|
  {
    0x1_0000_0000 * At32(b, o) + At32(b, o + 4)
  }

  lemma Field64(b: seq<byte>, o: nat)
    requires o + 8 <= |b|
    ensures FromBe(b[o..o + 8]) == At64(b, o)
  {
    var s := b[o..o + 8];
    assert s[..4] == b[o..o + 4] && s[4..] == b[o + 4..o + 8];
    Field32(b, o);
    Field32(b, o + 4);
    hide At32;
    FourAndFour(s);
  }

  lemma FourAndFour(s: seq<byte>)
    requires |s| == 8
    ensures FromBe(s) == 0x1_0000_0000 * FromBe(s[..4]) + FromBe(s[4..])
  {
    assert s[..7][..6] == s[..6] && s[..6][..5] == s[..5] && s[..5][..4] == s[..4];
    FourOf(s[4..]);
    assert FromBe(s[..5]) == FromBe(s[..4]) * 0x100 + s[4];
    assert FromBe(s[..6]) == FromBe(s[..5]) * 0x100 + s[5];
    assert FromBe(s[..7]) == FromBe(s[..6]) * 0x100 + s[6];
  }

  lemma FourOf(s: seq<byte>)
    requires |s| == 4
    ensures FromBe(s) == 0x100_0000 * s[0] as int + 0x1_0000 * s[1] as int + 0x100 * s[2] as int + s[3] as int
  {
    Field32(s, 0);
    assert s[0..4] == s;
  }

  /** `buf[from..from + data.len()].copy_from_slice(data)`. */
  method CopyInto(buf: array<byte>, from: nat, data: seq<byte>)
    requires from + |data| <= buf.Length
    modifies buf
    ensures buf[..from] == old(buf[..from])
    ensures buf[from..from + |data|] == data
    ensures buf[from + |data|..] == old(buf[from + |data|..])
  {
    for i := 0 to |data|
      invariant buf[..from] == old(buf[..from])
      invariant buf[from..from + i] == data[..i]
      invariant buf[from + |data|..] == old(buf[from + |data|..])
    {
      buf[from + i] := data[i];
      assert buf[from..from + i + 1] == buf[from..from + i] + [data[i]];
      assert data[..i + 1] == data[..i] + [data[i]];
    }
  }
}
