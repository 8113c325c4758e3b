/** Powers of two: the tiles of 2048, what they are worth, and the number of
    ones in a sum of them. */
module Tiles {
  import opened Basics

  /** A power of two that is at least 2. */
  predicate Tile(v: int) {
    v == 2 || (v > 2 && v % 2 == 0 && Tile(v / 2))
  }

  /** (k - 1) * 2^k for a tile 2^k, by halving. */
  function Worth(v: int): int {
    if v <= 2 then 0 else 2 * Worth(v / 2) + v
  }

  lemma {:induction false} WorthOfPower(k: nat, p: int)
    requires k >= 1 && p == Pow2(k)
    ensures p >= 2 && Tile(p)
    ensures Worth(p) == (k - 1) * p
  {
    if k == 1 {
      assert p == 2 * Pow2(0) == 2;
    } else {
      var q := Pow2(k - 1);
      WorthOfPower(k - 1, q);
      assert p == 2 * q;
      WorthDoubled(q);
      Regroup(k - 2, q);
    }
  }

  lemma WorthDoubled(q: int)
    requires q >= 2
    ensures Worth(2 * q) == 2 * Worth(q) + 2 * q
    ensures Tile(q) ==> Tile(2 * q)
  {
    assert (2 * q) / 2 == q;
  }

  lemma Regroup(m: int, q: int)
    ensures 2 * (m * q) + 2 * q == (m + 1) * (2 * q)
  {
    assert (m + 1) * (2 * q) == m * (2 * q) + 2 * q;
  }

  lemma {:induction false} TileIsPower(v: int) returns (k: nat)
    requires Tile(v)
    ensures k >= 1 && v == Pow2(k)
  {
    if v == 2 {
      k := 1;
      assert Pow2(1) == 2 * Pow2(0);
    } else {
      var h := TileIsPower(v / 2);
      k := h + 1;
    }
  }

  lemma PowerValues()
    ensures Pow2(17) == 131072 && Pow2(18) == 262144
  {
    assert Pow2(4) == 16;
    assert Pow2(8) == 256;
    assert Pow2(12) == 4096;
    assert Pow2(16) == 65536;
  }

  lemma TileWorth(v: int)
    requires Tile(v) && v <= MAX_SUM
    ensures v <= 131072 && 0 <= Worth(v) <= 16 * v
  {
    var k := TileIsPower(v);
    PowerValues();
    if k >= 18 {
      Pow2Monotone(18, k);
    }
    Pow2Monotone(k, 17);
    WorthOfPower(k, v);
    WorthBound(k, v);
  }

  lemma WorthBound(k: int, v: int)
    requires 1 <= k <= 17 && v >= 0
    ensures 0 <= (k - 1) * v <= 16 * v
  {
    assert (k - 1) * v + (17 - k) * v == 16 * v;
  }

  function Ones(n: nat): nat {
    if n == 0 then 0 else n % 2 + Ones(n / 2)
  }

  lemma {:induction false} OnesOfSum(a: nat, b: nat)
    ensures Ones(a + b) <= Ones(a) + Ones(b)
    decreases a + b
  {
    if a != 0 && b != 0 {
      if a % 2 == 1 && b % 2 == 1 {
        assert (a + b) / 2 == a / 2 + (b / 2 + 1);
        OnesOfSum(a / 2, b / 2 + 1);
        OnesOfSum(b / 2, 1);
        assert Ones(1) == 1;
      } else {
        assert (a + b) / 2 == a / 2 + b / 2;
        OnesOfSum(a / 2, b / 2);
      }
    }
  }

  lemma {:induction false} OnesOfTile(v: int)
    requires Tile(v)
    ensures Ones(v) == 1
  {
    if v == 2 {
      assert Ones(2) == 0 + Ones(1);
    } else {
      OnesOfTile(v / 2);
    }
  }

  const MAX_SUM := 262140

  lemma FullSums()
    ensures Ones(MAX_SUM) == 16 && Ones(MAX_SUM - 2) == 16
  {
    AllOnes(16);
    AllOnes(15);
    assert Pow2(16) == 65536 && Pow2(15) == 32768;
    assert Ones(131070) == Ones(65535) && Ones(262140) == Ones(131070);
    assert Ones(65534) == Ones(32767) && Ones(131069) == 1 + Ones(65534) && Ones(262138) == Ones(131069);
  }

  lemma {:induction false} AllOnes(k: nat)
    ensures Ones(Pow2(k) - 1) == k
  {
    if k > 0 {
      AllOnes(k - 1);
      assert (Pow2(k) - 1) / 2 == Pow2(k - 1) - 1;
    }
  }
}
