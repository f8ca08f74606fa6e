/** Powers of two. */
module Powers {
  function Pow2(n: nat): nat {
    if n == 0 then 1 else 2 * Pow2(n - 1)
  }

  lemma Pow2Values()
    ensures Pow2(54) == 0x40_0000_0000_0000
    ensures Pow2(55) == 0x80_0000_0000_0000
    ensures Pow2(61) == 0x2000_0000_0000_0000
  {
    Pow2Of50();
    assert Pow2(51) == 0x8_0000_0000_0000 && Pow2(52) == 0x10_0000_0000_0000 && Pow2(53) == 0x20_0000_0000_0000;
    assert Pow2(56) == 2 * Pow2(55) && Pow2(57) == 2 * Pow2(56) && Pow2(58) == 2 * Pow2(57);
    assert Pow2(59) == 2 * Pow2(58) && Pow2(60) == 2 * Pow2(59);
  }

  lemma Pow2Of50()
    ensures Pow2(50) == 0x4_0000_0000_0000
  {
    assert Pow2(10) == 1024;
    Pow2Add(10, 10);
    Pow2Add(20, 20);
    Pow2Add(40, 10);
  }

  lemma {:induction false} Pow2Add(a: nat, b: nat)
    ensures Pow2(a + b) == Pow2(a) * Pow2(b)
  {
    if a > 0 {
      Pow2Add(a - 1, b);
      calc {
        Pow2(a + b);
        2 * (Pow2(a - 1) * Pow2(b));
        Pow2(a) * Pow2(b);
      }
    }
  }

  lemma {:induction false} Pow2Monotone(a: nat, b: nat)
    requires a <= b
    ensures 0 < Pow2(a) <= Pow2(b)
  {
    if a < b {
      Pow2Monotone(a, b - 1);
    } else if a > 0 {
      Pow2Monotone(a - 1, b - 1);
    }
  }
}
