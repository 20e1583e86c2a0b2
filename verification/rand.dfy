/** The Park-Miller generator of user/grind.c, computed without overflowing 31 bits. */
module ParkMiller {
  const M: int := 0x7fff_ffff
  const A: int := 16807
  const INVERSE: int := 1407677000   // of A modulo M

  /** One step of the generator on [0, M - 2]: multiplication by A modulo M, on [1, M - 1]. */
  function Step(c: int): int { A * (c + 1) % M - 1 }

  function Back(c: int): int { INVERSE * (c + 1) % M - 1 }

  class Random {
    var ctx: nat    // 64 bits

    /** do_rand. */
    method DoRand() returns (r: int)
      modifies this
      ensures r == ctx == Step(old(ctx) % (M - 1)) && 0 <= r < M - 1
    {
      var x := ctx % (M - 1) + 1;
      var hi := x / 127773;
      var lo := x % 127773;
      Schrage(x);
      x := A * lo - 2836 * hi;
      if x < 0 {
        x := x + M;
      }
      x := x - 1;
      ctx := x;
      return x;
    }
  }

  /** The division trick is exact, every intermediate value fits in 31 bits and a
      sign, and the product is never 0 modulo M. */
  lemma Schrage(x: int)
    requires 1 <= x < M
    ensures var hi, lo := x / 127773, x % 127773;
            && 0 <= hi <= M && 0 <= lo <= M && 0 <= A * lo <= M && 0 <= 2836 * hi <= M && -M <= A * lo - 2836 * hi <= M
            && A * x % M == (if A * lo - 2836 * hi < 0 then A * lo - 2836 * hi + M else A * lo - 2836 * hi)
    ensures 1 <= A * x % M < M
  {
    var hi, lo := x / 127773, x % 127773;
    var t := A * lo - 2836 * hi;
    assert A * x == t + M * hi;
    Remainder(A * x, if t < 0 then hi - 1 else hi, if t < 0 then t + M else t);
    BackMod(x);
  }

  lemma Remainder(x: int, q: int, r: int)
    requires x == M * q + r && 0 <= r < M
    ensures x % M == r
  {
  }

  lemma BackMod(x: int)
    requires 0 <= x < M
    ensures INVERSE * (A * x % M) % M == x && A * (INVERSE * x % M) % M == x
  {
    var q, p := A * x / M, INVERSE * x / M;
    assert INVERSE * (A * x % M) == M * (11017 * x - INVERSE * q) + x;
    Remainder(INVERSE * (A * x % M), 11017 * x - INVERSE * q, x);
    Remainder(A * (INVERSE * x % M), 11017 * x - A * p, x);
  }

  /** The step is a bijection on [0, M - 2]. */
  lemma Bijection(c: int)
    requires 0 <= c < M - 1
    ensures 0 <= Step(c) < M - 1 && Back(Step(c)) == c
    ensures 0 <= Back(c) < M - 1 && Step(Back(c)) == c
  {
    Schrage(c + 1);
    BackMod(c + 1);
  }
}
