/** Facts about products and quotients that several modules need. */
module Arithmetic {

  function Min(a: int, b: int): int { if a < b then a else b }

  function CeilDiv(n: nat, d: nat): nat {
    if d == 0 then 0 else (n + (d - 1)) / d
  }

  lemma Mono(a: int, b: int, c: nat)
    requires a <= b
    ensures a * c <= b * c
  {
  }

  lemma Distribute(x: int, y: int, c: int)
    ensures (x + y) * c == x * c + y * c
  {
  }

  lemma DivSplit(n: nat, b: nat)
    requires b > 0
    ensures n / b * b + n % b == n && 0 <= n % b < b
  {
  }

  lemma DivOf(b: nat, x: nat, p: nat)
    requires x < p
    ensures (b * p + x) / p == b && (b * p + x) % p == x
  {
    var q := (b * p + x) / p;
    DivSplit(b * p + x, p);
    if q < b {
      Mono(q + 1, b, p);
    } else if q > b {
      Mono(b + 1, q, p);
    }
  }

  lemma CeilDivChar(n: nat, d: nat, q: nat)
    requires d > 0
    ensures CeilDiv(n, d) <= q <==> n <= q * d
  {
    DivSplit(n + (d - 1), d);
    var c := CeilDiv(n, d);
    if c <= q {
      Mono(c, q, d);
    } else {
      Mono(q, c - 1, d);
    }
  }

  lemma HexDigits(n: nat)
    ensures n == n / 4096 * 4096 + n / 256 % 16 * 256 + n / 16 % 16 * 16 + n % 16
  {
    assert n / 16 / 16 == n / 256;
    assert n / 256 / 16 == n / 4096;
  }
}
