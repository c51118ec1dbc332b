/** The two JavaScript `BigInt` behaviours the calculator relies on: the
    exceptions a conversion or a division can throw, and the `/` operator,
    which truncates toward zero (Dafny's own `/` on `int` is Euclidean). */
module JsBigInt {

  /** The exceptions the modelled code can throw: `BigInt(text)` throws a
      `SyntaxError` for text that is not an integer literal, and `x / 0n`
      throws a `RangeError`. */
  datatype JsError = SyntaxError | RangeError

  function Abs(x: int): nat {
    if x < 0 then -x else x
  }

  /** `a / b` on BigInt operands. JavaScript throws for `b == 0`; every
      caller in the model rules that case out (and reports `RangeError`)
      before dividing. The result is the quotient truncated toward zero:
      the remainder is smaller than the divisor in magnitude and carries
      the sign of the dividend. */
  function TruncDiv(a: int, b: int): (q: int)
    requires b != 0
    ensures Abs(a - q * b) < Abs(b)
    ensures a - q * b == 0 || (a - q * b > 0 <==> a > 0)
  {
    if b > 0 then TruncDivByPositive(a, b)
    else
      var p := TruncDivByPositive(a, -b);
      assert (-p) * b == p * (-b);
      -p
  }

  function TruncDivByPositive(a: int, b: int): (q: int)
    requires b > 0
    ensures Abs(a - q * b) < b
    ensures a - q * b == 0 || (a - q * b > 0 <==> a > 0)
  {
    if a >= 0 then a / b
    else
      var m := (-a) / b;
      assert a - (-m) * b == -((-a) - m * b);
      -m
  }

  /** Truncated division is determined by its remainder condition: any
      quotient whose remainder is smaller than the divisor and has the
      dividend's sign is the one `TruncDiv` returns. */
  lemma TruncDivUnique(a: int, b: int, q: int)
    requires b != 0
    requires Abs(a - q * b) < Abs(b)
    requires a - q * b == 0 || (a - q * b > 0 <==> a > 0)
    ensures q == TruncDiv(a, b)
  {
    var t := TruncDiv(a, b);
    var r, s := a - q * b, a - t * b;
    RemaindersClose(a, b, r, s);
    assert r - s == (t - q) * b by { Distribute(t, q, b); }
    if t != q {
      MulAbsAtLeast(t - q, b);
    }
  }

  /** Two remainders of the same dividend, both smaller than the divisor in
      magnitude and on the dividend's side of zero, differ by less than it. */
  lemma RemaindersClose(a: int, b: int, r: int, s: int)
    requires Abs(r) < Abs(b) && Abs(s) < Abs(b)
    requires r == 0 || (r > 0 <==> a > 0)
    requires s == 0 || (s > 0 <==> a > 0)
    ensures Abs(r - s) < Abs(b)
  {
  }

  lemma Distribute(t: int, q: int, b: int)
    ensures t * b - q * b == (t - q) * b
  {
  }

  lemma MulAbsAtLeast(k: int, b: int)
    requires k != 0
    ensures Abs(k * b) >= Abs(b)
  {
    MulAbs(k, b);
    MulAtLeast(Abs(k), Abs(b));
  }

  lemma MulAbs(k: int, b: int)
    ensures Abs(k * b) == Abs(k) * Abs(b)
  {
    if k < 0 && b < 0 {
      assert k * b == (-k) * (-b);
    } else if k < 0 {
      assert k * b == -((-k) * b);
    } else if b < 0 {
      assert k * b == -(k * (-b));
    }
  }

  lemma MulAtLeast(k: nat, c: nat)
    requires k >= 1
    ensures k * c >= c
  {
    var d: nat := k - 1;
    assert k * c == d * c + c;
  }

  /** For a non-negative dividend and a positive divisor, truncation and
      Dafny's Euclidean division agree. */
  lemma TruncDivOfNonNegative(a: int, b: int)
    requires a >= 0 && b > 0
    ensures TruncDiv(a, b) == a / b
  {
  }

  /** For a negative dividend and a positive divisor the quotient is
      rounded up, toward zero, where floor division would round down. */
  lemma TruncDivOfNegative(a: int, b: int)
    requires a < 0 && b > 0
    ensures var q := TruncDiv(a, b); (q - 1) * b < a <= q * b
  {
    var m := (-a) / b;
    assert TruncDiv(a, b) == -m;
    assert m * b <= -a < (m + 1) * b;
    assert (-m) * b == -(m * b);
    assert (-m - 1) * b == -((m + 1) * b);
  }

  /** Unlike floor division, truncation is symmetric about zero. */
  lemma TruncDivNegate(a: int, b: int)
    requires b != 0
    ensures TruncDiv(-a, b) == -TruncDiv(a, b)
  {
    var c := Abs(b);
    if a > 0 {
      assert TruncDivByPositive(-a, c) == -(a / c);
    } else if a < 0 {
      assert TruncDivByPositive(a, c) == -((-a) / c);
    }
  }

  /** Dividing by a positive divisor preserves order, whatever the signs of
      the dividends. */
  lemma TruncDivMonotone(a1: int, a2: int, b: int)
    requires a1 <= a2 && b > 0
    ensures TruncDiv(a1, b) <= TruncDiv(a2, b)
  {
    var n1, n2 := TruncDivByPositive(a1, b), TruncDivByPositive(a2, b);
    if 0 <= a1 {
      assert n1 == a1 / b && n2 == a2 / b;
      DivMonotone(a1, a2, b);
    } else if a2 < 0 {
      assert n1 == -((-a1) / b) && n2 == -((-a2) / b);
      DivMonotone(-a2, -a1, b);
    } else {
      assert n1 == -((-a1) / b) && n2 == a2 / b;
      DivNonNegative(-a1, b);
      DivNonNegative(a2, b);
    }
  }

  lemma DivNonNegative(x: nat, b: int)
    requires b > 0
    ensures x / b >= 0
  {
  }

  lemma DivMonotone(x: nat, y: nat, b: int)
    requires x <= y && b > 0
    ensures x / b <= y / b
  {
    var p, q := x / b, y / b;
    if p > q {
      var d: nat := p - q;
      assert p * b == q * b + d * b;
      MulAtLeast(d, b);
    }
  }
}
