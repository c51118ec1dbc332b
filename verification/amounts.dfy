/** Amount handling: `stringtoBigInt`, which turns a chain-rendered number
    such as "1,234,567" into an integer, and `formatAmount`, which scales a
    smallest-unit amount down to whole tokens for display. */
module Amounts {
  import opened Wrappers
  import opened JsBigInt

  /** `DECIMALS`: the token's smallest unit is 10^-10 of a whole token. */
  const Decimals: nat := 10

  function Pow10(n: nat): (r: nat)
    ensures r >= 1
  {
    if n == 0 then 1 else 10 * Pow10(n - 1)
  }

  predicate IsDigit(c: char) {
    '0' <= c <= '9'
  }

  predicate AllDigits(s: string) {
    forall c | c in s :: IsDigit(c)
  }

  function DigitValue(c: char): (d: nat)
    requires IsDigit(c)
    ensures d < 10
  {
    (c as int) - ('0' as int)
  }

  function DigitChar(d: nat): (c: char)
    requires d < 10
    ensures IsDigit(c) && DigitValue(c) == d
  {
    (('0' as int) + d) as char
  }

  /** The text with every `,` group separator deleted and every other
      character kept, in order. */
  function StripCommas(s: string): (r: string)
    ensures forall c :: c in r <==> c in s && c != ','
    ensures multiset(r) == multiset(s)[',' := 0]
  {
    if |s| == 0 then []
    else
      assert s == [s[0]] + s[1..];
      (if s[0] == ',' then [] else [s[0]]) + StripCommas(s[1..])
  }

  /** The value of a run of decimal digits, most significant first. The
      empty run is worth 0, as `BigInt("")` is `0n`. */
  function DecimalValue(d: string): (n: nat)
    requires AllDigits(d)
    ensures n < Pow10(|d|)
  {
    if |d| == 0 then 0
    else
      var init := d[..|d| - 1];
      assert forall c | c in init :: c in d;
      var v := DecimalValue(init);
      var last := DigitValue(d[|d| - 1]);
      assert v * 10 + last < Pow10(|d|) by {
        assert v + 1 <= Pow10(|d| - 1);
        assert (v + 1) * 10 <= Pow10(|d| - 1) * 10;
      }
      v * 10 + last
  }

  /** `stringtoBigInt`: delete the group separators, then convert. A
      character other than a digit or a comma makes `BigInt` throw. */
  function ParseAmount(s: string): (r: Result<nat, JsError>)
    ensures r.Success? <==> forall c | c in s :: IsDigit(c) || c == ','
    ensures r.Failure? ==> r.error == SyntaxError
  {
    var digits := StripCommas(s);
    if AllDigits(digits) then Success(DecimalValue(digits)) else Failure(SyntaxError)
  }

  /** `formatAmount`: whole tokens in a smallest-unit amount, by BigInt
      division by 10^DECIMALS, so the fraction is dropped toward zero. */
  function FormatAmount(n: int): (r: int)
    ensures n >= 0 ==> r * Pow10(Decimals) <= n < (r + 1) * Pow10(Decimals)
    ensures n <= 0 ==> (r - 1) * Pow10(Decimals) < n <= r * Pow10(Decimals)
  {
    TruncDiv(n, Pow10(Decimals))
  }

  /** The chain's decimal rendering of a natural number: digits only, no
      leading zero. */
  function Render(n: nat): (r: string)
    ensures AllDigits(r) && |r| >= 1
    ensures ',' !in r
    ensures |r| > 1 ==> r[0] != '0'
  {
    if n < 10 then [DigitChar(n)]
    else Render(n / 10) + [DigitChar(n % 10)]
  }

  /** The chain's human-readable rendering inserts a `,` before every group
      of three digits counted from the right. */
  function GroupThousands(d: string): (r: string)
    ensures |d| <= 3 ==> r == d
    decreases |d|
  {
    if |d| <= 3 then d
    else GroupThousands(d[..|d| - 3]) + [','] + d[|d| - 3..]
  }

  lemma {:induction false} StripCommasAppend(a: string, b: string)
    ensures StripCommas(a + b) == StripCommas(a) + StripCommas(b)
    decreases |a|
  {
    if |a| == 0 {
      assert a + b == b;
    } else {
      assert (a + b)[1..] == a[1..] + b;
      StripCommasAppend(a[1..], b);
    }
  }

  lemma StripCommasOfCommaFree(s: string)
    requires ',' !in s
    ensures StripCommas(s) == s
  {
  }

  /** Deleting the separators undoes the thousands grouping. */
  lemma {:induction false} StripGrouped(d: string)
    requires ',' !in d
    ensures StripCommas(GroupThousands(d)) == d
    decreases |d|
  {
    if |d| <= 3 {
      StripCommasOfCommaFree(d);
    } else {
      var hi, lo := d[..|d| - 3], d[|d| - 3..];
      assert d == hi + lo;
      assert ',' !in hi && ',' !in lo;
      StripGrouped(hi);
      StripCommasAppend(GroupThousands(hi) + [','], lo);
      StripCommasAppend(GroupThousands(hi), [',']);
      StripCommasOfCommaFree(lo);
    }
  }

  /** Reading back a rendered number gives the number. */
  lemma {:induction false} DecimalValueOfRender(n: nat)
    ensures DecimalValue(Render(n)) == n
    decreases n
  {
    if n >= 10 {
      var r := Render(n);
      assert r[..|r| - 1] == Render(n / 10);
      DecimalValueOfRender(n / 10);
    }
  }

  /** `stringtoBigInt` inverts the chain's plain rendering ... */
  lemma ParseRendered(n: nat)
    ensures ParseAmount(Render(n)) == Success(n)
  {
    StripCommasOfCommaFree(Render(n));
    DecimalValueOfRender(n);
  }

  /** ... and its human-readable grouped rendering, such as "1,000,000". */
  lemma ParseGrouped(n: nat)
    ensures ParseAmount(GroupThousands(Render(n))) == Success(n)
  {
    StripGrouped(Render(n));
    DecimalValueOfRender(n);
  }

  /** Inserting a separator anywhere never changes the parsed value, nor
      whether the text parses at all. */
  lemma CommaInsensitive(a: string, b: string)
    ensures ParseAmount(a + [','] + b) == ParseAmount(a + b)
  {
    CommaDeleted(a, b);
  }

  lemma CommaDeleted(a: string, b: string)
    ensures StripCommas(a + [','] + b) == StripCommas(a + b)
  {
    var sa, sb := StripCommas(a), StripCommas(b);
    StripCommasAppend(a + [','], b);
    StripCommasAppend(a, [',']);
    StripCommasAppend(a, b);
    assert StripCommas([',']) == [];
    assert StripCommas(a + [',']) == sa;
  }

  /** Display scaling keeps the sign and drops the fraction toward zero:
      negating the amount negates the displayed value. */
  lemma FormatAmountNegate(n: int)
    ensures FormatAmount(-n) == -FormatAmount(n)
  {
    TruncDivNegate(n, Pow10(Decimals));
  }

  lemma DisplayUnit()
    ensures Pow10(Decimals) == 10_000_000_000
  {
  }
}
