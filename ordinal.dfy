/**
  English ordinal suffix: `ordinal(number)` (index.js, `extendWith.ordinal`).

  The source takes `number % 100` and `number % 10` with JavaScript's remainder, which
  truncates: the remainder has the sign of the dividend. Dafny's `%` is Euclidean, so the
  truncating remainder is defined here explicitly. Only integer input is modelled; for an
  integer `Math.floor` is the identity.
*/
module OrdinalSuffix {

  lemma MulSign(b: int, k: int)
    requires b > 0
    ensures k >= 1 ==> b * k >= b
    ensures k <= -1 ==> b * k <= -b
    ensures k == 0 ==> b * k == 0
  {
  }

  /** The Euclidean remainder is the only `r` in `[0, b)` with `x == b * q + r`. */
  lemma RemainderUnique(x: int, b: int, q: int, r: int)
    requires b > 0 && 0 <= r < b && x == b * q + r
    ensures x % b == r
  {
    var q', r' := x / b, x % b;
    assert b * (q - q') == r' - r;
    MulSign(b, q - q');
  }

  /** JavaScript's `a % b` for a positive divisor: zero or of the sign of `a`, smaller than `b`
      in magnitude, and congruent to `a` modulo `b` (so it is the Euclidean remainder, or that
      remainder less `b`). */
  function JsRemainder(a: int, b: int): (r: int)
    requires b > 0
    ensures a >= 0 ==> 0 <= r < b
    ensures a < 0 ==> -b < r <= 0
    ensures r == a % b || r == a % b - b
  {
    if a >= 0 then a % b
    else
      var m := -a;
      var q := m / b;
      assert m == b * q + m % b;
      if m % b == 0 then
        RemainderUnique(a, b, -q, 0);
        0
      else
        RemainderUnique(a, b, -q - 1, b - m % b);
        -(m % b)
  }

  /** `ordinal(number)` as the source computes it. */
  function Ordinal(n: int): (r: string)
    ensures r == "st" || r == "nd" || r == "rd" || r == "th"
  {
    var hundredRem := JsRemainder(n, 100);
    var tenRem := JsRemainder(n, 10);
    if hundredRem - tenRem == 10 then "th"
    else if tenRem == 1 then "st"
    else if tenRem == 2 then "nd"
    else if tenRem == 3 then "rd"
    else "th"
  }

  /** The English rule for a non-negative number: 11, 12 and 13 (also after any hundreds) take
      "th"; otherwise a last digit of 1, 2 or 3 takes "st", "nd" or "rd", and anything else "th". */
  function EnglishSuffix(n: nat): string {
    var lastTwo := n % 100;
    if 11 <= lastTwo <= 13 then "th"
    else if n % 10 == 1 then "st"
    else if n % 10 == 2 then "nd"
    else if n % 10 == 3 then "rd"
    else "th"
  }

  /** The last digit of the last two digits is the last digit. */
  lemma LastDigitOfLastTwo(n: nat)
    ensures (n % 100) % 10 == n % 10
  {
    RemainderUnique(n, 10, 10 * (n / 100) + (n % 100) / 10, (n % 100) % 10);
  }

  /** The test `hundredRem - tenRem === 10` picks out exactly the numbers whose last two digits
      are 10 to 19. */
  lemma TeensTest(n: nat)
    ensures n % 100 - n % 10 == 10 <==> 10 <= n % 100 <= 19
  {
    LastDigitOfLastTwo(n);
    var x := n % 100;
    assert x == 10 * (x / 10) + x % 10;
  }

  /** For every non-negative integer the source's computation agrees with the English rule. */
  lemma OrdinalIsEnglish(n: nat)
    ensures Ordinal(n) == EnglishSuffix(n)
  {
    TeensTest(n);
    LastDigitOfLastTwo(n);
  }

  /** Every negative integer takes "th": both remainders are at most zero, so their difference is
      never 10 and the last one is never 1, 2 or 3. */
  lemma NegativeIsTh(n: int)
    requires n < 0
    ensures Ordinal(n) == "th"
  {
    var t := -n;
    assert JsRemainder(n, 100) == -(t % 100) && JsRemainder(n, 10) == -(t % 10);
    TeensTest(t);
  }

  /** The documented example (142 takes "nd") and the cases the English rule singles out. */
  lemma OrdinalExamples()
    ensures Ordinal(1) == "st" && Ordinal(2) == "nd" && Ordinal(3) == "rd"
    ensures Ordinal(11) == "th" && Ordinal(12) == "th" && Ordinal(13) == "th"
    ensures Ordinal(21) == "st" && Ordinal(111) == "th" && Ordinal(142) == "nd"
  {
  }
}
