/** The revenue normaliser (`revenue_transform`): a figure written with `.`
    as the thousands separator becomes a whole number of rupiah. Figures
    with fewer than three `.`-separated groups are read as millions, the
    others as thousands. */
module Revenue {
  import opened Results
  import opened Text
  import opened Decimal

  const Separator: char := '.'
  const Million: nat := 1_000_000
  const Thousand: nat := 1_000

  /** What the pattern's `[\d\.]+` group can capture: digits and separators only. */
  predicate IsRevenueText(s: string) {
    forall i :: 0 <= i < |s| ==> IsDigit(s[i]) || s[i] == Separator
  }

  predicate HasDigit(s: string) {
    exists i :: 0 <= i < |s| && IsDigit(s[i])
  }

  /** The `ValueError` that `int()` raises on the text left once the separators are gone. */
  datatype Error = InvalidLiteral(literal: string)

  /** `revenue.replace('.', '')`: the digits of revenue text, in order. */
  function Digits(revenue: string): (d: string)
    requires IsRevenueText(revenue)
    ensures AllDigits(d)
    ensures |d| > 0 <==> HasDigit(revenue)
  {
    StrippedDigits(revenue);
    Remove(revenue, Separator)
  }

  /** `revenue_transform(revenue)`: split on `.`, strip the separators, parse,
      and multiply by 1,000,000 when there were fewer than three groups and by
      1,000 otherwise. Without any digit, `int('')` raises. */
  function Transform(revenue: string): (r: Result<nat, Error>)
    requires IsRevenueText(revenue)
    ensures r.Failure? <==> !HasDigit(revenue)
    ensures r.Failure? ==> r.error == InvalidLiteral("")
    ensures r.Success? && multiset(revenue)[Separator] <= 1 ==>
      r.value % Million == 0 && Render(r.value / Million) == TrimZeros(Digits(revenue))
    ensures r.Success? && multiset(revenue)[Separator] >= 2 ==>
      r.value % Thousand == 0 && Render(r.value / Thousand) == TrimZeros(Digits(revenue))
  {
    var parts := Split(revenue, [Separator]);
    var digits := Digits(revenue);
    SplitCount(revenue, Separator);
    match ParseInt(digits)
    case None => Failure(InvalidLiteral(digits))
    case Some(n) =>
      ScaledBack(n);
      if |parts| < 3 then Success(n * Million) else Success(n * Thousand)
  }

  lemma ScaledBack(n: nat)
    ensures (n * Million) / Million == n && (n * Million) % Million == 0
    ensures (n * Thousand) / Thousand == n && (n * Thousand) % Thousand == 0
  {
  }

  /** Stripping the separators from revenue text leaves only digits, and
      leaves something exactly when the text had a digit. */
  lemma StrippedDigits(s: string)
    requires IsRevenueText(s)
    ensures AllDigits(Remove(s, Separator))
    ensures |Remove(s, Separator)| > 0 <==> HasDigit(s)
  {
    var r := Remove(s, Separator);
    RemoveCounts(s, Separator);
    forall i | 0 <= i < |r|
      ensures IsDigit(r[i])
    {
      assert r[i] in multiset(r);
      assert r[i] in multiset(s);
    }
    if HasDigit(s) {
      var i :| 0 <= i < |s| && IsDigit(s[i]);
      assert s[i] in multiset(s);
      assert s[i] in multiset(r);
    }
    if |r| > 0 {
      assert r[0] in multiset(r);
      assert r[0] in multiset(s);
      var i :| 0 <= i < |s| && s[i] == r[0];
    }
  }

  /** The value read back: the stripped digits' value times 1,000,000 when
      the text has at most one separator, times 1,000 otherwise. */
  lemma TransformValue(revenue: string)
    requires IsRevenueText(revenue) && HasDigit(revenue)
    ensures Transform(revenue).Success?
    ensures multiset(revenue)[Separator] <= 1 ==> Transform(revenue).value == Value(Digits(revenue)) * Million
    ensures multiset(revenue)[Separator] >= 2 ==> Transform(revenue).value == Value(Digits(revenue)) * Thousand
  {
    var n := Transform(revenue).value;
    var v := Value(Digits(revenue));
    ValueOfTrimZeros(Digits(revenue));
    if multiset(revenue)[Separator] <= 1 {
      var q := n / Million;
      ValueOfRender(q);
      assert q == v;
      Unscale(n, q, Million);
    } else {
      var q := n / Thousand;
      ValueOfRender(q);
      assert q == v;
      Unscale(n, q, Thousand);
    }
  }

  lemma Unscale(n: nat, q: nat, unit: nat)
    requires unit == Million || unit == Thousand
    requires n % unit == 0 && q == n / unit
    ensures n == q * unit
  {
  }

  /** Every result is a whole number of thousands, and of millions when the
      text has at most one separator. */
  lemma TransformMagnitude(revenue: string)
    requires IsRevenueText(revenue) && HasDigit(revenue)
    ensures Transform(revenue).value % Thousand == 0
    ensures multiset(revenue)[Separator] <= 1 ==> Transform(revenue).value % Million == 0
  {
    var n := Transform(revenue).value;
    if multiset(revenue)[Separator] <= 1 {
      MillionsAreThousands(n);
    }
  }

  lemma MillionsAreThousands(n: nat)
    requires n % Million == 0
    ensures n % Thousand == 0
  {
    var q := n / Million;
    assert n == (q * 1000) * 1000;
  }

  /** Where the separators stand does not matter: only the digits, and which
      side of the three-group boundary the text falls on. */
  lemma TransformIgnoresSeparatorPlacement(a: string, b: string)
    requires IsRevenueText(a) && IsRevenueText(b)
    requires Digits(a) == Digits(b)
    requires multiset(a)[Separator] <= 1 <==> multiset(b)[Separator] <= 1
    ensures Transform(a) == Transform(b)
  {
    if HasDigit(a) {
      TransformValue(a);
      TransformValue(b);
    }
  }

  /** `n` is the whole-rupiah reading of revenue text: the value of its digits
      in millions when it has at most one separator, in thousands otherwise. */
  predicate Denotes(revenue: string, n: nat)
    requires IsRevenueText(revenue)
  {
    && HasDigit(revenue)
    && if multiset(revenue)[Separator] <= 1 then n == Value(Digits(revenue)) * Million
       else n == Value(Digits(revenue)) * Thousand
  }

  /** `revenue_transform` returns exactly the reading the text denotes, and
      raises exactly when there is none. */
  lemma TransformDenotes(revenue: string, n: nat)
    requires IsRevenueText(revenue)
    ensures Transform(revenue) == Success(n) <==> Denotes(revenue, n)
  {
    if HasDigit(revenue) {
      TransformValue(revenue);
    }
  }
}
