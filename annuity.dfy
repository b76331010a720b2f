/** Closed-form annuity arithmetic behind the mortgage calculator's
    calcular_y_generar_tabla: the monthly rate and the number of payments
    derived from the user's inputs, the level payment of an ordinary annuity
    (payments due at the end of each period), and the split of every payment
    into interest and principal. Everything is over exact reals, so none of
    the floating-point residue of the original appears here. */
module Annuity {

  /** x raised to the n-th power. */
  function Pow(x: real, n: nat): real
  {
    if n == 0 then 1.0 else x * Pow(x, n - 1)
  }

  lemma {:induction false} PowPositive(x: real, n: nat)
    requires x > 0.0
    ensures Pow(x, n) > 0.0
  {
    if n > 0 {
      PowPositive(x, n - 1);
      assert x * Pow(x, n - 1) > 0.0;
    }
  }

  /** A growth factor above one compounds to more than one over any positive number of periods. */
  lemma {:induction false} PowAboveOne(x: real, n: nat)
    requires x > 1.0 && n >= 1
    ensures Pow(x, n) > 1.0
  {
    if n > 1 {
      PowAboveOne(x, n - 1);
      var t := Pow(x, n - 1);
      assert (x - 1.0) * t > 0.0;
      assert Pow(x, n) == x * t;
    }
  }

  // ---------------------------------------------------------------------
  // Inputs and derived values
  // ---------------------------------------------------------------------

  /** The number of whole years kept when the typed term is converted with
      `int()`: for the positive values the input loop accepts, truncation
      toward zero is the floor. A term below one year keeps zero years. */
  function TruncateYears(typed: real): (years: int)
    requires typed > 0.0
    ensures 0 <= years
    ensures years as real <= typed < years as real + 1.0
    ensures years == 0 <==> typed < 1.0
  {
    typed.Floor
  }

  /** The monthly rate: the annual percentage turned into a fraction and spread over twelve months. */
  function MonthlyRate(annualPercent: real): (r: real)
    ensures r * 1200.0 == annualPercent
    ensures r > 0.0 <==> annualPercent > 0.0
  {
    annualPercent / 100.0 / 12.0
  }

  /** The number of monthly payments: twelve per year of term. */
  function PaymentCount(years: int): (n: int)
    ensures n % 12 == 0 && n / 12 == years
    ensures n >= 1 <==> years >= 1
  {
    years * 12
  }

  /** A term typed as less than one year keeps no whole years and so gives
      no payments at all (the engine then fails with NoPayments); a term of
      at least one year gives at least one payment. */
  lemma TypedTermGivesPayments(typed: real)
    requires typed > 0.0
    ensures PaymentCount(TruncateYears(typed)) >= 1 <==> typed >= 1.0
  {
  }

  // ---------------------------------------------------------------------
  // The level payment
  // ---------------------------------------------------------------------

  /** The fixed monthly payment of an ordinary annuity (payment at period
      end) that repays `capital` over n periods at rate r:
      capital * r * (1+r)^n / ((1+r)^n - 1). */
  function Payment(capital: real, r: real, n: nat): (p: real)
    requires r > 0.0 && n >= 1
    ensures p * (Pow(1.0 + r, n) - 1.0) == capital * r * Pow(1.0 + r, n)
    ensures capital > 0.0 ==> p > capital * r
  {
    var t := Pow(1.0 + r, n);
    PowAboveOne(1.0 + r, n);
    var p := capital * r * t / (t - 1.0);
    PaymentExceedsInterest(capital, r, t, p);
    p
  }

  lemma PaymentExceedsInterest(capital: real, r: real, t: real, p: real)
    requires r > 0.0 && t > 1.0 && p == capital * r * t / (t - 1.0)
    ensures p * (t - 1.0) == capital * r * t
    ensures capital > 0.0 ==> p > capital * r
  {
    if capital > 0.0 {
      // (p - capital * r) * (t - 1) == capital * r > 0, and t - 1 > 0
      var e, s := p - capital * r, t - 1.0;
      assert e * s == capital * r;
      assert capital * r > 0.0;
      assert e > 0.0;
    }
  }

  /** The value, one period before the first payment, of n end-of-period
      payments of p at rate r: the first payment plus the value of the
      remaining n - 1 payments, discounted one period. Unrolled, it is the
      sum for k = 1..n of p / (1 + r)^k. */
  function PresentValue(p: real, r: real, n: nat): real
    requires r > 0.0
  {
    if n == 0 then 0.0 else (p + PresentValue(p, r, n - 1)) / (1.0 + r)
  }

  lemma {:induction false} PresentValueClosedForm(p: real, r: real, n: nat)
    requires r > 0.0
    ensures PresentValue(p, r, n) * r * Pow(1.0 + r, n) == p * (Pow(1.0 + r, n) - 1.0)
  {
    if n > 0 {
      PresentValueClosedForm(p, r, n - 1);
      DiscountStep(p, r, n);
    }
  }

  /** Discounting one more payment keeps the closed form: the induction step. */
  lemma DiscountStep(p: real, r: real, n: nat)
    requires r > 0.0 && n >= 1
    ensures (PresentValue(p, r, n - 1) * r * Pow(1.0 + r, n - 1) == p * (Pow(1.0 + r, n - 1) - 1.0))
        ==> (PresentValue(p, r, n) * r * Pow(1.0 + r, n) == p * (Pow(1.0 + r, n) - 1.0))
  {
    var w, v := PresentValue(p, r, n), PresentValue(p, r, n - 1);
    var prev, t := Pow(1.0 + r, n - 1), Pow(1.0 + r, n);
    if v * r * prev == p * (prev - 1.0) {
      assert w * (1.0 + r) == p + v;
      calc {
        w * r * t;
        (w * (1.0 + r)) * r * prev;
        (p + v) * r * prev;
        p * r * prev + p * (prev - 1.0);
        p * (t - 1.0);
      }
    }
  }

  /** The payment is exactly the one whose n discounted payments are worth the capital. */
  lemma PaymentPresentValue(capital: real, r: real, n: nat)
    requires r > 0.0 && n >= 1
    ensures PresentValue(Payment(capital, r, n), r, n) == capital
  {
    var p := Payment(capital, r, n);
    var t := Pow(1.0 + r, n);
    PresentValueClosedForm(p, r, n);
    PowAboveOne(1.0 + r, n);
    CancelFactor(PresentValue(p, r, n), capital, r, t, p);
  }

  /** v * r * t and capital * r * t both equal p * (t - 1), and r * t is not zero. */
  lemma CancelFactor(v: real, capital: real, r: real, t: real, p: real)
    requires r > 0.0 && t > 1.0
    requires v * r * t == p * (t - 1.0) && p * (t - 1.0) == capital * r * t
    ensures v == capital
  {
  }

  // ---------------------------------------------------------------------
  // Balance, interest and principal per period
  // ---------------------------------------------------------------------

  /** The balance still owed after k end-of-period payments of p: each
      month the balance accrues interest at rate r, then the payment is subtracted. */
  function Balance(capital: real, r: real, p: real, k: nat): real
  {
    if k == 0 then capital else (1.0 + r) * Balance(capital, r, p, k - 1) - p
  }

  /** Interest part of payment k (k >= 1): one month of interest on the
      balance owed before it, which is the part of the payment that does not
      reduce the balance. */
  function Interest(capital: real, r: real, p: real, k: nat): (i: real)
    requires k >= 1
    ensures i == p - (Balance(capital, r, p, k - 1) - Balance(capital, r, p, k))
  {
    r * Balance(capital, r, p, k - 1)
  }

  /** The interest of payment k agrees with the closed form annuity libraries
      compute it by: capital * r * (1+r)^(k-1) - p * ((1+r)^(k-1) - 1). */
  lemma InterestClosedForm(capital: real, r: real, p: real, k: nat)
    requires k >= 1
    ensures Interest(capital, r, p, k)
         == capital * r * Pow(1.0 + r, k - 1) - p * (Pow(1.0 + r, k - 1) - 1.0)
  {
    var b := Balance(capital, r, p, k - 1);
    assert Interest(capital, r, p, k) == r * b;
    BalanceClosedForm(capital, r, p, k - 1);
  }

  /** Principal part of payment k (k >= 1): what is left of the payment
      after interest, which is exactly how much the balance goes down with it. */
  function Principal(capital: real, r: real, p: real, k: nat): (d: real)
    requires k >= 1
    ensures d == Balance(capital, r, p, k - 1) - Balance(capital, r, p, k)
  {
    p - Interest(capital, r, p, k)
  }

  /** The remaining balance agrees with the closed form used by annuity
      libraries (the future value of the loan after k payments):
      capital * (1+r)^k - p * ((1+r)^k - 1) / r, written here multiplied by r. */
  lemma {:induction false} BalanceClosedForm(capital: real, r: real, p: real, k: nat)
    ensures r * Balance(capital, r, p, k)
         == capital * r * Pow(1.0 + r, k) - p * (Pow(1.0 + r, k) - 1.0)
  {
    if k > 0 {
      BalanceClosedForm(capital, r, p, k - 1);
      AccrualStep(capital, r, p, k);
    }
  }

  /** One more month of interest and payment keeps the closed form: the induction step. */
  lemma AccrualStep(capital: real, r: real, p: real, k: nat)
    requires k >= 1
    ensures (r * Balance(capital, r, p, k - 1)
             == capital * r * Pow(1.0 + r, k - 1) - p * (Pow(1.0 + r, k - 1) - 1.0))
        ==> (r * Balance(capital, r, p, k)
             == capital * r * Pow(1.0 + r, k) - p * (Pow(1.0 + r, k) - 1.0))
  {
    var b, prev := Balance(capital, r, p, k - 1), Pow(1.0 + r, k - 1);
    if r * b == capital * r * prev - p * (prev - 1.0) {
      calc {
        r * Balance(capital, r, p, k);
        (1.0 + r) * (r * b) - p * r;
        (1.0 + r) * (capital * r * prev - p * (prev - 1.0)) - p * r;
        capital * r * ((1.0 + r) * prev) - p * ((1.0 + r) * prev - 1.0);
      }
    }
  }

  /** Paying the annuity payment for all n periods leaves nothing owed. */
  lemma BalanceAfterFinalPayment(capital: real, r: real, n: nat)
    requires r > 0.0 && n >= 1
    ensures Balance(capital, r, Payment(capital, r, n), n) == 0.0
  {
    var p := Payment(capital, r, n);
    BalanceClosedForm(capital, r, p, n);
    var b := Balance(capital, r, p, n);
    assert r * b == 0.0;
  }

  /** Each principal part is (1 + r) times the previous one. */
  lemma PrincipalGrowth(capital: real, r: real, p: real, k: nat)
    requires k >= 1
    ensures Principal(capital, r, p, k + 1) == (1.0 + r) * Principal(capital, r, p, k)
  {
  }

  /** Principal part k is the first one, p - r * capital, grown by (1 + r)^(k-1). */
  lemma {:induction false} PrincipalClosedForm(capital: real, r: real, p: real, k: nat)
    requires k >= 1
    ensures Principal(capital, r, p, k) == (p - r * capital) * Pow(1.0 + r, k - 1)
  {
    if k > 1 {
      PrincipalClosedForm(capital, r, p, k - 1);
      GrowthStep(capital, r, p, k);
    }
  }

  /** Growing by (1 + r) once more keeps the closed form: the induction step. */
  lemma GrowthStep(capital: real, r: real, p: real, k: nat)
    requires k >= 2
    ensures (Principal(capital, r, p, k - 1) == (p - r * capital) * Pow(1.0 + r, k - 2))
        ==> (Principal(capital, r, p, k) == (p - r * capital) * Pow(1.0 + r, k - 1))
  {
    PrincipalGrowth(capital, r, p, k - 1);
    assert Pow(1.0 + r, k - 1) == (1.0 + r) * Pow(1.0 + r, k - 2);
  }

  /** When the payment exceeds the first month's interest, as the annuity
      payment on a positive capital does, every principal part is positive. */
  lemma PrincipalPositive(capital: real, r: real, p: real, k: nat)
    requires r > 0.0 && p > r * capital && k >= 1
    ensures Principal(capital, r, p, k) > 0.0
  {
    PrincipalClosedForm(capital, r, p, k);
    PowPositive(1.0 + r, k - 1);
    assert p - r * capital > 0.0;
    assert (p - r * capital) * Pow(1.0 + r, k - 1) > 0.0;
  }

  /** Principal repaid over the first k payments. */
  function Cumulative(capital: real, r: real, p: real, k: nat): real
  {
    if k == 0 then 0.0 else Cumulative(capital, r, p, k - 1) + Principal(capital, r, p, k)
  }

  /** The principal repaid so far is exactly the capital minus what is still owed. */
  lemma {:induction false} CumulativeTelescopes(capital: real, r: real, p: real, k: nat)
    ensures Cumulative(capital, r, p, k) == capital - Balance(capital, r, p, k)
  {
    if k > 0 {
      CumulativeTelescopes(capital, r, p, k - 1);
    }
  }

  /** The telescoping, for every number of payments up to n at once. */
  lemma CumulativeTelescopesUpTo(capital: real, r: real, p: real, n: nat)
    ensures forall k: nat :: k <= n ==> Cumulative(capital, r, p, k) == capital - Balance(capital, r, p, k)
  {
    forall k: nat | k <= n
      ensures Cumulative(capital, r, p, k) == capital - Balance(capital, r, p, k)
    {
      CumulativeTelescopes(capital, r, p, k);
    }
  }

  /** Over the whole term the principal parts add up to the capital. */
  lemma PrincipalSumsToCapital(capital: real, r: real, n: nat)
    requires r > 0.0 && n >= 1
    ensures Cumulative(capital, r, Payment(capital, r, n), n) == capital
  {
    CumulativeTelescopes(capital, r, Payment(capital, r, n), n);
    BalanceAfterFinalPayment(capital, r, n);
  }

  /** Before the last payment something is still owed: the balance is positive
      at every k < n (and zero at n), so it strictly decreases to zero. */
  lemma {:induction false} BalancePositiveBeforeEnd(capital: real, r: real, n: nat, k: nat)
    requires capital > 0.0 && r > 0.0 && n >= 1 && k < n
    ensures Balance(capital, r, Payment(capital, r, n), k) > 0.0
    decreases n - k
  {
    var p := Payment(capital, r, n);
    PrincipalPositive(capital, r, p, k + 1);
    assert Balance(capital, r, p, k) > Balance(capital, r, p, k + 1);
    if k + 1 == n {
      BalanceAfterFinalPayment(capital, r, n);
    } else {
      BalancePositiveBeforeEnd(capital, r, n, k + 1);
    }
  }
}
