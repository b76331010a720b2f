/** The amortization engine of the mortgage calculator
    (calcular_y_generar_tabla): from the capital, the annual percentage rate
    and the term in whole years it derives the monthly payment and builds the
    month-by-month table of payment, principal, interest and remaining
    balance, forces the last balance to zero and rounds the table to cents. */
module AmortizationTable {
  import opened Annuity
  import opened Rounding

  /** One row of the table: the columns Mes, Cuota Mensual, Pago Capital,
      Pago Intereses and Saldo Restante. */
  datatype Row = Row(month: int, installment: real, principalPaid: real, interestPaid: real, balance: real)

  /** With no payments the table is empty and it has no last row to close. */
  datatype LoanError = NoPayments

  datatype Result<T> = Ok(value: T) | Err(error: LoanError)

  /** What the engine returns: the unrounded payment and the rounded table. */
  datatype Amortization = Amortization(payment: real, table: seq<Row>)

  /** Sum of the Pago Capital column. */
  function PrincipalColumnSum(rows: seq<Row>): real
  {
    if rows == [] then 0.0 else PrincipalColumnSum(rows[..|rows| - 1]) + rows[|rows| - 1].principalPaid
  }

  /** The table as computed, before the last balance is overwritten: row i
      is month i + 1, the payment, its principal and interest parts, and the
      capital minus the running sum of the principal parts, which is the
      balance still owed after payment i + 1. */
  function UncorrectedTable(capital: real, r: real, p: real, n: nat): (t: seq<Row>)
    ensures |t| == n
    ensures forall i :: 0 <= i < n ==>
      && t[i].month == i + 1
      && t[i].installment == p
      && t[i].principalPaid + t[i].interestPaid == p
      && t[i].balance == Balance(capital, r, p, i + 1)
  {
    CumulativeTelescopesUpTo(capital, r, p, n);
    seq(n, i requires 0 <= i < n =>
      Row(i + 1, p, Principal(capital, r, p, i + 1), Interest(capital, r, p, i + 1),
          capital - Cumulative(capital, r, p, i + 1)))
  }

  /** Overwrites the remaining balance of the last row with exactly zero;
      every other cell keeps its value. */
  function CloseLastBalance(t: seq<Row>): (closed: seq<Row>)
    requires |t| >= 1
    ensures |closed| == |t|
    ensures closed[|t| - 1].balance == 0.0
    ensures closed[..|t| - 1] == t[..|t| - 1]
    ensures closed[|t| - 1].(balance := t[|t| - 1].balance) == t[|t| - 1]
  {
    t[|t| - 1 := t[|t| - 1].(balance := 0.0)]
  }

  /** Every numeric cell rounded to two decimals; Mes is an integer and stays as it is. */
  function RoundRow(row: Row): Row
  {
    Row(row.month, Round2(row.installment), Round2(row.principalPaid),
        Round2(row.interestPaid), Round2(row.balance))
  }

  /** The table rounded to cents: same rows in the same order, the same
      month numbers, and every numeric cell a whole number of cents within
      half a cent of the unrounded one. */
  function RoundTable(t: seq<Row>): (rounded: seq<Row>)
    ensures |rounded| == |t|
    ensures forall i :: 0 <= i < |t| ==>
      && rounded[i].month == t[i].month
      && RoundedFrom(rounded[i].installment, t[i].installment)
      && RoundedFrom(rounded[i].principalPaid, t[i].principalPaid)
      && RoundedFrom(rounded[i].interestPaid, t[i].interestPaid)
      && RoundedFrom(rounded[i].balance, t[i].balance)
  {
    seq(|t|, i requires 0 <= i < |t| => RoundRow(t[i]))
  }

  /** The table in exact arithmetic for n >= 1 monthly payments of p at
      rate r, with the last balance closed, before rounding: n rows for
      months 1..n, the same payment in every row split into principal and
      interest, the balance owed before the last row, and zero in the last. */
  function ExactTable(capital: real, r: real, p: real, n: nat): (t: seq<Row>)
    requires n >= 1
    ensures |t| == n
    ensures forall i :: 0 <= i < n ==>
      && t[i].month == i + 1
      && t[i].installment == p
      && t[i].principalPaid + t[i].interestPaid == p
    ensures forall i :: 0 <= i < n - 1 ==> t[i].balance == Balance(capital, r, p, i + 1)
    ensures t[n - 1].balance == 0.0
  {
    CloseLastBalance(UncorrectedTable(capital, r, p, n))
  }

  /** What the engine returns for inputs that give at least one payment:
      the unrounded annuity payment and one row per payment, for months
      1..n, ending at a balance of zero. */
  function Schedule(capital: real, annualPercent: real, years: int): (s: Amortization)
    requires annualPercent > 0.0 && PaymentCount(years) >= 1
    ensures s.payment == Payment(capital, MonthlyRate(annualPercent), PaymentCount(years))
    ensures |s.table| == PaymentCount(years)
    ensures forall i :: 0 <= i < |s.table| ==> s.table[i].month == i + 1
    ensures s.table[|s.table| - 1].balance == 0.0
  {
    var r, n := MonthlyRate(annualPercent), PaymentCount(years);
    var p := Payment(capital, r, n);
    Amortization(p, RoundTable(ExactTable(capital, r, p, n)))
  }

  /** The engine. The capital and the annual rate are positive (the input
      loop accepts nothing else); the term in years is whatever `int()` left,
      and a term giving no payments fails where the original program fails, at the
      overwrite of a last row that does not exist. */
  method CalculateAndGenerateTable(capital: real, annualPercent: real, years: int)
    returns (result: Result<Amortization>)
    requires capital > 0.0 && annualPercent > 0.0
    ensures PaymentCount(years) < 1 ==> result == Err(NoPayments)
    ensures PaymentCount(years) >= 1 ==> result == Ok(Schedule(capital, annualPercent, years))
  {
    var r := MonthlyRate(annualPercent);
    var n := PaymentCount(years);
    if n < 1 {
      return Err(NoPayments);
    }
    var p := Payment(capital, r, n);
    ghost var exact := UncorrectedTable(capital, r, p, n);

    var table := new Row[n];
    var paid := 0.0;
    var k := 0;
    while k < n
      invariant 0 <= k <= n
      invariant paid == Cumulative(capital, r, p, k)
      invariant forall j :: 0 <= j < k ==> table[j] == exact[j]
    {
      var principal := Principal(capital, r, p, k + 1);
      paid := paid + principal;
      table[k] := Row(k + 1, p, principal, Interest(capital, r, p, k + 1), capital - paid);
      k := k + 1;
    }
    assert table[..] == exact;

    table[n - 1] := table[n - 1].(balance := 0.0);
    assert table[..] == CloseLastBalance(exact);

    result := Ok(Amortization(p, RoundTable(table[..])));
  }

  // ---------------------------------------------------------------------
  // Properties of the table
  // ---------------------------------------------------------------------

  /** The cells of row i of the exact table in terms of the annuity
      functions: before the last row the balance is the loan's outstanding balance. */
  lemma ExactTableAt(capital: real, r: real, p: real, n: nat, i: nat)
    requires i < n
    ensures var t := ExactTable(capital, r, p, n);
      && t[i].month == i + 1
      && t[i].installment == p
      && t[i].principalPaid == Principal(capital, r, p, i + 1)
      && t[i].interestPaid == r * Balance(capital, r, p, i)
      && t[i].balance == if i == n - 1 then 0.0 else Balance(capital, r, p, i + 1)
  {
    var t := ExactTable(capital, r, p, n);
    var u := UncorrectedTable(capital, r, p, n);
    if i < n - 1 {
      assert t[i] == t[..n - 1][i] == u[..n - 1][i] == u[i];
    }
  }

  /** The interest of the first month is one month of interest on the
      capital; that of every later month is one month of interest on the
      previous row's remaining balance. */
  lemma ExactTableInterest(capital: real, r: real, p: real, n: nat, i: nat)
    requires i < n
    ensures var t := ExactTable(capital, r, p, n);
      t[i].interestPaid == r * (if i == 0 then capital else t[i - 1].balance)
  {
    ExactTableAt(capital, r, p, n, i);
  }

  /** Each row's principal part is (1 + r) times the previous row's. */
  lemma ExactTablePrincipalGrowth(capital: real, r: real, p: real, n: nat, i: nat)
    requires 1 <= i < n
    ensures var t := ExactTable(capital, r, p, n);
      t[i].principalPaid == (1.0 + r) * t[i - 1].principalPaid
  {
  }

  /** The principal column read as a prefix sum: its first k entries add up
      to the principal repaid over the first k months. */
  lemma {:induction false} PrincipalColumnPrefix(capital: real, r: real, p: real, n: nat, k: nat)
    requires 1 <= n && k <= n
    ensures PrincipalColumnSum(ExactTable(capital, r, p, n)[..k]) == Cumulative(capital, r, p, k)
  {
    var t := ExactTable(capital, r, p, n);
    if k > 0 {
      PrincipalColumnPrefix(capital, r, p, n, k - 1);
      assert t[..k][..k - 1] == t[..k - 1];
      ExactTableAt(capital, r, p, n, k - 1);
    }
  }

  /** Before the last row, Saldo Restante is the capital minus the running
      sum of the Pago Capital column up to and including that row. */
  lemma ExactTableBalance(capital: real, r: real, p: real, n: nat)
    requires n >= 1
    ensures var t := ExactTable(capital, r, p, n);
      forall i :: 0 <= i < n - 1 ==> t[i].balance == capital - PrincipalColumnSum(t[..i + 1])
  {
    var t := ExactTable(capital, r, p, n);
    forall i | 0 <= i < n - 1
      ensures t[i].balance == capital - PrincipalColumnSum(t[..i + 1])
    {
      PrincipalColumnPrefix(capital, r, p, n, i + 1);
      ExactTableAt(capital, r, p, n, i);
      CumulativeTelescopes(capital, r, p, i + 1);
    }
  }

  /** With the annuity payment the last balance is exactly zero, and the
      overwrite changes nothing: the principal column sums to the capital,
      so the computed last balance was already zero. */
  lemma ExactTableClosure(capital: real, r: real, n: nat)
    requires r > 0.0 && n >= 1
    ensures var p := Payment(capital, r, n);
      var t := ExactTable(capital, r, p, n);
      && t[n - 1].balance == 0.0
      && PrincipalColumnSum(t) == capital
      && t == UncorrectedTable(capital, r, p, n)
  {
    var p := Payment(capital, r, n);
    var t := ExactTable(capital, r, p, n);
    var u := UncorrectedTable(capital, r, p, n);
    PrincipalColumnPrefix(capital, r, p, n, n);
    assert t[..n] == t;
    PrincipalSumsToCapital(capital, r, n);
    assert u[n - 1] == t[n - 1];
    forall i | 0 <= i < n ensures t[i] == u[i] {
      if i < n - 1 {
        assert t[i] == t[..n - 1][i];
        assert u[i] == u[..n - 1][i];
      }
    }
  }

  /** With a positive capital and the annuity payment: every principal part
      is positive, and the remaining balance is positive before the last row
      and strictly decreases from row to row down to the zero of the last row. */
  lemma ExactTableAmortizes(capital: real, r: real, n: nat)
    requires capital > 0.0 && r > 0.0 && n >= 1
    ensures var t := ExactTable(capital, r, Payment(capital, r, n), n);
      && (forall i :: 0 <= i < n ==> t[i].principalPaid > 0.0)
      && (forall i :: 0 <= i < n - 1 ==> t[i].balance > 0.0)
      && (forall i, j :: 0 <= i < j < n ==> t[j].balance < t[i].balance)
  {
    var p := Payment(capital, r, n);
    var t := ExactTable(capital, r, p, n);
    forall i | 0 <= i < n
      ensures t[i].principalPaid > 0.0
    {
      ExactTableAt(capital, r, p, n, i);
      PrincipalPositive(capital, r, p, i + 1);
    }
    forall i | 0 <= i < n - 1 ensures t[i].balance > 0.0 {
      ExactTableAt(capital, r, p, n, i);
      BalancePositiveBeforeEnd(capital, r, n, i + 1);
    }
    forall i, j | 0 <= i < j < n ensures t[j].balance < t[i].balance {
      ExactTableAt(capital, r, p, n, i);
      ExactTableAt(capital, r, p, n, j);
      if j == n - 1 {
        BalanceAfterFinalPayment(capital, r, n);
      }
      BalanceDecreasing(capital, r, p, i + 1, j + 1);
    }
  }

  lemma {:induction false} BalanceDecreasing(capital: real, r: real, p: real, i: nat, j: nat)
    requires r > 0.0 && p > r * capital && i < j
    ensures Balance(capital, r, p, j) < Balance(capital, r, p, i)
    decreases j - i
  {
    PrincipalPositive(capital, r, p, j);
    if i + 1 < j {
      BalanceDecreasing(capital, r, p, i, j - 1);
    }
  }

  /** What the caller receives: the payment itself unrounded, n rows for
      months 1..n, every numeric cell within half a cent of the exact
      table's, the same rounded payment in every row, and a last balance of
      exactly zero. */
  lemma ScheduleProperties(capital: real, annualPercent: real, years: int)
    requires annualPercent > 0.0 && PaymentCount(years) >= 1
    ensures var r, n := MonthlyRate(annualPercent), PaymentCount(years);
      var s := Schedule(capital, annualPercent, years);
      var t := ExactTable(capital, r, Payment(capital, r, n), n);
      && s.payment == Payment(capital, r, n)
      && |s.table| == n
      && (forall i :: 0 <= i < n ==>
        && s.table[i].month == i + 1
        && s.table[i].installment == Round2(s.payment)
        && RoundedFrom(s.table[i].principalPaid, t[i].principalPaid)
        && RoundedFrom(s.table[i].interestPaid, t[i].interestPaid)
        && RoundedFrom(s.table[i].balance, t[i].balance))
      && s.table[n - 1].balance == 0.0
  {
  }

  /** Rounding a table whose balance strictly decreases and never goes
      negative, and whose principal and interest add up to the payment in
      every row, gives a table whose balance never goes up and never goes
      negative, and whose principal and interest add up to the shown payment
      within one cent in every row. */
  lemma RoundTableKeepsShape(t: seq<Row>)
    requires forall i, j :: 0 <= i < j < |t| ==> t[j].balance < t[i].balance
    requires forall i :: 0 <= i < |t| ==> t[i].balance >= 0.0
    requires forall i :: 0 <= i < |t| ==> t[i].principalPaid + t[i].interestPaid == t[i].installment
    ensures var s := RoundTable(t);
      && (forall i, j :: 0 <= i < j < |s| ==> s[j].balance <= s[i].balance)
      && (forall i :: 0 <= i < |s| ==> s[i].balance >= 0.0)
      && (forall i :: 0 <= i < |s| ==>
            -0.01 <= s[i].principalPaid + s[i].interestPaid - s[i].installment <= 0.01)
  {
    var s := RoundTable(t);
    forall i, j | 0 <= i < j < |s| ensures s[j].balance <= s[i].balance {
      RoundedKeepsOrder(s[j].balance, t[j].balance, s[i].balance, t[i].balance);
    }
    forall i | 0 <= i < |s| ensures s[i].balance >= 0.0 {
      RoundedNonNegative(s[i].balance, t[i].balance);
    }
    forall i | 0 <= i < |s|
      ensures -0.01 <= s[i].principalPaid + s[i].interestPaid - s[i].installment <= 0.01
    {
      RoundedSumWithinCent(s[i].principalPaid, t[i].principalPaid, s[i].interestPaid,
                           t[i].interestPaid, s[i].installment, t[i].installment);
    }
  }

  /** The rounded principal column sums to within half a cent per row of the unrounded one. */
  lemma {:induction false} RoundedColumnSum(t: seq<Row>)
    ensures var d := PrincipalColumnSum(RoundTable(t)) - PrincipalColumnSum(t);
      -0.005 * |t| as real <= d <= 0.005 * |t| as real
  {
    if t != [] {
      var k := |t| - 1;
      RoundedColumnSum(t[..k]);
      assert RoundTable(t)[..k] == RoundTable(t[..k]);
    }
  }

  /** The table the engine returns, for a positive capital: the remaining
      balance never goes up from row to row and is never negative, principal
      plus interest matches the shown payment within one cent in every row,
      and the principal column adds up to the capital within half a cent
      per row. */
  lemma RoundedScheduleAmortizes(capital: real, annualPercent: real, years: int)
    requires capital > 0.0 && annualPercent > 0.0 && PaymentCount(years) >= 1
    ensures var s := Schedule(capital, annualPercent, years).table;
      && (forall i, j :: 0 <= i < j < |s| ==> s[j].balance <= s[i].balance)
      && (forall i :: 0 <= i < |s| ==> s[i].balance >= 0.0)
      && (forall i :: 0 <= i < |s| ==>
            -0.01 <= s[i].principalPaid + s[i].interestPaid - s[i].installment <= 0.01)
      && -0.005 * |s| as real <= PrincipalColumnSum(s) - capital <= 0.005 * |s| as real
  {
    var r, n := MonthlyRate(annualPercent), PaymentCount(years);
    var p := Payment(capital, r, n);
    var t := ExactTable(capital, r, p, n);
    assert Schedule(capital, annualPercent, years).table == RoundTable(t);
    ExactTableAmortizes(capital, r, n);
    ExactTableClosure(capital, r, n);
    RoundTableKeepsShape(t);
    RoundedColumnSum(t);
  }
}
