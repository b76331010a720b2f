# Mortgage calculator: amortization engine

This project models the amortization engine of a small mortgage calculator. The engine is the function `calcular_y_generar_tabla` in `calculadora_hipotecas.py`. It takes three inputs: the capital borrowed, the annual interest rate in percent and the term in whole years. From them it:

- derives the monthly rate (annual percent / 100 / 12) and the number of monthly payments (years × 12);
- computes the fixed monthly payment of an ordinary annuity, with payments at the end of each month: `capital·r·(1+r)^n / ((1+r)^n − 1)`;
- splits each month's payment into interest (one month of interest on the balance still owed) and principal (the rest of the payment);
- builds the table with the columns `Mes`, `Cuota Mensual`, `Pago Capital`, `Pago Intereses` and `Saldo Restante`, where the remaining balance is the capital minus the running sum of the principal column;
- overwrites the last remaining balance with exactly 0;
- rounds the whole table to two decimals, and returns the unrounded payment together with the rounded table.

The model uses exact `real` arithmetic. Of the library routines, only the payment is written in closed form:

- `Annuity.Payment` is the annuity formula.
- `Annuity.Balance` is the balance owed after each payment, built month by month.
- `Annuity.Interest` and `Annuity.Principal` are the split of each payment, computed from that balance. `Annuity.BalanceClosedForm` and `Annuity.InterestClosedForm` prove the split equal to the library's closed form.

Building the table is step-by-step in the original, so it is a method, `AmortizationTable.CalculateAndGenerateTable`. The method fills an array of rows in a loop that keeps the running sum of principal. It then writes 0 into the last row's balance and returns the table rounded to cents. Its postcondition ties the result to the specification function `AmortizationTable.Schedule`. The lemmas prove the following about that function and its parts:

- the payment's present value equals the capital;
- the principal parts are positive, and each is `1 + r` times the previous one;
- the principal parts sum to the capital, so in exact arithmetic the forced zero changes nothing;
- the balance strictly decreases;
- every cell of the result is a whole number of cents within half a cent of its exact value;
- in the rounded table that is returned, the balance never goes up and is never negative, principal plus interest is within one cent of the shown payment, and the principal column sums to the capital within half a cent per row.

Inputs and error path:

- The capital and the annual rate are positive. The input loop accepts only values above zero, so the engine requires this of its callers.
- The term is whatever `int()` kept of the typed value (`Annuity.TruncateYears`). A term typed below one year is accepted by the input loop but truncates to 0 years, which gives 0 payments.
- With 0 payments the original builds an empty table. It then fails at the write to the last row, which does not exist. The model returns `Err(NoPayments)` in that case and does not require a positive term.
- The engine itself does not check its inputs for an invalid-input or degenerate-loan error. The model follows the code: it has no such error, and the zero-rate case is excluded by the precondition that its callers guarantee.

Files: `annuity.dfy` (module `Annuity`), `rounding.dfy` (module `Rounding`), `amortization_table.dfy` (module `AmortizationTable`).

## Model

| member | source | states |
|---|---|---|
| Annuity.TruncateYears | calculadora_hipotecas.py:14 | for a positive typed term, `int()` keeps the whole years: the result is a natural `y` with `y <= typed < y + 1`, and it is 0 exactly when the typed term is below one year |
| Annuity.TypedTermGivesPayments | calculadora_hipotecas.py:14 | a typed term gives at least one payment exactly when it is at least one year; a term typed below one year keeps 0 years and so 0 payments, where the engine fails with `NoPayments` |
| Annuity.MonthlyRate | calculadora_hipotecas.py:36 | the monthly rate times 1200 gives back the annual percentage, and the rate is positive exactly when the annual percentage is |
| Annuity.PaymentCount | calculadora_hipotecas.py:37 | the payment count is a multiple of 12 whose twelfth is the term in years, and it is at least 1 exactly when the term is at least one year |
| Annuity.Payment | calculadora_hipotecas.py:40 | for r > 0 and n >= 1 the payment p satisfies the annuity equation `p·((1+r)^n − 1) = capital·r·(1+r)^n`, and for a positive capital it exceeds the first month's interest `capital·r`, so it is positive |
| Annuity.PaymentPresentValue | calculadora_hipotecas.py:40 | the n payments discounted at rate r are worth exactly the capital: the payment is the ordinary-annuity payment for that present value |
| Annuity.BalanceClosedForm | calculadora_hipotecas.py:43 | the balance before each period, built month by month, equals the library's closed form `capital·(1+r)^k − p·((1+r)^k − 1)/r` (stated multiplied by r) |
| Annuity.Interest | calculadora_hipotecas.py:43 | the interest part of payment k (one month of interest on the balance owed before it) is the part of the payment that does not reduce the balance |
| Annuity.InterestClosedForm | calculadora_hipotecas.py:43 | the interest part of payment k equals the library's closed form `capital·r·(1+r)^(k−1) − p·((1+r)^(k−1) − 1)` |
| Annuity.Principal | calculadora_hipotecas.py:44 | the principal part of payment k (payment minus its interest) is exactly how much the balance goes down with that payment |
| Annuity.BalanceAfterFinalPayment | calculadora_hipotecas.py:40-44 | with the annuity payment, the balance after the n-th payment is exactly 0 |
| Annuity.PrincipalGrowth | calculadora_hipotecas.py:44 | each principal part is (1 + r) times the previous one |
| Annuity.PrincipalClosedForm | calculadora_hipotecas.py:44 | principal part k is `(p − r·capital)·(1+r)^(k−1)` |
| Annuity.PrincipalPositive | calculadora_hipotecas.py:40-44 | whenever the payment exceeds the first month's interest, every principal part is positive; `Annuity.Payment` guarantees this for a positive capital |
| Annuity.CumulativeTelescopes | calculadora_hipotecas.py:52 | the principal repaid over the first k payments equals the capital minus the balance still owed after them |
| Annuity.CumulativeTelescopesUpTo | calculadora_hipotecas.py:52 | the same telescoping, for every number of payments up to n at once |
| Annuity.PrincipalSumsToCapital | calculadora_hipotecas.py:52-55 | over all n payments the principal parts add up to exactly the capital |
| Annuity.BalancePositiveBeforeEnd | calculadora_hipotecas.py:52 | with a positive capital, the balance after k < n payments is still positive |
| Rounding.RoundHalfEven | calculadora_hipotecas.py:57 | the result is an integer within 1/2 of its argument, and it is even when the argument lies exactly halfway between two integers |
| Rounding.RoundHalfEvenIsNearest | calculadora_hipotecas.py:57 | no integer is closer to the argument than the rounded one |
| Rounding.Round2 | calculadora_hipotecas.py:57 | the rounded amount is a whole number of cents within 0.005 of the original |
| Rounding.RoundCentsUnchanged | calculadora_hipotecas.py:57 | an amount already in whole cents is left unchanged by rounding |
| Rounding.RoundedKeepsOrder | calculadora_hipotecas.py:57 | an amount strictly below another rounds to at most the other's rounded value |
| Rounding.RoundedNonNegative | calculadora_hipotecas.py:57 | a non-negative amount never rounds to a negative number of cents |
| Rounding.RoundedSumWithinCent | calculadora_hipotecas.py:57 | when two amounts add up to a third, their rounded values add up to the third's rounded value within one cent |
| AmortizationTable.UncorrectedTable | calculadora_hipotecas.py:42-52 | the table before the overwrite has n rows; row i is month i + 1, shows the payment, splits it exactly into principal and interest, and its running-sum balance is the balance still owed after payment i + 1 |
| AmortizationTable.ExactTable | calculadora_hipotecas.py:42-55 | the exact table has n rows for months 1..n, the payment split exactly into principal and interest in every row, the balance owed before the last row, and exactly 0 in the last row |
| AmortizationTable.Schedule | calculadora_hipotecas.py:57 | what the engine returns carries the unrounded annuity payment and one row per payment, for months 1..n, with a last balance of exactly 0 |
| AmortizationTable.CloseLastBalance | calculadora_hipotecas.py:54-55 | the last row's remaining balance becomes exactly 0; all earlier rows and every other cell of the last row keep their values |
| AmortizationTable.RoundTable | calculadora_hipotecas.py:57 | the rounded table has the same rows in the same order and the same month numbers; every numeric cell is a whole number of cents within 0.005 of the unrounded cell |
| AmortizationTable.CalculateAndGenerateTable | calculadora_hipotecas.py:31-57 | when the term gives no payments the result is `Err(NoPayments)` (the failed write to a missing last row); otherwise it is the unrounded payment and the table computed by the loop of running principal sums, closed at the last row and rounded, which equals `Schedule` |
| AmortizationTable.ExactTableAt | calculadora_hipotecas.py:42-52 | row i of the exact table is month i + 1 with the payment, the interest and principal of payment i + 1, and before the last row the balance owed after payment i + 1 |
| AmortizationTable.ExactTableInterest | calculadora_hipotecas.py:43 | a row's interest is r times the capital in the first row, and r times the previous row's remaining balance after that |
| AmortizationTable.ExactTablePrincipalGrowth | calculadora_hipotecas.py:44 | each row's principal part is (1 + r) times the previous row's |
| AmortizationTable.PrincipalColumnPrefix | calculadora_hipotecas.py:52 | the first k entries of the principal column add up to the principal repaid over the first k months |
| AmortizationTable.ExactTableBalance | calculadora_hipotecas.py:52 | before the last row, the remaining balance equals the capital minus the running sum of the principal column up to that row |
| AmortizationTable.ExactTableClosure | calculadora_hipotecas.py:52-55 | the last balance is exactly 0, the principal column sums to the capital, and the table equals the table before the overwrite, so in exact arithmetic the forced zero changes nothing |
| AmortizationTable.ExactTableAmortizes | calculadora_hipotecas.py:52-55 | with a positive capital, every principal part is positive, the balance is positive before the last row, and the balance strictly decreases from row to row |
| AmortizationTable.BalanceDecreasing | calculadora_hipotecas.py:52 | whenever the payment exceeds the first month's interest (as the annuity payment on a positive capital does), the balance after j payments is below the balance after i payments whenever i < j |
| AmortizationTable.ScheduleProperties | calculadora_hipotecas.py:55-57 | the returned payment is the unrounded annuity payment; the returned table has n rows for months 1..n, and every row shows that payment rounded; every principal, interest and balance cell is within half a cent of its exact value; the last balance is exactly 0 |
| AmortizationTable.RoundTableKeepsShape | calculadora_hipotecas.py:52-57 | rounding a table whose balance strictly decreases and is never negative, and whose principal and interest add up to the payment, gives a table whose balance never goes up and is never negative, and whose principal plus interest is within one cent of the shown payment |
| AmortizationTable.RoundedColumnSum | calculadora_hipotecas.py:57 | the rounded principal column sums to within 0.005 per row of the unrounded column's sum |
| AmortizationTable.RoundedScheduleAmortizes | calculadora_hipotecas.py:52-57 | in the table the engine returns, for a positive capital, the remaining balance never goes up and is never negative, principal plus interest is within one cent of the shown payment in every row, and the principal column sums to the capital within 0.005·n |

## Left out

- The input loop `solicitar_dato_numerico` and `solicitar_datos` (calculadora_hipotecas.py:6-28) are interactive console input. Only their result is modelled: positive capital and rate as a precondition, and the truncation of the term by `int()` as `Annuity.TruncateYears`.
- `mostrar_resultados` (calculadora_hipotecas.py:60-72) is console printing. Its two totals are plain sums over the rounded table and are not modelled.
- `graficar_saldo` (calculadora_hipotecas.py:75-85) is chart rendering, and `main` (calculadora_hipotecas.py:88-104) is the user-driven repeat loop. Both are I/O only.
- Floating point: the model computes over exact reals. It does not capture the residue that accumulates in the running sum, which the forced zero hides in the original. It also does not capture binary rounding of the monthly rate. Nor does it capture overflow: for a very long term at a high rate, `(1+r)^n` overflows to infinity in the original. The payment and every `Cuota Mensual`, `Pago Capital` and `Pago Intereses` cell then become NaN. So does every `Saldo Restante` cell except the last, which line 55 still sets to 0. The `Mes` cells stay 1..n. The model's values stay finite.
- The payment library routine is replaced by its closed-form definition, and the interest/principal routines by the month-by-month split proved equal to their closed form. The routines' internals are not modelled. The branch they take for a zero rate is not modelled either, because the input loop never passes a zero rate.
- Rounding.Round2: ties go to the even cent exactly, over reals. The original rounds binary floats, so a value that is a tie in decimal may not be a tie there.
- The library routines compute the per-period interest from a closed-form balance. The model computes it from the balance built month by month, and `Annuity.BalanceClosedForm` and `Annuity.InterestClosedForm` prove the two equal.
- The data-frame column layout is replaced by a sequence of `Row` records with the same five columns.
