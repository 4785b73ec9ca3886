# Legal-claim correction and interest engine, in Dafny

This project models the computation core of a Brazilian legal-calculation backend
(`com.calculosjuridicos`). The core brings an amount owed forward in time by a monetary index
(*correção monetária*) and adds interest (*juros*). It runs in two flows:

- the **standard** flow: one index table, one interest rule, several instalments;
- the **public-treasury** flow (*Fazenda Pública*): the law in force in each month picks the
  index and the interest rule, month by month.

The model also covers the two operations that fill the index store: **CSV import** of index
values and the **cumulative-index builder**, which turns the monthly variations published by
the central bank into index values.

Every operation is a pure function over immutable datatypes. Its contract says what the
service promises. Lemmas relate operations to each other, to independent reference
definitions and to the concrete figures in the service's unit tests.

| module | file | models |
|---|---|---|
| `Wrappers` | wrappers.dfy | `Option`, `Result`, and a fail-fast `Collect` over a sequence of results |
| `Decimal` | decimal.dfy | `BigDecimal` arithmetic on `real`: `setScale`/`divide` with `HALF_UP`, and `MathContext(10)` rounding to significant digits |
| `Calendar` | calendar.dfy | `LocalDate`, competences (calendar months) and the `ChronoUnit` distances DAYS, MONTHS and YEARS |
| `Text` | text.dfy | the `String` operations the CSV import uses: `trim`, `toLowerCase`, `contains`, `split("[,;\\t]")`, `replace` |
| `Errors` | errors.dfy | the business exceptions, as error values |
| `IndexStore` | index_store.dfy | the index tables and their monthly points, as a map keyed by (series, competence), with the repository queries and the upsert |
| `Interest` | interest.dfy | `JurosService` |
| `Correction` | correction.dfy | `CorrecaoMonetariaService` |
| `Calculation` | calculation.dfy | the request and result records, and the penalty/fee/total arithmetic both flows share |
| `Standard` | standard.dfy | `CalculoService.validarRequest`, `executarCalculo`, `gerarDetalhamentoMensal` |
| `Loops` | loops.dfy | the month loop of the treasury breakdown, as a fold with a state and one item per month |
| `Treasury` | treasury.dfy | `FazendaPublicaCalculoService` |
| `Preview` | preview.dfy | `CalculoService.preview`: validation, then dispatch to one of the two flows |
| `CsvImport` | csv_import.dfy | `IndiceService.importarCSV`, `parseCompetencia`, `parseValor` |
| `Sync` | sync.dfy | `IndicesSyncService.sincronizar`, `sincronizarTodos`, `obterUltimoIndiceAcumulado` |

## Conventions

- **Decimals.** A `BigDecimal` is a `real`. Every `setScale(k, HALF_UP)` and
  `divide(d, k, HALF_UP)` is written as `RoundHalfUp(x, k)`, which rounds half away from zero.
  Intermediate products are exact, as `BigDecimal.multiply` and `add` are. `pow(n, MathContext(10))`
  is the exact power rounded to ten significant digits (`RoundSignificant`).
- **Null.** A `null` percentage, rate or amount takes the same branch as zero on every guarded
  path, so it is modelled as `0`. The interest-on-corrected flag treats `null` as false.
- **Dates.** A `Date` is a valid proleptic-Gregorian year-month-day. A competence (a month, stored
  as its first day) is the integer `year * 12 + month - 1`. `ChronoUnit.MONTHS.between`
  truncates toward zero. DAYS goes through an epoch-day count. YEARS is MONTHS divided by 12.
- **Store.** The index store is a `map<PointKey, IndexPoint>` keyed by (series id, competence),
  so there is at most one point per key, as the table's unique constraint demands. The catalogue
  of index tables is a sequence searched front to back.
- **Errors.** An exception that aborts an operation becomes a `Failure` carrying an `Error`.
  An exception that is caught and logged becomes `None`, or the fallback value the code uses.
- **Outside inputs.** The index download is a function parameter `fetch`. A save that throws is
  modelled by a parameter `rejected`, the set of keys whose save fails. The CSV file is its
  sequence of lines.

## Where the code and its description differ

The model follows the code:

- `CorrecaoMonetariaService.calcular` returns 0, not the amount, for an amount that is not positive.
- `calcularFatorCorrecao` has no date-order check. It also has no zero check: a zero base index
  makes the division itself fail (`DivisionByZero`).
- The breakdown of the standard flow charges interest only for simple interest. Compound rows
  carry zero interest.
- Pro rata die rounds the daily rate to ten decimals before multiplying. Thirty days therefore
  need not equal one month of interest (see Findings).
- The services call a lookup `findByTabelaIndiceIdAndCompetenciaLessThanEqual`, which the
  repository does not declare. It is modelled as the declared
  `findFirst…LessThanEqualOrderByCompetenciaDesc`: the latest point at or before the month, if any.
- In the treasury flow each month is entered with the previous month's corrected value, not its
  subtotal.
- The IPCA-E ratio uses the last IPCA-E value the loop saw, which can be a month before the SELIC
  era.
- Under the ceiling the label is "SELIC (Teto)".
- The date guard in `parseCompetencia` compares `DateTimeFormatter.toString()` with a pattern
  string, and that never matches. Every accepted text, "yyyy-MM-dd" included, is therefore read
  as a `YearMonth` and lands on the first of its month.

## Model

| member | source | states |
|---|---|---|
| Decimal.RoundHalfUpFacts | backend/src/main/java/com/calculosjuridicos/service/JurosService.java:73-76 | Rounding HALF_UP to k places leaves at most k decimals and moves the value by at most half a unit in the k-th place |
| Decimal.RoundOdd | backend/src/main/java/com/calculosjuridicos/service/JurosService.java:73-76 | HALF_UP is symmetric about zero: a negative value rounds to minus the rounding of its magnitude (half away from zero) |
| Decimal.RoundExact | backend/src/main/java/com/calculosjuridicos/service/CorrecaoMonetariaService.java:82 | A value that already has k decimals is unchanged by `setScale(k, HALF_UP)` |
| Decimal.RoundMonotone | backend/src/main/java/com/calculosjuridicos/service/CorrecaoMonetariaService.java:79-82 | Rounding never reverses the order of two values |
| Decimal.RoundNotBelow | backend/src/main/java/com/calculosjuridicos/service/CorrecaoMonetariaService.java:79-82 | Rounding a value at or above a k-decimal number never lands below that number |
| Decimal.RoundSignificantFacts | backend/src/main/java/com/calculosjuridicos/service/JurosService.java:100-101 | `MathContext(10, HALF_UP)` keeps ten significant digits and stays within half a unit of the tenth digit |
| Decimal.RoundSignificantAtLeastOne | backend/src/main/java/com/calculosjuridicos/service/JurosService.java:100-101 | Rounding a number of at least 1 to one or more significant digits never gives less than 1 |
| Decimal.RoundSignificantRelative | backend/src/main/java/com/calculosjuridicos/service/JurosService.java:100-101 | Rounding a positive number to p significant digits moves it by at most the number times 0.5·10^(1−p) |
| Calendar.MonthsBetweenCountsWholeMonths | backend/src/main/java/com/calculosjuridicos/service/JurosService.java:147-156 | MONTHS between two ordered dates is the month difference, less one when the end day-of-month is before the start day-of-month |
| Calendar.MonthsBetweenAntisymmetric | backend/src/main/java/com/calculosjuridicos/service/JurosService.java:151-155 | Swapping the dates negates MONTHS, because Java truncates toward zero |
| Calendar.NextDayIsOneDayLater | backend/src/main/java/com/calculosjuridicos/service/JurosService.java:152 | DAYS between a date and the next day is exactly 1, across month and year ends |
| Calendar.PreviousDayUndoesNextDay | backend/src/main/java/com/calculosjuridicos/service/IndicesSyncService.java:219 | `minusDays(1)` undoes `plusDays(1)` |
| Calendar.PreviousDay | backend/src/main/java/com/calculosjuridicos/service/IndicesSyncService.java:219 | The day before a date is earlier, and it falls in the previous month exactly when the date is a first of the month |
| Calendar.LastDay | backend/src/main/java/com/calculosjuridicos/service/FazendaPublicaCalculoService.java:350 | `plusMonths(1).minusDays(1)` of a month's first day lies in the same month and is its last day |
| Calendar.CompetenceRoundTrip | backend/src/main/java/com/calculosjuridicos/service/FazendaPublicaCalculoService.java:160-161 | A month number gives back its year and month, and a year and month give back the number |
| Calendar.YearLength | backend/src/main/java/com/calculosjuridicos/service/JurosService.java:152 | The twelve months of a year add up to 366 days in a leap year and 365 otherwise, and consecutive January firsts are that many days apart |
| IndexStore.FindTableById | backend/src/main/java/com/calculosjuridicos/service/IndiceService.java:62-63 | The table found is in the catalogue with that id, and nothing is found exactly when no table has the id |
| IndexStore.FindTableByName | backend/src/main/java/com/calculosjuridicos/service/FazendaPublicaCalculoService.java:360-365 | The table found carries that name, and nothing is found exactly when no table has the name |
| IndexStore.LatestAtOrBefore | backend/src/main/java/com/calculosjuridicos/repository/ValorIndiceRepository.java:25-28 | The latest stored competence at or before the bound; none exactly when every stored competence of the series is later |
| IndexStore.ExactPointIsLatest | backend/src/main/java/com/calculosjuridicos/repository/ValorIndiceRepository.java:25-28 | A point stored for the bound month itself is the one the at-or-before lookup finds |
| IndexStore.PointsInRange | backend/src/main/java/com/calculosjuridicos/repository/ValorIndiceRepository.java:16-23 | Exactly the stored points with competence in [lo, hi], each with its stored value, in strictly ascending order |
| IndexStore.SingleMonthRange | backend/src/main/java/com/calculosjuridicos/service/FazendaPublicaCalculoService.java:298-300 | A one-month range returns that month's stored point, or nothing when none is stored |
| IndexStore.Upsert | backend/src/main/java/com/calculosjuridicos/service/IndiceService.java:102-120 | The update flag is set exactly when the key existed; the key then holds the new value and source, the key set gains at most this key, and every other point is unchanged |
| IndexStore.UpsertTouchesOnlyItsKey | backend/src/main/java/com/calculosjuridicos/service/IndiceService.java:102-120 | An upsert leaves every other series as it was, and the only point it changes carries the writer's source |
| Interest.AdjustRate | backend/src/main/java/com/calculosjuridicos/service/JurosService.java:162-170 | The monthly rate is kept for monthly periods and multiplied by 12 for annual ones; for daily periods it is the thirtieth of it at ten decimals, within half a unit of the tenth decimal; a non-negative rate stays non-negative |
| Interest.PeriodsCountWholeUnits | backend/src/main/java/com/calculosjuridicos/service/JurosService.java:147-156 | For ordered dates: daily periods are the days between them, monthly periods the whole months (one less than the month difference when the end day is before the start day), annual periods those months divided by 12 |
| Interest.PeriodsAntisymmetric | backend/src/main/java/com/calculosjuridicos/service/JurosService.java:147-156 | Swapping the two dates negates the period count, for every periodicity |
| Interest.SimpleInterest | backend/src/main/java/com/calculosjuridicos/service/JurosService.java:62-77 | `calcularJurosSimples` is in cents and within half a cent of principal × adjusted rate × period count; nothing for no period; never negative for a non-negative principal, rate and period count |
| Interest.SimpleFormulaFacts | backend/src/main/java/com/calculosjuridicos/service/JurosService.java:73-76 | J = P × i × t to cents has two decimals, lies within half a cent of the exact product, is zero for no period and never negative for non-negative inputs |
| Interest.Calculate | backend/src/main/java/com/calculosjuridicos/service/JurosService.java:44-56 | No interest when the principal or the rate is not positive; otherwise the kind picks the simple or the compound formula |
| Interest.CompoundFormula | backend/src/main/java/com/calculosjuridicos/service/JurosService.java:92-94 | Compound interest is zero when there is no whole period |
| Interest.CompoundInterest | backend/src/main/java/com/calculosjuridicos/service/JurosService.java:82-94 | `calcularJurosCompostos` gives zero when the period count between the dates is not positive |
| Interest.ProRataDie | backend/src/main/java/com/calculosjuridicos/service/JurosService.java:124-130 | Pro rata die gives zero for a non-positive principal or monthly rate |
| Interest.ProRataDieExact | backend/src/main/java/com/calculosjuridicos/service/JurosService.java:120-142 | The corrected pro rata die keeps the same guards: zero for a non-positive principal or monthly rate |
| Interest.SimpleFormulaNonNegative | backend/src/main/java/com/calculosjuridicos/service/JurosService.java:73-76 | Simple interest on non-negative inputs is never negative |
| Interest.SimpleFormulaMonotone | backend/src/main/java/com/calculosjuridicos/service/JurosService.java:73-76 | Simple interest never decreases as the period count grows |
| Interest.SimpleMonthlyCountsWholeMonths | backend/src/main/java/com/calculosjuridicos/service/JurosService.java:62-77 | Monthly simple interest charges the rate once per whole calendar month elapsed |
| Interest.SimpleInterestGrowsWithTime | backend/src/main/java/com/calculosjuridicos/service/JurosService.java:62-77 | For any periodicity, simple interest is non-negative and never decreases as the end date moves on |
| Interest.ProRataDieIsDailySimpleInterest | backend/src/main/java/com/calculosjuridicos/service/JurosService.java:120-142 | Pro rata die over the days between two dates equals daily simple interest between them |
| Interest.CompoundGrowthAtLeastSimple | backend/src/main/java/com/calculosjuridicos/service/JurosService.java:96-101 | (1 + i)^n >= 1 + n·i for a non-negative rate, so exact compound growth is never below simple growth |
| Interest.GrowthFactorAtLeastOne | backend/src/main/java/com/calculosjuridicos/service/JurosService.java:97-101 | A non-negative rate compounded over any number of periods, to ten significant digits, gives a factor of at least 1 |
| Interest.CompoundInterestNonNegative | backend/src/main/java/com/calculosjuridicos/service/JurosService.java:82-110 | `calcularJurosCompostos` is never negative for a non-negative principal and rate |
| Interest.GrowthFactorRelative | backend/src/main/java/com/calculosjuridicos/service/JurosService.java:97-101 | The factor (1 + i)^n to ten significant digits lies within 5·10^-10·(1 + i)^n of the exact power |
| Interest.CompoundFormulaWithinBound | backend/src/main/java/com/calculosjuridicos/service/JurosService.java:92-109 | For P ≥ 0, i ≥ 0 and at least one period, the compound interest lies within 0.005 + 5·10^-10·P·(1 + i)^n of the exact P·((1 + i)^n − 1) |
| Interest.CompoundInterestWithinBound | backend/src/main/java/com/calculosjuridicos/service/JurosService.java:82-109 | `calcularJurosCompostos` with at least one whole period lies within that bound of P·((1 + i)^n − 1), where i is the adjusted rate and n the period count |
| Interest.ThirtyDaysExact | backend/src/main/java/com/calculosjuridicos/service/JurosService.java:132-141 | Thirty days at an exact thirtieth of a rate equal one period at the whole rate |
| Interest.ProRataDieExactFullMonth | backend/src/main/java/com/calculosjuridicos/service/JurosService.java:120-142 | With the daily rate kept exact, thirty days of pro rata die equal one month of monthly simple interest |
| Interest.ProRataDieFullMonthShortfall | backend/src/main/java/com/calculosjuridicos/service/JurosService.java:132-141 | As written, R$ 100,000,000.00 at 1% a month gives 999,999.90 for thirty days, while one month of simple interest gives 1,000,000.00 |
| Interest.SimpleInterestExamples | backend/src/main/java/com/calculosjuridicos/service/JurosService.java:62-77 | R$ 10,000.00 at 1% gives 1,200.00 for twelve months, 4,800.00 for four years (annual) and 100.00 for thirty days (daily) |
| Interest.ProRataDieExamples | backend/src/main/java/com/calculosjuridicos/service/JurosService.java:120-142 | R$ 10,000.00 at 1% a month gives 50.00 for 15 days and 100.00 for 30 days |
| Interest.GrowthFactorExample | backend/src/main/java/com/calculosjuridicos/service/JurosService.java:97-101 | 1.01^12 to ten significant digits is 1.126825030 |
| Interest.CompoundInterestExample | backend/src/main/java/com/calculosjuridicos/service/JurosService.java:82-110 | R$ 10,000.00 at 1% compounded over twelve months gives 1,268.25: strictly between 1,268 and 1,269, and above the simple 1,200.00 |
| Correction.LookupIndex | backend/src/main/java/com/calculosjuridicos/service/CorrecaoMonetariaService.java:49-54 | The lookup fails with "index not found" for that competence exactly when no point exists at or before it; otherwise it yields the latest such value |
| Correction.CorrectWithIndices | backend/src/main/java/com/calculosjuridicos/service/CorrecaoMonetariaService.java:70-83 | A zero base index is refused; otherwise the amount times final ÷ base (ten decimals), to cents |
| Correction.Calculate | backend/src/main/java/com/calculosjuridicos/service/CorrecaoMonetariaService.java:40-46 | A non-positive amount gives 0 with no lookup and no date check; a start after the end is refused for a positive amount |
| Correction.CalculateSpec | backend/src/main/java/com/calculosjuridicos/service/CorrecaoMonetariaService.java:35-65 | For a positive amount and ordered dates, the base lookup (month before the start) fails first, then the final lookup (end month), then a zero base; success exactly when neither happens, with the ten-decimal factor applied to cents |
| Correction.CorrectionFactor | backend/src/main/java/com/calculosjuridicos/service/CorrecaoMonetariaService.java:88-107 | `calcularFatorCorrecao` fails with the base competence when the base lookup fails, then with the final competence, then on a zero base; it succeeds exactly when neither happens, with final ÷ base to ten decimals |
| Correction.CalculateUsesCorrectionFactor | backend/src/main/java/com/calculosjuridicos/service/CorrecaoMonetariaService.java:88-107 | The corrected value is the amount times the factor `calcularFatorCorrecao` reports for the same dates, and one fails exactly when the other does |
| Correction.CorrectionNeverLowers | backend/src/main/java/com/calculosjuridicos/service/CorrecaoMonetariaService.java:70-83 | An index that did not fall never lowers an amount given in cents |
| Correction.FactorAtLeastOne | backend/src/main/java/com/calculosjuridicos/service/CorrecaoMonetariaService.java:79 | A final index at or above the base gives a factor of at least 1 after rounding |
| Correction.ApplyAtLeast | backend/src/main/java/com/calculosjuridicos/service/CorrecaoMonetariaService.java:82 | A factor of at least 1 never lowers an amount in cents |
| Correction.PointsInPeriod | backend/src/main/java/com/calculosjuridicos/service/CorrecaoMonetariaService.java:112-121 | Exactly the points of the months from the start month to the end month, in strictly ascending order |
| Correction.CorrectionExample | backend/src/main/java/com/calculosjuridicos/service/CorrecaoMonetariaService.java:35-65 | Index 100 for December 2019 and 125 for January 2024 turn R$ 10,000.00 (15 Jan 2020 to 15 Jan 2024) into 12,500.00 |
| Correction.CorrectionFactorExamples | backend/src/main/java/com/calculosjuridicos/service/CorrecaoMonetariaService.java:70-107 | Indices 4532.52 and 5678.25 turn R$ 1,000.00 into 1,252.78; indices 100 and 150 give the factor 1.5 |
| Calculation.ApplyCharges | backend/src/main/java/com/calculosjuridicos/service/CalculoService.java:292-311 | Total is subtotal plus penalty plus fee; a non-positive percentage charges nothing; non-negative inputs give non-negative charges and a total no smaller than the subtotal |
| Calculation.ChargesWithinHalfCent | backend/src/main/java/com/calculosjuridicos/service/CalculoService.java:295-308 | The penalty is within half a cent of the percentage of the subtotal, and the fee within half a cent of the percentage of subtotal plus penalty |
| Calculation.PercentageWithinHalfCent | backend/src/main/java/com/calculosjuridicos/service/CalculoService.java:295-308 | A positive percentage of a base, rounded to cents, is within half a cent of the exact share |
| Wrappers.Collect | backend/src/main/java/com/calculosjuridicos/service/CalculoService.java:221-290 | The run succeeds exactly when every step succeeds, with all values in order; otherwise it reports the first failure |
| Standard.Validate | backend/src/main/java/com/calculosjuridicos/service/CalculoService.java:422-434 | Refused exactly when the start is after the end or some instalment is due after the end; the date-order error is reported first |
| Standard.InstallmentsOf | backend/src/main/java/com/calculosjuridicos/service/CalculoService.java:207-215 | The request's instalments when there are any, else one "Valor principal" instalment for the principal, due on the start date |
| Standard.EffectiveSeries | backend/src/main/java/com/calculosjuridicos/service/CalculoService.java:225-228 | The instalment's own index when it names one, else the request's global index |
| Standard.CorrectInstallment | backend/src/main/java/com/calculosjuridicos/service/CalculoService.java:240-255 | Without an effective index the amount itself; with one, it succeeds exactly when both the correction and the factor lookup succeed, reports the correction's error first, and yields the corrected value |
| Standard.CorrectedByFactor | backend/src/main/java/com/calculosjuridicos/service/CalculoService.java:240-255 | For ordered dates, an instalment's correction succeeds exactly when its factor does, and is then the amount times that factor in cents (0 for a non-positive amount) |
| Standard.ComputeInstallment | backend/src/main/java/com/calculosjuridicos/service/CalculoService.java:221-290 | Fails exactly when correction fails; subtotal is corrected plus interest; interest and its month count are zero unless the rate is positive, and otherwise the interest runs on the corrected or original amount as the flag says |
| Standard.ComputeAll | backend/src/main/java/com/calculosjuridicos/service/CalculoService.java:220-290 | Every instalment in order; the first failing instalment aborts the whole run |
| Standard.InstallmentWithoutIndexOrRate | backend/src/main/java/com/calculosjuridicos/service/CalculoService.java:225-275 | With no effective index an instalment is not corrected, and with no rate its subtotal is its amount |
| Standard.Breakdown | backend/src/main/java/com/calculosjuridicos/service/CalculoService.java:350-417 | No rows without a global index; otherwise one row per point of the period in order, each with its index, the change from the previous point, the cumulative factor against the first point, the principal corrected by it, simple interest over the whole months up to the end of its month on the principal or the corrected value (none under compound interest, a non-positive rate or no whole month), and subtotal = corrected + interest; a first index of zero fails |
| Standard.FactorOfBaseIsOne | backend/src/main/java/com/calculosjuridicos/service/CalculoService.java:374-380 | The base index against itself gives a cumulative factor of exactly 1 |
| Standard.UnitFactorKeepsAmount | backend/src/main/java/com/calculosjuridicos/service/CalculoService.java:381 | A factor of 1 leaves an amount in cents unchanged |
| Standard.BreakdownStartsAtPrincipal | backend/src/main/java/com/calculosjuridicos/service/CalculoService.java:374-391 | The first breakdown row has factor 1, no variation and the principal as its corrected value |
| Standard.PeriodVariation | backend/src/main/java/com/calculosjuridicos/service/CalculoService.java:322-333 | Present exactly when there are rows and the first and last carry an index with a positive first one; it is then the percent change from first to last |
| Standard.Execute | backend/src/main/java/com/calculosjuridicos/service/CalculoService.java:202-348 | Succeeds exactly when every instalment and the breakdown succeed; totals are the instalment sums; penalty, fee and total are the charges on corrected + interest; the overall factor is 1 unless a global index and a positive principal are set, and then corrected ÷ principal to six decimals; a failure reports the first failing instalment's error, or else the breakdown's division by zero |
| Standard.SubtotalsAddUp | backend/src/main/java/com/calculosjuridicos/service/CalculoService.java:277-293 | The corrected total plus the interest total equals the sum of the instalment subtotals |
| Standard.ExecuteTotalIsSubtotalsPlusCharges | backend/src/main/java/com/calculosjuridicos/service/CalculoService.java:292-311 | A run's penalty, fee and total are the charges on the sum of the instalment subtotals, and the total is that sum plus penalty and fee |
| Standard.ExecutePeriodVariation | backend/src/main/java/com/calculosjuridicos/service/CalculoService.java:319-333 | A run's period variation is present exactly when there is a global index, a first point in the period and it is positive; it is then the percent change from the first to the last point of the period |
| Treasury.RegimeIsLatestThresholdReached | backend/src/main/java/com/calculosjuridicos/service/FazendaPublicaCalculoService.java:178-259 | The cascade of date tests picks the regime of the most recent legislative threshold the month has reached |
| Treasury.RegimeNeverGoesBack | backend/src/main/java/com/calculosjuridicos/service/FazendaPublicaCalculoService.java:57-61 | Regimes only move forward: a later month never falls under an earlier regime |
| Treasury.ResolveTable | backend/src/main/java/com/calculosjuridicos/service/FazendaPublicaCalculoService.java:360-365 | Fails with "series not found" exactly when no table has the name; otherwise yields the id of a table with that name |
| Treasury.ResolveAll | backend/src/main/java/com/calculosjuridicos/service/FazendaPublicaCalculoService.java:76-79 | Succeeds exactly when INPC, IPCA_E and SELIC all resolve; otherwise reports the first missing one in that order |
| Treasury.PointOfMonth | backend/src/main/java/com/calculosjuridicos/service/FazendaPublicaCalculoService.java:298-300 | The value stored for exactly that month, or none |
| Treasury.ChainMonth | backend/src/main/java/com/calculosjuridicos/service/FazendaPublicaCalculoService.java:290-315 | With this month's point and a positive previous value, the carried amount times the ten-decimal ratio, to cents; otherwise the carried amount and no variation |
| Treasury.MonthsCountedIsOrdinal | backend/src/main/java/com/calculosjuridicos/service/FazendaPublicaCalculoService.java:326 | Counting from the start month, the month numbered k after it is month k + 1 |
| Treasury.SimplifiedInterest | backend/src/main/java/com/calculosjuridicos/service/FazendaPublicaCalculoService.java:324-342 | Zero when no month is counted, and never negative otherwise |
| Treasury.AnnualInterest | backend/src/main/java/com/calculosjuridicos/service/FazendaPublicaCalculoService.java:189-194 | The 2%-a-year interest on a non-negative principal is never negative |
| Treasury.InterestGrowsWithMonths | backend/src/main/java/com/calculosjuridicos/service/FazendaPublicaCalculoService.java:324-342 | More months counted never give less interest, under the 1% or 0.5% monthly rule and under the 2%-a-year rule of EC 136/2025 |
| Treasury.InterestRulesExample | backend/src/main/java/com/calculosjuridicos/service/FazendaPublicaCalculoService.java:324-342 | R$ 10,000.00 over twelve months gives 1,200.00 at 1% a month, 600.00 at 0.5% and 200.00 at 2% a year |
| Treasury.SelicValue | backend/src/main/java/com/calculosjuridicos/service/FazendaPublicaCalculoService.java:347-355 | A value exactly when SELIC correction from the start to the month's last day succeeds, and then that corrected amount |
| Treasury.IndexMonth | backend/src/main/java/com/calculosjuridicos/service/FazendaPublicaCalculoService.java:232-259 | An INPC or IPCA-E month: chained correction by that series, simple interest at the month's rate, and only that series' tracker updated (even to none) |
| Treasury.SelicMonth | backend/src/main/java/com/calculosjuridicos/service/FazendaPublicaCalculoService.java:205-230 | A SELIC month has no interest; its corrected value is the SELIC correction, else the carried value; the INPC and IPCA-E trackers are untouched |
| Treasury.CappedMonth | backend/src/main/java/com/calculosjuridicos/service/FazendaPublicaCalculoService.java:179-203 | An EC 136/2025 month: IPCA-E chaining plus 2% a year, replaced by the SELIC value with no interest when it exceeds it |
| Treasury.Step | backend/src/main/java/com/calculosjuridicos/service/FazendaPublicaCalculoService.java:178-267 | Each regime's month carries its corrected value forward and updates only its own series tracker; SELIC months have no interest |
| Treasury.Entry | backend/src/main/java/com/calculosjuridicos/service/FazendaPublicaCalculoService.java:269-278 | A breakdown row holds the month, label, index and variation, and the corrected value, interest and subtotal rounded to cents |
| Treasury.Breakdown | backend/src/main/java/com/calculosjuridicos/service/FazendaPublicaCalculoService.java:159-169 | One row per calendar month from the start month to the end month inclusive, in ascending order |
| Treasury.RowIsStepFromCarriedState | backend/src/main/java/com/calculosjuridicos/service/FazendaPublicaCalculoService.java:163-281 | Row k is what the loop body emits for month start + k from the state the earlier months left: only the carried corrected value and the last series values pass between months |
| Treasury.CarriedIsPreviousCorrected | backend/src/main/java/com/calculosjuridicos/service/FazendaPublicaCalculoService.java:266 | Each month is entered with the previous month's unrounded corrected value |
| Treasury.FactorChange | backend/src/main/java/com/calculosjuridicos/service/FazendaPublicaCalculoService.java:123-128 | Present exactly when the factor exceeds 1; then (factor − 1) × 100 rounded half up to four decimals, non-negative and within half a unit of the fourth decimal of the exact change |
| Treasury.Calculate | backend/src/main/java/com/calculosjuridicos/service/FazendaPublicaCalculoService.java:71-143 | Fails exactly when a series is missing, with that error; otherwise the totals of its breakdown rows |
| Treasury.Totals | backend/src/main/java/com/calculosjuridicos/service/FazendaPublicaCalculoService.java:81-128 | Corrected value and interest from the last row (the principal and no interest when there is none); penalty, fee and total are the charges on their sum; factor = corrected over principal; the variation is the factor's change, present exactly when the factor exceeds 1; no instalment rows |
| Treasury.CeilingIsMinimum | backend/src/main/java/com/calculosjuridicos/service/FazendaPublicaCalculoService.java:196-203 | Under EC 136/2025 the month's corrected value plus interest is the smaller of IPCA plus interest and the SELIC value, when there is one |
| Treasury.MissingPointKeepsCarried | backend/src/main/java/com/calculosjuridicos/service/FazendaPublicaCalculoService.java:293-309 | An IPCA-E month without its point, or without a previous value, keeps the carried amount with no variation; a missing point clears the tracker |
| Treasury.ChainedCorrectionNeverLowers | backend/src/main/java/com/calculosjuridicos/service/FazendaPublicaCalculoService.java:302-305 | A series that did not fall never lowers a carried amount in cents |
| Loops.MonthLoop | backend/src/main/java/com/calculosjuridicos/service/FazendaPublicaCalculoService.java:169-281 | The loop emits one item per month from the first month to the last |
| Loops.ItemIsStepFromState | backend/src/main/java/com/calculosjuridicos/service/FazendaPublicaCalculoService.java:169-281 | Item k is the step of month c + k from the state the months before it left |
| Loops.FinalIsStateAfterLastMonth | backend/src/main/java/com/calculosjuridicos/service/FazendaPublicaCalculoService.java:169-281 | The state after the loop is the state after every month |
| Loops.StateAtStep | backend/src/main/java/com/calculosjuridicos/service/FazendaPublicaCalculoService.java:266-280 | One more month moves the state by exactly one step |
| Preview.Run | backend/src/main/java/com/calculosjuridicos/service/CalculoService.java:50-59 | A request that fails validation is refused with that error; otherwise public-treasury requests go to the treasury flow and all others to the standard one |
| Preview.ReversedPeriodIsRefused | backend/src/main/java/com/calculosjuridicos/service/CalculoService.java:422-425 | A start date after the end date is refused whatever the kind of calculation |
| Preview.TreasuryPreviewCoversEveryMonth | backend/src/main/java/com/calculosjuridicos/service/FazendaPublicaCalculoService.java:159-169 | A successful public-treasury preview has one row for every month of the period |
| Text.TrimIdempotent | backend/src/main/java/com/calculosjuridicos/service/IndiceService.java:155-158 | Trimming a trimmed string changes nothing |
| Text.BlankIffAllTrimmed | backend/src/main/java/com/calculosjuridicos/service/IndiceService.java:88-90 | A line is blank exactly when every code unit in it is at or below U+0020 |
| Text.FieldsJoinBack | backend/src/main/java/com/calculosjuridicos/service/IndiceService.java:93 | Splitting on ',', ';' and tab loses nothing: the fields rejoined with the separators give back the line |
| Text.Trim | backend/src/main/java/com/calculosjuridicos/service/IndiceService.java:87 | The trimmed text is a slice of the original that neither starts nor ends with a code unit up to U+0020, and everything cut off on either side is such a code unit |
| Text.Remove | backend/src/main/java/com/calculosjuridicos/service/IndiceService.java:155-156 | No occurrence of the removed code unit is left; the text keeps its length exactly when the code unit does not occur, and is then unchanged |
| Text.Replace | backend/src/main/java/com/calculosjuridicos/service/IndiceService.java:157 | Same length; each position holds the replacement where the original held the target, and the original code unit elsewhere |
| CsvImport.YearMonthOf | backend/src/main/java/com/calculosjuridicos/service/IndiceService.java:143-144 | A year and month are accepted exactly when the year is at least 1 and the month is 1 to 12, and give that month |
| CsvImport.ParseCompetence | backend/src/main/java/com/calculosjuridicos/service/IndiceService.java:137-151 | A text is accepted exactly when one of the three patterns accepts it |
| CsvImport.ParseYearFirst | backend/src/main/java/com/calculosjuridicos/service/IndiceService.java:137-151 | Four digits, '-', two digits naming a valid year and month are read as that month |
| CsvImport.ParseFormattedCompetence | backend/src/main/java/com/calculosjuridicos/service/IndiceService.java:137-151 | Every month of years 1 to 9999, written as "yyyy-MM", is read back as that month |
| CsvImport.ParseMonthFirst | backend/src/main/java/com/calculosjuridicos/service/IndiceService.java:137-151 | Two digits, '/', four digits naming a valid month and year are read as that month |
| CsvImport.ParseFullDate | backend/src/main/java/com/calculosjuridicos/service/IndiceService.java:137-151 | "yyyy-MM-dd" with a valid year and month and a day from 1 to 31 is read as the month of that date |
| CsvImport.CompetencePatternsAgree | backend/src/main/java/com/calculosjuridicos/service/IndiceService.java:35-39 | "2020-01", "01/2020" and "2020-01-15" all give January 2020, and "2020-13" is refused |
| CsvImport.ParseExponent | backend/src/main/java/com/calculosjuridicos/service/IndiceService.java:161 | An exponent is accepted exactly when digits follow an optional sign, and denotes their signed value |
| CsvImport.ParseBigDecimal | backend/src/main/java/com/calculosjuridicos/service/IndiceService.java:161 | The text parses exactly when its unsigned part does, and the sign follows the leading '-' |
| CsvImport.CleanValue | backend/src/main/java/com/calculosjuridicos/service/IndiceService.java:153-158 | The text with every '.' dropped, ',' made '.' and trimmed: no longer than the input, no ',' left, no blank at either end, and its points sit exactly where the commas of the point-free text were |
| CsvImport.ParseValue | backend/src/main/java/com/calculosjuridicos/service/IndiceService.java:153-165 | `parseValor` reads the cleaned text as a `BigDecimal`: a value exactly when its unsigned part is a numeral, non-negative unless the cleaned text starts with '-' |
| CsvImport.ParseDigits | backend/src/main/java/com/calculosjuridicos/service/IndiceService.java:161 | A plain digit run parses to the number it denotes |
| CsvImport.DigitsJoinValue | backend/src/main/java/com/calculosjuridicos/service/IndiceService.java:161 | Two digit runs written one after the other denote the first times 10^(length of the second) plus the second |
| CsvImport.ParseDecimalPoint | backend/src/main/java/com/calculosjuridicos/service/IndiceService.java:161 | Digits, a point and digits (at least one digit in all) parse to the whole part plus the fraction digits over 10^their count |
| CsvImport.ParseWithExponent | backend/src/main/java/com/calculosjuridicos/service/IndiceService.java:161 | A mantissa followed by 'e' or 'E' and a signed digit exponent parses to the mantissa's value times 10^exponent |
| CsvImport.ParseNumeral | backend/src/main/java/com/calculosjuridicos/service/IndiceService.java:161 | "w.f" followed by an exponent parses to (w + f / 10^|f|) · 10^exponent |
| CsvImport.ParseScientific | backend/src/main/java/com/calculosjuridicos/service/IndiceService.java:161 | Digits followed by an exponent, with no point, parse to their value times 10^exponent |
| CsvImport.NegatedNumeral | backend/src/main/java/com/calculosjuridicos/service/IndiceService.java:161 | A leading '-' negates the value of any unsigned numeral, and the numeral alone keeps its value |
| CsvImport.ParseScientificExample | backend/src/main/java/com/calculosjuridicos/service/IndiceService.java:153-165 | "4532E-2" reads as 45.32 |
| CsvImport.ParseDigitValue | backend/src/main/java/com/calculosjuridicos/service/IndiceService.java:153-165 | A value written as plain digits is read back as that number |
| CsvImport.ParseWrittenValue | backend/src/main/java/com/calculosjuridicos/service/IndiceService.java:153-165 | Writing a natural number out and reading it back gives the number |
| CsvImport.ThousandsPointIsDropped | backend/src/main/java/com/calculosjuridicos/service/IndiceService.java:154-158 | "4532.52" reads as 453252: every '.' is taken for a thousands separator |
| CsvImport.SameDigitsSameValue | backend/src/main/java/com/calculosjuridicos/service/IndiceService.java:153-158 | Two texts that agree once their points are dropped are read as the same value, since every '.' is a thousands separator |
| CsvImport.ParseLine | backend/src/main/java/com/calculosjuridicos/service/IndiceService.java:93-97 | A line is malformed exactly when splitting it gives fewer than two fields |
| CsvImport.ParseLineOf | backend/src/main/java/com/calculosjuridicos/service/IndiceService.java:93-100 | A line whose first two fields are a competence and a value yields exactly that pair |
| CsvImport.SplitTwoFields | backend/src/main/java/com/calculosjuridicos/service/IndiceService.java:93 | A line with one separator splits into the two fields around it |
| CsvImport.CommaDecimalIsCut | backend/src/main/java/com/calculosjuridicos/service/IndiceService.java:93-100 | "2020-01,4532,52" reads as January 2020 with value 4532: the comma decimal is taken for a third field |
| CsvImport.Classify | backend/src/main/java/com/calculosjuridicos/service/IndiceService.java:79-100 | A line is skipped exactly when it is the header on line 1 or blank, bad exactly when read and unparsable, and good otherwise with its parsed pair |
| CsvImport.Classified | backend/src/main/java/com/calculosjuridicos/service/IndiceService.java:76-77 | Each line is classified with its physical line number, counting from 1 |
| CsvImport.HeaderIsSkipped | backend/src/main/java/com/calculosjuridicos/service/IndiceService.java:79-85 | The header "competencia;valor" on line 1 is skipped, not reported |
| CsvImport.GoodLine | backend/src/main/java/com/calculosjuridicos/service/IndiceService.java:86-100 | Two clean fields around a separator on a later line give a good line with the parsed pair |
| CsvImport.ImportLines | backend/src/main/java/com/calculosjuridicos/service/IndiceService.java:92-124 | Imported plus updated plus errors equals the lines read; the store only gains keys, one per imported point |
| CsvImport.ImportTouchesOnlyItsTable | backend/src/main/java/com/calculosjuridicos/service/IndiceService.java:102-120 | Points of other series are untouched, and every point the import changed has source CSV_IMPORT |
| CsvImport.LastLineWins | backend/src/main/java/com/calculosjuridicos/service/IndiceService.java:102-120 | A month's point holds the value of its last good line; a month with no good line is unchanged |
| CsvImport.ImportReportsBadLines | backend/src/main/java/com/calculosjuridicos/service/IndiceService.java:122-124 | The errors are exactly the bad lines with their numbers and problems |
| CsvImport.ErrorsInLineOrder | backend/src/main/java/com/calculosjuridicos/service/IndiceService.java:92-124 | Each error names a line that was read and its problem, and errors come in strictly ascending line order |
| CsvImport.Import | backend/src/main/java/com/calculosjuridicos/service/IndiceService.java:61-134 | An unknown table is refused; otherwise the lines are classified from line 1 and imported |
| CsvImport.ExampleOutcomes | backend/src/main/java/com/calculosjuridicos/service/IndiceService.java:76-100 | A header, "2020-01;4532" and "2020-01;4532.52" classify as skip, 4532 and 453252 |
| CsvImport.ImportExample | backend/src/main/java/com/calculosjuridicos/service/IndiceService.java:102-120 | Those lines on an empty store import one point, update it once, and leave 453252 with source CSV_IMPORT |
| Sync.StartBoundIsDayBefore | backend/src/main/java/com/calculosjuridicos/service/IndicesSyncService.java:216-222 | A month is at or before the bound exactly when its first day is at or before the day before the start |
| Sync.StartingIndex | backend/src/main/java/com/calculosjuridicos/service/IndicesSyncService.java:216-222 | The latest stored value at or before the day before the start, or 1000 when there is none |
| Sync.NextNeverFalls | backend/src/main/java/com/calculosjuridicos/service/IndicesSyncService.java:93-95 | A non-negative variation never lowers an 8-decimal index, and the result has 8 decimals |
| Sync.Cumulative | backend/src/main/java/com/calculosjuridicos/service/IndicesSyncService.java:88-95 | One index per point; each is the previous index grown by the point's variation, to 8 decimals |
| Sync.CumulativeNeverFalls | backend/src/main/java/com/calculosjuridicos/service/IndicesSyncService.java:88-95 | With no negative variation every cumulative index is at least the starting one |
| Sync.CumulativeIsMonotone | backend/src/main/java/com/calculosjuridicos/service/IndicesSyncService.java:88-95 | With no negative variation the cumulative index never decreases from one month to the next |
| Sync.AccumulationExample | backend/src/main/java/com/calculosjuridicos/service/IndicesSyncService.java:82-95 | From 1000, variations of 0.5% and 0.42% give 1005 and 1009.221 |
| Sync.StorePoints | backend/src/main/java/com/calculosjuridicos/service/IndicesSyncService.java:88-121 | Imported plus updated plus errors equals the points fetched; the store only gains keys, one per imported point |
| Sync.StoreTouchesOnlyItsSeries | backend/src/main/java/com/calculosjuridicos/service/IndicesSyncService.java:97-115 | Points of other series are untouched, and every point changed has source API_BCB |
| Sync.LastPointWins | backend/src/main/java/com/calculosjuridicos/service/IndicesSyncService.java:97-115 | A month's point holds the index of its last accepted point; a month with none is unchanged |
| Sync.StoreReportsRejected | backend/src/main/java/com/calculosjuridicos/service/IndicesSyncService.java:116-120 | The errors are exactly the rejected points, in order |
| Sync.SyncTable | backend/src/main/java/com/calculosjuridicos/service/IndicesSyncService.java:62-127 | Checks in order: unknown table, unmapped name, failed download, empty download (no change, one message); otherwise stores the cumulative index built from the starting index |
| Sync.UnmappedNeverFetches | backend/src/main/java/com/calculosjuridicos/service/IndicesSyncService.java:66-69 | A table without a series code fails the same way whatever the download would return |
| Sync.Mapped | backend/src/main/java/com/calculosjuridicos/service/IndicesSyncService.java:137-138 | Exactly the tables whose names have a series code |
| Sync.SyncEach | backend/src/main/java/com/calculosjuridicos/service/IndicesSyncService.java:137-148 | One entry per mapped table, in order, named after it |
| Sync.SyncAll | backend/src/main/java/com/calculosjuridicos/service/IndicesSyncService.java:133-151 | One entry per mapped table of the catalogue, in catalogue order |
| Sync.FailedDownloadIsReported | backend/src/main/java/com/calculosjuridicos/service/IndicesSyncService.java:139-146 | A failed download gives the table an entry with no counts and one error, and the remaining tables still sync |
| Sync.SyncEachStep | backend/src/main/java/com/calculosjuridicos/service/IndicesSyncService.java:137-148 | A mapped table's entries are those of its own sync, followed by the rest synced on the store it left; an unmapped table adds nothing |
| Sync.DownloadedTableIsStored | backend/src/main/java/com/calculosjuridicos/service/IndicesSyncService.java:82-148 | A successful download is reported with its sync's counts: "no data" and no change for an empty download, else the cumulative index from the starting index is stored; the next tables sync on the resulting store |
| Sync.SyncOneKeepsOtherSeries | backend/src/main/java/com/calculosjuridicos/service/IndicesSyncService.java:62-127 | Syncing one table keeps every point of every other series and writes only API_BCB points |
| Sync.SyncEachKeepsUnsyncedSeries | backend/src/main/java/com/calculosjuridicos/service/IndicesSyncService.java:137-148 | A series no mapped table of the run syncs keeps all its points, and no point of it is added |
| Sync.SyncAllKeepsUnsyncedSeries | backend/src/main/java/com/calculosjuridicos/service/IndicesSyncService.java:133-151 | `sincronizarTodos` keeps every point of a series that no mapped table of the catalogue syncs, and writes only API_BCB points |

## Left out

- I/O: reading the uploaded file, the HTTP download from the central bank (`fetchBcbData`), and the scheduled job. The file is its lines, the download is the `fetch` parameter, and the schedule has no logic of its own.
- Persistence and transactions: the store is a map. The Spring rollback-only marking after a save throws inside the `@Transactional` sync or import is not modelled. A failed save is only reported, and the loop goes on.
- Logging, wall-clock timestamps (`LocalDateTime.now()`), the display label of each breakdown month, and the text of error messages. Bad CSV lines and rejected sync points carry a structured problem instead of the message.
- `BigDecimal` scale and precision as representation: values are exact reals. Two `BigDecimal`s equal in value but differing in scale are the same `real`.
- Interest.GrowthFactor: `BigDecimal.pow(n, MathContext)` may differ from the correctly rounded power in the last of its ten digits. The model uses the correctly rounded power.
- Interest.CompoundInterest: the `Math.pow` double fallback for more than `Integer.MAX_VALUE` periods is not modelled. Periods are unbounded integers. `BigDecimal.pow(int, MathContext)` also throws `ArithmeticException` for an exponent above 999,999,999, so the service throws for 10^9 to `Integer.MAX_VALUE` periods; the model returns a value there.
- Standard.ComputeInstallment: the `(int)` cast of the interest month count does not wrap. Counts are unbounded.
- CsvImport.ParseValue: the decimal parser covers ASCII digits, an optional '+' or '-' sign, one point and an exponent. Unicode digits and exponent overflow are not modelled.
- CsvImport.ParseCompetence: years are exactly four digits and positive. Signed years and five-or-more-digit years, which `java.time` also accepts, are not modelled. The day of "yyyy-MM-dd" must be 1 to 31. Clamping a day past the month's end is irrelevant, because only the month is kept.
- Text.ToLower: only ASCII letters are lowered. The header test looks for ASCII words only.
- Sync.SyncAll: the result map is a sequence of entries. Two tables with the same name would share one entry in Java's `LinkedHashMap`; the model lists both.
- Treasury.SimplifiedInterest: the contract states only the zero case and non-negativity. The formula is pinned by Treasury.InterestRulesExample, and growth with the month count by Treasury.InterestGrowsWithMonths.
- Treasury.AnnualInterest: the contract states only non-negativity. Its value and its growth are pinned by the same two lemmas.
- Interest.CompoundInterest: its own contract states the zero guard, and Interest.CompoundInterestNonNegative adds non-negativity. Its value is bounded around the exact P·((1 + i)^n − 1) by Interest.CompoundInterestWithinBound, not stated exactly, and pinned by Interest.CompoundInterestExample.
- Interest.CompoundFormula: its own contract states the zero case. Its value is stated as a bound around the exact formula (Interest.CompoundFormulaWithinBound), because the ten-digit power it rounds is not in closed form.
- Interest.ProRataDie: its own contract states the guards. The value as written is pinned by Interest.ProRataDieFullMonthShortfall.
- Bean validation of the request (positive amounts, non-null dates) happens before the core runs and is not modelled.
- The public-treasury unit tests that contradict the code are not reproduced: the "11 - 2021" label, the month carried as a subtotal, the IPCA-E ratio against September 2025, and the "IPCA + 2%" label.

## Findings

| source | as written | input that shows it | evidently intended | confidence | as-written member | corrected member |
|---|---|---|---|---|---|---|
| backend/src/main/java/com/calculosjuridicos/service/JurosService.java:132-141 | the daily rate is the monthly fraction divided by 30 and rounded to ten decimals before it is multiplied by principal and days | R$ 100,000,000.00 at 1% a month for 30 days gives 999,999.90, while one month of simple interest gives 1,000,000.00 | thirty days of pro rata die equal one month of interest, as the service's own test expects | high; not executed | Interest.ProRataDie (Interest.ProRataDieFullMonthShortfall) | Interest.ProRataDieExact (Interest.ProRataDieExactFullMonth) |
