/** The failures the engine reports. Each stands for one exception the
    services throw; a `Failure` result replaces the throw. */
module Errors {

  datatype Error =
      /** "Data inicial não pode ser posterior à data final" */
    | InvalidDateRange
      /** "Data de vencimento da parcela não pode ser posterior à data final do cálculo" */
    | InstallmentDueAfterEnd
      /** "Índice não encontrado para a competência" (a proleptic month number) */
    | IndexNotFound(competence: int)
      /** "Índice inicial não pode ser zero" */
    | ZeroBaseIndex
      /** `ArithmeticException` from `BigDecimal.divide` by zero */
    | DivisionByZero
      /** a legislatively required table name has no configured table */
    | SeriesNotFound(name: string)
      /** no table with the given id */
    | TableNotFound(id: int)
      /** the table name has no official-provider series code */
    | SeriesNotMapped(name: string)
      /** the official provider could not be reached or answered garbage */
    | FetchFailed(reason: string)
}
