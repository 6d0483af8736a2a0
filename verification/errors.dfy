/** The exceptions the modelled code lets escape. None of them is caught anywhere:
    each one ends the run. */
module Errors {

  datatype Error =
      /** `next()` on a getter whose name matched no entry (StopIteration). */
    | NotFound(name: string)
      /** A getter on an accessor built over `None` instead of a list (TypeError). */
    | NotIterable
      /** `.get` called on a `None` coding while filtering match concepts (AttributeError). */
    | NoneHasNoGet
      /** A failed HTTP exchange: `raise_for_status` or a transport error. */
    | Transport(detail: string)
      /** The first input row is not the expected header (ValueError). */
    | InvalidHeader
      /** `next(reader)` on an input file with no rows at all (StopIteration). */
    | EmptyInput
      /** `Record._make` on a row that does not have exactly two fields (TypeError). */
    | RecordArity(fields: nat)
}
