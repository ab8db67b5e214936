/** The ways a join run can stop without producing a table. */
module Failures {

  datatype Error =
    /** A column named by a column set is not in the table it is looked up in (pandas raises KeyError). */
    | MissingColumn(name: string)
    /** A transformer name that the registry does not hold; the program reports it and exits with status 2. */
    | UnknownTransformer(name: string)
    /** A registered transformer was handed a missing cell (arises only in the as-written transform). */
    | TransformerFailed(name: string)
}
