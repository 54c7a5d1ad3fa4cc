/** The exceptions a crawl can raise, one constructor per exception class of the
    repository, plus three for failures that come from the libraries it calls. */
module FaraExceptions {

  import opened Wrappers

  datatype FaraError =
    /** ApexFieldMissingError: no value for a required hidden form field. */
    | ApexFieldMissingError(field: string)
    /** ApexFieldMultipleValuesError: more than one value for a required hidden form field. */
    | ApexFieldMultipleValuesError(field: string, values: seq<string>)
    /** SelectorEmptyError: a required container query matched nothing. */
    | SelectorEmptyError(field: string)
    /** UnexpectedValueError: the pagination caption does not have the expected shape. */
    | UnexpectedValueError(values: seq<string>)
    /** Raised by the date library when a value is not a MM/DD/YYYY date (or is missing). */
    | DateParseError(input: Option<string>)
    /** Raised by the interpreter (IndexError, AttributeError) when a row's markup lacks
        the attribute or the segment the extractor indexes into. */
    | MalformedMarkupError(markup: string)
    /** Raised by the string matcher (TypeError, or AttributeError when both are
        missing) when the exhibit row's name or the principal's name is None. */
    | StringMatchError(exhibitName: Option<string>, principal: Option<string>)
}
