/** Shared vocabulary of the answer comparison: the records the extraction step produces,
    and the Option/Result wrappers that stand in for Python's None and exceptions. */
module Records {

  /** An extracted equation is a JSON object with string values: the extractor
      fills "equation" and "description", the normalizer adds "raw_equation". */
  type Record = map<string, string>

  const EquationKey: string := "equation"
  const RawEquationKey: string := "raw_equation"
  const DescriptionKey: string := "description"

  datatype Option<+T> = None | Some(value: T)

  datatype Result<+T, +E> = Success(value: T) | Failure(error: E)

  /** The exceptions the core raises. */
  datatype Error =
    | NotAList            // process_extractions given something that is not a list
    | EmptyMasterOutput   // the extraction service returned nothing for the master answer
    | MalformedJson       // json.loads refused an extraction payload
    | MissingField        // KeyError: a record lacks "equation" or "description"
}
