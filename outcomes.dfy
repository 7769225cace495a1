/** Values that the workflow task produces besides its artifacts: the Option and
    Result wrappers, the warnings raised while clamping the tuning parameters,
    and every failure the task can end with. */
module Outcomes {

  datatype Option<+T> = None | Some(value: T)

  datatype Result<+R, +E> = Success(value: R) | Failure(error: E)

  /** The warning messages shown when a tuning parameter is out of range. */
  datatype Warning =
    | ModelsBelowOne        // "Number of models below 1. Setting to 1"
    | ModelsAboveFive       // "Number of models greater than 5. Setting to 5"
    | RecyclesBelowOne      // "Number of recycles below 1. Setting to 1"
    | RecyclesAboveFifty    // "Number of recycles greater than 50. Setting to 50"

  /** The four error signatures recognised in the engine's output. */
  datatype EngineError =
    | ResourceExhausted     // "Resource Exhausted": the GPU ran out of memory
    | SearchServiceError    // "MMseqs2 API Error"
    | MsaParseError         // "MMseqs2 Results Parsing Error"
    | NoCandidates          // "No candidates found for sequence."

  /** Every way the task can fail, in the order in which it can happen. */
  datatype Failure =
    | NoInputProvided                                // neither a file nor a text block
    | SpacesInSequence                               // a sequence line of the text block holds a space
    | NoSequenceLines                                // the text block is blank: `broken[0]` raises IndexError
    | EmptyInput                                     // the request file has no lines
    | UnpairedLine                                   // the request file has an odd number of lines
    | EngineReported(kind: EngineError, output: string)  // an error signature was seen in `output`
    | EngineExitedNonZero(code: int, stderr: string) // the engine failed without a known signature
    | EmptyOutputDir                                 // `_fmt_dir("")` raises IndexError

  /** The failures raised before the engine is launched. */
  predicate IsInputFailure(f: Failure)
  {
    f.NoInputProvided? || f.SpacesInSequence? || f.NoSequenceLines? || f.EmptyInput? || f.UnpairedLine?
  }
}
