/** Optional values, results and the failures the simulator can raise.

    Every Java exception that the modelled code throws or lets escape is one
    `Error` value; `Result` is failure-compatible so that `:-` propagates an
    error the way an unchecked exception unwinds the Java call stack. */
module Outcomes {

  /** A Java reference that may be null. */
  datatype Option<+T> = None | Some(value: T)

  datatype Result<+T> = Ok(value: T) | Err(error: Error) {
    predicate IsFailure() {
      Err?
    }

    function PropagateFailure<U>(): Result<U>
      requires Err?
    {
      Err(error)
    }

    function Extract(): T
      requires Ok?
    {
      value
    }
  }

  /** Which structural rule a `PayloadMappingException` reports. */
  datatype Mismatch =
    | KeySets        // strict mode: mask and message objects have different key sets
    | ArrayLengths   // strict mode: mask and message arrays have different lengths
    | Values         // a literal mask value differs from the message value

  datatype Error =
    | PayloadMapping(mismatch: Mismatch)  // PayloadMappingException
    | UnrecognisedValue                   // IllegalArgumentException from the value classifier
    | MissingKey(key: string)             // JSONException from JSONObject.get
    | MissingElement(index: nat)          // JSONException from JSONArray.get
    | NotAnObject                         // ClassCastException on an array element
    | InvalidJson                         // JSONException while re-reading substituted text
    | NullReference                       // NullPointerException
    | NegativeDelay                       // IllegalArgumentException from Thread.sleep
    | IllegalState                        // IllegalStateException raised by the device
    | Transport                           // AwsException wrapping a broker failure
}
