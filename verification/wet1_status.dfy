/** `StatusType` and `output_t<int>` of the Wet1 interface. An allocation
    failure cannot happen in the model, so `ALLOCATION_ERROR` is absent. */
module Wet1Status {

  datatype Status = Success | Failure | InvalidInput

  /** `output_t<int>`: a value on success, otherwise the failing status. */
  datatype Output = Value(v: int) | Error(status: Status)
}
