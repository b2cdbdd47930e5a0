/** Types shared by the runtime's interfaces. */
module Statuses {
  /** plc_status_t. */
  datatype Status =
    | Ok | ErrInval | ErrNoMem | ErrIo | ErrTimeout | ErrProto | ErrState | ErrUnsupported | ErrAgain | ErrNotFound

  /** plc_failsafe_policy_t: what becomes of an input image nobody refreshes. */
  datatype Policy = Hold | Clear

  /** A result that may be missing. */
  datatype Option<T> = None | Some(value: T)
}
