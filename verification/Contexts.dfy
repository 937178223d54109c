/**
 Request contexts as an adversary sees them: the context ends, if at all, before some sample of its error, and
 from then on every sample reports the same cause.
 */
module Contexts {
  import opened Prelude

  datatype Cause = Canceled | DeadlineExceeded

  datatype Context = Context(endsAt: Option<nat>, cause: Cause) {
    /** What sample number `sample` of the context's error returns. */
    function Err(sample: nat): Option<Cause> {
      if endsAt.Some? && endsAt.value <= sample then Some(cause) else None
    }
  }
}
