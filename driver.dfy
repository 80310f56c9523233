/**
 * The parts of the host's ADO driver that the adapter touches: the outcome of
 * a driver call and a connection object that can be closed.
 */
module Driver {

  /** The result of `Open` on a connection or a row-set: success, or the error it threw. */
  datatype Outcome = Pass | Fail(error: string)

  /** An `ADODB.Connection`: whether it is open, and how often `close()` has been called on it. */
  class Connection {
    var isOpen: bool
    var closeCount: nat

    constructor (isOpen: bool)
      ensures this.isOpen == isOpen && closeCount == 0
    {
      this.isOpen := isOpen;
      closeCount := 0;
    }

    /** `close()`: the connection is no longer open. */
    method Close()
      modifies this
      ensures !isOpen && closeCount == old(closeCount) + 1
    {
      isOpen := false;
      closeCount := closeCount + 1;
    }
  }
}
