/** The compressor's error codes, and results that may carry one: an exception thrown in the program
    is a `Fail` returned here, propagated with `:-`. */
module Outcomes {
  datatype CprsErr = ERR_BUF | ERR_PAR | ERR_SUM | ERR_VER | ERR_COR | ERR_OTH

  datatype Outcome = Pass | Fail(error: CprsErr) {
    predicate IsFailure() {
      Fail?
    }

    function PropagateFailure(): Outcome
      requires Fail?
    {
      this
    }
  }
}
