/** GL's error flag: any call may raise it, and only glGetError reports and clears it. */
module GlErrors {
  class Gl {
    /** Raised and not yet reported. */
    var error: bool
    /** The last frame was rendered without an error. */
    ghost var drawn: bool
    /** Steps of the driver that failed. */
    ghost var faults: nat

    constructor ()
      ensures !error && !drawn
    {
      error, drawn, faults := false, false, 0;
    }

    /** A driver step that reports its own outcome. */
    method Step() returns (ok: bool)
      modifies this`faults
      ensures faults == old(faults) + if ok then 0 else 1
    {
      ok := *;
      if !ok { faults := faults + 1; }
    }

    method Work()
      modifies this`error, this`faults
      ensures old(error) ==> error
      ensures faults >= old(faults) && (faults == old(faults) ==> error == old(error))
    {
      var raised := *;
      if raised { error, faults := true, faults + 1; }
    }

    /** The render pass. */
    method Draw()
      modifies this
      ensures (!drawn ==> error) && (old(error) ==> error)
      ensures faults >= old(faults) && (faults == old(faults) ==> error == old(error))
    {
      var raised := *;
      if raised { error, faults := true, faults + 1; }
      drawn := !raised;
    }

    /** glGetError. */
    method Drain() returns (raised: bool)
      modifies this`error
      ensures raised == old(error) && !error
    {
      raised := error;
      error := false;
    }
  }
}
