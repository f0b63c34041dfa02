/** The cancellation check the detector polls between coarse-grained steps. */
module Events {

  /** Stands for the decompiler's event listener: a user may cancel at any moment,
      and a run once canceled stays canceled. */
  class Listener {
    var canceled: bool

    constructor ()
      ensures !canceled
    {
      canceled := false;
    }

    /** Whether the run should stop: any answer, except that it keeps saying yes
        after it has said yes once. */
    method IsCanceled() returns (c: bool)
      modifies this
      ensures c == canceled
      ensures old(canceled) ==> c
    {
      var userPressedCancel: bool :| true;
      c := canceled || userPressedCancel;
      canceled := c;
    }
  }
}
