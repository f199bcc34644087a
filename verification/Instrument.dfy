/** The busy state of the instrument (instrument.py). */
module Instrument {
  import opened Histories
  import opened Options

  datatype Status = IDLE | ACQUIRING | CALIBRATING | STOPPING

  datatype Inst = Inst(status: Status, stopRequested: bool, abortReason: Option<string>) {
    predicate IsBusy() {
      status == ACQUIRING || status == CALIBRATING || status == STOPPING
    }

    function Set(to: Status): Inst {
      if to == IDLE then Inst(IDLE, false, None) else this.(status := to)
    }

    function RequestStop(reason: Option<string>): Inst {
      var noted := this.(stopRequested := true, abortReason := if reason.Some? then reason else abortReason);
      if IsBusy() then noted.Set(STOPPING) else noted
    }
  }

  class InstrumentState {
    var status: Status
    var stopRequested: bool
    var abortReason: Option<string>

    ghost function Value(): Inst
      reads this
    {
      Inst(status, stopRequested, abortReason)
    }

    constructor ()
      ensures Value() == Inst(IDLE, false, None)
    {
      status, stopRequested, abortReason := IDLE, false, None;
    }

    method Set(to: Status)
      modifies this
      ensures Value() == old(Value()).Set(to)
    {
      status := to;
      if to == IDLE {
        stopRequested := false;
        abortReason := None;
      }
    }

    method RequestStop(reason: Option<string>)
      modifies this
      ensures Value() == old(Value()).RequestStop(reason)
    {
      stopRequested := true;
      if reason.Some? {
        abortReason := reason;
      }
      if status == ACQUIRING || status == CALIBRATING || status == STOPPING {
        Set(STOPPING);
      }
    }
  }

  // ----- Pending stops -----

  datatype Call = SetTo(to: Status) | Stop(reason: Option<string>)

  /** The instrument after the first `n` calls, idle at first with no stop pending. */
  function Called(calls: seq<Call>, n: nat): Inst
    requires n <= |calls|
  {
    if n == 0 then Inst(IDLE, false, None)
    else
      var i := Called(calls, n - 1);
      match calls[n - 1]
      case SetTo(to) => i.Set(to)
      case Stop(reason) => i.RequestStop(reason)
  }

  function Pending(calls: seq<Call>): nat -> bool {
    (n: nat) => n <= |calls| && Called(calls, n).stopRequested
  }

  function Stops(calls: seq<Call>): nat -> bool {
    (k: nat) => k < |calls| && calls[k].Stop?
  }

  function Idles(calls: seq<Call>): nat -> bool {
    (k: nat) => k < |calls| && calls[k] == SetTo(IDLE)
  }

  lemma PendingStep(calls: seq<Call>, k: nat)
    requires k < |calls|
    ensures Pending(calls)(k + 1) <==> Stops(calls)(k) || (Pending(calls)(k) && !Idles(calls)(k))
  {
  }

  /** A stop is pending exactly when one was requested since the last return to idle. */
  lemma StopPendingExactly(calls: seq<Call>, n: nat)
    requires n <= |calls|
    ensures Called(calls, n).stopRequested <==> exists k: nat ::
      k < n && Stops(calls)(k) && NoneBetween(Idles(calls), k, n)
  {
    forall k: nat | k < n
      ensures Pending(calls)(k + 1) <==> Stops(calls)(k) || (Pending(calls)(k) && !Idles(calls)(k))
    {
      PendingStep(calls, k);
    }
    LatchedSince(Pending(calls), Stops(calls), Idles(calls), n);
  }

  /** After the last return to idle, if there was one, only a stop requested since is pending: one
      requested while an acquisition ran is gone. */
  lemma StopSurvivesExactly(before: seq<Call>, since: seq<Call>)
    requires before == [] || before[|before| - 1] == SetTo(IDLE)
    requires forall c :: c in since ==> c != SetTo(IDLE)
    ensures Called(before + since, |before + since|).stopRequested <==> exists c :: c in since && c.Stop?
  {
    var calls, m := before + since, |before|;
    forall k: nat | m <= k < |calls|
      ensures calls[k] == since[k - m] && !Idles(calls)(k)
    {
      assert since[k - m] in since;
    }
    StopPendingExactly(calls, |calls|);
    if c :| c in since && c.Stop? {
      var i :| 0 <= i < |since| && since[i] == c;
      assert Stops(calls)(m + i) && NoneBetween(Idles(calls), m + i, |calls|);
    }
    if Called(calls, |calls|).stopRequested {
      var k: nat :| k < |calls| && Stops(calls)(k) && NoneBetween(Idles(calls), k, |calls|);
      assert m > 0 ==> Idles(calls)(m - 1) && !Stops(calls)(m - 1);
      assert k >= m;
      assert since[k - m] in since;
    }
  }

  function Busy(calls: seq<Call>): nat -> bool {
    (n: nat) => n <= |calls| && Called(calls, n).IsBusy()
  }

  function Starts(calls: seq<Call>): nat -> bool {
    (k: nat) => k < |calls| && calls[k].SetTo? && calls[k].to != IDLE
  }

  /** The instrument is busy exactly when it was set to anything but idle, and not to idle since. */
  lemma BusyExactly(calls: seq<Call>, n: nat)
    requires n <= |calls|
    ensures Called(calls, n).IsBusy() <==> exists k: nat :: k < n && Starts(calls)(k) && NoneBetween(Idles(calls), k, n)
  {
    LatchedSince(Busy(calls), Starts(calls), Idles(calls), n);
  }

  function Stopping(calls: seq<Call>): nat -> bool {
    (n: nat) => n <= |calls| && Called(calls, n).status == STOPPING
  }

  function BeginsStopping(calls: seq<Call>): nat -> bool {
    (k: nat) => k < |calls| && (calls[k] == SetTo(STOPPING) || (calls[k].Stop? && Called(calls, k).IsBusy()))
  }

  function LeavesStopping(calls: seq<Call>): nat -> bool {
    (k: nat) => k < |calls| && calls[k].SetTo? && calls[k].to != STOPPING
  }

  lemma StoppingStep(calls: seq<Call>, k: nat)
    requires k < |calls|
    ensures Stopping(calls)(k + 1) <==>
      BeginsStopping(calls)(k) || (Stopping(calls)(k) && !LeavesStopping(calls)(k))
  {
  }

  /** It is stopping exactly when a stop was requested while it was busy, or it was set so, and it was
      not set to anything else since. */
  lemma StoppingExactly(calls: seq<Call>, n: nat)
    requires n <= |calls|
    ensures Called(calls, n).status == STOPPING <==>
      exists k: nat :: k < n && BeginsStopping(calls)(k) && NoneBetween(LeavesStopping(calls), k, n)
  {
    forall k: nat | k < n
      ensures Stopping(calls)(k + 1) <==>
        BeginsStopping(calls)(k) || (Stopping(calls)(k) && !LeavesStopping(calls)(k))
    {
      StoppingStep(calls, k);
    }
    LatchedSince(Stopping(calls), BeginsStopping(calls), LeavesStopping(calls), n);
  }

  function Kept(calls: seq<Call>, reason: string): nat -> bool {
    (n: nat) => n <= |calls| && Called(calls, n).abortReason == Some(reason)
  }

  function Gives(calls: seq<Call>, reason: string): nat -> bool {
    (k: nat) => k < |calls| && calls[k] == Stop(Some(reason))
  }

  function Forgets(calls: seq<Call>, reason: string): nat -> bool {
    (k: nat) => k < |calls| && match calls[k]
                               case SetTo(to) => to == IDLE
                               case Stop(other) => other.Some? && other.value != reason
  }

  lemma ReasonStep(calls: seq<Call>, reason: string, k: nat)
    requires k < |calls|
    ensures Kept(calls, reason)(k + 1) <==>
      Gives(calls, reason)(k) || (Kept(calls, reason)(k) && !Forgets(calls, reason)(k))
  {
  }

  /** The reason kept is the last one given since the return to idle. */
  lemma ReasonExactly(calls: seq<Call>, reason: string, n: nat)
    requires n <= |calls|
    ensures Called(calls, n).abortReason == Some(reason) <==>
      exists k: nat :: k < n && Gives(calls, reason)(k) && NoneBetween(Forgets(calls, reason), k, n)
  {
    forall k: nat | k < n
      ensures Kept(calls, reason)(k + 1) <==>
        Gives(calls, reason)(k) || (Kept(calls, reason)(k) && !Forgets(calls, reason)(k))
    {
      ReasonStep(calls, reason, k);
    }
    LatchedSince(Kept(calls, reason), Gives(calls, reason), Forgets(calls, reason), n);
  }
}
