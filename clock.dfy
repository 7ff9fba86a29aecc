/** The clock-offset service: estimates the backend's clock from one
    write-then-read-back of a server timestamp, once per user. The local
    clock reading and the outcome of the asynchronous write and read-back
    are parameters. */
module Clock {

  import opened Wrappers

  /** What happened to the write of the server timestamp: it failed, or it
      succeeded and reading the node back produced a value (None: no value). */
  datatype SyncOutcome = WriteFailed | ReadBack(value: Option<int>)

  /** How the promise returned by `start` settles. */
  datatype StartResult =
    | AlreadySynced      // resolved at once, without a value
    | Synced(remote: int)  // resolved with the new remote time
    | WriteError         // rejected with the write's error
    | EmptyReadBack      // rejected without a reason

  class TimeService {
    var localTime: Option<int>
    var remoteTime: Option<int>
    var uid: Option<string>
    var working: bool

    /** A remote time is only ever recorded after a local reading. */
    ghost predicate Valid()
      reads this
    {
      Truthy(remoteTime) ==> localTime.Some?
    }

    constructor ()
      ensures Valid()
      ensures localTime == None && remoteTime == None && uid == None && !working
    {
      localTime, remoteTime, uid, working := None, None, None, false;
    }

    /** `start(uid)`, run until its promise settles; `clock` is the local
        clock when the write completes. */
    method Start(uid: string, clock: int, outcome: SyncOutcome) returns (r: StartResult)
      requires Valid()
      modifies this
      ensures Valid()
      // A cached estimate for the same user: nothing is written and nothing changes.
      ensures old(Truthy(remoteTime) && this.uid == Some(uid)) ==> r == AlreadySynced && unchanged(this)
      ensures !old(Truthy(remoteTime) && this.uid == Some(uid)) ==>
        // the local reading is taken whatever the write's outcome
        && localTime == Some(clock)
        && !working
        && (if outcome.ReadBack? && Truthy(outcome.value) then
              && r == Synced(outcome.value.value)
              && remoteTime == outcome.value && this.uid == Some(uid)
              // from now on the estimate is the local clock minus the local
              // reading plus the remote reading
              && (forall c :: Now(c) == Some(c - clock + outcome.value.value))
            else
              && r == (if outcome.WriteFailed? then WriteError else EmptyReadBack)
              && remoteTime == old(remoteTime) && this.uid == old(this.uid))
    {
      if Truthy(remoteTime) && this.uid == Some(uid) {
        return AlreadySynced;
      }
      working := true;
      localTime := Some(clock);
      match outcome {
        case WriteFailed =>
          r := WriteError;
          working := false;
        case ReadBack(value) =>
          if Truthy(value) {
            SetTime(value, uid);
            r := Synced(remoteTime.value);
          } else {
            r := EmptyReadBack;
          }
          working := false;
      }
    }

    /** `impl_setTime`. */
    method SetTime(remote: Option<int>, uid: string)
      modifies this`remoteTime, this`uid, this`working
      ensures remoteTime == remote && this.uid == Some(uid) && !working
    {
      remoteTime := remote;
      this.uid := Some(uid);
      working := false;
    }

    /** `now()`: the estimated backend time when the local clock reads
        `clock`, or None before a remote time is known. Whenever it is
        defined, it is the local clock shifted by one fixed offset. */
    function Now(clock: int): (r: Option<int>)
      reads this
      ensures r.Some? <==> Truthy(remoteTime)
      ensures r.Some? ==> r.value - clock == remoteTime.value - ToNumber(localTime)
    {
      if Truthy(remoteTime) then Some(clock - ToNumber(localTime) + remoteTime.value) else None
    }

    /** `secondsSince(time)`; a null `now()` counts as 0, as JavaScript's
        subtraction does. */
    function SecondsSince(clock: int, time: int): (r: real)
      reads this
      ensures r >= 0.0
      ensures r * 1000.0 == Abs(ToNumber(Now(clock)) - time) as real
    {
      Abs(ToNumber(Now(clock)) - time) as real / 1000.0
    }
  }

  /** Advancing the local clock by `d` advances the estimate by exactly `d`. */
  lemma NowAdvances(t: TimeService, clock: int, d: int)
    ensures t.Now(clock + d).Some? == t.Now(clock).Some?
    ensures t.Now(clock).Some? ==> t.Now(clock + d).value == t.Now(clock).value + d
  {
  }

  /** The receive-sound test `secondsSince < 30` is the integer test
      "within 30000 ms". */
  lemma FreshWithinThirtySeconds(t: TimeService, clock: int, time: int)
    ensures t.SecondsSince(clock, time) < 30.0 <==> Abs(ToNumber(t.Now(clock)) - time) < 30000
  {
    var a := Abs(ToNumber(t.Now(clock)) - time);
    assert t.SecondsSince(clock, time) * 1000.0 == a as real;
  }

}
