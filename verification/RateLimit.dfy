/** The fixed-window rate limiter of the chat endpoint: per identifier, at
    most 20 admitted requests in a window of one minute that opens with the
    first request after the previous window ended. The clock is a parameter
    of every call. */
module RateLimit {
  import opened Wrappers

  const WindowMs := 60000
  const MaxRequests := 20

  /** The stored state of one identifier: requests admitted in the current
      window, and the instant the window ends. */
  datatype WindowRecord = WindowRecord(count: nat, resetTime: int)

  /** What a call answers: admitted or not, how many requests the window
      still admits, and how long until it ends. */
  datatype Verdict = Verdict(success: bool, remaining: int, resetIn: int)

  /** A record the limiter can have stored: at least the request that
      opened the window, and never more than the limit. */
  predicate WellFormed(r: WindowRecord) {
    1 <= r.count <= MaxRequests
  }

  /** One call for an identifier whose stored record is `record` at time
      `now`: the record to store afterwards and the verdict. */
  function Admit(record: Option<WindowRecord>, now: int): (result: (WindowRecord, Verdict))
    requires record.Some? ==> WellFormed(record.value)
    ensures WellFormed(result.0)
    ensures result.1.success <==> result.0.count == (if record.None? || now > record.value.resetTime then 1 else record.value.count + 1)
    ensures result.1.success ==> result.1.remaining == MaxRequests - result.0.count >= 0
    ensures !result.1.success ==> record.Some? && result.0 == record.value && result.1.remaining == 0
    ensures result.1.resetIn == result.0.resetTime - now
  {
    if record.None? || now > record.value.resetTime then
      (WindowRecord(1, now + WindowMs), Verdict(true, MaxRequests - 1, WindowMs))
    else if record.value.count >= MaxRequests then
      (record.value, Verdict(false, 0, record.value.resetTime - now))
    else
      var updated := record.value.(count := record.value.count + 1);
      (updated, Verdict(true, MaxRequests - updated.count, record.value.resetTime - now))
  }

  /** A new window is opened with a single admitted request. */
  lemma AdmitOpensWindow(record: Option<WindowRecord>, now: int)
    requires record.Some? ==> WellFormed(record.value)
    requires record.None? || now > record.value.resetTime
    ensures Admit(record, now) == (WindowRecord(1, now + WindowMs), Verdict(true, MaxRequests - 1, WindowMs))
  {
  }

  /** Inside its window a full record is refused and left as it is; any
      other is counted up by one. */
  lemma AdmitWithinWindow(r: WindowRecord, now: int)
    requires WellFormed(r) && now <= r.resetTime
    ensures var (next, v) := Admit(Some(r), now);
      && next.resetTime == r.resetTime
      && (r.count >= MaxRequests ==> !v.success && next == r && v.resetIn == r.resetTime - now)
      && (r.count < MaxRequests ==> v.success && next.count == r.count + 1 && v.remaining == MaxRequests - next.count)
  {
  }

  /** The number of requests admitted when the calls arrive at the given
      instants, starting from the given record. */
  function Admitted(record: WindowRecord, times: seq<int>): nat
    requires WellFormed(record)
    decreases |times|
  {
    if times == [] then 0
    else
      var (next, v) := Admit(Some(record), times[0]);
      (if v.success then 1 else 0) + Admitted(next, times[1..])
  }

  /** Within one window no more requests are admitted than the record has
      room for: from a window's opening request on, at most 19 more, so at
      most 20 per window. */
  lemma {:induction false} AtMostMaxPerWindow(record: WindowRecord, times: seq<int>)
    requires WellFormed(record)
    requires forall i :: 0 <= i < |times| ==> times[i] <= record.resetTime
    ensures Admitted(record, times) <= MaxRequests - record.count
    decreases |times|
  {
    if times != [] {
      var (next, v) := Admit(Some(record), times[0]);
      AdmitWithinWindow(record, times[0]);
      assert forall i :: 0 <= i < |times[1..]| ==> times[1..][i] <= next.resetTime by {
        forall i | 0 <= i < |times[1..]| ensures times[1..][i] <= next.resetTime {
          assert times[1..][i] == times[i + 1];
        }
      }
      AtMostMaxPerWindow(next, times[1..]);
    }
  }

  /** The records of `records` whose window has not ended at `now`. */
  function Unexpired(records: map<string, WindowRecord>, now: int): (live: map<string, WindowRecord>)
    ensures forall id :: id in live <==> id in records && now <= records[id].resetTime
    ensures forall id :: id in live ==> live[id] == records[id]
  {
    map id | id in records && now <= records[id].resetTime :: records[id]
  }

  /** The limiter's map from identifier to record. */
  class RateLimiter {
    var records: map<string, WindowRecord>

    ghost predicate Valid()
      reads this
    {
      forall id :: id in records ==> WellFormed(records[id])
    }

    constructor()
      ensures Valid() && records == map[]
    {
      records := map[];
    }

    /** `rateLimit(identifier)` at time `now`: decides by the stored record
      and changes the record of this identifier only. */
    method RateLimit(identifier: string, now: int) returns (v: Verdict)
      requires Valid()
      modifies this
      ensures Valid()
      ensures var record := if identifier in old(records) then Some(old(records)[identifier]) else None;
        && v == Admit(record, now).1
        && records == old(records)[identifier := Admit(record, now).0]
    {
      var record := if identifier in records then Some(records[identifier]) else None;
      if record.None? || now > record.value.resetTime {
        records := records[identifier := WindowRecord(1, now + WindowMs)];
        return Verdict(true, MaxRequests - 1, WindowMs);
      }
      if record.value.count >= MaxRequests {
        return Verdict(false, 0, record.value.resetTime - now);
      }
      var updated := record.value.(count := record.value.count + 1);
      records := records[identifier := updated];
      v := Verdict(true, MaxRequests - updated.count, updated.resetTime - now);
    }

    /** The periodic sweep at time `now`: deletes the records whose window
      has ended and keeps every other. */
    method Sweep(now: int)
      requires Valid()
      modifies this
      ensures Valid()
      ensures records == Unexpired(old(records), now)
    {
      var pending := records.Keys;
      ghost var start := records;
      while pending != {}
        invariant pending <= start.Keys
        invariant forall id :: id in records <==> id in start && (id in pending || now <= start[id].resetTime)
        invariant forall id :: id in records ==> records[id] == start[id]
        decreases |pending|
      {
        var id :| id in pending;
        if now > records[id].resetTime {
          records := records - {id};
        }
        pending := pending - {id};
      }
    }
  }
}
