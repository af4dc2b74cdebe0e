/**
 * The `downloadStats` record and `startDownload`: an attempt with an empty
 * URL is turned away; an accepted attempt counts itself before any network
 * work, and only a completed download counts as successful, adds its bytes
 * and writes the record to storage.
 */
module Stats {
  import opened Wrappers
  import opened Display
  import opened Transfer
  import opened Filename

  /** The `downloadStats` record, in memory or as stored under the 'downloadStats' key. */
  datatype Record = Record(totalDownloads: nat, totalBytes: nat, successfulDownloads: nat)

  /** The record used when storage holds no 'downloadStats' key. */
  const Zero: Record := Record(0, 0, 0)

  predicate Consistent(r: Record) {
    r.successfulDownloads <= r.totalDownloads
  }

  /** What `updateStatsDisplay` shows: the two counters, the unit of the data total, the success rate. */
  datatype View = View(totalDownloads: nat, successfulDownloads: nat, dataUnit: Option<string>, rate: nat)

  /** `updateStatsDisplay` as a function of the record. */
  function Render(r: Record): (v: View)
    ensures v.totalDownloads == r.totalDownloads && v.successfulDownloads == r.successfulDownloads
    ensures r.totalDownloads == 0 ==> v.rate == 0
    ensures Consistent(r) ==> v.rate <= 100
    ensures r.totalBytes < Pow1024(4) ==> v.dataUnit.Some?
  {
    View(r.totalDownloads, r.successfulDownloads, SizeUnit(r.totalBytes),
         SuccessRate(r.successfulDownloads, r.totalDownloads))
  }

  /** `response.ok`: a status in the 2xx range. */
  predicate OkStatus(status: int) {
    200 <= status <= 299
  }

  /**
   * What the relay does with one request: `fetch` rejects (Unreachable), or
   * it answers with a status, a Content-Length read through `parseInt`, and
   * the readings its body delivers; `broken` means `reader.read()` rejects
   * after those readings instead of reporting `done`.
   */
  datatype Relay =
    | Unreachable
    | Responded(status: int, total: Option<nat>, readings: seq<Reading>, broken: bool)

  /**
   * A 2xx status whose response has a null body under the Fetch standard
   * (204 No Content, 205 Reset Content): `response.body.getReader()` then
   * throws a TypeError.
   */
  predicate NullBodyStatus(status: int) {
    status == 204 || status == 205
  }

  /**
   * The error caught at the end of `startDownload`: `fetch` rejected, the
   * status was not 2xx, the body was null, or `reader.read()` rejected.
   */
  datatype Failure = NetworkError | HttpError(status: int) | NoBody | StreamError

  /** How an attempt ends. */
  datatype Outcome =
    | Rejected
    | Completed(filename: string, payload: seq<byte>, transfer: Transferred)
    | Failed(error: Failure)

  /** The relay served a whole body with a 2xx status that carries one. */
  predicate Delivers(relay: Relay) {
    relay.Responded? && OkStatus(relay.status) && !NullBodyStatus(relay.status) && !relay.broken
  }

  /** The error an attempt that does not complete ends with. */
  function FailureOf(relay: Relay): Failure {
    match relay
    case Unreachable => NetworkError
    case Responded(status, _, _, _) =>
      if !OkStatus(status) then HttpError(status)
      else if NullBodyStatus(status) then NoBody
      else StreamError
  }

  /** The bytes a delivering relay's body carries. */
  function Delivered(relay: Relay): nat {
    if relay.Responded? then TotalLength(Bytes(relay.readings)) else 0
  }

  /** One click of the download button: the URL typed in and what the relay does with it. */
  datatype Attempt = Attempt(url: string, relay: Relay)

  /** The record after one attempt: the state machine of `startDownload` on the counters. */
  function After(r: Record, a: Attempt): (r': Record)
    ensures a.url == [] ==> r' == r
    ensures a.url != [] ==> r'.totalDownloads == r.totalDownloads + 1
    ensures Consistent(r) ==> Consistent(r')
    ensures r'.successfulDownloads == r.successfulDownloads + (if a.url != [] && Delivers(a.relay) then 1 else 0)
    ensures r'.totalBytes == r.totalBytes + (if a.url != [] && Delivers(a.relay) then Delivered(a.relay) else 0)
  {
    if a.url == [] then r
    else if Delivers(a.relay) then
      Record(r.totalDownloads + 1, r.totalBytes + Delivered(a.relay), r.successfulDownloads + 1)
    else
      r.(totalDownloads := r.totalDownloads + 1)
  }

  /** The record after a series of attempts, oldest first. */
  function Replay(r: Record, attempts: seq<Attempt>): Record {
    if attempts == [] then r else After(Replay(r, attempts[..|attempts| - 1]), attempts[|attempts| - 1])
  }

  /** The attempts whose URL was not empty. */
  function Accepted(attempts: seq<Attempt>): nat {
    if attempts == [] then 0
    else Accepted(attempts[..|attempts| - 1]) + (if attempts[|attempts| - 1].url != [] then 1 else 0)
  }

  /** The accepted attempts that completed. */
  function Succeeded(attempts: seq<Attempt>): nat {
    if attempts == [] then 0
    else
      var a := attempts[|attempts| - 1];
      Succeeded(attempts[..|attempts| - 1]) + (if a.url != [] && Delivers(a.relay) then 1 else 0)
  }

  /** The bytes of the accepted attempts that completed. */
  function BytesSaved(attempts: seq<Attempt>): nat {
    if attempts == [] then 0
    else
      var a := attempts[|attempts| - 1];
      BytesSaved(attempts[..|attempts| - 1]) + (if a.url != [] && Delivers(a.relay) then Delivered(a.relay) else 0)
  }

  /**
   * Starting from the all-zero record, the counters are exactly: every
   * accepted attempt, every completed one, and the bytes of the completed
   * ones; so the success rate shown never exceeds 100%.
   */
  lemma {:induction false} ReplayCounts(attempts: seq<Attempt>)
    ensures Replay(Zero, attempts) == Record(Accepted(attempts), BytesSaved(attempts), Succeeded(attempts))
    ensures Succeeded(attempts) <= Accepted(attempts)
    ensures Render(Replay(Zero, attempts)).rate <= 100
  {
    if attempts != [] {
      ReplayCounts(attempts[..|attempts| - 1]);
    }
  }

  /** The statistics of this page: the in-memory record and a ghost copy of what storage holds. */
  class DownloadStats {
    var totalDownloads: nat
    var totalBytes: nat
    var successfulDownloads: nat
    /** The record under the 'downloadStats' key of local storage, None when absent. */
    ghost var persisted: Option<Record>

    function Snapshot(): Record
      reads this
    {
      Record(totalDownloads, totalBytes, successfulDownloads)
    }

    /**
     * The record is consistent, and storage lags memory only by attempts
     * that did not complete: it agrees on the successful count and the
     * bytes, and has at most as many attempts.
     */
    ghost predicate Valid()
      reads this
    {
      && successfulDownloads <= totalDownloads
      && match persisted
         case None => successfulDownloads == 0 && totalBytes == 0
         case Some(r) =>
           && Consistent(r)
           && r.successfulDownloads == successfulDownloads
           && r.totalBytes == totalBytes
           && r.totalDownloads <= totalDownloads
    }

    /** The page-load initialisation: the stored record, or the all-zero record when the key is absent. */
    constructor Load(stored: Option<Record>)
      requires stored.Some? ==> Consistent(stored.value)
      ensures Valid()
      ensures Snapshot() == stored.GetOr(Zero)
      ensures persisted == stored
    {
      var r := stored.GetOr(Zero);
      totalDownloads := r.totalDownloads;
      totalBytes := r.totalBytes;
      successfulDownloads := r.successfulDownloads;
      persisted := stored;
    }

    /**
     * `startDownload` for the URL typed in; `pathname` is what
     * `new URL(url).pathname` yields (None when it throws) and `startTime`
     * is the `Date.now()` reading before the request. `view` is what the
     * closing `updateStatsDisplay()` shows; the early return skips it.
     */
    method StartDownload(url: string, pathname: Option<string>, startTime: int, relay: Relay)
      returns (outcome: Outcome, view: Option<View>)
      requires Valid()
      modifies this
      ensures Valid()
      ensures Snapshot() == After(old(Snapshot()), Attempt(url, relay))
      ensures outcome.Rejected? <==> url == []
      ensures outcome.Completed? <==> url != [] && Delivers(relay)
      ensures outcome.Rejected? ==> persisted == old(persisted) && view == None
      ensures outcome.Failed? ==> outcome.error == FailureOf(relay) && persisted == old(persisted)
      ensures outcome.Completed? ==>
        && outcome.filename == FilenameFromUrl(pathname)
        && outcome.transfer.chunks == Bytes(relay.readings)
        && (Known(relay.total) ==> |outcome.transfer.shown| == |relay.readings|)
        && (Known(relay.total) ==> forall j :: 0 <= j < |relay.readings| ==>
              outcome.transfer.shown[j] == PercentAfter(relay.readings, j + 1, relay.total.value))
        && (Known(relay.total) ==> outcome.transfer.meter == Metered(relay.readings, |relay.readings|, startTime))
        && (!Known(relay.total) ==> outcome.transfer.shown == [] && outcome.transfer.meter == Meter(startTime, 0, []))
        && outcome.payload == Concat(outcome.transfer.chunks)
        && |outcome.payload| == outcome.transfer.loaded == Delivered(relay)
        && persisted == Some(Snapshot())
      ensures !outcome.Rejected? ==> view == Some(Render(Snapshot()))
    {
      if url == [] {
        return Rejected, None;
      }
      totalDownloads := totalDownloads + 1;
      if relay.Unreachable? {
        outcome := Failed(NetworkError);
      } else if !OkStatus(relay.status) {
        outcome := Failed(HttpError(relay.status));
      } else if NullBodyStatus(relay.status) {
        outcome := Failed(NoBody);
      } else {
        var t := ReadBody(relay.readings, relay.total, startTime);
        if relay.broken {
          outcome := Failed(StreamError);
        } else {
          var payload := Concat(t.chunks);
          ConcatLength(t.chunks);
          var filename := FilenameFromUrl(pathname);
          successfulDownloads := successfulDownloads + 1;
          totalBytes := totalBytes + t.loaded;
          persisted := Some(Snapshot());
          outcome := Completed(filename, payload, t);
        }
      }
      view := Some(Render(Snapshot()));
    }
  }
}
