/**
 * The streaming read loop of `startDownload`: chunks are buffered in arrival
 * order while `loaded` accumulates their lengths; when the Content-Length
 * total is truthy, each chunk updates the progress percentage and a
 * throughput checkpoint that moves at most once per 500 ms.
 */
module Transfer {
  import opened Wrappers
  import opened Display

  type byte = bv8

  /** One chunk from `reader.read()` with the `Date.now()` reading (ms) taken after it arrived. */
  datatype Reading = Reading(bytes: seq<byte>, at: int)

  /** A throughput figure shown as `Speed: …/s`: bytes received over milliseconds elapsed. */
  datatype Sample = Sample(bytes: int, millis: int)

  /** The throughput checkpoint (`lastTime`, `lastLoaded`) and the figures shown so far. */
  datatype Meter = Meter(lastTime: int, lastLoaded: nat, samples: seq<Sample>)

  /** What the loop leaves behind: the `chunks` array, `loaded`, the percentages shown, the meter. */
  datatype Transferred = Transferred(chunks: seq<seq<byte>>, loaded: nat, shown: seq<nat>, meter: Meter)

  /**
   * `if (total)` on `parseInt(Content-Length, 10)`: None stands for NaN
   * (header missing or not a number); both NaN and 0 are falsy.
   */
  predicate Known(total: Option<nat>) {
    total.Some? && total.value > 0
  }

  /** The bytes of each reading, in arrival order. */
  function Bytes(rs: seq<Reading>): seq<seq<byte>> {
    seq(|rs|, i requires 0 <= i < |rs| => rs[i].bytes)
  }

  /** The sum of the chunk lengths. */
  function TotalLength(cs: seq<seq<byte>>): nat {
    if cs == [] then 0 else TotalLength(cs[..|cs| - 1]) + |cs[|cs| - 1]|
  }

  /** `new Blob(chunks)`: the chunks laid end to end. */
  function Concat(cs: seq<seq<byte>>): seq<byte> {
    if cs == [] then [] else Concat(cs[..|cs| - 1]) + cs[|cs| - 1]
  }

  /** The saved payload is exactly `loaded` bytes long. */
  lemma {:induction false} ConcatLength(cs: seq<seq<byte>>)
    ensures |Concat(cs)| == TotalLength(cs)
  {
    if cs != [] {
      ConcatLength(cs[..|cs| - 1]);
    }
  }

  /** The payload holds every chunk, in arrival order, at the offset of the bytes before it. */
  lemma {:induction false} ConcatHoldsChunk(cs: seq<seq<byte>>, k: nat)
    requires k < |cs|
    ensures TotalLength(cs[..k]) + |cs[k]| <= |Concat(cs)|
    ensures Concat(cs)[TotalLength(cs[..k])..TotalLength(cs[..k]) + |cs[k]|] == cs[k]
  {
    var front := cs[..|cs| - 1];
    ConcatLength(cs);
    ConcatLength(front);
    if k == |cs| - 1 {
      assert cs[..k] == front;
    } else {
      assert front[..k] == cs[..k];
      ConcatHoldsChunk(front, k);
    }
  }

  /** `loaded` once the first k readings are in. */
  function LoadedAfter(rs: seq<Reading>, k: nat): nat
    requires k <= |rs|
  {
    if k == 0 then 0 else LoadedAfter(rs, k - 1) + |rs[k - 1].bytes|
  }

  /** `loaded` is the total length of the chunks buffered so far. */
  lemma {:induction false} LoadedIsTotalLength(rs: seq<Reading>, k: nat)
    requires k <= |rs|
    ensures LoadedAfter(rs, k) == TotalLength(Bytes(rs)[..k])
  {
    if k > 0 {
      LoadedIsTotalLength(rs, k - 1);
      assert Bytes(rs)[..k][..k - 1] == Bytes(rs)[..k - 1];
    }
  }

  lemma {:induction false} LoadedAfterMonotone(rs: seq<Reading>, i: nat, j: nat)
    requires i <= j <= |rs|
    ensures LoadedAfter(rs, i) <= LoadedAfter(rs, j)
    decreases j
  {
    if i < j {
      LoadedAfterMonotone(rs, i, j - 1);
    }
  }

  /**
   * One clock check of the throughput meter at time `now` with `loaded`
   * bytes in: the checkpoint moves, and a figure is shown, only when more
   * than 500 ms have passed since it last moved.
   */
  function Tick(m: Meter, now: int, loaded: nat): (m': Meter)
    ensures m'.lastTime >= m.lastTime
    ensures m' != m <==> now - m.lastTime > 500
    ensures m' != m ==> m'.lastTime == now && m'.lastLoaded == loaded
    ensures m' != m ==> m'.samples == m.samples + [Sample(loaded - m.lastLoaded, now - m.lastTime)]
  {
    if now - m.lastTime > 500 then
      Meter(now, loaded, m.samples + [Sample(loaded - m.lastLoaded, now - m.lastTime)])
    else m
  }

  /** The meter after the first k readings, starting from the checkpoint (startTime, 0). */
  function Metered(rs: seq<Reading>, k: nat, startTime: int): Meter
    requires k <= |rs|
  {
    if k == 0 then Meter(startTime, 0, [])
    else Tick(Metered(rs, k - 1, startTime), rs[k - 1].at, LoadedAfter(rs, k))
  }

  /** The percentage shown once the first k readings are in: round(100 * loaded / total). */
  function PercentAfter(rs: seq<Reading>, k: nat, total: nat): nat
    requires total > 0 && k <= |rs|
  {
    RoundedPercent(LoadedAfter(rs, k), total)
  }

  function SumBytes(ss: seq<Sample>): int {
    if ss == [] then 0 else SumBytes(ss[..|ss| - 1]) + ss[|ss| - 1].bytes
  }

  function SumMillis(ss: seq<Sample>): int {
    if ss == [] then 0 else SumMillis(ss[..|ss| - 1]) + ss[|ss| - 1].millis
  }

  /**
   * What the meter keeps true: the checkpoint trails the bytes loaded and
   * never precedes the start; every figure covers more than 500 ms and a
   * non-negative byte count; the figures add up to the checkpoint.
   */
  lemma {:induction false} MeterInvariant(rs: seq<Reading>, k: nat, startTime: int)
    requires k <= |rs|
    ensures var m := Metered(rs, k, startTime);
      && m.lastLoaded <= LoadedAfter(rs, k)
      && m.lastTime >= startTime
      && (forall s :: s in m.samples ==> s.millis > 500 && s.bytes >= 0)
      && SumBytes(m.samples) == m.lastLoaded
      && SumMillis(m.samples) == m.lastTime - startTime
  {
    if k > 0 {
      var m := Metered(rs, k - 1, startTime);
      MeterInvariant(rs, k - 1, startTime);
      LoadedAfterMonotone(rs, k - 1, k);
      var m' := Metered(rs, k, startTime);
      if m' != m {
        var ss := m'.samples;
        assert ss[..|ss| - 1] == m.samples;
      }
    }
  }

  /** The checkpoint never moves back, whatever the clock does: its time and its byte count only grow. */
  lemma {:induction false} MeterMonotone(rs: seq<Reading>, i: nat, j: nat, startTime: int)
    requires i <= j <= |rs|
    ensures Metered(rs, i, startTime).lastTime <= Metered(rs, j, startTime).lastTime
    ensures Metered(rs, i, startTime).lastLoaded <= Metered(rs, j, startTime).lastLoaded
    ensures |Metered(rs, i, startTime).samples| <= |Metered(rs, j, startTime).samples|
    decreases j
  {
    if i < j {
      MeterMonotone(rs, i, j - 1, startTime);
      MeterInvariant(rs, j - 1, startTime);
      LoadedAfterMonotone(rs, j - 1, j);
    }
  }

  /** The percentage shown never decreases from one chunk to a later one. */
  lemma PercentagesMonotone(rs: seq<Reading>, total: nat, i: nat, j: nat)
    requires total > 0 && i <= j <= |rs|
    ensures PercentAfter(rs, i, total) <= PercentAfter(rs, j, total)
  {
    LoadedAfterMonotone(rs, i, j);
    PercentMonotone(LoadedAfter(rs, i), LoadedAfter(rs, j), total);
  }

  /** When no more than `total` bytes arrive, no percentage shown exceeds 100. */
  lemma PercentagesBounded(rs: seq<Reading>, total: nat, k: nat)
    requires total > 0 && k <= |rs|
    requires LoadedAfter(rs, |rs|) <= total
    ensures PercentAfter(rs, k, total) <= 100
  {
    LoadedAfterMonotone(rs, k, |rs|);
    PercentAtMost100(LoadedAfter(rs, k), total);
  }

  /** When exactly `total` bytes arrive, the last percentage shown is 100. */
  lemma PercentagesReachFull(rs: seq<Reading>, total: nat)
    requires total > 0
    requires LoadedAfter(rs, |rs|) == total
    ensures PercentAfter(rs, |rs|, total) == 100
  {
    PercentAtMost100(total, total);
  }

  /**
   * The read loop (`while (true) { … reader.read() … }`) over the readings
   * the stream delivers before reporting `done`.
   */
  method ReadBody(readings: seq<Reading>, total: Option<nat>, startTime: int) returns (t: Transferred)
    ensures t.chunks == Bytes(readings)
    ensures t.loaded == TotalLength(t.chunks) == LoadedAfter(readings, |readings|)
    ensures Known(total) ==> |t.shown| == |readings|
    ensures Known(total) ==> forall j :: 0 <= j < |readings| ==> t.shown[j] == PercentAfter(readings, j + 1, total.value)
    ensures Known(total) ==> t.meter == Metered(readings, |readings|, startTime)
    ensures !Known(total) ==> t.shown == [] && t.meter == Meter(startTime, 0, [])
  {
    var chunks: seq<seq<byte>> := [];
    var loaded: nat := 0;
    var shown: seq<nat> := [];
    var lastTime, lastLoaded, samples := startTime, 0, [];
    var i := 0;
    while true
      invariant 0 <= i <= |readings|
      invariant |chunks| == i && forall j :: 0 <= j < i ==> chunks[j] == readings[j].bytes
      invariant loaded == LoadedAfter(readings, i)
      invariant Known(total) ==> |shown| == i
      invariant Known(total) ==> forall j :: 0 <= j < i ==> shown[j] == PercentAfter(readings, j + 1, total.value)
      invariant Known(total) ==> Meter(lastTime, lastLoaded, samples) == Metered(readings, i, startTime)
      invariant !Known(total) ==> shown == [] && Meter(lastTime, lastLoaded, samples) == Meter(startTime, 0, [])
      decreases |readings| - i
    {
      if i == |readings| {
        break;
      }
      var value := readings[i].bytes;
      chunks := chunks + [value];
      loaded := loaded + |value|;
      if total.Some? && total.value > 0 {
        var progress := RoundedPercent(loaded, total.value);
        shown := shown + [progress];
        var currentTime := readings[i].at;
        ghost var before := Meter(lastTime, lastLoaded, samples);
        var timeDiff := currentTime - lastTime;
        var bytesDiff := loaded - lastLoaded;
        if timeDiff > 500 {
          samples := samples + [Sample(bytesDiff, timeDiff)];
          lastTime := currentTime;
          lastLoaded := loaded;
        }
        assert Meter(lastTime, lastLoaded, samples) == Tick(before, currentTime, loaded);
      }
      i := i + 1;
    }
    assert chunks == Bytes(readings);
    LoadedIsTotalLength(readings, i);
    assert Bytes(readings)[..i] == chunks;
    t := Transferred(chunks, loaded, shown, Meter(lastTime, lastLoaded, samples));
  }
}
