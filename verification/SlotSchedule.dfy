/** Slot reservation: each request takes the earliest instant that is neither before its arrival
    nor less than one interval after the slot taken before it. The MangaDex request spacer keeps the
    next free instant under a mutex; the cover downloader keeps it in a one-row table. */
module SlotSchedule {
  import opened Numbers

  const MANGADEX_MIN_REQUEST_INTERVAL: nat := 250   // milliseconds
  const COVER_DOWNLOAD_INTERVAL: nat := 1000        // milliseconds

  /** The slots taken by requests arriving at `arrivals`, when `free` is the first free instant. */
  function Slots(free: int, arrivals: seq<int>, interval: nat): (slots: seq<int>)
    ensures |slots| == |arrivals|
    decreases |arrivals|
  {
    if arrivals == [] then []
    else
      var slot := Max(free, arrivals[0]);
      [slot] + Slots(slot + interval, arrivals[1..], interval)
  }

  /** The first free instant after all of `arrivals` were served. */
  function NextFree(free: int, arrivals: seq<int>, interval: nat): int
    decreases |arrivals|
  {
    if arrivals == [] then free
    else NextFree(Max(free, arrivals[0]) + interval, arrivals[1..], interval)
  }

  lemma {:induction false} ServeOneMore(free: int, arrivals: seq<int>, t: int, interval: nat)
    ensures Slots(free, arrivals + [t], interval)
         == Slots(free, arrivals, interval) + [Max(NextFree(free, arrivals, interval), t)]
    ensures NextFree(free, arrivals + [t], interval)
         == Max(NextFree(free, arrivals, interval), t) + interval
    decreases |arrivals|
  {
    if arrivals == [] {
      assert Slots(free, [t], interval) == [Max(free, t)] + Slots(Max(free, t) + interval, [], interval);
    } else {
      assert (arrivals + [t])[1..] == arrivals[1..] + [t];
      ServeOneMore(Max(free, arrivals[0]) + interval, arrivals[1..], t, interval);
    }
  }

  /** Closed form: the k-th slot is the greatest of `free + k * interval` and, for every request j up
      to k, `arrivals[j] + (k - j) * interval`. In particular no slot precedes its own request. */
  lemma {:induction false} ClosedForm(free: int, arrivals: seq<int>, interval: nat, k: nat)
    requires k < |arrivals|
    ensures var slot := Slots(free, arrivals, interval)[k];
            && slot >= free + k * interval
            && (forall j :: 0 <= j <= k ==> slot >= arrivals[j] + (k - j) * interval)
            && (slot == free + k * interval
                || exists j :: 0 <= j <= k && slot == arrivals[j] + (k - j) * interval)
    decreases k
  {
    var first := Max(free, arrivals[0]);
    var slot := Slots(free, arrivals, interval)[k];
    if k == 0 {
      assert slot == first;
      assert arrivals[0] + (0 - 0) * interval == arrivals[0];
    } else {
      var rest := arrivals[1..];
      ClosedForm(first + interval, rest, interval, k - 1);
      assert slot == Slots(first + interval, rest, interval)[k - 1];
      assert first + interval + (k - 1) * interval == first + k * interval;
      forall j | 0 <= j <= k ensures slot >= arrivals[j] + (k - j) * interval {
        if j > 0 {
          assert rest[j - 1] == arrivals[j];
        }
      }
      if slot != first + k * interval {
        var j :| 0 <= j <= k - 1 && slot == rest[j] + (k - 1 - j) * interval;
        assert slot == arrivals[j + 1] + (k - (j + 1)) * interval;
      } else if first == arrivals[0] {
        assert slot == arrivals[0] + (k - 0) * interval;
      }
    }
  }

  lemma OneMoreInterval(n: nat, interval: nat)
    ensures (n + 1) * interval == n * interval + interval
  {
  }

  /** Any two slots are at least as many intervals apart as there are reservations between them. */
  lemma {:induction false} Spacing(free: int, arrivals: seq<int>, interval: nat, i: nat, j: nat)
    requires i <= j < |arrivals|
    ensures Slots(free, arrivals, interval)[j] >= Slots(free, arrivals, interval)[i] + (j - i) * interval
    decreases j
  {
    var next := Max(free, arrivals[0]) + interval;
    if i > 0 {
      Spacing(next, arrivals[1..], interval, i - 1, j - 1);
    } else if j > 0 {
      ClosedForm(next, arrivals[1..], interval, j - 1);
      OneMoreInterval(j - 1, interval);
    }
  }

  /** No schedule that keeps the spacing and serves nobody early can serve anybody sooner. */
  lemma {:induction false} Earliest(free: int, arrivals: seq<int>, interval: nat, other: seq<int>, k: nat)
    requires |other| == |arrivals| && k < |arrivals|
    requires forall i :: 0 <= i < |other| ==> other[i] >= arrivals[i]
    requires other[0] >= free
    requires forall i :: 0 < i < |other| ==> other[i] >= other[i - 1] + interval
    ensures Slots(free, arrivals, interval)[k] <= other[k]
    decreases k
  {
    if k > 0 {
      assert other[1..][0] == other[1] >= other[0] + interval;
      forall i | 0 < i < |other[1..]| ensures other[1..][i] >= other[1..][i - 1] + interval {
        assert other[1..][i] == other[i + 1] && other[1..][i - 1] == other[i];
      }
      Earliest(Max(free, arrivals[0]) + interval, arrivals[1..], interval, other[1..], k - 1);
    }
  }

  /** The reservations whose slot falls in the half-open window [from, from + length). */
  ghost function InWindow(slots: seq<int>, from: int, length: nat): set<nat> {
    set k: nat | k < |slots| && from <= slots[k] < from + length
  }

  lemma {:induction false} RangeSize(s: set<nat>, low: nat, n: nat)
    requires forall k :: k in s ==> low <= k < low + n
    ensures |s| <= n
  {
    if n == 0 {
      assert s == {};
    } else {
      RangeSize(s - {low + n - 1}, low, n - 1);
    }
  }

  lemma {:induction false} Least(s: set<nat>) returns (m: nat)
    requires s != {}
    ensures m in s && forall k :: k in s ==> m <= k
    decreases s
  {
    var pick :| pick in s;
    m := pick;
    var below := set k | k in s && k < pick;
    if below != {} {
      m := Least(below);
    }
    forall k | k in s ensures m <= k {
      assert k in below || pick <= k;
    }
  }

  lemma Monotone(m: nat, n: nat, interval: nat)
    requires m <= n
    ensures m * interval <= n * interval
  {
  }

  /** A window no longer than n intervals holds at most n slots. */
  lemma WindowBound(free: int, arrivals: seq<int>, interval: nat, from: int, length: nat, n: nat)
    requires length <= n * interval
    ensures |InWindow(Slots(free, arrivals, interval), from, length)| <= n
  {
    var slots := Slots(free, arrivals, interval);
    var s := InWindow(slots, from, length);
    if s != {} {
      var low := Least(s);
      forall k | k in s ensures low <= k < low + n {
        Spacing(free, arrivals, interval, low, k);
        if k - low >= n {
          Monotone(n, k - low, interval);
        }
      }
      RangeSize(s, low, n);
    }
  }

  /** At most four MangaDex requests are scheduled in any second, and at most one cover download. */
  lemma PerSecond(free: int, arrivals: seq<int>, from: int)
    ensures |InWindow(Slots(free, arrivals, MANGADEX_MIN_REQUEST_INTERVAL), from, 1000)| <= 4
    ensures |InWindow(Slots(free, arrivals, COVER_DOWNLOAD_INTERVAL), from, 1000)| <= 1
  {
    WindowBound(free, arrivals, MANGADEX_MIN_REQUEST_INTERVAL, from, 1000, 4);
    WindowBound(free, arrivals, COVER_DOWNLOAD_INTERVAL, from, 1000, 1);
  }

  /** Two requests at once wait a quarter of a second for one another, two downloads a second. */
  lemma AtOnce(t: int)
    ensures Slots(t, [t, t], MANGADEX_MIN_REQUEST_INTERVAL) == [t, t + 250]
    ensures Slots(t, [t, t], COVER_DOWNLOAD_INTERVAL) == [t, t + 1000]
  {
    assert [t, t][1..] == [t];
    SingleSlot(t + 250, t, 250);
    SingleSlot(t + 1000, t, 1000);
  }

  lemma SingleSlot(free: int, t: int, interval: nat)
    ensures Slots(free, [t], interval) == [if free < t then t else free]
  {
    assert [t][1..] == [];
  }

  /** The MangaDex request spacer. */
  class MangaDexRequestLimiter {
    const minInterval: nat
    var nextRequestAt: int
    ghost const created: int
    ghost var arrivals: seq<int>   // every acquisition so far
    ghost var granted: seq<int>    // the slots handed out

    ghost predicate Valid()
      reads this
    {
      && granted == Slots(created, arrivals, minInterval)
      && nextRequestAt == NextFree(created, arrivals, minInterval)
    }

    constructor (minInterval: nat, now: int)
      ensures Valid() && arrivals == [] && created == now && this.minInterval == minInterval
    {
      this.minInterval := minInterval;
      nextRequestAt := now;
      created := now;
      arrivals := [];
      granted := [];
    }

    method Acquire(now: int) returns (scheduledAt: int)
      requires Valid()
      modifies this
      ensures Valid()
      ensures arrivals == old(arrivals) + [now] && granted == old(granted) + [scheduledAt]
    {
      ServeOneMore(created, arrivals, now, minInterval);
      scheduledAt := Max(nextRequestAt, now);
      nextRequestAt := scheduledAt + minInterval;
      arrivals := arrivals + [now];
      granted := granted + [scheduledAt];
    }
  }

  /** The single row that schedules cover downloads. */
  class DownloadSchedule {
    var nextDownloadAt: int
    ghost const created: int
    ghost var arrivals: seq<int>
    ghost var granted: seq<int>

    ghost predicate Valid()
      reads this
    {
      && granted == Slots(created, arrivals, COVER_DOWNLOAD_INTERVAL)
      && nextDownloadAt == NextFree(created, arrivals, COVER_DOWNLOAD_INTERVAL)
    }

    constructor (now: int)
      ensures Valid() && arrivals == [] && created == now
    {
      nextDownloadAt := now;
      created := now;
      arrivals := [];
      granted := [];
    }

    /** The update moves the row one interval past the slot and returns the slot itself. */
    method WaitForDownloadSlot(now: int) returns (scheduledAt: int)
      requires Valid()
      modifies this
      ensures Valid()
      ensures arrivals == old(arrivals) + [now] && granted == old(granted) + [scheduledAt]
    {
      ServeOneMore(created, arrivals, now, COVER_DOWNLOAD_INTERVAL);
      nextDownloadAt := Max(nextDownloadAt, now) + COVER_DOWNLOAD_INTERVAL;
      scheduledAt := nextDownloadAt - COVER_DOWNLOAD_INTERVAL;
      arrivals := arrivals + [now];
      granted := granted + [scheduledAt];
    }
  }
}
