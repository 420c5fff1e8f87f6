/** What whole refreshes of the volume table do. */
module VolumeSyncRuns {
  import opened Numbers
  import opened Options
  import opened VolumeSync

  // ---------------------------------------------------------------- paging

  lemma PageThenRest(rows: seq<Row>, covers: seq<Cover>, offset: nat, upTo: nat)
    requires offset + PAGE <= upTo <= |covers|
    ensures UpsertAll(rows, covers[offset..upTo]) ==
            var first := UpsertAll(rows, PageAt(covers, offset));
            if first.Violation? then first else UpsertAll(first.rows, covers[offset + PAGE..upTo])
  {
    assert covers[offset..upTo] == PageAt(covers, offset) + covers[offset + PAGE..upTo];
    UpsertAllConcat(rows, PageAt(covers, offset), covers[offset + PAGE..upTo]);
  }

  /** Whatever happens, the rows committed are those of some prefix of the remaining list, in order. A
      loop that runs to its end has taken the whole list, each cover once; without a failing request it
      does run to its end unless a cover conflicts. */
  lemma {:induction false} PagesAreOneList(rows: seq<Row>, remote: Remote, offset: nat) returns (upTo: nat)
    requires offset <= |remote.covers|
    ensures offset <= upTo <= |remote.covers|
    ensures UpsertAll(rows, remote.covers[offset..upTo]) == Committed(SyncPages(rows, remote, offset).0)
    ensures SyncPages(rows, remote, offset).1 ==> upTo == |remote.covers|
    ensures remote.failsAt.None? && UpsertAll(rows, remote.covers[offset..|remote.covers|]).Committed? ==>
              SyncPages(rows, remote, offset).1
    decreases |remote.covers| - offset
  {
    var n := |remote.covers|;
    PagesUnfold(rows, remote, offset);
    upTo := offset;
    assert remote.covers[offset..upTo] == [];
    var first := UpsertAll(rows, PageAt(remote.covers, offset));
    if remote.failsAt == Some(offset) || offset == n {
    } else if offset + PAGE > n {
      assert PageAt(remote.covers, offset) == remote.covers[offset..n];
      if first.Committed? {
        upTo := n;
      }
    } else {
      PageThenRest(rows, remote.covers, offset, n);
      if first.Committed? {
        upTo := PagesAreOneList(first.rows, remote, offset + PAGE);
        PageThenRest(rows, remote.covers, offset, upTo);
      }
    }
  }

  /** A refresh without failing requests or conflicts, as one pass over the list and a sweep. */
  lemma RefreshIs(t: Table, covers: seq<Cover>, now: int)
    requires UpsertAll(t.rows, covers).Committed?
    ensures Refresh(t, Remote(covers, None), now)
         == (Table(Sweep(UpsertAll(t.rows, covers).rows, Ids(covers), now), Some(now)), true)
  {
    var upTo := PagesAreOneList(t.rows, Remote(covers, None), 0);
    assert covers[0..|covers|] == covers;
  }

  /** Does the page loop, from an offset on, reach the request that fails? Requests are made page by page up
      to the length of the list. */
  predicate ReachesFailure(remote: Remote, offset: nat)
    decreases |remote.covers| - offset
  {
    offset <= |remote.covers| && (remote.failsAt == Some(offset) || ReachesFailure(remote, offset + PAGE))
  }

  lemma {:induction false} ReachesFailureIff(remote: Remote, offset: nat)
    requires offset % 50 == 0
    ensures ReachesFailure(remote, offset) <==>
            && remote.failsAt.Some? && offset <= remote.failsAt.value <= |remote.covers|
            && remote.failsAt.value % 50 == 0
    decreases |remote.covers| - offset
  {
    if offset <= |remote.covers| && remote.failsAt != Some(offset) {
      ReachesFailureIff(remote, offset + PAGE);
    }
  }

  lemma {:induction false} ReachedFails(rows: seq<Row>, remote: Remote, offset: nat)
    requires ReachesFailure(remote, offset)
    ensures !SyncPages(rows, remote, offset).1
    decreases |remote.covers| - offset
  {
    PagesUnfold(rows, remote, offset);
    var first := UpsertAll(rows, PageAt(remote.covers, offset));
    if remote.failsAt != Some(offset) && first.Committed? {
      ReachedFails(first.rows, remote, offset + PAGE);
    }
  }

  /** A failure that the loop does not reach makes no difference. */
  lemma {:induction false} UnreachedIsNone(rows: seq<Row>, remote: Remote, offset: nat)
    requires offset <= |remote.covers| && !ReachesFailure(remote, offset)
    ensures SyncPages(rows, remote, offset) == SyncPages(rows, Remote(remote.covers, None), offset)
    decreases |remote.covers| - offset
  {
    PagesUnfold(rows, remote, offset);
    PagesUnfold(rows, Remote(remote.covers, None), offset);
    var first := UpsertAll(rows, PageAt(remote.covers, offset));
    if offset + PAGE <= |remote.covers| && first.Committed? {
      UnreachedIsNone(first.rows, remote, offset + PAGE);
    }
  }

  /** A refresh completes exactly when none of its requests fails and no cover violates a constraint. */
  lemma RefreshCompletes(t: Table, remote: Remote, now: int)
    ensures Refresh(t, remote, now).1 <==>
            UpsertAll(t.rows, remote.covers).Committed? && !ReachesFailure(remote, 0)
  {
    if ReachesFailure(remote, 0) {
      ReachedFails(t.rows, remote, 0);
    } else if Refresh(t, remote, now).1 {
      RefreshDone(t, remote, now);
    } else if UpsertAll(t.rows, remote.covers).Committed? {
      UnreachedIsNone(t.rows, remote, 0);
      RefreshIs(t, remote.covers, now);
    }
  }

  /** What a completed refresh leaves: the whole list upserted, then swept, then stamped. */
  lemma RefreshDone(t: Table, remote: Remote, now: int)
    requires Refresh(t, remote, now).1
    ensures UpsertAll(t.rows, remote.covers).Committed?
    ensures Refresh(t, remote, now).0
         == Table(Sweep(UpsertAll(t.rows, remote.covers).rows, Ids(remote.covers), now), Some(now))
  {
    var upTo := PagesAreOneList(t.rows, remote, 0);
    assert remote.covers[0..|remote.covers|] == remote.covers;
  }

  // ---------------------------------------------------------------- reconciliation

  /** No cover claims the row: it has no cover id, and if it is active no listed cover has its key and
      locale. */
  predicate IsUnclaimed(row: Row, covers: seq<Cover>) {
    && row.coverId.None?
    && (IsActive(row) && row.key.Some? ==>
          forall k :: 0 <= k < |covers| && IsListed(covers[k]) ==>
            covers[k].key != row.key || LocaleOf(covers[k]) != row.locale)
  }

  lemma UpsertKeeps(rows: seq<Row>, c: Cover)
    requires Upsert(rows, c).Committed?
    ensures var after := Upsert(rows, c).rows;
            && |rows| <= |after|
            && (forall i :: 0 <= i < |rows| && IsActive(rows[i]) ==> IsActive(after[i]))
            && (forall i :: 0 <= i < |rows| && IsUnclaimed(rows[i], [c]) ==> after[i] == rows[i])
  {
    assert [c][0] == c;
  }

  lemma {:induction false} UpsertAllKeeps(rows: seq<Row>, covers: seq<Cover>)
    requires UpsertAll(rows, covers).Committed?
    ensures var after := UpsertAll(rows, covers).rows;
            && |rows| <= |after|
            && (forall i :: 0 <= i < |rows| && IsActive(rows[i]) ==> IsActive(after[i]))
            && (forall i :: 0 <= i < |rows| && IsUnclaimed(rows[i], covers) ==> after[i] == rows[i])
  {
    if covers != [] {
      var last := |covers| - 1;
      UpsertAllKeeps(rows, covers[..last]);
      UpsertKeeps(UpsertAll(rows, covers[..last]).rows, covers[last]);
    }
  }

  /** A refresh that completes leaves no active row whose cover id is not on the remote list, touches no
      unclaimed row, keeps both indexes and stamps the table. One that does not complete deletes nothing
      and does not stamp. */
  lemma Reconciliation(t: Table, remote: Remote, now: int)
    requires Consistent(t.rows)
    ensures var (after, done) := Refresh(t, remote, now);
            && Consistent(after.rows) && |t.rows| <= |after.rows|
            && (done ==> forall i :: 0 <= i < |after.rows| && IsActive(after.rows[i]) && after.rows[i].coverId.Some? ==>
                  after.rows[i].coverId.value in Ids(remote.covers))
            && (forall i :: 0 <= i < |t.rows| && IsUnclaimed(t.rows[i], remote.covers) ==> after.rows[i] == t.rows[i])
            && (!done ==> forall i :: 0 <= i < |t.rows| && IsActive(t.rows[i]) ==> IsActive(after.rows[i]))
            && after.syncedAt == (if done then Some(now) else t.syncedAt)
  {
    var (rows, done) := SyncPages(t.rows, remote, 0);
    var upTo := PagesAreOneList(t.rows, remote, 0);
    var covers := remote.covers[0..upTo];
    UpsertAllKeeps(t.rows, covers);
    UpsertAllConsistent(t.rows, covers);
    forall i | 0 <= i < |t.rows| && IsUnclaimed(t.rows[i], remote.covers)
      ensures IsUnclaimed(t.rows[i], covers)
    {
    }
    if done {
      SweepKeepsConstraints(rows, Ids(remote.covers), now);
    }
  }

  lemma SweepKeepsConstraints(rows: seq<Row>, ids: seq<nat>, now: int)
    requires Consistent(rows)
    ensures Consistent(Sweep(rows, ids, now))
  {
    var after := Sweep(rows, ids, now);
    forall i, j | 0 <= i < j < |after| ensures !SameIdentity(after[i], after[j]) {
      assert !SameIdentity(rows[i], rows[j]);
    }
  }

  // ---------------------------------------------------------------- slots

  /** What a cover competes for: a key and locale, or, without a key, its own id. */
  datatype Slot = Numbered(key: NumberKey, locale: string) | Unnumbered(id: Option<nat>)

  function SlotOf(c: Cover): Slot {
    if c.key.Some? then Numbered(c.key.value, LocaleOf(c)) else Unnumbered(Some(c.id))
  }

  function RowSlot(row: Row): Slot {
    if row.key.Some? then Numbered(row.key.value, row.locale) else Unnumbered(row.coverId)
  }

  predicate Competes(c: Cover, slot: Slot) { IsListed(c) && SlotOf(c) == slot }

  /** A cover id always names the same slot. Holds of every list with distinct ids, and of that list
      repeated. */
  ghost predicate StableIds(history: seq<Cover>) {
    forall i, j :: 0 <= i < |history| && 0 <= j < |history| && history[i].id == history[j].id ==>
      SlotOf(history[i]) == SlotOf(history[j])
  }

  predicate Yields(slot: Slot, held: Cover, offered: Cover) {
    slot.Unnumbered? || MayReplace(held.updatedAt, offered.updatedAt)
  }

  /** The cover left in a slot when the covers of a history are offered in turn. */
  function Survivor(history: seq<Cover>, slot: Slot): (survivor: Option<Cover>)
    ensures survivor.Some? ==> Competes(survivor.value, slot) && survivor.value in history
    ensures survivor.None? ==> forall k :: 0 <= k < |history| ==> !Competes(history[k], slot)
  {
    if history == [] then None
    else
      var c := history[|history| - 1];
      var held := Survivor(history[..|history| - 1], slot);
      if Competes(c, slot) && (held.None? || Yields(slot, held.value, c)) then Some(c) else held
  }

  lemma SurvivorAppend(history: seq<Cover>, c: Cover, slot: Slot)
    ensures var held := Survivor(history, slot);
            Survivor(history + [c], slot) ==
            if Competes(c, slot) && (held.None? || Yields(slot, held.value, c)) then Some(c) else held
  {
    assert (history + [c])[..|history|] == history;
  }

  // ---------------------------------------------------------------- who survives

  /** Some competitor in [from, to) has no time. */
  ghost predicate HasTimeless(history: seq<Cover>, slot: Slot, from: nat, to: nat)
    requires to <= |history|
  {
    exists n :: from <= n < to && Competes(history[n], slot) && history[n].updatedAt.None?
  }

  /** Competitor m, listed before i, cannot hold the slot against i: both have times and m's is not
      greater, or a cover without a time (possibly m or i) let i in. Unnumbered slots always yield. */
  ghost predicate Outdone(history: seq<Cover>, slot: Slot, m: nat, i: nat)
    requires m < i < |history|
  {
    || slot.Unnumbered? || history[i].updatedAt.None? || HasTimeless(history, slot, m, i)
    || (history[m].updatedAt.Some? && history[m].updatedAt.value <= history[i].updatedAt.value)
  }

  /** An independent description of the survivor of a slot: every competitor before it is outdone, and it
      yields to none after it. */
  ghost predicate IsWinner(history: seq<Cover>, slot: Slot, i: nat) {
    && i < |history| && Competes(history[i], slot)
    && (forall m :: i < m < |history| && Competes(history[m], slot) ==> !Yields(slot, history[i], history[m]))
    && (forall m :: 0 <= m < i && Competes(history[m], slot) ==> Outdone(history, slot, m, i))
  }

  lemma OutdoneLonger(history: seq<Cover>, slot: Slot, n: nat, m: nat, i: nat)
    requires m < i < n <= |history| && Outdone(history[..n], slot, m, i)
    ensures Outdone(history, slot, m, i)
  {
    if HasTimeless(history[..n], slot, m, i) {
      var k :| m <= k < i && Competes(history[..n][k], slot) && history[..n][k].updatedAt.None?;
      assert Competes(history[k], slot);
    }
  }

  /** Whoever was outdone by the holder, or could not replace it, is outdone by the one that did. */
  lemma OutdoneByNext(history: seq<Cover>, slot: Slot, j: nat, i: nat, m: nat)
    requires j < i < |history| && m < i && Competes(history[j], slot) && Competes(history[m], slot)
    requires Yields(slot, history[j], history[i])
    requires m < j ==> Outdone(history, slot, m, j)
    requires m > j ==> !Yields(slot, history[j], history[m])
    ensures Outdone(history, slot, m, i)
  {
    if m <= j && history[j].updatedAt.None? {
      assert HasTimeless(history, slot, m, i);
    } else if m < j && HasTimeless(history, slot, m, j) {
      var k :| m <= k < j && Competes(history[k], slot) && history[k].updatedAt.None?;
      assert HasTimeless(history, slot, m, i);
    }
  }

  lemma WinnerSoFar(history: seq<Cover>, slot: Slot, j: nat)
    requires history != [] && IsWinner(history[..|history| - 1], slot, j)
    ensures forall m :: 0 <= m < |history| - 1 && Competes(history[m], slot) ==>
              (m < j ==> Outdone(history, slot, m, j)) && (m > j ==> !Yields(slot, history[j], history[m]))
  {
    var last := |history| - 1;
    var rest := history[..last];
    forall m | 0 <= m < last && Competes(history[m], slot)
      ensures m < j ==> Outdone(history, slot, m, j)
      ensures m > j ==> !Yields(slot, history[j], history[m])
    {
      assert rest[m] == history[m];
      if m < j {
        OutdoneLonger(history, slot, last, m, j);
      }
    }
  }

  lemma {:induction false} SurvivorWins(history: seq<Cover>, slot: Slot) returns (i: nat)
    requires Survivor(history, slot).Some?
    ensures IsWinner(history, slot, i) && Survivor(history, slot) == Some(history[i])
  {
    var last := |history| - 1;
    var rest := history[..last];
    assert forall m :: 0 <= m < last ==> rest[m] == history[m];
    i := last;
    if Survivor(rest, slot).Some? {
      var j := SurvivorWins(rest, slot);
      WinnerSoFar(history, slot, j);
      if Competes(history[last], slot) && Yields(slot, history[j], history[last]) {
        forall m | 0 <= m < last && Competes(history[m], slot) ensures Outdone(history, slot, m, last) {
          OutdoneByNext(history, slot, j, last, m);
        }
      } else {
        i := j;
      }
    }
  }

  lemma OneWinner(history: seq<Cover>, slot: Slot, i: nat, j: nat)
    requires IsWinner(history, slot, i) && IsWinner(history, slot, j)
    ensures i == j
  {
    if i < j {
      OneWinnerOrdered(history, slot, i, j);
    } else if j < i {
      OneWinnerOrdered(history, slot, j, i);
    }
  }

  lemma OneWinnerOrdered(history: seq<Cover>, slot: Slot, i: nat, j: nat)
    requires i < j < |history| && IsWinner(history, slot, i)
    ensures !IsWinner(history, slot, j)
  {
    if Competes(history[j], slot) && HasTimeless(history, slot, i, j) {
      var n :| i <= n < j && Competes(history[n], slot) && history[n].updatedAt.None?;
      assert n != i ==> Yields(slot, history[i], history[n]);
    }
  }

  /** When every cover offered to a numbered slot carries a time, the survivor is the last-listed among
      those with the greatest time. */
  lemma FreshnessWinner(history: seq<Cover>, slot: Slot, i: nat)
    requires slot.Numbered? && i < |history| && Competes(history[i], slot)
    requires forall m :: 0 <= m < |history| && Competes(history[m], slot) ==> history[m].updatedAt.Some?
    ensures IsWinner(history, slot, i) <==>
            && (forall m :: 0 <= m < |history| && Competes(history[m], slot) ==>
                  history[m].updatedAt.value <= history[i].updatedAt.value)
            && (forall m :: i < m < |history| && Competes(history[m], slot) ==>
                  history[m].updatedAt.value != history[i].updatedAt.value)
  {
    assert forall m :: 0 <= m < i ==> !HasTimeless(history, slot, m, i);
  }

  /** When some cover offered to the slot lacks a time, what was listed before the last such cover does
      not matter. */
  lemma OnlyFromLastTimeless(history: seq<Cover>, slot: Slot, n: nat)
    requires n < |history| && Competes(history[n], slot) && history[n].updatedAt.None?
    ensures Survivor(history, slot) == Survivor(history[n..], slot)
  {
    TimelessTakes(history[..n], history[n..], slot);
    assert history == history[..n] + history[n..];
  }

  lemma {:induction false} TimelessTakes(before: seq<Cover>, after: seq<Cover>, slot: Slot)
    requires after != [] && Competes(after[0], slot) && after[0].updatedAt.None?
    ensures Survivor(before + after, slot) == Survivor(after, slot)
  {
    var rest, c := after[..|after| - 1], after[|after| - 1];
    assert before + after == (before + rest) + [c] && after == rest + [c];
    SurvivorAppend(before + rest, c, slot);
    SurvivorAppend(rest, c, slot);
    if rest == [] {
      assert before + rest == before;
    } else {
      TimelessTakes(before, rest, slot);
    }
  }

  /** Offering the same list again changes no survivor. */
  lemma SurvivorTwice(list: seq<Cover>, slot: Slot)
    ensures Survivor(list + list, slot) == Survivor(list, slot)
  {
    var twice := list + list;
    if Survivor(list, slot).Some? {
      var i := SurvivorWins(list, slot);
      var n := |list|;
      assert Competes(twice[i], slot);
      var j := SurvivorWins(twice, slot);
      WinnerTwice(list, slot, i);
      OneWinner(twice, slot, j, n + i);
    }
  }

  lemma TimelessTwice(list: seq<Cover>, slot: Slot, at: nat, i: nat, copy: nat)
    requires i <= |list| && HasTimeless(list, slot, at, i) && (copy == 0 || copy == |list|)
    ensures HasTimeless(list + list, slot, copy + at, |list| + i)
  {
    var k :| at <= k < i && Competes(list[k], slot) && list[k].updatedAt.None?;
    assert (list + list)[copy + k] == list[k];
  }

  lemma OutdoneTwice(list: seq<Cover>, slot: Slot, i: nat, at: nat, copy: nat)
    requires IsWinner(list, slot, i) && at < |list| && Competes(list[at], slot)
    requires copy == 0 || (copy == |list| && at < i)
    ensures Outdone(list + list, slot, copy + at, |list| + i)
  {
    var twice := list + list;
    assert twice[copy + at] == list[at] && twice[|list| + i] == list[i];
    if at < i {
      assert Outdone(list, slot, at, i);
      if HasTimeless(list, slot, at, i) {
        TimelessTwice(list, slot, at, i, copy);
      }
    } else if at > i {
      assert !Yields(slot, list[i], list[at]);
    }
  }

  lemma WinnerTwice(list: seq<Cover>, slot: Slot, i: nat)
    requires IsWinner(list, slot, i)
    ensures IsWinner(list + list, slot, |list| + i)
  {
    var twice, n := list + list, |list|;
    assert forall m :: 0 <= m < n ==> twice[m] == list[m] && twice[n + m] == list[m];
    forall m | 0 <= m < n + i && Competes(twice[m], slot) ensures Outdone(twice, slot, m, n + i) {
      if m < n {
        OutdoneTwice(list, slot, i, m, 0);
      } else {
        OutdoneTwice(list, slot, i, m - n, n);
      }
    }
    forall m | n + i < m < n + n && Competes(twice[m], slot) ensures !Yields(slot, twice[n + i], twice[m]) {
      assert Competes(list[m - n], slot);
    }
  }
}
