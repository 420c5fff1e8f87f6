/** Exactly when a refresh fails on a constraint, in terms of the table it starts from and the list. */
module RefreshViolations {
  import opened Options
  import opened VolumeSync
  import opened VolumeSyncRuns
  import opened RefreshLimits

  /** A cover id names one slot, in the list and in the table. `HomesKept` shows where this comes from; an
      edit of a row's volume may break it. */
  ghost predicate IdsKeepSlots(rows: seq<Row>, covers: seq<Cover>) {
    StableIds(covers) && forall k :: 0 <= k < |covers| ==> OwnersKeep(rows, covers[k])
  }

  /** The row that owns the cover's id, deleted or not, sits in the cover's slot. */
  ghost predicate OwnersKeep(rows: seq<Row>, c: Cover) {
    forall i :: 0 <= i < |rows| && rows[i].coverId == Some(c.id) ==> RowSlot(rows[i]) == SlotOf(c)
  }

  lemma IdsKeepStep(rows: seq<Row>, covers: seq<Cover>, p: nat)
    requires IdsKeepSlots(rows, covers) && p < |covers| && Upsert(rows, covers[p]).Committed?
    ensures IdsKeepSlots(Upsert(rows, covers[p]).rows, covers)
  {
    var after := Upsert(rows, covers[p]).rows;
    forall k | 0 <= k < |covers| ensures OwnersKeep(after, covers[k]) {
      assert OwnersKeep(rows, covers[k]);
    }
  }

  // ---------------------------------------------------------------- the time held in a slot

  /** The time stored in a numbered slot; none if no active row is in it. */
  function TimeIn(rows: seq<Row>, slot: Slot): Option<Option<int>>
    requires slot.Numbered?
  {
    match Holder(rows, Some(slot.key), slot.locale)
    case Some(at) => Some(rows[at].updatedAt)
    case None => None
  }

  function Replaced(held: Option<Option<int>>, c: Cover, slot: Slot): Option<Option<int>> {
    if Competes(c, slot) && (held.None? || MayReplace(held.value, c.updatedAt)) then Some(c.updatedAt) else held
  }

  /** The same after the covers of a list were offered to the slot, from the starting table alone. */
  function HeldTime(rows: seq<Row>, covers: seq<Cover>, slot: Slot): Option<Option<int>>
    requires slot.Numbered?
  {
    if covers == [] then TimeIn(rows, slot)
    else Replaced(HeldTime(rows, covers[..|covers| - 1], slot), covers[|covers| - 1], slot)
  }

  lemma TimeOfOccupant(rows: seq<Row>, slot: Slot, i: nat)
    requires Consistent(rows) && slot.Numbered? && i < |rows| && Occupies(rows[i], slot)
    ensures TimeIn(rows, slot) == Some(rows[i].updatedAt)
  {
    OneOccupant(rows, slot, i, Holder(rows, Some(slot.key), slot.locale).value);
  }

  lemma OthersUntouched(rows: seq<Row>, c: Cover, slot: Slot)
    requires Consistent(rows) && OwnersKeep(rows, c) && slot.Numbered? && !Competes(c, slot)
    requires Upsert(rows, c).Committed?
    ensures TimeIn(Upsert(rows, c).rows, slot) == TimeIn(rows, slot)
  {
    var after := Upsert(rows, c).rows;
    IndexSafety(rows, c);
    if i :| 0 <= i < |rows| && Occupies(rows[i], slot) {
      Bystander(rows, c, slot, i);
      TimeOfOccupant(rows, slot, i);
      TimeOfOccupant(after, slot, i);
    } else {
      forall i | 0 <= i < |after| ensures !Occupies(after[i], slot) {
        Bystander(rows, c, slot, i);
      }
    }
  }

  lemma CompetitorTime(rows: seq<Row>, c: Cover, slot: Slot)
    requires Consistent(rows) && slot.Numbered? && Competes(c, slot) && Upsert(rows, c).Committed?
    ensures TimeIn(Upsert(rows, c).rows, slot) == Replaced(TimeIn(rows, slot), c, slot)
  {
    var after := Upsert(rows, c).rows;
    IndexSafety(rows, c);
    var at := if TimeIn(rows, slot).Some? then Holder(rows, c.key, LocaleOf(c)) else Owner(rows, c.id);
    var i := if at.Some? then at.value else |rows|;
    TimeOfOccupant(after, slot, i);
  }

  // ---------------------------------------------------------------- deleted rows

  predicate IsTombstone(row: Row, id: nat) { !IsActive(row) && row.coverId == Some(id) }

  /** The id of the first cover of the list that competes for the slot. */
  function FirstIn(covers: seq<Cover>, slot: Slot): Option<nat> {
    if covers == [] then None
    else
      var c, earlier := covers[|covers| - 1], FirstIn(covers[..|covers| - 1], slot);
      if earlier.None? && Competes(c, slot) then Some(c.id) else earlier
  }

  /** The deleted row of a cover is revived: its slot was free and its cover is the first listed for it. */
  predicate IsReopened(rows: seq<Row>, covers: seq<Cover>, slot: Slot, id: nat)
    requires slot.Numbered?
  {
    TimeIn(rows, slot).None? && FirstIn(covers, slot) == Some(id)
  }

  lemma {:induction false} HeldOrFree(rows: seq<Row>, covers: seq<Cover>, slot: Slot)
    requires slot.Numbered?
    ensures HeldTime(rows, covers, slot).None? <==> TimeIn(rows, slot).None? && FirstIn(covers, slot).None?
  {
    if covers != [] {
      HeldOrFree(rows, covers[..|covers| - 1], slot);
    }
  }

  /** A committed upsert leaves every deleted row alone but the one it revives. */
  lemma TombstoneStep(rows: seq<Row>, c: Cover, j: nat, id: nat)
    requires Consistent(rows) && c.key.Some? && j < |rows| && IsTombstone(rows[j], id)
    requires Upsert(rows, c).Committed?
    ensures var after := Upsert(rows, c).rows;
            j < |after| && if IsListed(c) && c.id == id && TimeIn(rows, SlotOf(c)).None? then IsActive(after[j])
                           else after[j] == rows[j]
  {
    OwnerIs(rows, id, j);
  }

  lemma KeylessStep(rows: seq<Row>, c: Cover, j: nat, id: nat)
    requires c.key.None? && j < |rows| && IsTombstone(rows[j], id) && RowSlot(rows[j]).Numbered?
    requires OwnersKeep(rows, c) && Upsert(rows, c).Committed?
    ensures j < |Upsert(rows, c).rows| && Upsert(rows, c).rows[j] == rows[j]
  {
  }

  ghost predicate TombstonesAreOld(rows: seq<Row>, after: seq<Row>) {
    forall j :: 0 <= j < |after| && !IsActive(after[j]) ==> j < |rows| && after[j] == rows[j]
  }

  /** What became of the deleted row at j after some covers. */
  ghost predicate FateOf(rows: seq<Row>, after: seq<Row>, covers: seq<Cover>, slot: Slot, j: nat, id: nat)
    requires slot.Numbered? && j < |rows|
  {
    j < |after| && if IsReopened(rows, covers, slot, id) then IsActive(after[j]) else after[j] == rows[j]
  }

  lemma FateStep(rows: seq<Row>, cur: seq<Row>, covers: seq<Cover>, c: Cover, slot: Slot, j: nat, id: nat)
    requires slot.Numbered? && j < |rows| && IsTombstone(rows[j], id) && RowSlot(rows[j]) == slot
    requires Consistent(cur) && OwnersKeep(rows, c) && OwnersKeep(cur, c) && Upsert(cur, c).Committed?
    requires FateOf(rows, cur, covers, slot, j, id) && TimeIn(cur, slot) == HeldTime(rows, covers, slot)
    ensures FateOf(rows, Upsert(cur, c).rows, covers + [c], slot, j, id)
  {
    assert (covers + [c])[..|covers|] == covers;
    HeldOrFree(rows, covers, slot);
    UpsertKeeps(cur, c);
    if !IsReopened(rows, covers, slot, id) {
      if c.key.Some? {
        TombstoneStep(cur, c, j, id);
      } else {
        KeylessStep(cur, c, j, id);
      }
    }
  }

  // ---------------------------------------------------------------- the table after part of the list

  /** All rows of the starting table that matter later, after part of the list was upserted. */
  ghost predicate Follows(rows: seq<Row>, cur: seq<Row>, covers: seq<Cover>) {
    && |rows| <= |cur| && Consistent(cur) && TombstonesAreOld(rows, cur)
    && (forall slot: Slot :: slot.Numbered? ==> TimeIn(cur, slot) == HeldTime(rows, covers, slot))
    && (forall j, id :: 0 <= j < |rows| && IsTombstone(rows[j], id) && RowSlot(rows[j]).Numbered? ==>
          FateOf(rows, cur, covers, RowSlot(rows[j]), j, id))
  }

  lemma HeldTimeNext(rows: seq<Row>, covers: seq<Cover>, c: Cover, slot: Slot)
    requires slot.Numbered?
    ensures HeldTime(rows, covers + [c], slot) == Replaced(HeldTime(rows, covers, slot), c, slot)
  {
    assert (covers + [c])[..|covers|] == covers;
  }

  lemma FollowsStep(rows: seq<Row>, cur: seq<Row>, covers: seq<Cover>, c: Cover)
    requires Follows(rows, cur, covers) && OwnersKeep(rows, c) && OwnersKeep(cur, c) && Upsert(cur, c).Committed?
    ensures Follows(rows, Upsert(cur, c).rows, covers + [c])
  {
    var after := Upsert(cur, c).rows;
    IndexSafety(cur, c);
    UpsertKeeps(cur, c);
    forall slot: Slot | slot.Numbered? ensures TimeIn(after, slot) == HeldTime(rows, covers + [c], slot) {
      HeldTimeNext(rows, covers, c, slot);
      if Competes(c, slot) {
        CompetitorTime(cur, c, slot);
      } else {
        OthersUntouched(cur, c, slot);
      }
    }
    forall j, id | 0 <= j < |rows| && IsTombstone(rows[j], id) && RowSlot(rows[j]).Numbered?
      ensures FateOf(rows, after, covers + [c], RowSlot(rows[j]), j, id)
    {
      FateStep(rows, cur, covers, c, RowSlot(rows[j]), j, id);
    }
  }

  lemma FollowsNext(rows: seq<Row>, cur: seq<Row>, covers: seq<Cover>, p: nat)
    requires IdsKeepSlots(rows, covers) && IdsKeepSlots(cur, covers) && p < |covers|
    requires Follows(rows, cur, covers[..p]) && Upsert(cur, covers[p]).Committed?
    ensures Follows(rows, Upsert(cur, covers[p]).rows, covers[..p + 1])
    ensures IdsKeepSlots(Upsert(cur, covers[p]).rows, covers)
  {
    IdsKeepStep(cur, covers, p);
    assert OwnersKeep(rows, covers[p]) && OwnersKeep(cur, covers[p]);
    FollowsStep(rows, cur, covers[..p], covers[p]);
    assert covers[..p + 1] == covers[..p] + [covers[p]];
  }

  lemma FollowsAtFirst(rows: seq<Row>, covers: seq<Cover>)
    requires Consistent(rows)
    ensures Follows(rows, rows, covers[..0])
  {
  }

  lemma {:induction false} FollowsAlong(rows: seq<Row>, covers: seq<Cover>, n: nat)
    requires Consistent(rows) && IdsKeepSlots(rows, covers) && n <= |covers|
    requires UpsertAll(rows, covers[..n]).Committed?
    ensures Follows(rows, UpsertAll(rows, covers[..n]).rows, covers[..n])
    ensures IdsKeepSlots(UpsertAll(rows, covers[..n]).rows, covers)
  {
    if n > 0 {
      EarlierCommitted(rows, covers, n - 1);
      FollowsAlong(rows, covers, n - 1);
      FollowsNext(rows, UpsertAll(rows, covers[..n - 1]).rows, covers, n - 1);
    } else {
      assert UpsertAll(rows, covers[..0]).rows == rows;
      FollowsAtFirst(rows, covers);
    }
  }

  // ---------------------------------------------------------------- which refreshes fail

  /** A deleted row owns the id of this cover and was not revived before, and the slot of the cover is by
      then held by a row that yields to it. */
  ghost predicate IsBlocked(rows: seq<Row>, covers: seq<Cover>, k: nat)
    requires k < |covers|
  {
    var (c, before) := (covers[k], covers[..k]);
    && IsListed(c) && c.key.Some?
    && (exists j :: 0 <= j < |rows| && IsTombstone(rows[j], c.id))
    && !IsReopened(rows, before, SlotOf(c), c.id)
    && HeldTime(rows, before, SlotOf(c)).Some?
    && MayReplace(HeldTime(rows, before, SlotOf(c)).value, c.updatedAt)
  }

  /** The next upsert commits exactly if its locale is not blank and it is not blocked. */
  lemma NextCommits(rows: seq<Row>, covers: seq<Cover>, k: nat)
    requires Consistent(rows) && IdsKeepSlots(rows, covers) && k < |covers|
    requires UpsertAll(rows, covers[..k]).Committed?
    ensures UpsertAll(rows, covers[..k + 1]).Committed? <==> IsStorable(covers[k]) && !IsBlocked(rows, covers, k)
  {
    var cur, c := UpsertAll(rows, covers[..k]).rows, covers[k];
    FollowsAlong(rows, covers, k);
    UpsertNext(rows, covers, k);
    IndexSafety(cur, c);
    assert OwnersKeep(rows, c) && OwnersKeep(cur, c);
    if IsBlocked(rows, covers, k) {
      BlockedViolates(rows, cur, covers, k);
    } else if Upsert(cur, c) == Violation(CoverIdIndex) {
      ViolationIsBlocked(rows, cur, covers, k);
    }
  }

  lemma BlockedViolates(rows: seq<Row>, cur: seq<Row>, covers: seq<Cover>, k: nat)
    requires k < |covers| && Follows(rows, cur, covers[..k]) && OwnersKeep(rows, covers[k])
    requires IsBlocked(rows, covers, k)
    ensures Upsert(cur, covers[k]).Violation?
  {
    var c := covers[k];
    var j :| 0 <= j < |rows| && IsTombstone(rows[j], c.id);
    assert FateOf(rows, cur, covers[..k], RowSlot(rows[j]), j, c.id);
    var i := Holder(cur, c.key, LocaleOf(c)).value;
    assert i != j && cur[j].coverId == Some(c.id);
    IndexSafety(cur, c);
  }

  lemma ViolationIsBlocked(rows: seq<Row>, cur: seq<Row>, covers: seq<Cover>, k: nat)
    requires k < |covers| && Follows(rows, cur, covers[..k])
    requires OwnersKeep(rows, covers[k]) && OwnersKeep(cur, covers[k])
    requires Upsert(cur, covers[k]) == Violation(CoverIdIndex)
    ensures IsBlocked(rows, covers, k)
  {
    var c := covers[k];
    IndexSafety(cur, c);
    var i, j :| 0 <= i < |cur| && 0 <= j < |cur| && i != j && IsActive(cur[i]) && cur[i].key == c.key
                && cur[i].locale == LocaleOf(c) && MayReplace(cur[i].updatedAt, c.updatedAt)
                && cur[j].coverId == Some(c.id);
    TimeOfOccupant(cur, SlotOf(c), i);
    if IsActive(cur[j]) {
      OneOccupant(cur, SlotOf(c), i, j);
    }
    assert IsTombstone(rows[j], c.id);
    assert FateOf(rows, cur, covers[..k], RowSlot(rows[j]), j, c.id);
  }

  ghost predicate NoneBlocked(rows: seq<Row>, covers: seq<Cover>) {
    forall k :: 0 <= k < |covers| ==> !IsBlocked(rows, covers, k)
  }

  lemma CommittedUnblocked(rows: seq<Row>, covers: seq<Cover>, k: nat)
    requires Consistent(rows) && IdsKeepSlots(rows, covers) && k < |covers|
    requires UpsertAll(rows, covers).Committed?
    ensures !IsBlocked(rows, covers, k)
  {
    CommittedPrefix(rows, covers, k);
    CommittedPrefix(rows, covers, k + 1);
    NextCommits(rows, covers, k);
  }

  lemma {:induction false} UnblockedCommits(rows: seq<Row>, covers: seq<Cover>, n: nat)
    requires Consistent(rows) && IdsKeepSlots(rows, covers) && AreStorable(covers) && n <= |covers|
    requires NoneBlocked(rows, covers)
    ensures UpsertAll(rows, covers[..n]).Committed?
  {
    if n > 0 {
      UnblockedCommits(rows, covers, n - 1);
      NextCommits(rows, covers, n - 1);
    }
  }

  /** Exactly when a refresh completes: no request of the loop fails, no listed cover has a blank locale, and
      none is blocked by a deleted row. */
  lemma RefreshCompletesIff(t: Table, remote: Remote, now: int)
    requires Consistent(t.rows) && IdsKeepSlots(t.rows, remote.covers)
    ensures Refresh(t, remote, now).1 <==>
            && !ReachesFailure(remote, 0) && AreStorable(remote.covers)
            && NoneBlocked(t.rows, remote.covers)
  {
    var (rows, covers) := (t.rows, remote.covers);
    RefreshCompletes(t, remote, now);
    UpsertAllConsistent(rows, covers);
    assert covers[..|covers|] == covers;
    if UpsertAll(rows, covers).Committed? {
      forall k | 0 <= k < |covers| ensures !IsBlocked(rows, covers, k) {
        CommittedUnblocked(rows, covers, k);
      }
    } else if AreStorable(covers) && NoneBlocked(rows, covers) {
      UnblockedCommits(rows, covers, |covers|);
    }
  }

  /** In particular when no deleted row owns the id of a listed cover. */
  lemma CompletesWithoutTombstones(t: Table, covers: seq<Cover>, now: int)
    requires Consistent(t.rows) && IdsKeepSlots(t.rows, covers) && AreStorable(covers)
    requires forall i, k :: 0 <= i < |t.rows| && 0 <= k < |covers| ==> !IsTombstone(t.rows[i], covers[k].id)
    ensures Refresh(t, Remote(covers, None), now).1
  {
    RefreshCompletesIff(t, Remote(covers, None), now);
    ReachesFailureIff(Remote(covers, None), 0);
  }

  ghost predicate ClashesInTurn(rows: seq<Row>, covers: seq<Cover>, k: nat)
    requires k < |covers|
  {
    UpsertAll(rows, covers[..k]).Committed? && Clashes(UpsertAll(rows, covers[..k]).rows, covers[k])
  }

  lemma CommittedInTurn(rows: seq<Row>, covers: seq<Cover>, k: nat)
    requires Consistent(rows) && k < |covers| && UpsertAll(rows, covers[..k]).Committed?
    ensures UpsertAll(rows, covers[..k + 1]).Committed? <==> IsStorable(covers[k]) && !ClashesInTurn(rows, covers, k)
  {
    UpsertAllConsistent(rows, covers[..k]);
    UpsertNext(rows, covers, k);
    IndexSafety(UpsertAll(rows, covers[..k]).rows, covers[k]);
  }

  lemma {:induction false} UnclashedCommits(rows: seq<Row>, covers: seq<Cover>, n: nat)
    requires Consistent(rows) && AreStorable(covers) && n <= |covers|
    requires forall k :: 0 <= k < |covers| ==> !ClashesInTurn(rows, covers, k)
    ensures UpsertAll(rows, covers[..n]).Committed?
  {
    if n > 0 {
      UnclashedCommits(rows, covers, n - 1);
      CommittedInTurn(rows, covers, n - 1);
    }
  }

  /** The same for every table, edited or not, cover by cover. */
  lemma AnyRefreshCompletesIff(t: Table, remote: Remote, now: int)
    requires Consistent(t.rows)
    ensures Refresh(t, remote, now).1 <==>
            && !ReachesFailure(remote, 0) && AreStorable(remote.covers)
            && forall k :: 0 <= k < |remote.covers| ==> !ClashesInTurn(t.rows, remote.covers, k)
  {
    var (rows, covers) := (t.rows, remote.covers);
    RefreshCompletes(t, remote, now);
    UpsertAllConsistent(rows, covers);
    assert covers[..|covers|] == covers;
    if UpsertAll(rows, covers).Committed? {
      forall k | 0 <= k < |covers| ensures !ClashesInTurn(rows, covers, k) {
        CommittedPrefix(rows, covers, k);
        CommittedPrefix(rows, covers, k + 1);
        CommittedInTurn(rows, covers, k);
      }
    } else if AreStorable(covers) && forall k :: 0 <= k < |covers| ==> !ClashesInTurn(rows, covers, k) {
      UnclashedCommits(rows, covers, |covers|);
    }
  }

  // ---------------------------------------------------------------- where cover ids keep their slots

  /** Every row stemming from a cover, deleted or not, sits in the slot assigned to its cover id. */
  ghost predicate AtHome(rows: seq<Row>, home: nat -> Slot) {
    forall i :: 0 <= i < |rows| && rows[i].coverId.Some? ==> RowSlot(rows[i]) == home(rows[i].coverId.value)
  }

  ghost predicate ListedAtHome(covers: seq<Cover>, home: nat -> Slot) {
    forall k :: 0 <= k < |covers| ==> SlotOf(covers[k]) == home(covers[k].id)
  }

  lemma {:induction false} UpsertsAtHome(rows: seq<Row>, covers: seq<Cover>, home: nat -> Slot)
    requires AtHome(rows, home) && ListedAtHome(covers, home) && UpsertAll(rows, covers).Committed?
    ensures AtHome(UpsertAll(rows, covers).rows, home)
  {
    if covers != [] {
      UpsertsAtHome(rows, covers[..|covers| - 1], home);
    }
  }

  /** As long as MangaDex moves no cover to another volume or language and no row is edited locally, every
      refresh, completed or not, finds and leaves the ids in their slots. */
  lemma HomesKept(t: Table, remote: Remote, home: nat -> Slot, now: int)
    requires AtHome(t.rows, home) && ListedAtHome(remote.covers, home)
    ensures IdsKeepSlots(t.rows, remote.covers)
    ensures AtHome(Refresh(t, remote, now).0.rows, home)
  {
    var (rows, done) := SyncPages(t.rows, remote, 0);
    var upTo := PagesAreOneList(t.rows, remote, 0);
    UpsertsAtHome(t.rows, remote.covers[0..upTo], home);
  }
}
