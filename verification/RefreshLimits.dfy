/** What a refresh of an arbitrary table does not guarantee, and exactly when it does. */
module RefreshLimits {
  import opened Options
  import opened VolumeSync
  import opened VolumeSyncRuns

  // ---------------------------------------------------------------- a listed volume lost, then stuck

  /** Two covers of one numbered volume, the first with the greater time. */
  predicate Rivals(newer: Cover, older: Cover) {
    && IsListed(newer) && IsListed(older) && newer.id != older.id && !IsBlankLocale(LocaleOf(newer))
    && newer.key.Some? && newer.key == older.key && LocaleOf(newer) == LocaleOf(older)
    && newer.updatedAt.Some? && older.updatedAt.Some? && older.updatedAt.value < newer.updatedAt.value
  }

  function Dead(c: Cover, now: int): Row { RowOf(c).(deletedAt := Some(now)) }

  lemma RefreshOne(t: Table, c: Cover, now: int)
    ensures Refresh(t, Remote([c], None), now) ==
            if Upsert(t.rows, c).Committed? then (Table(Sweep(Upsert(t.rows, c).rows, [c.id], now), Some(now)), true)
            else (t, false)
  {
    var remote := Remote([c], None);
    assert [c][0..1] == [c];
    assert [c][..0] == [] && [c][0] == c;
    assert UpsertAll(t.rows, [c]) == Upsert(t.rows, c);
    assert Ids([c]) == [c.id];
  }

  lemma NewVolume(newer: Cover)
    requires IsListed(newer) && !IsBlankLocale(LocaleOf(newer))
    ensures Upsert([], newer) == Committed([RowOf(newer)])
  {
    assert [] + [RowOf(newer)] == [RowOf(newer)];
  }

  lemma OlderRefused(newer: Cover, older: Cover)
    requires Rivals(newer, older)
    ensures Upsert([RowOf(newer)], older) == Committed([RowOf(newer)])
  {
    assert [RowOf(newer)][0] == RowOf(newer);
  }

  lemma OlderReturns(newer: Cover, older: Cover, now: int)
    requires Rivals(newer, older)
    ensures Upsert([Dead(newer, now)], older) == Committed([Dead(newer, now), RowOf(older)])
  {
    assert [Dead(newer, now)] + [RowOf(older)] == [Dead(newer, now), RowOf(older)];
  }

  lemma NewerConflicts(newer: Cover, older: Cover, now: int)
    requires Rivals(newer, older)
    ensures Upsert([Dead(newer, now), RowOf(older)], newer) == Violation(CoverIdIndex)
  {
    var rows := [Dead(newer, now), RowOf(older)];
    assert IsActive(rows[1]) && rows[1].key == newer.key && rows[1].locale == LocaleOf(newer);
    assert rows[0].coverId == Some(newer.id);
    assert Consistent(rows);
    IndexSafety(rows, newer);
  }

  lemma SweepPair(first: Row, second: Row, ids: seq<nat>, now: int)
    ensures Sweep([first], ids, now) == [Swept(first, ids, now)]
    ensures Sweep([first, second], ids, now) == [Swept(first, ids, now), Swept(second, ids, now)]
  {
  }

  lemma FirstOfFour(newer: Cover, now: int)
    requires IsListed(newer) && !IsBlankLocale(LocaleOf(newer))
    ensures Refresh(Table([], None), Remote([newer], None), now) == (Table([RowOf(newer)], Some(now)), true)
  {
    NewVolume(newer);
    RefreshOne(Table([], None), newer, now);
    SweepPair(RowOf(newer), RowOf(newer), [newer.id], now);
  }

  lemma SecondOfFour(newer: Cover, older: Cover, now: int)
    requires Rivals(newer, older)
    ensures Refresh(Table([RowOf(newer)], Some(now)), Remote([older], None), now)
         == (Table([Dead(newer, now)], Some(now)), true)
  {
    OlderRefused(newer, older);
    RefreshOne(Table([RowOf(newer)], Some(now)), older, now);
    SweepPair(RowOf(newer), RowOf(newer), [older.id], now);
  }

  lemma LastTwoRefreshes(newer: Cover, older: Cover, now: int)
    requires Rivals(newer, older)
    ensures var stuck := Table([Dead(newer, now), RowOf(older)], Some(now));
            && Refresh(Table([Dead(newer, now)], Some(now)), Remote([older], None), now) == (stuck, true)
            && Refresh(stuck, Remote([newer], None), now) == (stuck, false)
  {
    OlderReturns(newer, older, now);
    RefreshOne(Table([Dead(newer, now)], Some(now)), older, now);
    SweepPair(Dead(newer, now), RowOf(older), [older.id], now);
    NewerConflicts(newer, older, now);
    RefreshOne(Table([Dead(newer, now), RowOf(older)], Some(now)), newer, now);
  }

  /** A volume is stored from the newer of two covers; then MangaDex lists only the older one. The
      refresh completes and the volume is gone, though MangaDex lists it. The next refresh brings it back
      as a new row; and should the newer cover return, its id is still owned by the deleted row and the
      refresh fails without changing anything, however often it is tried. */
  lemma ListedVolumeLostThenStuck(newer: Cover, older: Cover, now: int)
    requires Rivals(newer, older)
    ensures var first := Refresh(Table([], None), Remote([newer], None), now).0;
            var second := Refresh(first, Remote([older], None), now);
            var third := Refresh(second.0, Remote([older], None), now);
            && second.1 && (forall i :: 0 <= i < |second.0.rows| ==> !IsActive(second.0.rows[i]))
            && third.1
            && Refresh(third.0, Remote([newer], None), now) == (third.0, false)
  {
    FirstOfFour(newer, now);
    SecondOfFour(newer, older, now);
    LastTwoRefreshes(newer, older, now);
  }

  // ---------------------------------------------------------------- who occupies a slot

  predicate Occupies(row: Row, slot: Slot) { IsActive(row) && RowSlot(row) == slot }

  ghost predicate IsOccupied(rows: seq<Row>, slot: Slot) {
    exists i :: 0 <= i < |rows| && Occupies(rows[i], slot)
  }

  /** None of the covers may replace the row in its slot. */
  ghost predicate Resists(row: Row, covers: seq<Cover>, slot: Slot) {
    forall k :: 0 <= k < |covers| && Competes(covers[k], slot) ==> !MayReplace(row.updatedAt, covers[k].updatedAt)
  }

  /** Some cover of the list competes for the slot. */
  ghost predicate IsListedFor(covers: seq<Cover>, slot: Slot) {
    exists k :: 0 <= k < |covers| && Competes(covers[k], slot)
  }

  ghost predicate IsWanted(rows: seq<Row>, covers: seq<Cover>, slot: Slot) {
    IsOccupied(rows, slot) || IsListedFor(covers, slot)
  }

  /** The upsert of `c` moves the row that occupies the slot to the cover's own slot, which is free. A
      row can own the id of a cover of another volume after it was edited locally, or when MangaDex
      renumbered the cover. */
  ghost predicate TakesAway(rows: seq<Row>, c: Cover, slot: Slot) {
    && IsListed(c) && SlotOf(c) != slot
    && (c.key.Some? ==> Holder(rows, c.key, LocaleOf(c)).None?)
    && exists i :: 0 <= i < |rows| && Occupies(rows[i], slot) && rows[i].coverId == Some(c.id)
  }

  /** Any other upsert of a cover that does not compete for the slot leaves its occupants alone. */
  lemma Bystander(rows: seq<Row>, c: Cover, slot: Slot, i: nat)
    requires Upsert(rows, c).Committed? && !Competes(c, slot) && !TakesAway(rows, c, slot)
    ensures var after := Upsert(rows, c).rows;
            && |rows| <= |after|
            && (i < |rows| && Occupies(rows[i], slot) ==> after[i] == rows[i])
            && (i < |after| && Occupies(after[i], slot) ==> i < |rows| && after[i] == rows[i])
  {
  }

  /** The row in a numbered slot is the one an upsert for that slot finds. */
  lemma HolderIsOccupant(rows: seq<Row>, c: Cover, slot: Slot, i: nat)
    requires Consistent(rows) && slot.Numbered? && Competes(c, slot) && i < |rows| && Occupies(rows[i], slot)
    ensures Holder(rows, c.key, LocaleOf(c)) == Some(i)
  {
    var at := Holder(rows, c.key, LocaleOf(c)).value;
    forall j | 0 <= j < |rows| && j != i ensures !SameIdentity(rows[j], rows[i]) {
      assert if j < i then !SameIdentity(rows[j], rows[i]) else !SameIdentity(rows[i], rows[j]);
    }
  }

  lemma OneOccupant(rows: seq<Row>, slot: Slot, i: nat, j: nat)
    requires Consistent(rows) && slot.Numbered? && i < |rows| && j < |rows|
    requires Occupies(rows[i], slot) && Occupies(rows[j], slot)
    ensures i == j
  {
    assert SameIdentity(rows[i], rows[j]) && SameIdentity(rows[j], rows[i]);
  }

  lemma OwnerIs(rows: seq<Row>, id: nat, i: nat)
    requires CoverIdsUnique(rows) && i < |rows| && rows[i].coverId == Some(id)
    ensures Owner(rows, id) == Some(i)
  {
    forall j | 0 <= j < |rows| && j != i ensures rows[j].coverId != Some(id) {
      assert if j < i then rows[j].coverId != rows[i].coverId else rows[i].coverId != rows[j].coverId;
    }
  }

  /** After the row was taken away the slot is free. */
  lemma TakingFrees(rows: seq<Row>, c: Cover, slot: Slot)
    requires Consistent(rows) && slot.Numbered? && TakesAway(rows, c, slot) && Upsert(rows, c).Committed?
    ensures !IsOccupied(Upsert(rows, c).rows, slot)
  {
    var i :| 0 <= i < |rows| && Occupies(rows[i], slot) && rows[i].coverId == Some(c.id);
    OwnerIs(rows, c.id, i);
    var after := Upsert(rows, c).rows;
    forall j | 0 <= j < |after| ensures !Occupies(after[j], slot) {
      if j != i && Occupies(rows[j], slot) {
        OneOccupant(rows, slot, i, j);
      }
    }
  }

  // ---------------------------------------------------------------- a slot through a list of covers

  lemma CommittedPrefix(rows: seq<Row>, covers: seq<Cover>, n: nat)
    requires UpsertAll(rows, covers).Committed? && n <= |covers|
    ensures UpsertAll(rows, covers[..n]).Committed?
  {
    if UpsertAll(rows, covers[..n]).Violation? {
      UpsertAllStops(rows, covers, n);
    }
  }

  lemma UpsertNext(rows: seq<Row>, covers: seq<Cover>, p: nat)
    requires p < |covers| && UpsertAll(rows, covers[..p]).Committed?
    ensures UpsertAll(rows, covers[..p + 1]) == Upsert(UpsertAll(rows, covers[..p]).rows, covers[p])
  {
    assert covers[..p + 1][..p] == covers[..p];
  }

  lemma EarlierCommitted(rows: seq<Row>, covers: seq<Cover>, p: nat)
    requires p < |covers| && UpsertAll(rows, covers[..p + 1]).Committed?
    ensures UpsertAll(rows, covers[..p]).Committed?
    ensures UpsertAll(rows, covers[..p + 1]) == Upsert(UpsertAll(rows, covers[..p]).rows, covers[p])
  {
    assert covers[..p + 1][..p] == covers[..p];
  }

  /** How many covers there are up to and including the last that took the slot's row away when its turn came;
      none if none did. */
  ghost function LastTaking(rows: seq<Row>, covers: seq<Cover>, slot: Slot): (n: nat)
    ensures n <= |covers|
  {
    if covers == [] then 0
    else
      var last := |covers| - 1;
      var before := UpsertAll(rows, covers[..last]);
      if before.Committed? && TakesAway(before.rows, covers[last], slot) then |covers|
      else LastTaking(rows, covers[..last], slot)
  }

  /** The row, if any, that was in the slot at first and resisted all the covers that competed is still
      there unchanged. */
  ghost predicate ResistersStay(rows: seq<Row>, after: seq<Row>, covers: seq<Cover>, slot: Slot) {
    forall i :: 0 <= i < |rows| && Occupies(rows[i], slot) && Resists(rows[i], covers, slot) ==>
      i < |after| && after[i] == rows[i]
  }

  predicate HeldByOne(row: Row, covers: seq<Cover>, slot: Slot) {
    Occupies(row, slot) && row.coverId.Some? && row.coverId.value in Ids(covers)
  }

  ghost predicate TakenOver(rows: seq<Row>, covers: seq<Cover>, slot: Slot) {
    exists i :: 0 <= i < |rows| && HeldByOne(rows[i], covers, slot)
  }

  /** How a slot stands after some covers: held by one of them; or still by a row that resisted all that
      competed; or free, because it was and none did. */
  ghost predicate Tracks(rows: seq<Row>, after: seq<Row>, covers: seq<Cover>, slot: Slot) {
    || (TakenOver(after, covers, slot) && IsWanted(rows, covers, slot))
    || (exists i :: 0 <= i < |rows| && Occupies(rows[i], slot) && Resists(rows[i], covers, slot))
    || (!IsOccupied(after, slot) && !IsWanted(rows, covers, slot))
  }

  lemma ResistsPrefix(row: Row, covers: seq<Cover>, c: Cover, slot: Slot)
    ensures Resists(row, covers + [c], slot) <==>
            Resists(row, covers, slot) && (Competes(c, slot) ==> !MayReplace(row.updatedAt, c.updatedAt))
  {
    var all := covers + [c];
    assert all[|covers|] == c;
    assert forall k :: 0 <= k < |covers| ==> all[k] == covers[k];
  }

  lemma ListedForPrefix(covers: seq<Cover>, c: Cover, slot: Slot)
    ensures IsListedFor(covers + [c], slot) <==> IsListedFor(covers, slot) || Competes(c, slot)
  {
    var all := covers + [c];
    assert all[|covers|] == c;
    if k :| 0 <= k < |covers| && Competes(covers[k], slot) {
      assert Competes(all[k], slot);
    }
  }

  /** One upsert that does not take the slot's row away. */
  ghost predicate IsUpsert(before: seq<Row>, c: Cover, after: seq<Row>, slot: Slot) {
    Consistent(before) && Upsert(before, c) == Committed(after) && !TakesAway(before, c, slot)
  }

  lemma ResistersStayStep(rows: seq<Row>, before: seq<Row>, covers: seq<Cover>, c: Cover, after: seq<Row>, slot: Slot)
    requires slot.Numbered? && IsUpsert(before, c, after, slot) && ResistersStay(rows, before, covers, slot)
    ensures ResistersStay(rows, after, covers + [c], slot)
  {
    forall i | 0 <= i < |rows| && Occupies(rows[i], slot) && Resists(rows[i], covers + [c], slot)
      ensures i < |after| && after[i] == rows[i]
    {
      ResistsPrefix(rows[i], covers, c, slot);
      if Competes(c, slot) {
        HolderIsOccupant(before, c, slot, i);
      } else {
        Bystander(before, c, slot, i);
      }
    }
  }

  /** A cover that competes either takes the slot or finds a row there that refuses it. */
  lemma CompetitorTakes(rows: seq<Row>, c: Cover, slot: Slot) returns (i: nat)
    requires slot.Numbered? && Competes(c, slot) && Upsert(rows, c).Committed?
    ensures var after := Upsert(rows, c).rows;
            || (i < |after| && Occupies(after[i], slot) && after[i].coverId == Some(c.id))
            || (after == rows && i < |rows| && Occupies(rows[i], slot) && !MayReplace(rows[i].updatedAt, c.updatedAt))
  {
    var holder := Holder(rows, c.key, LocaleOf(c));
    var owner := Owner(rows, c.id);
    i := if holder.Some? then holder.value else if owner.Some? then owner.value else |rows|;
  }

  lemma IdsGrow(covers: seq<Cover>, c: Cover)
    ensures Ids(covers + [c]) == Ids(covers) + [c.id]
  {
    assert (covers + [c])[..|covers|] == covers;
  }

  lemma TracksCompetitor(rows: seq<Row>, before: seq<Row>, covers: seq<Cover>, c: Cover, after: seq<Row>, slot: Slot)
    requires slot.Numbered? && IsUpsert(before, c, after, slot) && Competes(c, slot)
    requires ResistersStay(rows, before, covers, slot) && Tracks(rows, before, covers, slot)
    ensures Tracks(rows, after, covers + [c], slot)
  {
    IdsGrow(covers, c);
    ListedForPrefix(covers, c, slot);
    var x := CompetitorTakes(before, c, slot);
    if after[x].coverId == Some(c.id) && Occupies(after[x], slot) {
      assert HeldByOne(after[x], covers + [c], slot);
    } else if TakenOver(before, covers, slot) {
      var y :| 0 <= y < |before| && HeldByOne(before[y], covers, slot);
      assert HeldByOne(after[y], covers + [c], slot);
    } else {
      assert IsOccupied(before, slot);
      var i :| 0 <= i < |rows| && Occupies(rows[i], slot) && Resists(rows[i], covers, slot);
      OneOccupant(before, slot, i, x);
      ResistsPrefix(rows[i], covers, c, slot);
    }
  }

  lemma TracksBystander(rows: seq<Row>, before: seq<Row>, covers: seq<Cover>, c: Cover, after: seq<Row>, slot: Slot)
    requires slot.Numbered? && IsUpsert(before, c, after, slot) && !Competes(c, slot)
    requires Tracks(rows, before, covers, slot)
    ensures Tracks(rows, after, covers + [c], slot)
  {
    IdsGrow(covers, c);
    ListedForPrefix(covers, c, slot);
    if TakenOver(before, covers, slot) && IsWanted(rows, covers, slot) {
      var y :| 0 <= y < |before| && HeldByOne(before[y], covers, slot);
      Bystander(before, c, slot, y);
      assert HeldByOne(after[y], covers + [c], slot);
    } else if i :| 0 <= i < |rows| && Occupies(rows[i], slot) && Resists(rows[i], covers, slot) {
      ResistsPrefix(rows[i], covers, c, slot);
    } else {
      forall y | 0 <= y < |after| ensures !Occupies(after[y], slot) {
        Bystander(before, c, slot, y);
      }
    }
  }

  lemma TracksStep(rows: seq<Row>, before: seq<Row>, covers: seq<Cover>, c: Cover, after: seq<Row>, slot: Slot)
    requires slot.Numbered? && IsUpsert(before, c, after, slot)
    requires ResistersStay(rows, before, covers, slot) && Tracks(rows, before, covers, slot)
    ensures ResistersStay(rows, after, covers + [c], slot) && Tracks(rows, after, covers + [c], slot)
  {
    ResistersStayStep(rows, before, covers, c, after, slot);
    if Competes(c, slot) {
      TracksCompetitor(rows, before, covers, c, after, slot);
    } else {
      TracksBystander(rows, before, covers, c, after, slot);
    }
  }

  lemma TracksAtFirst(rows: seq<Row>, slot: Slot)
    ensures ResistersStay(rows, rows, [], slot) && Tracks(rows, rows, [], slot)
  {
    if IsOccupied(rows, slot) {
      var i :| 0 <= i < |rows| && Occupies(rows[i], slot);
      assert Resists(rows[i], [], slot);
    }
  }

  lemma LastUpsert(rows: seq<Row>, rest: seq<Cover>, c: Cover, slot: Slot)
    requires Consistent(rows) && UpsertAll(rows, rest + [c]).Committed? && LastTaking(rows, rest + [c], slot) == 0
    ensures UpsertAll(rows, rest).Committed? && LastTaking(rows, rest, slot) == 0
    ensures IsUpsert(UpsertAll(rows, rest).rows, c, UpsertAll(rows, rest + [c]).rows, slot)
  {
    assert (rest + [c])[..|rest|] == rest;
    UpsertAllConsistent(rows, rest);
  }

  /** After the covers of a list, the slot stands as `Tracks` says. */
  lemma {:induction false} TracksAlong(rows: seq<Row>, covers: seq<Cover>, slot: Slot)
    requires Consistent(rows) && slot.Numbered? && UpsertAll(rows, covers).Committed?
    requires LastTaking(rows, covers, slot) == 0
    ensures ResistersStay(rows, UpsertAll(rows, covers).rows, covers, slot)
    ensures Tracks(rows, UpsertAll(rows, covers).rows, covers, slot)
  {
    if covers == [] {
      TracksAtFirst(rows, slot);
    } else {
      var rest, c := covers[..|covers| - 1], covers[|covers| - 1];
      assert covers == rest + [c];
      LastUpsert(rows, rest, c, slot);
      TracksAlong(rows, rest, slot);
      TracksStep(rows, UpsertAll(rows, rest).rows, rest, c, UpsertAll(rows, covers).rows, slot);
    }
  }

  // ---------------------------------------------------------------- when a volume survives

  predicate IsUnlisted(row: Row, ids: seq<nat>) { row.coverId.Some? && row.coverId.value !in ids }

  /** The slot's row resists every cover that competes, and its own is not listed: the sweep deletes it. */
  ghost predicate IsDoomed(rows: seq<Row>, covers: seq<Cover>, ids: seq<nat>, slot: Slot) {
    exists i :: 0 <= i < |rows| && Occupies(rows[i], slot) && Resists(rows[i], covers, slot) && IsUnlisted(rows[i], ids)
  }

  lemma ResisterDecides(rows: seq<Row>, after: seq<Row>, covers: seq<Cover>, ids: seq<nat>, slot: Slot, i: nat,
                        now: int)
    requires Consistent(rows) && Consistent(after) && slot.Numbered? && ResistersStay(rows, after, covers, slot)
    requires i < |rows| && Occupies(rows[i], slot) && Resists(rows[i], covers, slot)
    ensures IsOccupied(Sweep(after, ids, now), slot) <==> !IsDoomed(rows, covers, ids, slot)
  {
    var swept := Sweep(after, ids, now);
    assert swept[i] == Swept(rows[i], ids, now);
    if !IsUnlisted(rows[i], ids) {
      assert Occupies(swept[i], slot);
      forall j | 0 <= j < |rows| && Occupies(rows[j], slot) ensures j == i {
        OneOccupant(rows, slot, i, j);
      }
    } else {
      forall j | 0 <= j < |swept| ensures !Occupies(swept[j], slot) {
        if Occupies(after[j], slot) {
          OneOccupant(after, slot, i, j);
        }
      }
    }
  }

  lemma SweepDecides(rows: seq<Row>, after: seq<Row>, covers: seq<Cover>, ids: seq<nat>, slot: Slot, now: int)
    requires Consistent(rows) && Consistent(after) && slot.Numbered?
    requires ResistersStay(rows, after, covers, slot) && Tracks(rows, after, covers, slot)
    requires forall id :: id in Ids(covers) ==> id in ids
    ensures IsOccupied(Sweep(after, ids, now), slot) <==>
            IsWanted(rows, covers, slot) && !IsDoomed(rows, covers, ids, slot)
  {
    var swept := Sweep(after, ids, now);
    if i :| 0 <= i < |rows| && Occupies(rows[i], slot) && Resists(rows[i], covers, slot) {
      ResisterDecides(rows, after, covers, ids, slot, i, now);
    } else if TakenOver(after, covers, slot) {
      var j :| 0 <= j < |after| && HeldByOne(after[j], covers, slot);
      assert swept[j] == after[j];
    } else {
      forall j | 0 <= j < |swept| ensures !Occupies(swept[j], slot) {
        assert !Occupies(after[j], slot);
      }
    }
  }

  /** If no cover takes the slot's row away, the slot is occupied after the sweep exactly when a row or a
      cover wanted it and no doomed row held it. The sweep may spare more ids than those of these covers. */
  lemma SurvivesUnlessDoomed(rows: seq<Row>, covers: seq<Cover>, ids: seq<nat>, slot: Slot, now: int)
    requires Consistent(rows) && slot.Numbered? && UpsertAll(rows, covers).Committed?
    requires LastTaking(rows, covers, slot) == 0
    requires forall id :: id in Ids(covers) ==> id in ids
    ensures IsOccupied(Sweep(UpsertAll(rows, covers).rows, ids, now), slot) <==>
            IsWanted(rows, covers, slot) && !IsDoomed(rows, covers, ids, slot)
  {
    UpsertAllConsistent(rows, covers);
    TracksAlong(rows, covers, slot);
    SweepDecides(rows, UpsertAll(rows, covers).rows, covers, ids, slot, now);
  }

  lemma PassThrough(rows: seq<Row>, covers: seq<Cover>, n: nat)
    requires n <= |covers| && UpsertAll(rows, covers[..n]).Committed?
    ensures UpsertAll(UpsertAll(rows, covers[..n]).rows, covers[n..]) == UpsertAll(rows, covers)
  {
    assert covers[..n] + covers[n..] == covers;
    UpsertAllConcat(rows, covers[..n], covers[n..]);
  }

  lemma {:induction false} NoneAfterLast(rows: seq<Row>, covers: seq<Cover>, slot: Slot)
    requires UpsertAll(rows, covers).Committed?
    ensures var n := LastTaking(rows, covers, slot);
            && UpsertAll(rows, covers[..n]).Committed?
            && LastTaking(UpsertAll(rows, covers[..n]).rows, covers[n..], slot) == 0
  {
    var n := LastTaking(rows, covers, slot);
    if n == |covers| {
      assert covers[..n] == covers && covers[n..] == [];
    } else {
      var rest := covers[..|covers| - 1];
      NoneAfterLast(rows, rest, slot);
      assert rest[..n] == covers[..n] && covers[n..][..|covers| - 1 - n] == rest[n..];
      PassThrough(rows, rest, n);
    }
  }

  lemma {:induction false} FreedByLast(rows: seq<Row>, covers: seq<Cover>, slot: Slot)
    requires Consistent(rows) && slot.Numbered? && UpsertAll(rows, covers).Committed?
    requires LastTaking(rows, covers, slot) > 0
    ensures var n := LastTaking(rows, covers, slot);
            UpsertAll(rows, covers[..n]).Committed? && !IsOccupied(UpsertAll(rows, covers[..n]).rows, slot)
  {
    var n := LastTaking(rows, covers, slot);
    var rest := covers[..|covers| - 1];
    if n == |covers| {
      assert covers[..n] == covers;
      UpsertAllConsistent(rows, rest);
      TakingFrees(UpsertAll(rows, rest).rows, covers[n - 1], slot);
    } else {
      FreedByLast(rows, rest, slot);
      assert rest[..n] == covers[..n];
    }
  }

  lemma RestOfTheList(rows: seq<Row>, covers: seq<Cover>, n: nat)
    requires Consistent(rows) && UpsertAll(rows, covers).Committed? && n <= |covers|
    ensures UpsertAll(rows, covers[..n]).Committed?
    ensures var start := UpsertAll(rows, covers[..n]).rows;
            Consistent(start) && UpsertAll(start, covers[n..]) == UpsertAll(rows, covers)
    ensures forall id :: id in Ids(covers[n..]) ==> id in Ids(covers)
  {
    CommittedPrefix(rows, covers, n);
    UpsertAllConsistent(rows, covers[..n]);
    PassThrough(rows, covers, n);
    assert covers[..n] + covers[n..] == covers;
    IdsConcat(covers[..n], covers[n..]);
  }

  lemma SurvivesAfterTaking(rows: seq<Row>, covers: seq<Cover>, slot: Slot, now: int)
    requires Consistent(rows) && slot.Numbered? && UpsertAll(rows, covers).Committed?
    requires LastTaking(rows, covers, slot) > 0
    ensures IsOccupied(Sweep(UpsertAll(rows, covers).rows, Ids(covers), now), slot) <==>
            IsListedFor(covers[LastTaking(rows, covers, slot)..], slot)
  {
    var n := LastTaking(rows, covers, slot);
    RestOfTheList(rows, covers, n);
    NoneAfterLast(rows, covers, slot);
    FreedByLast(rows, covers, slot);
    SurvivesUnlessDoomed(UpsertAll(rows, covers[..n]).rows, covers[n..], Ids(covers), slot, now);
  }

  /** Exactly when a numbered volume has an active row after a completed refresh, whatever the table and the
      list. If no cover took the slot's row away: a row or a cover wanted the slot and no doomed row held it.
      Otherwise: a cover for the slot is listed after the last such taking. */
  lemma VolumeSurvives(t: Table, remote: Remote, slot: Slot, now: int)
    requires Consistent(t.rows) && slot.Numbered? && Refresh(t, remote, now).1
    ensures var (rows, covers) := (t.rows, remote.covers);
            var n := LastTaking(rows, covers, slot);
            IsOccupied(Refresh(t, remote, now).0.rows, slot) <==>
            if n == 0 then IsWanted(rows, covers, slot) && !IsDoomed(rows, covers, Ids(covers), slot)
            else IsListedFor(covers[n..], slot)
  {
    RefreshDone(t, remote, now);
    if LastTaking(t.rows, remote.covers, slot) == 0 {
      SurvivesUnlessDoomed(t.rows, remote.covers, Ids(remote.covers), slot, now);
    } else {
      SurvivesAfterTaking(t.rows, remote.covers, slot, now);
    }
  }

  // ---------------------------------------------------------------- checking it beforehand

  /** If the slot's row stems from a listed cover, that cover is listed for this very slot. Rows of other
      slots may have been edited at will. */
  ghost predicate KeepsSlot(rows: seq<Row>, covers: seq<Cover>, slot: Slot) {
    forall i, k :: 0 <= i < |rows| && 0 <= k < |covers| ==>
      Occupies(rows[i], slot) && rows[i].coverId == Some(covers[k].id) ==> SlotOf(covers[k]) == slot
  }

  lemma KeepsSlotStep(rows: seq<Row>, covers: seq<Cover>, slot: Slot, n: nat)
    requires StableIds(covers) && KeepsSlot(rows, covers, slot) && n < |covers| && Upsert(rows, covers[n]).Committed?
    ensures !TakesAway(rows, covers[n], slot)
    ensures KeepsSlot(Upsert(rows, covers[n]).rows, covers, slot)
  {
    var after := Upsert(rows, covers[n]).rows;
    forall i, k | 0 <= i < |after| && 0 <= k < |covers| && Occupies(after[i], slot)
                  && after[i].coverId == Some(covers[k].id)
      ensures SlotOf(covers[k]) == slot
    {
      if i >= |rows| || after[i] != rows[i] {
        assert after[i] == RowOf(covers[n]);
      }
    }
  }

  lemma {:induction false} KeptIsNotTaken(rows: seq<Row>, covers: seq<Cover>, slot: Slot, n: nat)
    requires StableIds(covers) && KeepsSlot(rows, covers, slot) && n <= |covers|
    requires UpsertAll(rows, covers[..n]).Committed?
    ensures LastTaking(rows, covers[..n], slot) == 0
    ensures KeepsSlot(UpsertAll(rows, covers[..n]).rows, covers, slot)
  {
    if n > 0 {
      EarlierCommitted(rows, covers, n - 1);
      KeptIsNotTaken(rows, covers, slot, n - 1);
      KeepsSlotStep(UpsertAll(rows, covers[..n - 1]).rows, covers, slot, n - 1);
      assert covers[..n][..n - 1] == covers[..n - 1];
    }
  }

  /** When a numbered volume that MangaDex lists survives a completed refresh, in terms of the table and the
      list alone: unless the row it started with came from a cover no longer listed and is newer than every
      cover listed for it. Cover ids must name one volume each, and the volume's own row, if its cover is
      listed, must still be that cover's row. */
  lemma ListedVolumeSurvives(t: Table, remote: Remote, slot: Slot, now: int)
    requires Consistent(t.rows) && slot.Numbered? && Refresh(t, remote, now).1
    requires StableIds(remote.covers) && KeepsSlot(t.rows, remote.covers, slot)
    requires IsListedFor(remote.covers, slot)
    ensures IsOccupied(Refresh(t, remote, now).0.rows, slot) <==>
            !IsDoomed(t.rows, remote.covers, Ids(remote.covers), slot)
  {
    RefreshDone(t, remote, now);
    assert remote.covers[..|remote.covers|] == remote.covers;
    KeptIsNotTaken(t.rows, remote.covers, slot, |remote.covers|);
    SurvivesUnlessDoomed(t.rows, remote.covers, Ids(remote.covers), slot, now);
  }

  /** Every listed volume that a completed refresh loses comes back with the next one over the same list. */
  lemma NextRefreshRestores(t: Table, remote: Remote, again: Remote, slot: Slot, now: int, later: int)
    requires var first := Refresh(t, remote, now);
             && first.1 && Refresh(first.0, again, later).1 && KeepsSlot(first.0.rows, again.covers, slot)
    requires Consistent(t.rows) && again.covers == remote.covers && StableIds(again.covers)
    requires slot.Numbered? && IsListedFor(again.covers, slot)
    ensures IsOccupied(Refresh(Refresh(t, remote, now).0, again, later).0.rows, slot)
  {
    Reconciliation(t, remote, now);
    ListedVolumeSurvives(Refresh(t, remote, now).0, again, slot, later);
  }

  /** The premise on the table in between holds if it held of the table before. */
  lemma KeepsSlotThrough(t: Table, remote: Remote, slot: Slot, now: int)
    requires StableIds(remote.covers) && KeepsSlot(t.rows, remote.covers, slot) && Refresh(t, remote, now).1
    ensures KeepsSlot(Refresh(t, remote, now).0.rows, remote.covers, slot)
  {
    RefreshDone(t, remote, now);
    assert remote.covers[..|remote.covers|] == remote.covers;
    KeptIsNotTaken(t.rows, remote.covers, slot, |remote.covers|);
  }

  /** What happens to a row that was edited locally. The row of a cover of volume 2 was moved to volume 1 by
      an edit; MangaDex lists an older cover for volume 1, then the row's own cover for volume 2. The
      refresh completes, moves the row back, and volume 1 is gone although MangaDex lists it. */
  lemma EditedVolumeLost(edited: Row, older: Cover, own: Cover, now: int)
    requires IsListed(older) && IsListed(own) && older.key.Some? && SlotOf(own) != SlotOf(older)
    requires !IsBlankLocale(LocaleOf(older)) && !IsBlankLocale(LocaleOf(own))
    requires Occupies(edited, SlotOf(older)) && edited.coverId == Some(own.id) && own.id != older.id
    requires !MayReplace(edited.updatedAt, older.updatedAt)
    ensures var (after, done) := Refresh(Table([edited], None), Remote([older, own], None), now);
            done && Competes(older, SlotOf(older)) && !IsOccupied(after.rows, SlotOf(older))
  {
    StaysEdited(edited, older);
    MovesBack(edited, own);
    UpsertPair([edited], older, own);
    RefreshIs(Table([edited], None), [older, own], now);
    assert Sweep([RowOf(own)], Ids([older, own]), now)[0] == Swept(RowOf(own), Ids([older, own]), now);
  }

  lemma StaysEdited(edited: Row, older: Cover)
    requires older.key.Some? && Occupies(edited, SlotOf(older)) && !MayReplace(edited.updatedAt, older.updatedAt)
    ensures Upsert([edited], older) == Committed([edited])
  {
    assert [edited][0] == edited;
  }

  lemma MovesBack(edited: Row, own: Cover)
    requires IsListed(own) && !IsBlankLocale(LocaleOf(own))
    requires edited.coverId == Some(own.id) && RowSlot(edited) != SlotOf(own)
    ensures Upsert([edited], own) == Committed([RowOf(own)])
  {
    assert [edited][0] == edited;
    assert [edited][0 := RowOf(own)] == [RowOf(own)];
  }

  /** An edit can also get the refresh stuck, without any deleted row. The row of a cover of volume 2 was
      moved to volume 1; MangaDex lists another cover for volume 2 and then the row's own, which may replace
      it. The other cover gets a row, its own cover then claims that row while the edited one has its id,
      and the refresh fails without changing anything, however often it is tried. */
  lemma EditedVolumeStuck(edited: Row, other: Cover, own: Cover, syncedAt: Option<int>, now: int)
    requires IsListed(other) && IsListed(own) && own.key.Some? && SlotOf(own) == SlotOf(other) && own.id != other.id
    requires IsActive(edited) && RowSlot(edited) != SlotOf(own) && edited.coverId == Some(own.id)
    requires !IsBlankLocale(edited.locale) && !IsBlankLocale(LocaleOf(own))
    requires MayReplace(other.updatedAt, own.updatedAt)
    ensures var t := Table([edited], syncedAt); Refresh(t, Remote([other, own], None), now) == (t, false)
  {
    var t, remote := Table([edited], syncedAt), Remote([other, own], None);
    OtherGetsARow(edited, other);
    OwnClashes(edited, other, own);
    UpsertPair([edited], other, own);
    PagesUnfold(t.rows, remote, 0);
    assert PageAt(remote.covers, 0) == remote.covers;
  }

  lemma OtherGetsARow(edited: Row, other: Cover)
    requires IsListed(other) && other.key.Some? && edited.coverId.Some? && edited.coverId != Some(other.id)
    requires RowSlot(edited) != SlotOf(other) && !IsBlankLocale(edited.locale) && !IsBlankLocale(LocaleOf(other))
    ensures Upsert([edited], other) == Committed([edited, RowOf(other)])
    ensures Consistent([edited, RowOf(other)])
  {
    assert [edited] + [RowOf(other)] == [edited, RowOf(other)];
  }

  lemma OwnClashes(edited: Row, other: Cover, own: Cover)
    requires IsListed(own) && own.key.Some? && SlotOf(own) == SlotOf(other) && !IsBlankLocale(LocaleOf(own))
    requires edited.coverId == Some(own.id) && MayReplace(other.updatedAt, own.updatedAt)
    requires Consistent([edited, RowOf(other)])
    ensures Upsert([edited, RowOf(other)], own) == Violation(CoverIdIndex)
  {
    var rows := [edited, RowOf(other)];
    assert rows[0].coverId == Some(own.id) && IsActive(rows[1]) && rows[1].key == own.key;
    IndexSafety(rows, own);
  }

  lemma UpsertPair(rows: seq<Row>, first: Cover, second: Cover)
    ensures UpsertAll(rows, [first, second]) ==
            var once := Upsert(rows, first);
            if once.Violation? then once else Upsert(once.rows, second)
  {
    assert [first, second][..1] == [first] && [first][..0] == [];
    assert UpsertAll(rows, []) == Committed(rows);
    assert UpsertAll(rows, [first]) == Upsert(rows, first);
  }
}
