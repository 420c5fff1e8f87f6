/** Refreshing a table that only ever came from MangaDex: one row per slot, holding the slot's survivor. */
module FirstSync {
  import opened Options
  import opened VolumeSync
  import opened VolumeSyncRuns

  /** The normal form after a history of covers: every row is active and holds the survivor of its slot,
      no slot has two rows, and every slot a listed cover competes for has one. */
  ghost predicate NormalForm(rows: seq<Row>, history: seq<Cover>) {
    && (forall i :: 0 <= i < |rows| ==> HoldsSurvivor(rows[i], history))
    && (forall i, j :: 0 <= i < j < |rows| ==> RowSlot(rows[i]) != RowSlot(rows[j]))
    && (forall k :: 0 <= k < |history| && IsListed(history[k]) ==> HasRow(rows, SlotOf(history[k])))
  }

  ghost predicate HoldsSurvivor(row: Row, history: seq<Cover>) {
    var survivor := Survivor(history, RowSlot(row));
    survivor.Some? && row == RowOf(survivor.value)
  }

  ghost predicate HasRow(rows: seq<Row>, slot: Slot) {
    exists i :: 0 <= i < |rows| && RowSlot(rows[i]) == slot
  }

  /** A row that owns the cover's id sits in the cover's slot. */
  lemma OwnerSlot(rows: seq<Row>, history: seq<Cover>, c: Cover, i: nat)
    requires NormalForm(rows, history) && StableIds(history + [c])
    requires i < |rows| && rows[i].coverId == Some(c.id)
    ensures RowSlot(rows[i]) == SlotOf(c)
  {
    assert HoldsSurvivor(rows[i], history);
    var w := Survivor(history, RowSlot(rows[i])).value;
    var k :| 0 <= k < |history| && history[k] == w;
    var all := history + [c];
    assert all[k] == w && all[|history|] == c;
  }

  /** Where the upsert of a listed cover goes: to the row of its slot, which it may or may not replace, or
      to a new row. */
  lemma Route(rows: seq<Row>, history: seq<Cover>, c: Cover) returns (at: Option<nat>)
    requires NormalForm(rows, history) && StableIds(history + [c]) && IsListed(c)
    ensures at.Some? ==> at.value < |rows| && RowSlot(rows[at.value]) == SlotOf(c)
    ensures at.None? ==> !HasRow(rows, SlotOf(c)) && Survivor(history, SlotOf(c)).None?
    ensures Upsert(rows, c) ==
            if at.None? then Checked(rows + [RowOf(c)])
            else if c.key.None? || MayReplace(rows[at.value].updatedAt, c.updatedAt)
            then Checked(rows[at.value := RowOf(c)])
            else Committed(rows)
  {
    forall i | 0 <= i < |rows| ensures IsActive(rows[i]) && rows[i].coverId.Some? {
      assert HoldsSurvivor(rows[i], history);
    }
    var holder := if c.key.Some? then Holder(rows, c.key, LocaleOf(c)) else None;
    var owner := Owner(rows, c.id);
    if holder.Some? {
      at := holder;
    } else if owner.Some? {
      OwnerSlot(rows, history, c, owner.value);
      assert c.key.Some? ==> false;
      at := owner;
    } else {
      at := None;
    }
  }

  lemma NormalFormIsConsistent(rows: seq<Row>, history: seq<Cover>)
    requires NormalForm(rows, history) && StableIds(history) && AreStorable(history)
    ensures Consistent(rows)
  {
    forall i, j | 0 <= i < j < |rows|
      ensures rows[i].coverId.Some? && rows[i].coverId != rows[j].coverId && !SameIdentity(rows[i], rows[j])
    {
      assert HoldsSurvivor(rows[i], history) && HoldsSurvivor(rows[j], history);
      assert RowSlot(rows[i]) != RowSlot(rows[j]);
    }
  }

  /** The rows of other slots keep their survivors. */
  lemma OthersKeep(row: Row, history: seq<Cover>, c: Cover)
    requires HoldsSurvivor(row, history) && (RowSlot(row) != SlotOf(c) || !IsListed(c))
    ensures HoldsSurvivor(row, history + [c])
  {
    SurvivorAppend(history, c, RowSlot(row));
  }

  lemma ReplaceKeeps(rows: seq<Row>, history: seq<Cover>, c: Cover, i: nat)
    requires NormalForm(rows, history) && IsListed(c) && i < |rows| && RowSlot(rows[i]) == SlotOf(c)
    requires c.key.None? || MayReplace(rows[i].updatedAt, c.updatedAt)
    ensures NormalForm(rows[i := RowOf(c)], history + [c])
    ensures RowSlot(RowOf(c)) == RowSlot(rows[i])
  {
    var after := rows[i := RowOf(c)];
    assert HoldsSurvivor(rows[i], history);
    SurvivorAppend(history, c, SlotOf(c));
    forall j | 0 <= j < |after| ensures HoldsSurvivor(after[j], history + [c]) {
      if j != i {
        assert RowSlot(rows[j]) != RowSlot(rows[i]);
        OthersKeep(rows[j], history, c);
      }
    }
    forall slot | HasRow(rows, slot) ensures HasRow(after, slot) {
      var j :| 0 <= j < |rows| && RowSlot(rows[j]) == slot;
      assert RowSlot(after[j]) == slot;
    }
    assert RowSlot(after[i]) == SlotOf(c);
    AllHaveRows(after, history, c);
  }

  lemma AllHaveRows(rows: seq<Row>, history: seq<Cover>, c: Cover)
    requires forall k :: 0 <= k < |history| && IsListed(history[k]) ==> HasRow(rows, SlotOf(history[k]))
    requires IsListed(c) ==> HasRow(rows, SlotOf(c))
    ensures var all := history + [c];
            forall k :: 0 <= k < |all| && IsListed(all[k]) ==> HasRow(rows, SlotOf(all[k]))
  {
  }

  lemma AppendKeeps(rows: seq<Row>, history: seq<Cover>, c: Cover)
    requires NormalForm(rows, history) && IsListed(c) && !HasRow(rows, SlotOf(c))
    requires Survivor(history, SlotOf(c)).None?
    ensures NormalForm(rows + [RowOf(c)], history + [c])
  {
    var after := rows + [RowOf(c)];
    SurvivorAppend(history, c, SlotOf(c));
    forall j | 0 <= j < |after| ensures HoldsSurvivor(after[j], history + [c]) {
      if j < |rows| {
        assert RowSlot(rows[j]) != SlotOf(c);
        OthersKeep(rows[j], history, c);
      }
    }
    forall slot | HasRow(rows, slot) ensures HasRow(after, slot) {
      var j :| 0 <= j < |rows| && RowSlot(rows[j]) == slot;
      assert RowSlot(after[j]) == slot;
    }
    assert RowSlot(after[|rows|]) == SlotOf(c);
    AllHaveRows(after, history, c);
  }

  lemma RefusedKeeps(rows: seq<Row>, history: seq<Cover>, c: Cover, i: nat)
    requires NormalForm(rows, history) && i < |rows| && RowSlot(rows[i]) == SlotOf(c)
    requires c.key.Some? && !MayReplace(rows[i].updatedAt, c.updatedAt)
    ensures NormalForm(rows, history + [c])
  {
    forall j | 0 <= j < |rows| ensures HoldsSurvivor(rows[j], history + [c]) {
      assert HoldsSurvivor(rows[j], history);
      SurvivorAppend(history, c, RowSlot(rows[j]));
    }
    AllHaveRows(rows, history, c);
  }

  lemma BlankKeeps(rows: seq<Row>, history: seq<Cover>, c: Cover)
    requires NormalForm(rows, history) && !IsListed(c)
    ensures NormalForm(rows, history + [c])
  {
    forall j | 0 <= j < |rows| ensures HoldsSurvivor(rows[j], history + [c]) {
      assert HoldsSurvivor(rows[j], history);
      OthersKeep(rows[j], history, c);
    }
    AllHaveRows(rows, history, c);
  }

  /** The rows a listed cover leads to, before the constraints are checked. */
  lemma ListedStep(rows: seq<Row>, history: seq<Cover>, c: Cover) returns (after: seq<Row>)
    requires NormalForm(rows, history) && StableIds(history + [c]) && IsListed(c)
    ensures Upsert(rows, c) == Checked(after) || Upsert(rows, c) == Committed(after)
    ensures NormalForm(after, history + [c]) && SlotsKept(rows, after)
    ensures HasRow(rows, SlotOf(c)) ==> |after| == |rows|
  {
    var at := Route(rows, history, c);
    if at.None? {
      after := rows + [RowOf(c)];
      AppendKeeps(rows, history, c);
    } else if c.key.None? || MayReplace(rows[at.value].updatedAt, c.updatedAt) {
      after := rows[at.value := RowOf(c)];
      ReplaceKeeps(rows, history, c, at.value);
    } else {
      after := rows;
      RefusedKeeps(rows, history, c, at.value);
    }
  }

  /** One more cover: no violation, and the normal form of the longer history. The rows that were there
      stay where they are. */
  lemma NormalFormStep(rows: seq<Row>, history: seq<Cover>, c: Cover)
    requires NormalForm(rows, history) && StableIds(history + [c]) && AreStorable(history + [c])
    ensures Upsert(rows, c).Committed? && NormalForm(Upsert(rows, c).rows, history + [c])
    ensures SlotsKept(rows, Upsert(rows, c).rows)
    ensures !IsListed(c) || HasRow(rows, SlotOf(c)) ==> |Upsert(rows, c).rows| == |rows|
  {
    if IsListed(c) {
      var after := ListedStep(rows, history, c);
      NormalFormIsConsistent(after, history + [c]);
    } else {
      BlankKeeps(rows, history, c);
    }
  }

  /** The rows already there keep their positions and their slots. */
  ghost predicate SlotsKept(before: seq<Row>, after: seq<Row>) {
    |before| <= |after| && forall i :: 0 <= i < |before| ==> RowSlot(after[i]) == RowSlot(before[i])
  }

  lemma StablePrefix(history: seq<Cover>, n: nat)
    requires StableIds(history) && AreStorable(history) && n <= |history|
    ensures StableIds(history[..n]) && AreStorable(history[..n])
  {
  }

  lemma {:induction false} NormalFormAll(rows: seq<Row>, history: seq<Cover>, covers: seq<Cover>)
    requires NormalForm(rows, history) && StableIds(history + covers) && AreStorable(history + covers)
    ensures UpsertAll(rows, covers).Committed? && NormalForm(UpsertAll(rows, covers).rows, history + covers)
    ensures SlotsKept(rows, UpsertAll(rows, covers).rows)
    ensures (forall k :: 0 <= k < |covers| && IsListed(covers[k]) ==> HasRow(rows, SlotOf(covers[k])))
            ==> |UpsertAll(rows, covers).rows| == |rows|
  {
    if covers == [] {
      assert history + covers == history;
    } else {
      var rest, last := covers[..|covers| - 1], covers[|covers| - 1];
      assert history + covers == (history + rest) + [last];
      assert history + rest == (history + covers)[..|history + rest|];
      StablePrefix(history + covers, |history + rest|);
      NormalFormAll(rows, history, rest);
      var before := UpsertAll(rows, rest).rows;
      NormalFormStep(before, history + rest, last);
      if HasRow(rows, SlotOf(last)) {
        var i :| 0 <= i < |rows| && RowSlot(rows[i]) == SlotOf(last);
        assert RowSlot(before[i]) == SlotOf(last);
      }
    }
  }

  // ---------------------------------------------------------------- the first refresh, and the second

  lemma SweepFindsNothing(rows: seq<Row>, history: seq<Cover>, now: int)
    requires forall i :: 0 <= i < |rows| ==> HoldsSurvivor(rows[i], history)
    ensures Sweep(rows, Ids(history), now) == rows
  {
    forall i | 0 <= i < |rows| ensures Swept(rows[i], Ids(history), now) == rows[i] {
      assert HoldsSurvivor(rows[i], history);
      var w := Survivor(history, RowSlot(rows[i])).value;
      var k :| 0 <= k < |history| && history[k] == w;
      assert Ids(history)[k] == w.id;
    }
  }

  /** First sync normal form. A first refresh over any list whose ids name their slots consistently
      (distinct ids do) completes exactly when no listed cover has a blank locale, whatever the page
      boundaries. It then leaves exactly one row per slot, active and holding the slot's survivor, and
      nothing to sweep. */
  lemma FirstRefresh(syncedAt: Option<int>, covers: seq<Cover>, now: int)
    requires StableIds(covers)
    ensures var (after, done) := Refresh(Table([], syncedAt), Remote(covers, None), now);
            && (done <==> AreStorable(covers))
            && (done ==> after.syncedAt == Some(now) && NormalForm(after.rows, covers))
  {
    RefreshCompletes(Table([], syncedAt), Remote(covers, None), now);
    UpsertAllConsistent([], covers);
    if AreStorable(covers) {
      assert [] + covers == covers;
      NormalFormAll([], [], covers);
      RefreshIs(Table([], syncedAt), covers, now);
      SweepFindsNothing(UpsertAll([], covers).rows, covers, now);
    }
  }

  lemma RepeatedIsStable(covers: seq<Cover>)
    requires StableIds(covers) && AreStorable(covers)
    ensures StableIds(covers + covers) && AreStorable(covers + covers)
  {
    var twice := covers + covers;
    assert forall i :: 0 <= i < |twice| ==> twice[i] == covers[if i < |covers| then i else i - |covers|];
  }

  lemma SecondPassKeeps(rows: seq<Row>, covers: seq<Cover>)
    requires NormalForm(rows, covers) && StableIds(covers) && AreStorable(covers)
    ensures UpsertAll(rows, covers) == Committed(rows)
  {
    var twice := covers + covers;
    RepeatedIsStable(covers);
    NormalFormAll(rows, covers, covers);
    var after := UpsertAll(rows, covers).rows;
    forall i | 0 <= i < |rows| ensures after[i] == rows[i] {
      assert HoldsSurvivor(after[i], twice) && HoldsSurvivor(rows[i], covers);
      SurvivorTwice(covers, RowSlot(rows[i]));
    }
    assert after == rows;
  }

  /** A second refresh over the same list changes no row. */
  lemma SecondRefreshChangesNothing(rows: seq<Row>, syncedAt: Option<int>, covers: seq<Cover>, now: int)
    requires NormalForm(rows, covers) && StableIds(covers) && AreStorable(covers)
    ensures Refresh(Table(rows, syncedAt), Remote(covers, None), now) == (Table(rows, Some(now)), true)
  {
    SecondPassKeeps(rows, covers);
    RefreshIs(Table(rows, syncedAt), covers, now);
    SweepFindsNothing(rows, covers, now);
  }

  /** In the normal form the row of a slot holds the cover that `IsWinner` describes. */
  lemma RowHoldsWinner(rows: seq<Row>, covers: seq<Cover>, i: nat) returns (k: nat)
    requires NormalForm(rows, covers) && i < |rows|
    ensures IsWinner(covers, RowSlot(rows[i]), k) && rows[i] == RowOf(covers[k])
  {
    assert HoldsSurvivor(rows[i], covers);
    k := SurvivorWins(covers, RowSlot(rows[i]));
  }
}
