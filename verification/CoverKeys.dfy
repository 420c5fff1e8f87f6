/** From the volume text of a cover to the key its row is found by, and back to rows and volume texts. */
module CoverKeys {
  import opened Options
  import opened VolumeKey
  import opened VolumeSync
  import opened VolumeSyncRuns
  import opened FirstSync

  /** A normalised key as the table's queries see it: by its value if it is a plain number. */
  function NumberKeyOf(key: string): NumberKey {
    if IsPlainNumber(key) && IsPlain(key) then Numeric(Scaled(key)) else Odd(key, IsFractionalVolumeKey(key))
  }

  function KeyOf(volume: Option<string>): Option<NumberKey>
    requires volume.Some? ==> IsCovered(volume.value)
  {
    if volume.Some? && NormalKey(volume.value).Some? then Some(NumberKeyOf(NormalKey(volume.value).value)) else None
  }

  /** The key of a number that is not negative is known by its value, that of a negative one by its text. */
  lemma NumberKeyOfKey(value: int)
    ensures NumberKeyOf(Key(value)) ==
            if value >= 0 then Numeric(value) else Odd(Key(value), IsFractionalVolumeKey(Key(value)))
  {
    KeyShape(value);
    KeyValue(value);
    if value >= 0 {
      PlainHasNoSign(Key(value));
    }
  }

  lemma PlainHasNoSign(key: string)
    requires IsPlainNumber(key)
    ensures Unsigned(key) == key && !IsNegative(key)
  {
    assert IsDigit(Whole(key)[0]) && Whole(key)[0] == key[0];
  }

  /** Two volume texts get one number key exactly when they get one normalised key. */
  lemma NumberKeysAgree(a: string, b: string)
    requires IsCovered(a) && IsCovered(b)
    ensures KeyOf(Some(a)) == KeyOf(Some(b)) <==> NormalKey(a) == NormalKey(b)
  {
    if IsNumber(Trim(a)) {
      NumberKeyOfKey(Parsed(a));
    }
    if IsNumber(Trim(b)) {
      NumberKeyOfKey(Parsed(b));
    }
  }

  /** The flag a row gets is the one the code computes from the normalised key. */
  lemma SpecialIsFractional(volume: string)
    requires IsCovered(volume)
    ensures IsSpecial(KeyOf(Some(volume))) <==>
            NormalKey(volume).None? || IsFractionalVolumeKey(NormalKey(volume).value)
  {
    if IsNumber(Trim(volume)) {
      NumberKeyOfKey(Parsed(volume));
      FractionalIsNotWhole(volume);
    }
  }

  // ---------------------------------------------------------------- one row per volume

  /** The cover comes with the key of its own volume text. */
  predicate HasItsKey(c: Cover) {
    (c.volume.Some? ==> IsCovered(c.volume.value)) && c.key == KeyOf(c.volume)
  }

  function KeyText(c: Cover): Option<string>
    requires HasItsKey(c)
  {
    if c.volume.Some? then NormalKey(c.volume.value) else None
  }

  /** Covers of one volume: equal normalised keys and locales, or, without a key, one and the same id. */
  predicate AreOfOneVolume(a: Cover, b: Cover)
    requires HasItsKey(a) && HasItsKey(b)
  {
    if KeyText(a).Some? then KeyText(b) == KeyText(a) && LocaleOf(b) == LocaleOf(a)
    else KeyText(b).None? && b.id == a.id
  }

  lemma SlotsAreVolumes(a: Cover, b: Cover)
    requires HasItsKey(a) && HasItsKey(b)
    ensures SlotOf(a) == SlotOf(b) <==> AreOfOneVolume(a, b)
  {
    if a.volume.Some? && b.volume.Some? {
      NumberKeysAgree(a.volume.value, b.volume.value);
    }
  }

  /** After a first refresh every listed cover has exactly one row, and two listed covers share it exactly
      when their volume texts normalise to one key and their locales are equal, or when they have no key and
      are the same cover. */
  lemma OneRowPerVolume(rows: seq<Row>, covers: seq<Cover>, a: nat, b: nat) returns (i: nat, j: nat)
    requires NormalForm(rows, covers) && a < |covers| && b < |covers|
    requires IsListed(covers[a]) && IsListed(covers[b]) && HasItsKey(covers[a]) && HasItsKey(covers[b])
    ensures i < |rows| && forall k :: 0 <= k < |rows| ==> (RowSlot(rows[k]) == SlotOf(covers[a]) <==> k == i)
    ensures j < |rows| && forall k :: 0 <= k < |rows| ==> (RowSlot(rows[k]) == SlotOf(covers[b]) <==> k == j)
    ensures i == j <==> AreOfOneVolume(covers[a], covers[b])
  {
    i := RowOfSlot(rows, covers, a);
    j := RowOfSlot(rows, covers, b);
    SlotsAreVolumes(covers[a], covers[b]);
  }

  lemma RowOfSlot(rows: seq<Row>, covers: seq<Cover>, a: nat) returns (i: nat)
    requires NormalForm(rows, covers) && a < |covers| && IsListed(covers[a])
    ensures i < |rows| && forall k :: 0 <= k < |rows| ==> (RowSlot(rows[k]) == SlotOf(covers[a]) <==> k == i)
  {
    assert HasRow(rows, SlotOf(covers[a]));
    i :| i < |rows| && RowSlot(rows[i]) == SlotOf(covers[a]);
    forall k | 0 <= k < |rows| && k != i ensures RowSlot(rows[k]) != RowSlot(rows[i]) {
      assert if k < i then RowSlot(rows[k]) != RowSlot(rows[i]) else RowSlot(rows[i]) != RowSlot(rows[k]);
    }
  }

  // ---------------------------------------------------------------- what a row holds

  predicate HaveTheirKeys(covers: seq<Cover>) { forall k :: 0 <= k < |covers| ==> HasItsKey(covers[k]) }

  /** The row holds this cover, column by column: it is special unless the volume text spells a whole number,
      which is also what its key is, and a missing locale is stored as "und". */
  ghost predicate ComesFrom(row: Row, c: Cover)
    requires HasItsKey(c)
  {
    && row.coverId == Some(c.id) && row.fileName == Trim(c.fileName) && row.fileName != ""
    && row.volume == c.volume && row.version == c.version
    && row.createdAt == c.createdAt && row.updatedAt == c.updatedAt && row.deletedAt == None
    && row.locale == (if c.locale.Some? then c.locale.value else "und")
    && (if c.volume.None? || !IsNumber(Trim(c.volume.value)) then row.special && row.key == None
        else
          var value := Parsed(c.volume.value);
          && (row.special <==> value % 10_000 != 0)
          && row.key.Some? && (row.key.value.Numeric? <==> value >= 0)
          && (if value >= 0 then row.key.value.value == value else row.key.value.text == Key(value)))
  }

  lemma StoredAs(c: Cover)
    requires HasItsKey(c) && IsListed(c)
    ensures ComesFrom(RowOf(c), c)
  {
    if c.volume.Some? && IsNumber(Trim(c.volume.value)) {
      NumberKeyOfKey(Parsed(c.volume.value));
      SpecialIsFractional(c.volume.value);
      FractionalIsNotWhole(c.volume.value);
    }
  }

  /** What a first refresh stores: every row holds, column by column, the winner of the covers listed for its
      volume. */
  lemma FirstRefreshRow(syncedAt: Option<int>, covers: seq<Cover>, now: int, i: nat) returns (k: nat)
    requires StableIds(covers) && HaveTheirKeys(covers)
    requires var (after, done) := Refresh(Table([], syncedAt), Remote(covers, None), now);
             done && i < |after.rows|
    ensures var row := Refresh(Table([], syncedAt), Remote(covers, None), now).0.rows[i];
            IsWinner(covers, RowSlot(row), k) && ComesFrom(row, covers[k])
  {
    FirstRefresh(syncedAt, covers, now);
    k := RowHoldsWinner(Refresh(Table([], syncedAt), Remote(covers, None), now).0.rows, covers, i);
    StoredAs(covers[k]);
  }

  /** Every cover whose name is not blank has such a row: one with its key and locale, or, without a key, its
      own. */
  lemma FirstRefreshHasRow(syncedAt: Option<int>, covers: seq<Cover>, now: int, k: nat) returns (i: nat)
    requires StableIds(covers) && Refresh(Table([], syncedAt), Remote(covers, None), now).1
    requires k < |covers| && Trim(covers[k].fileName) != ""
    ensures var rows := Refresh(Table([], syncedAt), Remote(covers, None), now).0.rows;
            && i < |rows| && rows[i].key == covers[k].key
            && (if covers[k].key.Some? then rows[i].locale == if covers[k].locale.Some? then covers[k].locale.value
                                                               else "und"
                else rows[i].coverId == Some(covers[k].id))
  {
    FirstRefresh(syncedAt, covers, now);
    i := RowOfSlot(Refresh(Table([], syncedAt), Remote(covers, None), now).0.rows, covers, k);
  }

  ghost predicate ComesFromSome(row: Row, covers: seq<Cover>)
    requires HaveTheirKeys(covers)
  {
    exists k :: 0 <= k < |covers| && ComesFrom(row, covers[k])
  }

  lemma UpsertedRow(rows: seq<Row>, c: Cover, i: nat)
    requires HasItsKey(c) && Upsert(rows, c).Committed? && i < |Upsert(rows, c).rows|
    ensures var row := Upsert(rows, c).rows[i]; (i < |rows| && row == rows[i]) || ComesFrom(row, c)
  {
    if IsListed(c) {
      StoredAs(c);
    }
  }

  lemma {:induction false} UpsertedRows(rows: seq<Row>, covers: seq<Cover>, i: nat)
    requires HaveTheirKeys(covers) && UpsertAll(rows, covers).Committed? && i < |UpsertAll(rows, covers).rows|
    ensures var row := UpsertAll(rows, covers).rows[i]; (i < |rows| && row == rows[i]) || ComesFromSome(row, covers)
  {
    if covers != [] {
      var rest, last := covers[..|covers| - 1], |covers| - 1;
      var before := UpsertAll(rows, rest).rows;
      UpsertedRow(before, covers[last], i);
      if i < |before| && UpsertAll(rows, covers).rows[i] == before[i] {
        UpsertedRows(rows, rest, i);
        if ComesFromSome(before[i], rest) {
          var k :| 0 <= k < |rest| && ComesFrom(before[i], rest[k]);
          assert covers[k] == rest[k];
        }
      }
    }
  }

  /** What any refresh of any table leaves in a row: the row that was there, or a listed cover column by
      column; and a completed refresh marks it deleted now exactly if it is active and stems from a cover that
      is not listed. */
  lemma RefreshedRow(t: Table, remote: Remote, now: int, i: nat) returns (x: Row)
    requires HaveTheirKeys(remote.covers) && i < |Refresh(t, remote, now).0.rows|
    ensures (i < |t.rows| && x == t.rows[i]) || ComesFromSome(x, remote.covers)
    ensures var (after, done) := Refresh(t, remote, now);
            after.rows[i] ==
            if done && x.deletedAt == None && x.coverId.Some?
               && forall k :: 0 <= k < |remote.covers| ==> remote.covers[k].id != x.coverId.value
            then x.(deletedAt := Some(now)) else x
  {
    var (rows, done) := SyncPages(t.rows, remote, 0);
    var upTo := PagesAreOneList(t.rows, remote, 0);
    var taken := remote.covers[0..upTo];
    x := rows[i];
    UpsertedRows(t.rows, taken, i);
    if ComesFromSome(x, taken) {
      var k :| 0 <= k < |taken| && ComesFrom(x, taken[k]);
      assert remote.covers[k] == taken[k];
    }
    if x.coverId.Some? {
      IdListed(remote.covers, x.coverId.value);
    }
  }

  lemma IdListed(covers: seq<Cover>, id: nat)
    ensures id in Ids(covers) <==> exists k :: 0 <= k < |covers| && covers[k].id == id
  {
    if k :| 0 <= k < |covers| && covers[k].id == id {
      assert Ids(covers)[k] == id;
    }
  }

  /** Has the cover a name and a locale of nothing but spaces? */
  predicate HasBlankLocale(c: Cover) {
    Trim(c.fileName) != "" && c.locale.Some? && forall i :: 0 <= i < |c.locale.value| ==> c.locale.value[i] == ' '
  }

  /** Which first refreshes complete, in terms of names and locales alone. */
  lemma FirstRefreshCompletesIff(syncedAt: Option<int>, covers: seq<Cover>, now: int)
    requires StableIds(covers)
    ensures Refresh(Table([], syncedAt), Remote(covers, None), now).1 <==>
            forall k :: 0 <= k < |covers| ==> !HasBlankLocale(covers[k])
  {
    FirstRefresh(syncedAt, covers, now);
    forall k | 0 <= k < |covers| ensures IsStorable(covers[k]) <==> !HasBlankLocale(covers[k]) {
      assert "und"[0] == 'u';
    }
  }
}
