/** Synchronisation of one manga's volume table with the covers MangaDex lists. A row's position stands
    for its primary key; rows are never removed, only marked deleted. */
module VolumeSync {
  import opened Numbers
  import opened Options
  import opened VolumeKey

  const PAGE: nat := 50

  /** A normalised volume key: a plain number in ten-thousandths, or whatever else the parser lets by. */
  datatype NumberKey = Numeric(value: nat) | Odd(text: string, fractional: bool)

  /** A remote cover; `key` is the normalised key of `volume`. */
  datatype Cover = Cover(id: nat, fileName: string, volume: Option<string>, key: Option<NumberKey>,
                         locale: Option<string>, version: Option<int>, createdAt: Option<int>, updatedAt: Option<int>)

  datatype Row = Row(coverId: Option<nat>, fileName: string, volume: Option<string>, key: Option<NumberKey>,
                     locale: string, special: bool, version: Option<int>, createdAt: Option<int>,
                     updatedAt: Option<int>, deletedAt: Option<int>)

  predicate IsActive(row: Row) { row.deletedAt.None? }

  predicate IsListed(c: Cover) { Trim(c.fileName) != "" }

  function LocaleOf(c: Cover): string { if c.locale.Some? then c.locale.value else "und" }

  predicate IsSpecial(key: Option<NumberKey>) {
    match key
    case None => true
    case Some(Numeric(value)) => value % SCALE != 0
    case Some(Odd(_, fractional)) => fractional
  }

  function RowOf(c: Cover): Row {
    Row(Some(c.id), Trim(c.fileName), c.volume, c.key, LocaleOf(c), IsSpecial(c.key), c.version,
        c.createdAt, c.updatedAt, None)
  }

  /** The guard of the update: an older cover never replaces a newer one; a missing time always yields. */
  predicate MayReplace(stored: Option<int>, offered: Option<int>) {
    stored.None? || offered.None? || stored.value <= offered.value
  }

  // ---------------------------------------------------------------- the table's constraints

  datatype Constraint = CoverIdIndex | IdentityIndex | LocaleNotBlank

  datatype Outcome = Committed(rows: seq<Row>) | Violation(constraint: Constraint)

  predicate SameIdentity(a: Row, b: Row) {
    IsActive(a) && IsActive(b) && a.key.Some? && a.key == b.key && a.locale == b.locale
  }

  /** Cover ids are unique over all rows, deleted ones included. */
  predicate CoverIdsUnique(rows: seq<Row>) {
    forall i, j :: 0 <= i < j < |rows| && rows[i].coverId.Some? ==> rows[i].coverId != rows[j].coverId
  }

  /** Key and locale are unique over the active numbered rows. */
  predicate IdentitiesUnique(rows: seq<Row>) {
    forall i, j :: 0 <= i < j < |rows| ==> !SameIdentity(rows[i], rows[j])
  }

  /** The check on the locale trims spaces only. */
  predicate IsBlankLocale(locale: string) { forall i :: 0 <= i < |locale| ==> locale[i] == ' ' }

  predicate LocalesPresent(rows: seq<Row>) {
    forall i :: 0 <= i < |rows| ==> !IsBlankLocale(rows[i].locale)
  }

  predicate Consistent(rows: seq<Row>) {
    LocalesPresent(rows) && CoverIdsUnique(rows) && IdentitiesUnique(rows)
  }

  /** A statement that leaves `rows` either satisfies the constraints or fails. */
  function Checked(rows: seq<Row>): Outcome {
    if !LocalesPresent(rows) then Violation(LocaleNotBlank)
    else if !CoverIdsUnique(rows) then Violation(CoverIdIndex)
    else if !IdentitiesUnique(rows) then Violation(IdentityIndex)
    else Committed(rows)
  }

  /** The active row with this key and locale, if any. */
  function Holder(rows: seq<Row>, key: Option<NumberKey>, locale: string): (at: Option<nat>)
    ensures at.Some? ==> at.value < |rows| && IsActive(rows[at.value]) && rows[at.value].key == key
                         && rows[at.value].locale == locale
    ensures at.None? ==> forall i :: 0 <= i < |rows| ==>
              !(IsActive(rows[i]) && rows[i].key == key && rows[i].locale == locale)
  {
    if rows == [] then None
    else
      var last := |rows| - 1;
      if IsActive(rows[last]) && rows[last].key == key && rows[last].locale == locale then Some(last)
      else Holder(rows[..last], key, locale)
  }

  /** The row, active or not, that owns a cover id, if any. */
  function Owner(rows: seq<Row>, id: nat): (at: Option<nat>)
    ensures at.Some? ==> at.value < |rows| && rows[at.value].coverId == Some(id)
    ensures at.None? ==> forall i :: 0 <= i < |rows| ==> rows[i].coverId != Some(id)
  {
    if rows == [] then None
    else
      var last := |rows| - 1;
      if rows[last].coverId == Some(id) then Some(last) else Owner(rows[..last], id)
  }

  // ---------------------------------------------------------------- one cover, one page, one refresh

  function Upsert(rows: seq<Row>, c: Cover): Outcome {
    if !IsListed(c) then Committed(rows)
    else
      var holder := if c.key.Some? then Holder(rows, c.key, LocaleOf(c)) else None;
      if holder.Some? then
        if MayReplace(rows[holder.value].updatedAt, c.updatedAt) then Checked(rows[holder.value := RowOf(c)])
        else Committed(rows)
      else
        match Owner(rows, c.id)
        case Some(at) => Checked(rows[at := RowOf(c)])
        case None => Checked(rows + [RowOf(c)])
  }

  function UpsertAll(rows: seq<Row>, covers: seq<Cover>): Outcome {
    if covers == [] then Committed(rows)
    else
      match UpsertAll(rows, covers[..|covers| - 1])
      case Violation(constraint) => Violation(constraint)
      case Committed(after) => Upsert(after, covers[|covers| - 1])
  }

  function Ids(covers: seq<Cover>): (ids: seq<nat>)
    ensures |ids| == |covers| && forall i :: 0 <= i < |ids| ==> ids[i] == covers[i].id
  {
    if covers == [] then [] else Ids(covers[..|covers| - 1]) + [covers[|covers| - 1].id]
  }

  function Swept(row: Row, ids: seq<nat>, now: int): Row {
    if row.coverId.Some? && IsActive(row) && row.coverId.value !in ids then row.(deletedAt := Some(now)) else row
  }

  function Sweep(rows: seq<Row>, ids: seq<nat>, now: int): (swept: seq<Row>)
    ensures |swept| == |rows| && forall i :: 0 <= i < |rows| ==> swept[i] == Swept(rows[i], ids, now)
  {
    if rows == [] then [] else Sweep(rows[..|rows| - 1], ids, now) + [Swept(rows[|rows| - 1], ids, now)]
  }

  /** What MangaDex lists, and the offset at which a request for a page fails, if one does. */
  datatype Remote = Remote(covers: seq<Cover>, failsAt: Option<nat>)

  function ListCovers(remote: Remote, offset: nat, limit: nat): Option<seq<Cover>> {
    if remote.failsAt == Some(offset) then None
    else
      var n := |remote.covers|;
      Some(remote.covers[Min(offset, n)..Min(offset + limit, n)])
  }

  /** The table and the time of its last completed synchronisation. */
  datatype Table = Table(rows: seq<Row>, syncedAt: Option<int>)

  /** The rows committed by the page loop from an offset on, and whether it ran to its end. */
  function SyncPages(rows: seq<Row>, remote: Remote, offset: nat): (seq<Row>, bool)
    decreases |remote.covers| - offset
  {
    match ListCovers(remote, offset, PAGE)
    case None => (rows, false)
    case Some(page) =>
      if page == [] then (rows, true)
      else
        match UpsertAll(rows, page)
        case Violation(_) => (rows, false)
        case Committed(after) => if |page| < PAGE then (after, true) else SyncPages(after, remote, offset + PAGE)
  }

  function Refresh(t: Table, remote: Remote, now: int): (Table, bool) {
    var (rows, done) := SyncPages(t.rows, remote, 0);
    if done then (Table(Sweep(rows, Ids(remote.covers), now), Some(now)), true)
    else (Table(rows, t.syncedAt), false)
  }

  /** The page at an offset. */
  function PageAt(covers: seq<Cover>, offset: nat): seq<Cover>
    requires offset <= |covers|
  {
    covers[offset..Min(offset + PAGE, |covers|)]
  }

  /** The page loop, one page at a time. */
  lemma PagesUnfold(rows: seq<Row>, remote: Remote, offset: nat)
    requires offset <= |remote.covers|
    ensures var page := PageAt(remote.covers, offset);
            SyncPages(rows, remote, offset) ==
            if remote.failsAt == Some(offset) then (rows, false)
            else if offset == |remote.covers| then (rows, true)
            else if UpsertAll(rows, page).Violation? then (rows, false)
            else if offset + PAGE > |remote.covers| then (UpsertAll(rows, page).rows, true)
            else SyncPages(UpsertAll(rows, page).rows, remote, offset + PAGE)
  {
  }

  lemma IdsOfPage(covers: seq<Cover>, offset: nat)
    requires offset <= |covers|
    ensures Ids(covers[..offset]) + Ids(PageAt(covers, offset)) == Ids(covers[..Min(offset + PAGE, |covers|)])
  {
    IdsConcat(covers[..offset], PageAt(covers, offset));
    assert covers[..offset] + PageAt(covers, offset) == covers[..Min(offset + PAGE, |covers|)];
  }

  /** How a turn of the page loop ends: with an error, after the last page, or with more to come. */
  datatype Turn = Failed | Last | More

  /** The table behind `refresh_manga_volumes`. */
  class VolumeTable {
    var rows: seq<Row>
    var syncedAt: Option<int>

    function State(): Table
      reads this
    {
      Table(rows, syncedAt)
    }

    constructor ()
      ensures State() == Table([], None)
    {
      rows, syncedAt := [], None;
    }

    /** One cover, in the transaction under way; on a conflict the statement changes nothing. */
    method UpsertVolume(cover: Cover) returns (ok: bool)
      modifies this`rows
      ensures ok <==> Upsert(old(rows), cover).Committed?
      ensures rows == if ok then Upsert(old(rows), cover).rows else old(rows)
    {
      var fileName := Trim(cover.fileName);
      if fileName == "" {
        return true;
      }
      var locale := if cover.locale.Some? then cover.locale.value else "und";
      var inserted := Row(Some(cover.id), fileName, cover.volume, cover.key, locale, IsSpecial(cover.key),
                        cover.version, cover.createdAt, cover.updatedAt, None);
      if cover.key.Some? {
        var existing := Holder(rows, cover.key, locale);
        if existing.Some? {
          var row := rows[existing.value];
          if row.updatedAt.None? || cover.updatedAt.None? || row.updatedAt.value <= cover.updatedAt.value {
            ok := Execute(rows[existing.value := row.(coverId := Some(cover.id), fileName := fileName,
              volume := cover.volume, special := IsSpecial(cover.key), version := cover.version,
              createdAt := cover.createdAt, updatedAt := cover.updatedAt, deletedAt := None)]);
            return ok;
          }
          return true;
        }
      }
      var owner := Owner(rows, cover.id);
      if owner.Some? {
        ok := Execute(rows[owner.value := inserted]);
      } else {
        ok := Execute(rows + [inserted]);
      }
    }

    method Execute(changed: seq<Row>) returns (ok: bool)
      modifies this`rows
      ensures ok <==> Checked(changed).Committed?
      ensures rows == if ok then changed else old(rows)
    {
      ok := LocalesPresent(changed) && CoverIdsUnique(changed) && IdentitiesUnique(changed);
      if ok {
        rows := changed;
      }
    }

    /** One page in a transaction of its own: all of it, or on a conflict nothing. */
    method UpsertPage(page: seq<Cover>, known: seq<nat>) returns (ok: bool, ids: seq<nat>)
      modifies this`rows
      ensures ok <==> UpsertAll(old(rows), page).Committed?
      ensures rows == if ok then UpsertAll(old(rows), page).rows else old(rows)
      ensures ok ==> ids == known + Ids(page)
    {
      var atBegin := rows;
      ids := known;
      for k := 0 to |page|
        invariant UpsertAll(old(rows), page[..k]) == Committed(rows)
        invariant ids == known + Ids(page[..k])
      {
        assert page[..k + 1][..k] == page[..k];
        ids := ids + [page[k].id];
        ok := UpsertVolume(page[k]);
        if !ok {
          UpsertAllStops(old(rows), page, k + 1);
          rows := atBegin;
          return;
        }
      }
      assert page[..|page|] == page;
      ok := true;
    }

    /** One turn of the page loop: ask for the page at an offset and commit it. */
    method SyncPage(remote: Remote, offset: nat, known: seq<nat>) returns (turn: Turn, ids: seq<nat>)
      requires offset <= |remote.covers| && known == Ids(remote.covers[..offset])
      modifies this`rows
      ensures turn == Failed ==> SyncPages(old(rows), remote, offset) == (rows, false)
      ensures turn == Last ==> SyncPages(old(rows), remote, offset) == (rows, true) && ids == Ids(remote.covers)
      ensures turn == More ==>
        && offset + PAGE <= |remote.covers|
        && SyncPages(old(rows), remote, offset) == SyncPages(rows, remote, offset + PAGE)
        && ids == Ids(remote.covers[..offset + PAGE])
    {
      ids := known;
      PagesUnfold(rows, remote, offset);
      IdsOfPage(remote.covers, offset);
      assert remote.covers[..|remote.covers|] == remote.covers;
      var reply := ListCovers(remote, offset, PAGE);
      if reply.None? {
        return Failed, ids;
      }
      var page := reply.value;
      if page == [] {
        return Last, ids;
      }
      var ok;
      ok, ids := UpsertPage(page, known);
      turn := if !ok then Failed else if |page| < PAGE then Last else More;
    }

    method RefreshMangaVolumes(remote: Remote, now: int) returns (ok: bool)
      modifies this
      ensures (State(), ok) == Refresh(old(State()), remote, now)
    {
      var offset := 0;
      var remoteCoverIds: seq<nat> := [];
      while true
        invariant offset <= |remote.covers|
        invariant SyncPages(rows, remote, offset) == SyncPages(old(rows), remote, 0)
        invariant remoteCoverIds == Ids(remote.covers[..offset])
        invariant syncedAt == old(syncedAt)
        decreases |remote.covers| - offset
      {
        var turn;
        turn, remoteCoverIds := SyncPage(remote, offset, remoteCoverIds);
        if turn == Failed {
          return false;
        }
        if turn == Last {
          break;
        }
        offset := offset + PAGE;
      }
      rows := Sweep(rows, remoteCoverIds, now);
      syncedAt := Some(now);
      return true;
    }
  }

  lemma {:induction false} IdsConcat(a: seq<Cover>, b: seq<Cover>)
    ensures Ids(a + b) == Ids(a) + Ids(b)
  {
  }

  lemma {:induction false} UpsertAllStops(rows: seq<Row>, covers: seq<Cover>, k: nat)
    requires k <= |covers| && UpsertAll(rows, covers[..k]).Violation?
    ensures UpsertAll(rows, covers).Violation?
  {
    if k == |covers| {
      assert covers[..k] == covers;
    } else {
      var rest := covers[..|covers| - 1];
      assert rest[..k] == covers[..k];
      UpsertAllStops(rows, rest, k);
    }
  }

  lemma {:induction false} UpsertAllConcat(rows: seq<Row>, a: seq<Cover>, b: seq<Cover>)
    ensures UpsertAll(rows, a + b) ==
            (match UpsertAll(rows, a)
             case Violation(constraint) => Violation(constraint)
             case Committed(after) => UpsertAll(after, b))
  {
    if b == [] {
      assert a + b == a;
    } else {
      assert (a + b)[..|a + b| - 1] == a + b[..|b| - 1];
      UpsertAllConcat(rows, a, b[..|b| - 1]);
    }
  }

  // ---------------------------------------------------------------- constraint safety

  /** A listed cover whose locale the table takes. */
  predicate IsStorable(c: Cover) { IsListed(c) ==> !IsBlankLocale(LocaleOf(c)) }

  /** The guard lets the cover update the row of its key and locale while another row, deleted or
      not, owns its id. */
  ghost predicate Clashes(rows: seq<Row>, c: Cover) {
    && IsListed(c) && c.key.Some?
    && exists i, j :: 0 <= i < |rows| && 0 <= j < |rows| && i != j
         && IsActive(rows[i]) && rows[i].key == c.key && rows[i].locale == LocaleOf(c)
         && MayReplace(rows[i].updatedAt, c.updatedAt) && rows[j].coverId == Some(c.id)
  }

  /** From a table that satisfies its constraints, no upsert can break the key-and-locale index. It breaks
      the check on locales exactly when the cover's locale is blank. It breaks the cover-id index exactly
      when the guard lets it update the row holding the cover's key and locale while another row, deleted
      or not, owns the cover's id. */
  lemma IndexSafety(rows: seq<Row>, c: Cover)
    requires Consistent(rows)
    ensures Upsert(rows, c) != Violation(IdentityIndex)
    ensures Upsert(rows, c) == Violation(LocaleNotBlank) <==> !IsStorable(c)
    ensures Upsert(rows, c) == Violation(CoverIdIndex) <==> Clashes(rows, c)
    ensures Upsert(rows, c).Committed? ==> Consistent(Upsert(rows, c).rows)
  {
    if IsListed(c) {
      var holder := if c.key.Some? then Holder(rows, c.key, LocaleOf(c)) else None;
      var owner := Owner(rows, c.id);
      if holder.Some? {
        HolderUpdate(rows, c, holder.value);
      } else if owner.Some? {
        OwnerUpdate(rows, c, owner.value);
      } else {
        FreshRow(rows, c);
      }
    }
  }

  lemma OwnerUpdate(rows: seq<Row>, c: Cover, i: nat)
    requires Consistent(rows) && i < |rows| && rows[i].coverId == Some(c.id)
    requires c.key.Some? ==> Holder(rows, c.key, LocaleOf(c)).None?
    ensures var after := rows[i := RowOf(c)];
            && CoverIdsUnique(after) && IdentitiesUnique(after)
            && (LocalesPresent(after) <==> !IsBlankLocale(LocaleOf(c)))
  {
    assert rows[i := RowOf(c)][i] == RowOf(c);
  }

  lemma FreshRow(rows: seq<Row>, c: Cover)
    requires Consistent(rows) && Owner(rows, c.id).None?
    requires c.key.Some? ==> Holder(rows, c.key, LocaleOf(c)).None?
    ensures var after := rows + [RowOf(c)];
            && CoverIdsUnique(after) && IdentitiesUnique(after)
            && (LocalesPresent(after) <==> !IsBlankLocale(LocaleOf(c)))
  {
    assert (rows + [RowOf(c)])[|rows|] == RowOf(c);
  }

  lemma HolderUpdate(rows: seq<Row>, c: Cover, i: nat)
    requires Consistent(rows) && i < |rows| && c.key.Some?
    requires IsActive(rows[i]) && rows[i].key == c.key && rows[i].locale == LocaleOf(c)
    ensures IdentitiesUnique(rows[i := RowOf(c)]) && LocalesPresent(rows[i := RowOf(c)])
    ensures CoverIdsUnique(rows[i := RowOf(c)]) <==>
            !exists j :: 0 <= j < |rows| && j != i && rows[j].coverId == Some(c.id)
    ensures forall k :: 0 <= k < |rows| && k != i ==>
              !(IsActive(rows[k]) && rows[k].key == c.key && rows[k].locale == LocaleOf(c))
  {
    var after := rows[i := RowOf(c)];
    if j :| 0 <= j < |rows| && j != i && rows[j].coverId == Some(c.id) {
      assert after[i].coverId == after[j].coverId;
    }
    forall k | 0 <= k < |rows| && k != i ensures !SameIdentity(rows[k], rows[i]) {
      assert if k < i then !SameIdentity(rows[k], rows[i]) else !SameIdentity(rows[i], rows[k]);
    }
    forall x, y | 0 <= x < y < |after| ensures !SameIdentity(after[x], after[y]) {
      assert !SameIdentity(rows[x], rows[y]);
    }
  }

  ghost predicate AreStorable(covers: seq<Cover>) {
    forall k :: 0 <= k < |covers| ==> IsStorable(covers[k])
  }

  lemma {:induction false} UpsertAllConsistent(rows: seq<Row>, covers: seq<Cover>)
    requires Consistent(rows)
    ensures UpsertAll(rows, covers) != Violation(IdentityIndex)
    ensures UpsertAll(rows, covers) == Violation(LocaleNotBlank) ==> !AreStorable(covers)
    ensures UpsertAll(rows, covers).Committed? ==> AreStorable(covers)
    ensures UpsertAll(rows, covers).Committed? ==> Consistent(UpsertAll(rows, covers).rows)
  {
    if covers != [] {
      UpsertAllConsistent(rows, covers[..|covers| - 1]);
      var before := UpsertAll(rows, covers[..|covers| - 1]);
      if before.Committed? {
        IndexSafety(before.rows, covers[|covers| - 1]);
      }
    }
  }
}
