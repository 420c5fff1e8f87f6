/** The volume listing and the latest volume number, read from one manga's volume table. */
module Listing {
  import opened Numbers
  import opened Options
  import opened Sorting
  import opened VolumeKey
  import opened VolumeSync

  /** A row with its primary key. */
  datatype Entry = Entry(id: nat, row: Row)

  function Rows(table: seq<Entry>): set<Entry> { set e | e in table }

  // ---------------------------------------------------------------- languages

  function LowerChar(c: char): char { if 'A' <= c <= 'Z' then (c as int + 32) as char else c }

  /** Lower case, with dashes for underscores. */
  function Folded(text: string): string {
    if text == "" then "" else [if text[0] == '_' then '-' else LowerChar(text[0])] + Folded(text[1..])
  }

  /** The part before the first dash. */
  function Head(text: string): string {
    if text == "" || text[0] == '-' then "" else [text[0]] + Head(text[1..])
  }

  function BaseLanguage(locale: string): string { Head(Folded(locale)) }

  function NormalizeLanguage(locale: string): Option<string> {
    var language := Folded(Trim(locale));
    if language == "" then None
    else if language == "original" then Some(language)
    else Some(Head(language))
  }

  function Normalized(language: Option<string>): Option<string> {
    if language.Some? then NormalizeLanguage(language.value) else None
  }

  function RequestedLanguage(locale: Option<string>, original: Option<string>): Option<string> {
    if locale.None? then None
    else if locale.value == "original" then Normalized(original)
    else NormalizeLanguage(locale.value)
  }

  function Preferred(locale: Option<string>, original: Option<string>): string {
    var requested := RequestedLanguage(locale, original);
    if requested.Some? then requested.value else "ja"
  }

  function Except(language: Option<string>, excluded: string): Option<string> {
    if language == Some(excluded) then None else language
  }

  /** The listing's fallback language: only without a locale, and none for the literal "original". */
  function ListingFallback(locale: Option<string>, original: Option<string>): Option<string> {
    if locale.Some? || original.None? then None
    else Except(RequestedLanguage(original, None), Preferred(locale, original))
  }

  /** The base language of a text is what stands before its first dash or underscore, in lower case. */
  lemma {:induction false} BaseLanguageIs(text: string)
    ensures var base := BaseLanguage(text);
            && |base| <= |text| && (|base| < |text| ==> text[|base|] == '-' || text[|base|] == '_')
            && forall i :: 0 <= i < |base| ==>
                 && text[i] != '-' && text[i] != '_'
                 && base[i] == if 65 <= text[i] as int <= 90 then (text[i] as int + 32) as char else text[i]
  {
    if text != "" {
      BaseLanguageIs(text[1..]);
      assert Folded(text)[1..] == Folded(text[1..]);
    }
  }

  lemma NormalizedIs(locale: string)
    ensures NormalizeLanguage(locale) == if Trim(locale) == "" then None else Some(BaseLanguage(Trim(locale)))
  {
    LowerCaseStays("original");
    FoldedLength(Trim(locale));
  }

  lemma {:induction false} FoldedLength(text: string)
    ensures |Folded(text)| == |text|
  {
    if text != "" {
      FoldedLength(text[1..]);
    }
  }

  /** Which languages a request leads to: the one asked for, or the original one for the word "original", or
      Japanese; and only a request without a locale falls back to the original language. */
  lemma LanguagesAre(locale: Option<string>, original: Option<string>)
    ensures Preferred(locale, original) ==
            var asked := if locale == Some("original") then original else locale;
            if asked == None || Trim(asked.value) == "" then "ja" else BaseLanguage(Trim(asked.value))
    ensures ListingFallback(locale, original) ==
            if locale != None || original == None || original == Some("original") || Trim(original.value) == ""
               || BaseLanguage(Trim(original.value)) == "ja" then None
            else Some(BaseLanguage(Trim(original.value)))
  {
    if original.Some? {
      NormalizedIs(original.value);
    }
    if locale.Some? {
      NormalizedIs(locale.value);
    }
  }

  // ---------------------------------------------------------------- the rows selected

  predicate IsRegularIn(e: Entry, language: string) {
    IsActive(e.row) && !e.row.special && BaseLanguage(e.row.locale) == language
  }

  predicate HasRegular(table: set<Entry>, language: string) {
    exists e :: e in table && IsRegularIn(e, language)
  }

  predicate IsSelected(table: set<Entry>, e: Entry, preferred: string, fallback: Option<string>) {
    && IsActive(e.row)
    && (|| e.row.special
        || BaseLanguage(e.row.locale) == preferred
        || (fallback.Some? && !HasRegular(table, preferred) && BaseLanguage(e.row.locale) == fallback.value))
  }

  function Selected(table: set<Entry>, locale: Option<string>, original: Option<string>): set<Entry> {
    set e | e in table && IsSelected(table, e, Preferred(locale, original), ListingFallback(locale, original))
  }

  // ---------------------------------------------------------------- the order

  function Number(row: Row): Option<nat> {
    if row.key.Some? && row.key.value.Numeric? then Some(row.key.value.value) else None
  }

  /** Ascending, with missing values last. */
  predicate NumberBefore(a: Option<nat>, b: Option<nat>) {
    a.Some? && (b.None? || a.value < b.value)
  }

  /** Descending, with missing values last. */
  predicate TimeBefore(a: Option<int>, b: Option<int>) {
    a.Some? && (b.None? || a.value > b.value)
  }

  /** Alphabetical order by code point. */
  predicate TextBefore(a: string, b: string) {
    if a == "" || b == "" then a == "" && b != ""
    else if a[0] != b[0] then a[0] < b[0]
    else TextBefore(a[1..], b[1..])
  }

  predicate Before(a: Entry, b: Entry) {
    if Number(a.row) != Number(b.row) then NumberBefore(Number(a.row), Number(b.row))
    else if a.row.locale != b.row.locale then TextBefore(a.row.locale, b.row.locale)
    else if a.row.updatedAt != b.row.updatedAt then TimeBefore(a.row.updatedAt, b.row.updatedAt)
    else a.id < b.id
  }

  /** Primary keys are unique. */
  ghost predicate Keyed(table: set<Entry>) {
    forall a, b :: a in table && b in table && a.id == b.id ==> a == b
  }

  lemma {:induction false} TextTotal(a: string, b: string)
    ensures !TextBefore(a, a)
    ensures a != b ==> TextBefore(a, b) || TextBefore(b, a)
    decreases |a|
  {
    if a != "" {
      TextTotal(a[1..], if b == "" then "" else b[1..]);
      assert b != "" && a[0] == b[0] && a[1..] == b[1..] ==> a == [a[0]] + a[1..] && b == [b[0]] + b[1..];
    }
  }

  lemma {:induction false} TextTransitive(a: string, b: string, c: string)
    requires TextBefore(a, b) && TextBefore(b, c)
    ensures TextBefore(a, c)
  {
    if a != "" && a[0] == b[0] == c[0] {
      TextTransitive(a[1..], b[1..], c[1..]);
    }
  }

  lemma BeforeTransitive(a: Entry, b: Entry, c: Entry)
    requires Before(a, b) && Before(b, c)
    ensures Before(a, c)
  {
    if TextBefore(a.row.locale, b.row.locale) && TextBefore(b.row.locale, c.row.locale) {
      TextTransitive(a.row.locale, b.row.locale, c.row.locale);
    }
    TextTotal(a.row.locale, b.row.locale);
    if TextBefore(a.row.locale, b.row.locale) && TextBefore(b.row.locale, a.row.locale) {
      TextTransitive(a.row.locale, b.row.locale, a.row.locale);
    }
  }

  /** The ORDER BY clause is a strict total order on any table. */
  lemma OrderIsTotal(table: set<Entry>)
    requires Keyed(table)
    ensures StrictTotal(Before, table)
  {
    forall a, b | a in table && b in table && a != b ensures Before(a, b) || Before(b, a) {
      TextTotal(a.row.locale, b.row.locale);
    }
    forall a, b, c | a in table && b in table && c in table && Before(a, b) && Before(b, c) ensures Before(a, c) {
      BeforeTransitive(a, b, c);
    }
  }

  // ---------------------------------------------------------------- answers

  /** `answer` is what the query may return for this limit and offset: that slice of some arrangement of
      the selected rows that satisfies the ORDER BY. */
  ghost predicate IsAnswer(answer: seq<Entry>, selected: set<Entry>, limit: nat, offset: nat) {
    exists full :: IsSlice(answer, full, limit, offset) && Lists(full, selected, Before)
  }

  predicate IsSlice(answer: seq<Entry>, full: seq<Entry>, limit: nat, offset: nat) {
    answer == full[Min(offset, |full|)..Min(offset + limit, |full|)]
  }

  function Concat(pages: seq<seq<Entry>>): seq<Entry> {
    if pages == [] then [] else Concat(pages[..|pages| - 1]) + pages[|pages| - 1]
  }

  /** Whatever arrangement a query used, its answer is that slice of the one complete listing. */
  lemma AnswerIsSlice(answer: seq<Entry>, selected: set<Entry>, limit: nat, offset: nat, full: seq<Entry>)
    requires Keyed(selected) && Lists(full, selected, Before) && IsAnswer(answer, selected, limit, offset)
    ensures IsSlice(answer, full, limit, offset)
  {
    OrderIsTotal(selected);
    var other :| IsSlice(answer, other, limit, offset) && Lists(other, selected, Before);
    OneListing(other, full, selected, Before);
  }

  // ---------------------------------------------------------------- the order of an answer

  predicate IsNumbered(row: Row) { row.key.Some? && row.key.value.Numeric? }

  predicate SameNumber(a: Row, b: Row) {
    IsNumbered(a) == IsNumbered(b) && (IsNumbered(a) ==> a.key.value.value == b.key.value.value)
  }

  /** `a` is a proper beginning of `b`, or has the smaller code point where they first differ. */
  ghost predicate IsAlphabetical(a: string, b: string) {
    exists p: nat ::
      && p <= |a| && p <= |b| && a[..p] == b[..p]
      && p < |b| && (p < |a| ==> a[p] < b[p])
  }

  lemma {:induction false} TextBeforeIs(a: string, b: string) returns (p: nat)
    requires TextBefore(a, b)
    ensures p <= |a| && p <= |b| && a[..p] == b[..p] && p < |b| && (p < |a| ==> a[p] < b[p])
  {
    p := 0;
    if a != "" && a[0] == b[0] {
      var q := TextBeforeIs(a[1..], b[1..]);
      p := q + 1;
      assert a[..p] == [a[0]] + a[1..][..q] && b[..p] == [b[0]] + b[1..][..q];
    }
  }

  /** Any two rows of an answer, in the order in which they are listed: numbered rows first and by ascending
      number; then locales in alphabetical order; then the latest update first, and those without a time last;
      then by ascending id. */
  ghost predicate InOrder(a: Entry, b: Entry) {
    && (IsNumbered(b.row) ==> IsNumbered(a.row))
    && (IsNumbered(a.row) && IsNumbered(b.row) ==> a.row.key.value.value <= b.row.key.value.value)
    && (SameNumber(a.row, b.row) ==> a.row.locale == b.row.locale || IsAlphabetical(a.row.locale, b.row.locale))
    && (SameNumber(a.row, b.row) && a.row.locale == b.row.locale ==>
          && (b.row.updatedAt.Some? ==> a.row.updatedAt.Some? && a.row.updatedAt.value >= b.row.updatedAt.value)
          && (a.row.updatedAt == b.row.updatedAt ==> a.id < b.id))
  }

  lemma BeforeIsInOrder(a: Entry, b: Entry)
    requires Before(a, b)
    ensures InOrder(a, b)
  {
    if TextBefore(a.row.locale, b.row.locale) {
      var p := TextBeforeIs(a.row.locale, b.row.locale);
      assert IsAlphabetical(a.row.locale, b.row.locale);
    }
  }

  /** Every answer lists its rows in that order. */
  lemma AnswersInOrder(answer: seq<Entry>, selected: set<Entry>, limit: nat, offset: nat, i: nat, j: nat)
    requires IsAnswer(answer, selected, limit, offset) && i < j < |answer|
    ensures InOrder(answer[i], answer[j])
  {
    var full :| IsSlice(answer, full, limit, offset) && Lists(full, selected, Before);
    var start := Min(offset, |full|);
    assert answer[i] == full[start + i] && answer[j] == full[start + j];
    BeforeIsInOrder(answer[i], answer[j]);
  }

  /** An answer has as many rows as the limit allows and the rest of the selection has. */
  lemma AnswerLength(answer: seq<Entry>, selected: set<Entry>, limit: nat, offset: nat)
    requires Keyed(selected) && IsAnswer(answer, selected, limit, offset)
    ensures |answer| == Min(limit, if offset < |selected| then |selected| - offset else 0)
    ensures forall e :: e in answer ==> e in selected
  {
    OrderIsTotal(selected);
    var full :| IsSlice(answer, full, limit, offset) && Lists(full, selected, Before);
    LengthIsSize(full, selected, Before);
  }

  /** The offset of the k-th page. */
  function OffsetOf(k: nat, size: nat): nat { k * size }

  lemma OneMorePage(k: nat, size: nat)
    ensures OffsetOf(k, size) + size == OffsetOf(k + 1, size)
  {
  }

  lemma NextSlice(page: seq<Entry>, full: seq<Entry>, limit: nat, offset: nat)
    requires IsSlice(page, full, limit, offset)
    ensures full[..Min(offset, |full|)] + page == full[..Min(offset + limit, |full|)]
  {
  }

  /** Pagination. For any page size, the answers to successive queries, each free to arrange the rows on
      its own, put together are a prefix of the one complete listing: nothing is repeated or skipped. */
  lemma {:induction false} PagesTile(pages: seq<seq<Entry>>, selected: set<Entry>, size: nat, full: seq<Entry>)
    requires Keyed(selected) && Lists(full, selected, Before)
    requires forall k :: 0 <= k < |pages| ==> IsAnswer(pages[k], selected, size, OffsetOf(k, size))
    ensures Concat(pages) == full[..Min(OffsetOf(|pages|, size), |full|)]
  {
    if pages == [] {
      assert OffsetOf(0, size) == 0;
    } else {
      var last := |pages| - 1;
      assert forall k :: 0 <= k < last ==> pages[..last][k] == pages[k];
      PagesTile(pages[..last], selected, size, full);
      AnswerIsSlice(pages[last], selected, size, OffsetOf(last, size), full);
      NextSlice(pages[last], full, size, OffsetOf(last, size));
      OneMorePage(last, size);
    }
  }

  /** Every query has an answer. */
  lemma AnswerExists(s: seq<Entry>, selected: set<Entry>, limit: nat, offset: nat) returns (answer: seq<Entry>)
    requires Keyed(selected) && Distinct(s) && forall e :: e in s <==> e in selected
    ensures IsAnswer(answer, selected, limit, offset)
  {
    OrderIsTotal(selected);
    SortLists(s, selected, Before);
    var full := Sort(s, Before);
    answer := full[Min(offset, |full|)..Min(offset + limit, |full|)];
    assert Lists(full, selected, Before) && IsSlice(answer, full, limit, offset);
  }

  /** What is listed: no deleted row; every active special, in whatever language; and regular rows of a
      single base language, which is the fallback only if the preferred one has none. */
  lemma ListingContents(table: set<Entry>, locale: Option<string>, original: Option<string>)
    ensures var preferred := Preferred(locale, original);
            var fallback := ListingFallback(locale, original);
            var selected := Selected(table, locale, original);
            && (forall e :: e in selected ==> e in table && IsActive(e.row))
            && (forall e :: e in table && IsActive(e.row) && e.row.special ==> e in selected)
            && (HasRegular(table, preferred) ==>
                  forall e :: e in table && !e.row.special ==> (e in selected <==> IsRegularIn(e, preferred)))
            && (!HasRegular(table, preferred) ==>
                  forall e :: e in table && !e.row.special ==>
                    (e in selected <==> fallback.Some? && IsRegularIn(e, fallback.value)))
  {
  }

  /** The same as one equivalence, on the columns of the rows. */
  lemma ListingShows(table: set<Entry>, locale: Option<string>, original: Option<string>, e: Entry)
    ensures var preferred := Preferred(locale, original);
            var fallback := ListingFallback(locale, original);
            e in Selected(table, locale, original) <==>
            && e in table && e.row.deletedAt == None
            && (|| e.row.special
                || BaseLanguage(e.row.locale) == preferred
                || (&& fallback == Some(BaseLanguage(e.row.locale))
                    && !exists x :: x in table && x.row.deletedAt == None && !x.row.special
                                    && BaseLanguage(x.row.locale) == preferred))
  {
    var preferred := Preferred(locale, original);
    assert HasRegular(table, preferred) <==>
           exists x :: x in table && x.row.deletedAt == None && !x.row.special
                        && BaseLanguage(x.row.locale) == preferred;
  }

  // ---------------------------------------------------------------- the latest volume

  predicate Counts(e: Entry, language: string) { IsRegularIn(e, language) && Number(e.row).Some? }

  /** The greatest numeric key among the active regular rows of a language. */
  function LatestSynced(table: seq<Entry>, language: string): (latest: Option<nat>)
    ensures latest.None? <==> forall e :: e in table ==> !Counts(e, language)
    ensures latest.Some? ==> exists e :: e in table && Counts(e, language) && Number(e.row) == latest
    ensures latest.Some? ==> forall e :: e in table && Counts(e, language) ==> Number(e.row).value <= latest.value
  {
    if table == [] then None
    else
      var last := table[|table| - 1];
      assert table == table[..|table| - 1] + [last];
      var rest := LatestSynced(table[..|table| - 1], language);
      if Counts(last, language) && (rest.None? || rest.value < Number(last.row).value) then Number(last.row) else rest
  }

  datatype Latest = Synced(number: nat) | Reported(text: string) | Unknown

  function LatestVolume(table: seq<Entry>, lastVolume: Option<string>, locale: Option<string>,
                        original: Option<string>): Latest
  {
    var preferred := Preferred(locale, original);
    var synced := LatestSynced(table, preferred);
    var language := Except(Normalized(original), preferred);
    var fallback := if language.Some? then LatestSynced(table, language.value) else None;
    if synced.Some? then Synced(synced.value)
    else if fallback.Some? then Synced(fallback.value)
    else if locale.None? && lastVolume.Some? then Reported(lastVolume.value)
    else Unknown
  }

  /** Whenever the complete listing shows a numbered regular row, the latest volume number is the greatest
      number among the regular rows it shows. */
  lemma LatestAgreesWithListing(table: seq<Entry>, lastVolume: Option<string>, locale: Option<string>,
                                original: Option<string>, shown: Entry)
    requires var selected := Selected(Rows(table), locale, original);
             shown in selected && !shown.row.special && Number(shown.row).Some?
    ensures var selected := Selected(Rows(table), locale, original);
            var latest := LatestVolume(table, lastVolume, locale, original);
            && latest.Synced?
            && (exists e :: e in selected && !e.row.special && Number(e.row) == Some(latest.number))
            && (forall e :: e in selected && !e.row.special && Number(e.row).Some? ==>
                  Number(e.row).value <= latest.number)
  {
    var entries := Rows(table);
    ListingContents(entries, locale, original);
    var preferred := Preferred(locale, original);
    var fallback := ListingFallback(locale, original);
    if HasRegular(entries, preferred) {
      assert Counts(shown, preferred);
    } else {
      assert LatestSynced(table, preferred).None?;
      assert Counts(shown, fallback.value);
      assert fallback == Except(Normalized(original), preferred);
    }
  }

  ghost predicate AnyCounts(table: seq<Entry>, language: string) { exists e :: e in table && Counts(e, language) }

  /** The latest number belongs to no regular row that the listing shows. */
  ghost predicate IsNotShown(latest: Latest, selected: set<Entry>) {
    latest.Synced? && forall e :: e in selected && !e.row.special ==> Number(e.row) != Some(latest.number)
  }

  /** Exactly when the latest volume number is one the complete listing does not show: it comes from the
      original language, and the listing does not fall back to that language because a locale was asked
      for, because the language is spelled as the literal word, or because there are unnumbered regular rows
      in the preferred language. */
  lemma LatestNotShownIff(table: seq<Entry>, lastVolume: Option<string>, locale: Option<string>,
                          original: Option<string>)
    ensures var preferred := Preferred(locale, original);
            var other := Except(Normalized(original), preferred);
            IsNotShown(LatestVolume(table, lastVolume, locale, original), Selected(Rows(table), locale, original)) <==>
            && !AnyCounts(table, preferred) && other.Some? && AnyCounts(table, other.value)
            && (locale.Some? || original == Some("original") || HasRegular(Rows(table), preferred))
  {
    var entries, preferred := Rows(table), Preferred(locale, original);
    var selected := Selected(entries, locale, original);
    var other := Except(Normalized(original), preferred);
    var latest := LatestVolume(table, lastVolume, locale, original);
    ListingContents(entries, locale, original);
    if AnyCounts(table, preferred) {
      var e :| e in table && Counts(e, preferred) && Number(e.row) == Some(latest.number);
      assert e in entries && e in selected;
    } else if other.Some? && AnyCounts(table, other.value) {
      var e :| e in table && Counts(e, other.value) && Number(e.row) == Some(latest.number);
      assert e in entries;
      if locale.Some? || original == Some("original") || HasRegular(entries, preferred) {
        forall x | x in selected && !x.row.special ensures Number(x.row).None? {
          assert IsRegularIn(x, preferred) && !Counts(x, preferred);
        }
      } else {
        assert e in selected;
      }
    }
  }

  /** A row counts if it is active, not special, in the language, and numbered. */
  lemma CountsIs(e: Entry, language: string)
    ensures Counts(e, language) <==>
            && e.row.deletedAt == None && !e.row.special && BaseLanguage(e.row.locale) == language
            && IsNumbered(e.row)
  {
  }

  /** When no number of the table is given: the text MangaDex reported comes out exactly if no locale was asked
      for, there is one, and no row counts in the preferred or the original language; and without such a text,
      or with a locale, nothing is known. */
  lemma NoNumberIff(table: seq<Entry>, lastVolume: Option<string>, locale: Option<string>, original: Option<string>)
    ensures var latest := LatestVolume(table, lastVolume, locale, original);
            var preferred := Preferred(locale, original);
            var none := !AnyCounts(table, preferred)
              && (original != None && Trim(original.value) != "" ==>
                    !AnyCounts(table, BaseLanguage(Trim(original.value))));
            && (latest.Synced? <==> !none)
            && (latest.Reported? <==> none && locale == None && lastVolume != None)
            && (latest.Reported? ==> latest.text == lastVolume.value)
            && (latest.Unknown? <==> none && (locale != None || lastVolume == None))
  {
    if original.Some? {
      NormalizedIs(original.value);
    }
  }

  lemma OneCounted(e: Entry, language: string)
    ensures LatestSynced([e], language) == if Counts(e, language) then Number(e.row) else None
  {
    assert [e][0] == e;
  }

  /** The three cases are real. First, a locale is asked for in which there is nothing: the listing is empty,
      yet a numbered row in the original language is counted. */
  lemma LocaleAskedFor(row: Row)
    requires IsActive(row) && !row.special && BaseLanguage(row.locale) == "ja" && Number(row).Some?
    ensures Selected({Entry(0, row)}, Some("en"), Some("ja")) == {}
    ensures LatestVolume([Entry(0, row)], None, Some("en"), Some("ja")) == Synced(Number(row).value)
  {
    PlainLanguages();
    OneCounted(Entry(0, row), "en");
    OneCounted(Entry(0, row), "ja");
  }

  /** Second, a regular row in the preferred language whose key is not a plain number keeps the listing from
      falling back, and a numbered row in the original language is counted but not listed. */
  lemma UnnumberedRegular(odd: Row, row: Row)
    requires IsActive(odd) && !odd.special && BaseLanguage(odd.locale) == "ja" && Number(odd).None?
    requires IsActive(row) && !row.special && BaseLanguage(row.locale) == "ko" && Number(row).Some?
    ensures Selected({Entry(0, odd), Entry(1, row)}, None, Some("ko")) == {Entry(0, odd)}
    ensures LatestVolume([Entry(0, odd), Entry(1, row)], None, None, Some("ko")) == Synced(Number(row).value)
  {
    PlainLanguages();
    var table := {Entry(0, odd), Entry(1, row)};
    assert IsRegularIn(Entry(0, odd), "ja") && HasRegular(table, "ja");
    TwoCounted(Entry(0, odd), Entry(1, row), "ja");
    TwoCounted(Entry(0, odd), Entry(1, row), "ko");
  }

  lemma TwoCounted(first: Entry, second: Entry, language: string)
    requires !Counts(first, language)
    ensures LatestSynced([first, second], language) == if Counts(second, language) then Number(second.row) else None
  {
    assert [first, second][..1] == [first];
    OneCounted(first, language);
  }

  lemma PlainLanguages()
    ensures Normalized(Some("ja")) == Some("ja") && Normalized(Some("ko")) == Some("ko")
    ensures Preferred(Some("en"), Some("ja")) == "en" && ListingFallback(Some("en"), Some("ja")) == None
    ensures Preferred(None, Some("ko")) == "ja"
  {
    LowerCaseStays("ja");
    LowerCaseStays("ko");
    LowerCaseStays("en");
    NoBlanks("ja");
    NoBlanks("ko");
    NoBlanks("en");
  }

  /** Third, with the literal as original language, a regular row in a locale of the same name is counted but
      not listed. */
  lemma LiteralOriginal(row: Row)
    requires IsActive(row) && !row.special && BaseLanguage(row.locale) == "original" && Number(row).Some?
    ensures Selected({Entry(0, row)}, None, Some("original")) == {}
    ensures LatestVolume([Entry(0, row)], None, None, Some("original")) == Synced(Number(row).value)
  {
    LiteralLanguages();
    OneCounted(Entry(0, row), "ja");
    OneCounted(Entry(0, row), "original");
  }

  lemma LiteralLanguages()
    ensures Preferred(None, Some("original")) == "ja" && ListingFallback(None, Some("original")) == None
    ensures Normalized(Some("original")) == Some("original")
  {
    OriginalIsNormal();
  }

  lemma {:induction false} LowerCaseStays(text: string)
    requires forall i :: 0 <= i < |text| ==> 'a' <= text[i] <= 'z'
    ensures Folded(text) == text && Head(text) == text
  {
    if text != "" {
      LowerCaseStays(text[1..]);
    }
  }

  lemma OriginalIsNormal()
    ensures BaseLanguage("original") == "original" && NormalizeLanguage("original") == Some("original")
  {
    LowerCaseStays("original");
    NoBlanks("original");
  }
}
