/** The Sunnah checklist of the application's main view: the catalogue of
    items, the completion flags a user toggles, the list of completed ids that
    is persisted and read back at start-up, the category filter, and the
    "Sunnah of the day" index. */
module Sunnah {
  import opened Opt
  import Seqs

  /** The five catalogue categories: সকাল (morning), খাবার (food), ঘুম (sleep),
      সাধারণ (general), মসজিদ (mosque). */
  datatype Category = Morning | Food | Sleep | General | Mosque

  /** The category selector of the list view: সব ("all") or one category. */
  datatype CategoryFilter = All | Only(category: Category)

  /** One reminder. `reference` and `completed` are optional fields; `None`
      stands for a field that is absent. */
  datatype SunnahItem = SunnahItem(
    id: int,
    title: string,
    description: string,
    category: Category,
    reference: Option<string>,
    completed: Option<bool>)

  /** Whether an item counts as done: its `completed` field is truthy, so an
      absent field counts as not done. */
  predicate IsDone(item: SunnahItem) {
    item.completed == Some(true)
  }

  /** `a` is `b` with at most its `completed` field changed. */
  predicate SameButCompletion(a: SunnahItem, b: SunnahItem) {
    a.(completed := b.completed) == b
  }

  /** `items` is `catalogue` with at most the completion flags changed: the
      shape of every list the view holds. */
  predicate FollowsCatalogue(items: seq<SunnahItem>, catalogue: seq<SunnahItem>) {
    |items| == |catalogue| &&
    forall i :: 0 <= i < |items| ==> SameButCompletion(items[i], catalogue[i])
  }

  predicate UniqueIds(items: seq<SunnahItem>) {
    forall i, j :: 0 <= i < j < |items| ==> items[i].id != items[j].id
  }

  // ---------------------------------------------------------------------------
  // Toggling an item

  /** One item after a toggle of `id`: flipped when it carries `id`. */
  function ToggleItem(id: int): SunnahItem -> SunnahItem {
    (item: SunnahItem) =>
      if item.id == id then item.(completed := Some(!IsDone(item))) else item
  }

  /** Flips the completion of every item carrying `id`; nothing else changes.
      The new flag is always present. */
  function Toggle(items: seq<SunnahItem>, id: int): (r: seq<SunnahItem>)
    ensures |r| == |items|
    ensures forall i :: 0 <= i < |items| ==> SameButCompletion(r[i], items[i])
    ensures forall i :: 0 <= i < |items| && items[i].id != id ==> r[i] == items[i]
    ensures forall i :: 0 <= i < |items| && items[i].id == id ==>
              r[i].completed.Some? && (IsDone(r[i]) <==> !IsDone(items[i]))
  {
    Seqs.Map(items, ToggleItem(id))
  }

  /** Toggling the same id twice gives every item back its done state. */
  lemma ToggleTwiceRestoresDone(items: seq<SunnahItem>, id: int)
    ensures var r := Toggle(Toggle(items, id), id);
      |r| == |items| &&
      forall i :: 0 <= i < |items| ==> SameButCompletion(r[i], items[i]) && (IsDone(r[i]) <==> IsDone(items[i]))
  {
  }

  /** When the items carrying `id` have a flag, toggling twice restores the
      list exactly; the other items may lack one. */
  lemma ToggleInvolution(items: seq<SunnahItem>, id: int)
    requires forall i :: 0 <= i < |items| && items[i].id == id ==> items[i].completed.Some?
    ensures Toggle(Toggle(items, id), id) == items
  {
    var once := Toggle(items, id);
    var r := Toggle(once, id);
    forall i | 0 <= i < |items|
      ensures r[i] == items[i]
    {
      if items[i].id == id {
        assert once[i].completed == Some(!items[i].completed.value);
        assert r[i].completed == items[i].completed;
      }
    }
  }

  /** The flag must be present for exact restoration: an item without one comes
      back from two toggles with an explicit `false`. */
  lemma ToggleTwiceMaterialisesAbsentFlag(item: SunnahItem)
    requires item.completed.None?
    ensures Toggle(Toggle([item], item.id), item.id) == [item.(completed := Some(false))]
    ensures Toggle(Toggle([item], item.id), item.id) != [item]
  {
    var once := Toggle([item], item.id);
    assert once[0].completed == Some(true);
    var twice := Toggle(once, item.id);
    assert twice[0].completed == Some(false);
  }

  /** Toggling and filtering by category commute: flipping an item from the
      filtered view is the same as flipping it in the whole list. */
  lemma ToggleCommutesWithFilter(items: seq<SunnahItem>, id: int, f: CategoryFilter)
    ensures FilterItems(Toggle(items, id), f) == Toggle(FilterItems(items, f), id)
  {
    if f.Only? {
      Seqs.FilterMapCommute(items, ToggleItem(id), InCategory(f.category));
    }
  }

  // ---------------------------------------------------------------------------
  // Persisting and restoring the completed ids

  /** The ids of the done items, in list order: the value written back after
      every change of the list. */
  function CompletedIds(items: seq<SunnahItem>): (r: seq<int>)
    ensures |r| <= |items|
    ensures forall x :: x in r <==> exists i :: 0 <= i < |items| && items[i].id == x && IsDone(items[i])
  {
    var done := Seqs.Filter(items, IsDone);
    var ids := seq(|done|, k requires 0 <= k < |done| => done[k].id);
    IdsOfDoneItems(items, done, ids);
    ids
  }

  lemma IdsOfDoneItems(items: seq<SunnahItem>, done: seq<SunnahItem>, ids: seq<int>)
    requires done == Seqs.Filter(items, IsDone)
    requires |ids| == |done| && forall k :: 0 <= k < |done| ==> ids[k] == done[k].id
    ensures forall x :: x in ids <==> exists i :: 0 <= i < |items| && items[i].id == x && IsDone(items[i])
  {
    forall x | x in ids
      ensures exists i :: 0 <= i < |items| && items[i].id == x && IsDone(items[i])
    {
      var k :| 0 <= k < |ids| && ids[k] == x;
      SavedIdHasDoneItem(items, done, k);
    }
    forall i | 0 <= i < |items| && IsDone(items[i])
      ensures items[i].id in ids
    {
      DoneItemHasSavedId(items, done, ids, i);
    }
  }

  lemma SavedIdHasDoneItem(items: seq<SunnahItem>, done: seq<SunnahItem>, k: nat)
    requires done == Seqs.Filter(items, IsDone)
    requires k < |done|
    ensures exists i :: 0 <= i < |items| && items[i].id == done[k].id && IsDone(items[i])
  {
    assert done[k] in items;
    var i :| 0 <= i < |items| && items[i] == done[k];
  }

  lemma DoneItemHasSavedId(items: seq<SunnahItem>, done: seq<SunnahItem>, ids: seq<int>, i: nat)
    requires done == Seqs.Filter(items, IsDone)
    requires |ids| == |done| && forall k :: 0 <= k < |done| ==> ids[k] == done[k].id
    requires i < |items| && IsDone(items[i])
    ensures items[i].id in ids
  {
    assert items[i] in done;
    var k :| 0 <= k < |done| && done[k] == items[i];
    assert ids[k] == items[i].id;
  }

  /** The saved ids are exactly the ids at the positions of the done items, in
      increasing position order. */
  lemma CompletedIdsInListOrder(items: seq<SunnahItem>)
    ensures var idx := Seqs.MatchingIndices(items, IsDone);
      CompletedIds(items) == seq(|idx|, k requires 0 <= k < |idx| => items[idx[k]].id)
  {
    Seqs.FilterIsPick(items, IsDone);
  }

  /** The saved ids depend only on the ids and done states of the items. */
  lemma CompletedIdsDependOnIdsAndDone(a: seq<SunnahItem>, b: seq<SunnahItem>)
    requires |a| == |b|
    requires forall i :: 0 <= i < |a| ==> a[i].id == b[i].id && (IsDone(a[i]) <==> IsDone(b[i]))
    ensures CompletedIds(a) == CompletedIds(b)
  {
    CompletedIdsInListOrder(a);
    CompletedIdsInListOrder(b);
    Seqs.MatchingIndicesPointwise(a, IsDone, b, IsDone);
  }

  /** The start-up list: with no saved data, the catalogue itself; otherwise
      the catalogue with every flag set to whether its id was saved. */
  function Restore(catalogue: seq<SunnahItem>, saved: Option<seq<int>>): (r: seq<SunnahItem>)
    ensures saved.None? ==> r == catalogue
    ensures FollowsCatalogue(r, catalogue)
    ensures saved.Some? ==> forall i :: 0 <= i < |r| ==>
              r[i].completed.Some? && (IsDone(r[i]) <==> catalogue[i].id in saved.value)
  {
    match saved
    case None => catalogue
    case Some(ids) =>
      seq(|catalogue|, i requires 0 <= i < |catalogue| =>
        catalogue[i].(completed := Some(catalogue[i].id in ids)))
  }

  /** Saving and restoring is a round trip: when catalogue ids are unique,
      every item comes back with the done state it was saved with. */
  lemma SaveRestoreRoundTrip(catalogue: seq<SunnahItem>, items: seq<SunnahItem>)
    requires UniqueIds(catalogue)
    requires FollowsCatalogue(items, catalogue)
    ensures var r := Restore(catalogue, Some(CompletedIds(items)));
      forall i :: 0 <= i < |r| ==> r[i] == items[i].(completed := Some(IsDone(items[i])))
  {
    var saved := CompletedIds(items);
    var r := Restore(catalogue, Some(saved));
    forall i | 0 <= i < |r|
      ensures r[i] == items[i].(completed := Some(IsDone(items[i])))
    {
      assert items[i].id == catalogue[i].id;
      if catalogue[i].id in saved {
        var j :| 0 <= j < |items| && items[j].id == catalogue[i].id && IsDone(items[j]);
        assert catalogue[j].id == items[j].id;
        assert j == i;
      }
    }
  }

  /** Without unique ids the round trip fails: a done item marks its undone
      namesake done as well. */
  lemma RoundTripNeedsUniqueIds(a: SunnahItem)
    requires IsDone(a)
    ensures var b := a.(completed := Some(false));
      var r := Restore([a, b], Some(CompletedIds([a, b])));
      FollowsCatalogue([a, b], [a, b]) && IsDone(r[1]) && !IsDone(b)
  {
    var b := a.(completed := Some(false));
    assert [a, b][0] == a;
    assert a.id in CompletedIds([a, b]);
  }

  /** Restoring what was saved and saving again writes the same ids. */
  lemma RestoreSaveFixpoint(catalogue: seq<SunnahItem>, items: seq<SunnahItem>)
    requires UniqueIds(catalogue)
    requires FollowsCatalogue(items, catalogue)
    ensures CompletedIds(Restore(catalogue, Some(CompletedIds(items)))) == CompletedIds(items)
  {
    SaveRestoreRoundTrip(catalogue, items);
    CompletedIdsDependOnIdsAndDone(Restore(catalogue, Some(CompletedIds(items))), items);
  }

  /** The first write after start-up keeps exactly the saved ids that still
      name a catalogue item. */
  lemma RestoreThenSave(catalogue: seq<SunnahItem>, saved: seq<int>)
    ensures forall x :: x in CompletedIds(Restore(catalogue, Some(saved))) <==>
              x in saved && exists i :: 0 <= i < |catalogue| && catalogue[i].id == x
  {
    var r := Restore(catalogue, Some(saved));
    assert forall i :: 0 <= i < |r| ==> r[i].id == catalogue[i].id;
  }

  /** With unique ids, a toggle adds or removes exactly its own id among the
      saved ids. */
  lemma ToggleSavedIds(items: seq<SunnahItem>, id: int)
    requires UniqueIds(items)
    ensures forall x :: x != id ==> (x in CompletedIds(Toggle(items, id)) <==> x in CompletedIds(items))
    ensures (exists i :: 0 <= i < |items| && items[i].id == id) ==>
              (id in CompletedIds(Toggle(items, id)) <==> id !in CompletedIds(items))
  {
    forall x | x != id
      ensures x in CompletedIds(Toggle(items, id)) <==> x in CompletedIds(items)
    {
      ToggleKeepsOtherIds(items, id, x);
    }
    if exists i :: 0 <= i < |items| && items[i].id == id {
      var i :| 0 <= i < |items| && items[i].id == id;
      SavedIdIsAt(items, i);
      SavedIdIsAt(Toggle(items, id), i);
    }
  }

  lemma ToggleKeepsOtherIds(items: seq<SunnahItem>, id: int, x: int)
    requires x != id
    ensures x in CompletedIds(Toggle(items, id)) <==> x in CompletedIds(items)
  {
    var t := Toggle(items, id);
    assert forall i :: 0 <= i < |items| && items[i].id == x ==> t[i] == items[i];
  }

  /** With unique ids, the id at position `i` is saved iff that item is done. */
  lemma SavedIdIsAt(items: seq<SunnahItem>, i: nat)
    requires UniqueIds(items)
    requires i < |items|
    ensures items[i].id in CompletedIds(items) <==> IsDone(items[i])
  {
    if items[i].id in CompletedIds(items) {
      var j :| 0 <= j < |items| && items[j].id == items[i].id && IsDone(items[j]);
      assert j == i;
    }
  }

  // ---------------------------------------------------------------------------
  // Filtering by category

  /** The predicate "belongs to category `c`", as one function value. */
  function InCategory(c: Category): SunnahItem -> bool {
    (item: SunnahItem) => item.category == c
  }

  /** The items the list view shows for the selected filter. */
  function FilterItems(items: seq<SunnahItem>, f: CategoryFilter): (r: seq<SunnahItem>)
    ensures f.All? ==> r == items
    ensures |r| <= |items|
    ensures f.Only? ==> forall k :: 0 <= k < |r| ==> r[k] in items && r[k].category == f.category
    ensures f.Only? ==> forall i :: 0 <= i < |items| && items[i].category == f.category ==> items[i] in r
  {
    match f
    case All => items
    case Only(c) => Seqs.Filter(items, InCategory(c))
  }

  /** A category filter keeps the subsequence of exactly the items of that
      category, at strictly increasing positions. */
  lemma FilterItemsIsSubsequence(items: seq<SunnahItem>, c: Category)
    ensures var idx := Seqs.MatchingIndices(items, InCategory(c));
      && FilterItems(items, Only(c)) == Seqs.Pick(items, idx)
      && (forall j, k :: 0 <= j < k < |idx| ==> idx[j] < idx[k])
      && (forall i :: 0 <= i < |items| ==> (i in idx <==> items[i].category == c))
  {
    Seqs.FilterIsPick(items, InCategory(c));
  }

  // ---------------------------------------------------------------------------
  // The Sunnah of the day

  /** JavaScript's `%` on integers: the remainder takes the sign of the dividend. */
  function JsRemainder(a: int, n: int): (r: int)
    requires n > 0
    ensures (a - r) % n == 0
    ensures a >= 0 ==> 0 <= r < n
    ensures a < 0 ==> -n < r <= 0
  {
    if a >= 0 then
      RemainderLeavesMultiple(a, n);
      a % n
    else
      RemainderLeavesMultiple(-a, n);
      -((-a) % n)
  }

  /** Taking away the remainder (or its negation) leaves a multiple of `n`. */
  lemma RemainderLeavesMultiple(x: int, n: int)
    requires n > 0
    ensures (x - x % n) % n == 0
    ensures (x % n - x) % n == 0
  {
    assert x - x % n == n * (x / n);
    MultipleHasNoRemainder(x / n, n);
    assert x % n - x == n * -(x / n);
    MultipleHasNoRemainder(-(x / n), n);
  }

  lemma MultipleHasNoRemainder(k: int, n: int)
    requires n > 0
    ensures (n * k) % n == 0
  {
    var t := k - (n * k) / n;
    assert n * t == (n * k) % n;
  }

  /** `(year + month + date) % count`, where `month` is zero-based; `None` is
      the NaN an empty catalogue gives. */
  function DailyIndex(year: int, month: int, date: int, count: nat): (r: Option<int>)
    ensures r.None? <==> count == 0
    ensures r.Some? ==> (year + month + date - r.value) % count == 0
    ensures r.Some? && year + month + date >= 0 ==> 0 <= r.value < count
  {
    if count == 0 then None else Some(JsRemainder(year + month + date, count))
  }

  /** The highlighted item: the catalogue entry at the daily index, or `None`
      when that read falls outside the catalogue. */
  function DailySunnah(catalogue: seq<SunnahItem>, year: int, month: int, date: int): (r: Option<SunnahItem>)
    ensures r.Some? ==> r.value in catalogue
    ensures r.Some? <==> |catalogue| > 0 && 0 <= JsRemainder(year + month + date, |catalogue|)
    ensures r.Some? ==> exists k :: 0 <= k < |catalogue| && (year + month + date - k) % |catalogue| == 0 &&
                                    r.value == catalogue[k]
    ensures |catalogue| > 0 && year >= 0 && month >= 0 && date >= 0 ==> r.Some?
  {
    match DailyIndex(year, month, date, |catalogue|)
    case Some(k) => if 0 <= k < |catalogue| then Some(catalogue[k]) else None
    case None => None
  }
}
