/**
 * The package catalog and the menu filter of Lazzy.py.
 *
 * The catalog is the JSON object fetched from the repository: a mapping from a
 * package key to its description, iterated in insertion order. It is modelled
 * as a sequence of entries whose keys are distinct.
 */
module Catalog {
  import opened Text

  datatype Option<T> = None | Some(value: T)

  /** The `category` field of a package: absent, JSON `null`, or a string. */
  datatype Category = Absent | Null | Named(text: string)

  /** One package of the catalog; `category` is the only optional field. */
  datatype App = App(
    name: string,
    category: Category,
    url: string,
    installerName: string,
    silentFlag: string)

  datatype Entry = Entry(key: string, app: App)

  /** The label printed when a package has no category. */
  const NoCategory: string := "Brak kategorii"

  /**
   * What `app.get('category', 'Brak kategorii')` prints: the default only when
   * the field is absent; a JSON `null` is `None` and prints as "None".
   */
  function CategoryLabel(app: App): string {
    match app.category
    case Absent => NoCategory
    case Null => "None"
    case Named(c) => c
  }

  /** The keys of a catalog (or of a filtered view), in iteration order. */
  function Keys(c: seq<Entry>): (ks: seq<string>)
    ensures |ks| == |c|
    ensures forall i :: 0 <= i < |c| ==> ks[i] == c[i].key
  {
    seq(|c|, i requires 0 <= i < |c| => c[i].key)
  }

  predicate NoDup(s: seq<string>) {
    forall i, j :: 0 <= i < j < |s| ==> s[i] != s[j]
  }

  /** A dictionary: no key occurs twice. */
  predicate IsCatalog(c: seq<Entry>) {
    NoDup(Keys(c))
  }

  /**
   * The test that decides whether `show_menu` keeps a package: an empty filter
   * keeps everything, otherwise the lowered filter must occur in the lowered name.
   */
  function Matches(filter: string, name: string): (keep: bool)
    ensures keep <==> filter == "" || IsSubstring(Lower(filter), Lower(name))
  {
    ContainsIsSubstring(Lower(filter), Lower(name));
    filter == "" || Contains(Lower(filter), Lower(name))
  }

  /** The mapping `show_menu` builds, defined entry by entry from the back. */
  function Filtered(c: seq<Entry>, filter: string): (view: seq<Entry>)
    ensures |view| <= |c|
    ensures forall i :: 0 <= i < |view| ==> Matches(filter, view[i].app.name)
    decreases |c|
  {
    if c == [] then []
    else
      var last := c[|c| - 1];
      Filtered(c[..|c| - 1], filter) + (if Matches(filter, last.app.name) then [last] else [])
  }

  /** `idx` embeds `a` into `b`: strictly increasing positions of `b` that spell out `a`. */
  ghost predicate Embeds<T>(idx: seq<nat>, a: seq<T>, b: seq<T>) {
    && |idx| == |a|
    && (forall i :: 0 <= i < |idx| ==> idx[i] < |b| && b[idx[i]] == a[i])
    && (forall i, j :: 0 <= i < j < |idx| ==> idx[i] < idx[j])
  }

  lemma {:induction false} FilteredMembers(c: seq<Entry>, filter: string, e: Entry)
    ensures e in Filtered(c, filter) <==> e in c && Matches(filter, e.app.name)
    decreases |c|
  {
    if c != [] {
      var p := c[..|c| - 1];
      FilteredMembers(p, filter, e);
      assert c == p + [c[|c| - 1]];
    }
  }

  lemma {:induction false} FilteredKeepsAll(c: seq<Entry>)
    ensures Filtered(c, "") == c
    decreases |c|
  {
    if c != [] {
      FilteredKeepsAll(c[..|c| - 1]);
      assert c == c[..|c| - 1] + [c[|c| - 1]];
    }
  }

  /** The filtered view lists its entries in catalog order. */
  lemma {:induction false} FilteredInOrder(c: seq<Entry>, filter: string) returns (idx: seq<nat>)
    ensures Embeds(idx, Filtered(c, filter), c)
    decreases |c|
  {
    if c == [] {
      idx := [];
    } else {
      var p := c[..|c| - 1];
      var last := c[|c| - 1];
      var pIdx := FilteredInOrder(p, filter);
      if Matches(filter, last.app.name) {
        idx := pIdx + [|c| - 1];
      } else {
        idx := pIdx;
      }
    }
  }

  /** A filtered view of a catalog is a catalog whose keys all come from the original. */
  lemma {:induction false} FilteredKeys(c: seq<Entry>, filter: string)
    requires IsCatalog(c)
    ensures IsCatalog(Filtered(c, filter))
    ensures forall k :: k in Keys(Filtered(c, filter)) ==> k in Keys(c)
    decreases |c|
  {
    if c != [] {
      var p := c[..|c| - 1];
      var last := c[|c| - 1];
      assert Keys(p) == Keys(c)[..|c| - 1];
      FilteredKeys(p, filter);
      var fp := Filtered(p, filter);
      assert last.key !in Keys(p);
      var tail := if Matches(filter, last.app.name) then [last] else [];
      assert Keys(Filtered(c, filter)) == Keys(fp) + Keys(tail);
      forall k | k in Keys(Filtered(c, filter)) ensures k in Keys(c) {
        if k in Keys(fp) {
          assert k in Keys(p);
        }
      }
    }
  }

  /** `show_menu`: builds the filtered mapping with a loop over the catalog. */
  method ShowMenu(apps: seq<Entry>, filter: string) returns (view: seq<Entry>)
    ensures view == Filtered(apps, filter)
  {
    view := [];
    for i := 0 to |apps|
      invariant view == Filtered(apps[..i], filter)
    {
      assert apps[..i + 1][..i] == apps[..i];
      if Matches(filter, apps[i].app.name) {
        view := view + [apps[i]];
      }
    }
    assert apps[..|apps|] == apps;
  }

  /** `apps[key]`, or None when the key is absent. */
  function Lookup(c: seq<Entry>, key: string): (r: Option<App>)
    ensures r.Some? <==> key in Keys(c)
    ensures r.Some? ==> Entry(key, r.value) in c
    decreases |c|
  {
    if c == [] then None
    else if c[0].key == key then Some(c[0].app)
    else Lookup(c[1..], key)
  }

  lemma {:induction false} LookupFindsEntry(c: seq<Entry>, i: nat)
    requires IsCatalog(c)
    requires i < |c|
    ensures Lookup(c, c[i].key) == Some(c[i].app)
    decreases |c|
  {
    if i > 0 {
      assert Keys(c)[0] != Keys(c)[i];
      assert Keys(c[1..]) == Keys(c)[1..];
      LookupFindsEntry(c[1..], i - 1);
    }
  }

  /** One line `- name (category)` printed by `display_selected_apps`. */
  datatype ListedLine = ListedLine(name: string, category: string)

  /** `display_selected_apps`: one line per selected key that is in the catalog. */
  function SelectedListing(apps: seq<Entry>, selected: seq<string>): (listing: seq<ListedLine>)
    ensures |listing| <= |selected|
    decreases |selected|
  {
    if selected == [] then []
    else
      var rest := SelectedListing(apps, selected[1..]);
      match Lookup(apps, selected[0])
      case Some(app) => [ListedLine(app.name, CategoryLabel(app))] + rest
      case None => rest
  }

  /** `line` shows `app`: its name and its category, or the default label when the field is absent. */
  predicate ShowsApp(line: ListedLine, app: App) {
    && line.name == app.name
    && (app.category.Named? ==> line.category == app.category.text)
    && (app.category.Absent? ==> line.category == NoCategory)
    && (app.category.Null? ==> line.category == "None")
  }

  /** `line` is the line printed for `key`: the key is in the catalog and the line shows its package. */
  predicate LineFor(apps: seq<Entry>, key: string, line: ListedLine) {
    Lookup(apps, key).Some? && ShowsApp(line, Lookup(apps, key).value)
  }

  /** Positions that strictly increase. */
  ghost predicate Increasing(idx: seq<nat>) {
    forall i, j :: 0 <= i < j < |idx| ==> idx[i] < idx[j]
  }

  /** Line `i` of `listing` is the line printed for the key at position `idx[i]` of `selected`. */
  ghost predicate LinesAt(apps: seq<Entry>, selected: seq<string>, listing: seq<ListedLine>, idx: seq<nat>) {
    && |idx| == |listing|
    && forall i :: 0 <= i < |idx| ==> idx[i] < |selected| && LineFor(apps, selected[idx[i]], listing[i])
  }

  /** Every position of `selected` holding a key of `ks` is among `idx`. */
  ghost predicate Covers(ks: seq<string>, selected: seq<string>, idx: seq<nat>) {
    forall j :: 0 <= j < |selected| && selected[j] in ks ==> j in idx
  }

  /**
   * `idx` explains `listing`: `idx[i]` is the position in `selected` of the known
   * key whose package line `i` shows, positions increase, and every known key has a line.
   */
  ghost predicate ListsKnownKeys(apps: seq<Entry>, selected: seq<string>, listing: seq<ListedLine>, idx: seq<nat>) {
    Increasing(idx) && LinesAt(apps, selected, listing, idx) && Covers(Keys(apps), selected, idx)
  }

  /** Every position one further on. */
  ghost function Shift(idx: seq<nat>): (r: seq<nat>)
    ensures |r| == |idx|
    ensures forall i :: 0 <= i < |idx| ==> r[i] == idx[i] + 1
  {
    seq(|idx|, i requires 0 <= i < |idx| => idx[i] + 1)
  }

  /** Position 0 in front of every position one further on. */
  ghost function Cons0(idx: seq<nat>): (r: seq<nat>)
    ensures |r| == |idx| + 1 && r[0] == 0
    ensures forall i :: 0 < i < |r| ==> r[i] == idx[i - 1] + 1
  {
    [0] + Shift(idx)
  }

  lemma IncreasingCons0(idx: seq<nat>)
    requires Increasing(idx)
    ensures Increasing(Shift(idx)) && Increasing(Cons0(idx))
  {
    var r := Cons0(idx);
    forall i, j | 0 <= i < j < |r| ensures r[i] < r[j] {
      if i > 0 {
        assert r[i] == idx[i - 1] + 1 && r[j] == idx[j - 1] + 1;
      }
    }
  }

  /** A key in front, and positions shifted by one, keep every line in place. */
  lemma LinesAtShift(apps: seq<Entry>, k: string, tail: seq<string>, rest: seq<ListedLine>, idx: seq<nat>)
    requires LinesAt(apps, tail, rest, idx)
    ensures LinesAt(apps, [k] + tail, rest, Shift(idx))
  {
    var selected := [k] + tail;
    assert forall i :: 0 <= i < |idx| ==> selected[Shift(idx)[i]] == tail[idx[i]];
  }

  /** A known key in front adds its line in front. */
  lemma LinesAtCons0(apps: seq<Entry>, k: string, tail: seq<string>, rest: seq<ListedLine>, idx: seq<nat>, line: ListedLine)
    requires LinesAt(apps, tail, rest, idx)
    requires LineFor(apps, k, line)
    ensures LinesAt(apps, [k] + tail, [line] + rest, Cons0(idx))
  {
    var selected := [k] + tail;
    var listing := [line] + rest;
    var r := Cons0(idx);
    forall i | 0 <= i < |r|
      ensures r[i] < |selected| && LineFor(apps, selected[r[i]], listing[i])
    {
      if i > 0 {
        assert r[i] == idx[i - 1] + 1 && listing[i] == rest[i - 1];
        assert selected[r[i]] == tail[idx[i - 1]];
      }
    }
  }

  /** A key outside `ks` in front, and positions shifted by one, still cover every key of `ks`. */
  lemma CoversShift(ks: seq<string>, k: string, tail: seq<string>, idx: seq<nat>)
    requires Covers(ks, tail, idx) && k !in ks
    ensures Covers(ks, [k] + tail, Shift(idx))
  {
    var selected := [k] + tail;
    forall j | 0 <= j < |selected| && selected[j] in ks ensures j in Shift(idx) {
      assert j > 0 && tail[j - 1] == selected[j];
      var m :| 0 <= m < |idx| && idx[m] == j - 1;
      assert Shift(idx)[m] == j;
    }
  }

  /** Any key in front, and position 0 added, still cover every key of `ks`. */
  lemma CoversCons0(ks: seq<string>, k: string, tail: seq<string>, idx: seq<nat>)
    requires Covers(ks, tail, idx)
    ensures Covers(ks, [k] + tail, Cons0(idx))
  {
    var selected := [k] + tail;
    var r := Cons0(idx);
    forall j | 0 <= j < |selected| && selected[j] in ks ensures j in r {
      if j == 0 {
        assert r[0] == j;
      } else {
        assert tail[j - 1] == selected[j];
        var m :| 0 <= m < |idx| && idx[m] == j - 1;
        assert r[m + 1] == j;
      }
    }
  }

  /** The listing shows exactly the selected keys that are in the catalog, in selection order. */
  lemma {:induction false} SelectedListingShowsKnownKeys(apps: seq<Entry>, selected: seq<string>)
    returns (idx: seq<nat>)
    ensures ListsKnownKeys(apps, selected, SelectedListing(apps, selected), idx)
    decreases |selected|
  {
    if selected == [] {
      idx := [];
    } else {
      var tail := selected[1..];
      assert selected == [selected[0]] + tail;
      var tailIdx := SelectedListingShowsKnownKeys(apps, tail);
      var rest := SelectedListing(apps, tail);
      IncreasingCons0(tailIdx);
      match Lookup(apps, selected[0]) {
        case None =>
          LinesAtShift(apps, selected[0], tail, rest, tailIdx);
          CoversShift(Keys(apps), selected[0], tail, tailIdx);
          idx := Shift(tailIdx);
        case Some(app) =>
          var line := ListedLine(app.name, CategoryLabel(app));
          LinesAtCons0(apps, selected[0], tail, rest, tailIdx, line);
          CoversCons0(Keys(apps), selected[0], tail, tailIdx);
          idx := Cons0(tailIdx);
      }
    }
  }

  /** When every selected key is known, the listing has one line per key, in selection order. */
  lemma {:induction false} SelectedListingAllKnown(apps: seq<Entry>, selected: seq<string>)
    requires forall k :: k in selected ==> k in Keys(apps)
    ensures |SelectedListing(apps, selected)| == |selected|
    ensures forall i :: 0 <= i < |selected| ==>
      ShowsApp(SelectedListing(apps, selected)[i], Lookup(apps, selected[i]).value)
    decreases |selected|
  {
    if selected != [] {
      SelectedListingAllKnown(apps, selected[1..]);
    }
  }
}
