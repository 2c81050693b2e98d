/** The per-game add-on page: how each patch becomes a toggle row, which
    rows start disabled, how the default update row and its variants keep
    each other consistent when the user toggles them, and how the disabled
    list is stored on apply. Check boxes are booleans; widgets are left out. */
module PerGameAddons {
  import opened Wrappers
  import opened StringOrder

  datatype PatchType = Update | Dlc | Mod

  /** A patch as the patch manager lists it. */
  datatype Patch = Patch(ptype: PatchType, name: string, version: string)

  const UpdateKey := "Update"
  const VersionedPrefix := "Update v"
  const PackedVersion := "PACKED"

  predicate StartsWith(s: string, prefix: string) {
    |prefix| <= |s| && s[..|prefix|] == prefix
  }

  /** The update listed without a version: the default update row. */
  predicate IsDefaultUpdate(p: Patch) {
    p.ptype == Update && p.version == ""
  }

  /** The key a row is toggled and stored under. */
  function ToggleKey(p: Patch): (key: string)
    ensures p.ptype != Update ==> key == p.name
    ensures p.ptype == Update ==> StartsWith(key, UpdateKey)
  {
    if p.ptype != Update then p.name
    else if p.version == "" then UpdateKey
    else if p.version != PackedVersion then VersionedPrefix + p.version
    else UpdateKey
  }

  /** An update's key is the plain "Update" exactly for the default row and
      a packed update; every other update carries its version, which can be
      read back from the key. */
  lemma UpdateKeyCarriesVersion(p: Patch)
    requires p.ptype == Update
    ensures ToggleKey(p) == UpdateKey <==> p.version == "" || p.version == PackedVersion
    ensures ToggleKey(p) != UpdateKey ==>
              StartsWith(ToggleKey(p), VersionedPrefix) && ToggleKey(p)[|VersionedPrefix|..] == p.version
  {
    if p.version != "" && p.version != PackedVersion {
      assert |ToggleKey(p)| > |UpdateKey|;
    }
  }

  /** Two versioned updates share a key only when they share a version. */
  lemma VersionedUpdateKeysDistinct(p: Patch, q: Patch)
    requires p.ptype == Update && q.ptype == Update
    requires ToggleKey(p) != UpdateKey && ToggleKey(q) != UpdateKey
    ensures ToggleKey(p) == ToggleKey(q) <==> p.version == q.version
  {
    UpdateKeyCarriesVersion(p);
    UpdateKeyCarriesVersion(q);
  }

  /** A row starts unchecked when its key is disabled, or when it is a
      non-default update row and all updates are disabled. */
  predicate InitiallyDisabled(p: Patch, disabled: seq<string>) {
    ToggleKey(p) in disabled || (p.ptype == Update && !IsDefaultUpdate(p) && UpdateKey in disabled)
  }

  /** What the disabled list does to each kind of row: a non-update follows
      its own name, the default update row follows "Update" alone, "Update"
      switches off every update, and without it a versioned update follows
      its own versioned key. */
  lemma InitiallyDisabledCases(p: Patch, disabled: seq<string>)
    ensures p.ptype != Update ==> (InitiallyDisabled(p, disabled) <==> p.name in disabled)
    ensures IsDefaultUpdate(p) ==> (InitiallyDisabled(p, disabled) <==> UpdateKey in disabled)
    ensures p.ptype == Update && UpdateKey in disabled ==> InitiallyDisabled(p, disabled)
    ensures p.ptype == Update && UpdateKey !in disabled && p.version != "" && p.version != PackedVersion ==>
              (InitiallyDisabled(p, disabled) <==> VersionedPrefix + p.version in disabled)
  {
  }

  // ---------------------------------------------------------------------
  // The page
  // ---------------------------------------------------------------------

  /** One row: its toggle key, whether it hangs under the default update row
      as a variant, and its check state. */
  datatype Row = Row(key: string, isVariant: bool, checked: bool)

  /** All rows in load order, and the current default update row if any. */
  datatype Page = Page(rows: seq<Row>, defaultRow: Option<nat>) {
    predicate Valid() {
      && (defaultRow.Some? ==> defaultRow.value < |rows| && !rows[defaultRow.value].isVariant
                               && StartsWith(rows[defaultRow.value].key, UpdateKey))
      && forall k :: 0 <= k < |rows| && rows[k].isVariant ==> StartsWith(rows[k].key, UpdateKey)
    }
  }

  /** Adds one patch's row: a version-less update becomes the default row;
      another update becomes a variant if a default row exists already;
      everything else is a top-level row. */
  function AddRow(page: Page, p: Patch, disabled: seq<string>): (r: Page)
    ensures |r.rows| == |page.rows| + 1 && r.rows[..|page.rows|] == page.rows
    ensures r.rows[|page.rows|].key == ToggleKey(p)
    ensures r.rows[|page.rows|].checked <==> !InitiallyDisabled(p, disabled)
    ensures r.rows[|page.rows|].isVariant <==> p.ptype == Update && !IsDefaultUpdate(p) && page.defaultRow.Some?
    ensures r.defaultRow == if IsDefaultUpdate(p) then Some(|page.rows|) else page.defaultRow
  {
    var checked := !InitiallyDisabled(p, disabled);
    if IsDefaultUpdate(p) then
      Page(page.rows + [Row(ToggleKey(p), false, checked)], Some(|page.rows|))
    else if p.ptype == Update && page.defaultRow.Some? then
      Page(page.rows + [Row(ToggleKey(p), true, checked)], page.defaultRow)
    else
      Page(page.rows + [Row(ToggleKey(p), false, checked)], page.defaultRow)
  }

  /** Some patch before position `i` is a default update. */
  predicate DefaultBefore(patches: seq<Patch>, i: int) {
    exists j :: 0 <= j < i && j < |patches| && IsDefaultUpdate(patches[j])
  }

  /** One row per patch, in order, with the key and check state the
      loading rules give. */
  predicate RowsMatch(page: Page, patches: seq<Patch>, disabled: seq<string>) {
    && |page.rows| == |patches|
    && forall i :: 0 <= i < |patches| ==>
         && page.rows[i].key == ToggleKey(patches[i])
         && page.rows[i].checked == !InitiallyDisabled(patches[i], disabled)
  }

  /** Exactly the non-default updates that follow a default update are
      variants. */
  predicate VariantsPlaced(page: Page, patches: seq<Patch>) {
    && |page.rows| == |patches|
    && forall i :: 0 <= i < |patches| ==>
         (page.rows[i].isVariant <==> patches[i].ptype == Update && !IsDefaultUpdate(patches[i]) && DefaultBefore(patches, i))
  }

  /** The default row is the last default update, and exists exactly when
      some default update was loaded. */
  predicate DefaultIsLast(page: Page, patches: seq<Patch>) {
    && (page.defaultRow.Some? <==> DefaultBefore(patches, |patches|))
    && (page.defaultRow.Some? ==>
          && page.defaultRow.value < |patches|
          && IsDefaultUpdate(patches[page.defaultRow.value])
          && forall k :: page.defaultRow.value < k < |patches| ==> !IsDefaultUpdate(patches[k]))
  }

  /** `page` holds one row per patch, in order, with the key, check state
      and placement the loading rules give, and the last default update as
      its default row. */
  predicate Loaded(page: Page, patches: seq<Patch>, disabled: seq<string>) {
    && page.Valid()
    && RowsMatch(page, patches, disabled)
    && VariantsPlaced(page, patches)
    && DefaultIsLast(page, patches)
  }

  lemma DefaultBeforePrefix(patches: seq<Patch>, n: nat)
    requires n < |patches|
    ensures forall i :: 0 <= i <= n ==> (DefaultBefore(patches[..n], i) <==> DefaultBefore(patches, i))
  {
    forall i | 0 <= i <= n
      ensures DefaultBefore(patches[..n], i) <==> DefaultBefore(patches, i)
    {
      if DefaultBefore(patches, i) {
        var j :| 0 <= j < i && j < |patches| && IsDefaultUpdate(patches[j]);
        assert patches[..n][j] == patches[j];
      }
    }
  }

  lemma AddRowValid(prev: Page, p: Patch, disabled: seq<string>)
    requires prev.Valid()
    ensures AddRow(prev, p, disabled).Valid()
  {
    var page := AddRow(prev, p, disabled);
    assert forall k :: 0 <= k < |prev.rows| ==> page.rows[k] == prev.rows[k];
  }

  lemma AddRowRowsMatch(prev: Page, patches: seq<Patch>, disabled: seq<string>)
    requires |patches| > 0
    requires RowsMatch(prev, patches[..|patches| - 1], disabled)
    ensures RowsMatch(AddRow(prev, patches[|patches| - 1], disabled), patches, disabled)
  {
    var n := |patches| - 1;
    var page := AddRow(prev, patches[n], disabled);
    forall i | 0 <= i < |patches|
      ensures page.rows[i].key == ToggleKey(patches[i])
      ensures page.rows[i].checked == !InitiallyDisabled(patches[i], disabled)
    {
      if i < n {
        assert patches[..n][i] == patches[i];
        assert page.rows[i] == prev.rows[i];
      }
    }
  }

  lemma AddRowDefaultIsLast(prev: Page, patches: seq<Patch>, disabled: seq<string>)
    requires |patches| > 0
    requires |prev.rows| == |patches| - 1
    requires DefaultIsLast(prev, patches[..|patches| - 1])
    ensures DefaultIsLast(AddRow(prev, patches[|patches| - 1], disabled), patches)
  {
    var n := |patches| - 1;
    var p := patches[n];
    assert forall i :: 0 <= i < n ==> patches[..n][i] == patches[i];
    DefaultBeforePrefix(patches, n);
    if IsDefaultUpdate(p) {
      assert DefaultBefore(patches, |patches|);
    } else if DefaultBefore(patches, |patches|) {
      var j :| 0 <= j < |patches| && IsDefaultUpdate(patches[j]);
      assert DefaultBefore(patches[..n], n);
    }
  }

  lemma AddRowVariantsPlaced(prev: Page, patches: seq<Patch>, disabled: seq<string>)
    requires |patches| > 0
    requires VariantsPlaced(prev, patches[..|patches| - 1])
    requires DefaultIsLast(prev, patches[..|patches| - 1])
    ensures VariantsPlaced(AddRow(prev, patches[|patches| - 1], disabled), patches)
  {
    var n := |patches| - 1;
    var page := AddRow(prev, patches[n], disabled);
    DefaultBeforePrefix(patches, n);
    forall i | 0 <= i < n
      ensures page.rows[i].isVariant <==> patches[i].ptype == Update && !IsDefaultUpdate(patches[i]) && DefaultBefore(patches, i)
    {
      assert patches[..n][i] == patches[i];
      assert page.rows[i] == prev.rows[i];
    }
  }

  lemma AddRowLoaded(prev: Page, patches: seq<Patch>, disabled: seq<string>)
    requires |patches| > 0
    requires Loaded(prev, patches[..|patches| - 1], disabled)
    ensures Loaded(AddRow(prev, patches[|patches| - 1], disabled), patches, disabled)
  {
    AddRowValid(prev, patches[|patches| - 1], disabled);
    AddRowRowsMatch(prev, patches, disabled);
    AddRowVariantsPlaced(prev, patches, disabled);
    AddRowDefaultIsLast(prev, patches, disabled);
  }

  /** Builds the page from scratch: one row per patch, in order. */
  function LoadConfiguration(patches: seq<Patch>, disabled: seq<string>): (page: Page)
    ensures Loaded(page, patches, disabled)
    decreases |patches|
  {
    if |patches| == 0 then Page([], None)
    else
      var prev := LoadConfiguration(patches[..|patches| - 1], disabled);
      AddRowLoaded(prev, patches, disabled);
      AddRow(prev, patches[|patches| - 1], disabled)
  }

  // ---------------------------------------------------------------------
  // Toggling
  // ---------------------------------------------------------------------

  /** Every variant unchecked, except possibly the row `keep`. */
  function UncheckVariants(rows: seq<Row>, keep: Option<nat>): (r: seq<Row>)
    ensures |r| == |rows|
    ensures forall k :: 0 <= k < |rows| ==>
              && r[k].key == rows[k].key && r[k].isVariant == rows[k].isVariant
              && r[k].checked == (rows[k].checked && (!rows[k].isVariant || keep == Some(k)))
  {
    seq(|rows|, k requires 0 <= k < |rows| =>
      if rows[k].isVariant && keep != Some(k) then rows[k].(checked := false) else rows[k])
  }

  /** At most one variant row is checked. */
  predicate AtMostOneVariantChecked(rows: seq<Row>) {
    forall i, j :: 0 <= i < j < |rows| && rows[i].isVariant && rows[j].isVariant ==> !(rows[i].checked && rows[j].checked)
  }

  /** Reacts to a row whose check state has just changed. Rows whose key
      does not start with "Update" are ignored. Unchecking the default row
      unchecks every variant; checking any other update row unchecks every
      other variant and checks the default row. */
  function OnItemChanged(page: Page, item: Option<nat>): (r: Page)
    requires page.Valid() && (item.Some? ==> item.value < |page.rows|)
    ensures r.Valid() && r.defaultRow == page.defaultRow && |r.rows| == |page.rows|
    ensures forall k :: 0 <= k < |page.rows| ==> r.rows[k].key == page.rows[k].key && r.rows[k].isVariant == page.rows[k].isVariant
    ensures item.None? || !StartsWith(page.rows[item.value].key, UpdateKey) ==> r == page
    // a checked default row, or an unchecked row that is not the default, changes nothing
    ensures item.Some? && (page.defaultRow == item <==> page.rows[item.value].checked) ==> r == page
    // the default row itself is never changed by its own toggle
    ensures item.Some? && page.defaultRow == item ==> r.rows[item.value] == page.rows[item.value]
    ensures item.Some? && page.defaultRow == item && !page.rows[item.value].checked ==>
              forall k :: 0 <= k < |r.rows| && r.rows[k].isVariant ==> !r.rows[k].checked
    ensures item.Some? && page.defaultRow != item && page.rows[item.value].checked && StartsWith(page.rows[item.value].key, UpdateKey) ==>
              && AtMostOneVariantChecked(r.rows)
              && r.rows[item.value] == page.rows[item.value]
              && (forall k :: 0 <= k < |r.rows| && r.rows[k].isVariant && k != item.value ==> !r.rows[k].checked)
              && (page.defaultRow.Some? ==> r.rows[page.defaultRow.value].checked)
    ensures forall k :: 0 <= k < |page.rows| && !page.rows[k].isVariant && page.defaultRow != Some(k) ==> r.rows[k] == page.rows[k]
  {
    if item.None? then page
    else
      var i := item.value;
      var rows := page.rows;
      if !StartsWith(rows[i].key, UpdateKey) then page
      else if page.defaultRow == Some(i) then
        if !rows[i].checked then page.(rows := UncheckVariants(rows, None)) else page
      else if rows[i].checked then
        var cleared := UncheckVariants(rows, Some(i));
        match page.defaultRow
        case Some(d) => page.(rows := cleared[d := cleared[d].(checked := true)])
        case None => page.(rows := cleared)
      else page
  }

  /** The user sets row `i` to `checked`, and the page reacts. */
  function UserToggle(page: Page, i: nat, checked: bool): (r: Page)
    requires page.Valid() && i < |page.rows|
    ensures r.Valid() && |r.rows| == |page.rows| && r.rows[i].checked == checked
  {
    var rows := page.rows[i := page.rows[i].(checked := checked)];
    OnItemChanged(page.(rows := rows), Some(i))
  }

  /** Checking a variant makes it the only checked variant and checks the
      default row. */
  lemma CheckingVariantIsExclusive(page: Page, i: nat)
    requires page.Valid() && i < |page.rows| && page.rows[i].isVariant
    ensures var r := UserToggle(page, i, true);
            && r.rows[i].checked
            && (forall k :: 0 <= k < |r.rows| && r.rows[k].isVariant ==> (r.rows[k].checked <==> k == i))
            && (page.defaultRow.Some? ==> r.rows[page.defaultRow.value].checked)
  {
  }

  /** The handler recognises update rows by the "Update" prefix of their
      key alone, and a mod or add-on keyed by its name can carry that
      prefix ("Updated textures"). Checking such a top-level row unchecks
      every variant and checks the default update row. */
  lemma UpdatePrefixedRowActsAsUpdate(page: Page, i: nat)
    requires page.Valid() && i < |page.rows| && !page.rows[i].isVariant && page.defaultRow != Some(i)
    requires StartsWith(page.rows[i].key, UpdateKey)
    ensures var r := UserToggle(page, i, true);
            && (forall k :: 0 <= k < |r.rows| && r.rows[k].isVariant ==> !r.rows[k].checked)
            && (page.defaultRow.Some? ==> r.rows[page.defaultRow.value].checked)
  {
  }

  /** A mod or add-on whose name starts with "Update" gets a key with that
      prefix, so its row is handled as an update row. */
  lemma NonUpdateKeyCanLookLikeUpdate(p: Patch)
    requires p.ptype != Update && StartsWith(p.name, UpdateKey)
    ensures StartsWith(ToggleKey(p), UpdateKey)
  {
  }

  /** Unchecking the default row leaves no variant checked. */
  lemma UncheckingDefaultClearsVariants(page: Page)
    requires page.Valid() && page.defaultRow.Some?
    ensures var r := UserToggle(page, page.defaultRow.value, false);
            forall k :: 0 <= k < |r.rows| && r.rows[k].isVariant ==> !r.rows[k].checked
  {
  }

  // ---------------------------------------------------------------------
  // Apply
  // ---------------------------------------------------------------------

  /** Positions of the unchecked rows whose key is `key`. */
  function UncheckedRowsWithKey(rows: seq<Row>, key: string): set<nat> {
    set k: nat | k < |rows| && !rows[k].checked && rows[k].key == key
  }

  /** Adding a row adds its position to the set of its key exactly when the
      row is unchecked. */
  lemma UncheckedRowsWithKeyStep(rows: seq<Row>, key: string)
    requires |rows| > 0
    ensures var n := |rows| - 1;
            |UncheckedRowsWithKey(rows, key)|
              == |UncheckedRowsWithKey(rows[..n], key)| + (if !rows[n].checked && rows[n].key == key then 1 else 0)
  {
    var n := |rows| - 1;
    var before := UncheckedRowsWithKey(rows[..n], key);
    var after := UncheckedRowsWithKey(rows, key);
    assert forall k :: 0 <= k < n ==> rows[..n][k] == rows[k];
    if !rows[n].checked && rows[n].key == key {
      assert after == before + {n};
    } else {
      assert after == before;
    }
  }

  /** Extending the row list by one row: the keys of the shorter list,
      plus the new row's key when it is unchecked, count every key
      correctly. */
  lemma UncheckedKeysStep(rows: seq<Row>, prev: seq<string>)
    requires |rows| > 0
    requires forall key :: multiset(prev)[key] == |UncheckedRowsWithKey(rows[..|rows| - 1], key)|
    ensures var n := |rows| - 1;
            var r := if rows[n].checked then prev else prev + [rows[n].key];
            forall key :: multiset(r)[key] == |UncheckedRowsWithKey(rows, key)|
  {
    var n := |rows| - 1;
    assert multiset(prev + [rows[n].key]) == multiset(prev) + multiset{rows[n].key};
    forall key
      ensures multiset(if rows[n].checked then prev else prev + [rows[n].key])[key] == |UncheckedRowsWithKey(rows, key)|
    {
      UncheckedRowsWithKeyStep(rows, key);
    }
  }

  /** The keys of the unchecked rows, in row order: each key as many times
      as there are unchecked rows with that key. */
  function UncheckedKeys(rows: seq<Row>): (r: seq<string>)
    ensures |r| <= |rows|
    ensures forall key :: key in r <==> exists k :: 0 <= k < |rows| && !rows[k].checked && rows[k].key == key
    ensures forall key :: multiset(r)[key] == |UncheckedRowsWithKey(rows, key)|
    decreases |rows|
  {
    if |rows| == 0 then []
    else
      var n := |rows| - 1;
      var prev := UncheckedKeys(rows[..n]);
      assert forall k :: 0 <= k < n ==> rows[..n][k] == rows[k];
      UncheckedKeysStep(rows, prev);
      if rows[n].checked then prev else prev + [rows[n].key]
  }

  predicate AnyVariantChecked(rows: seq<Row>) {
    exists k :: 0 <= k < |rows| && rows[k].isVariant && rows[k].checked
  }

  /** The outcome of apply: the page after the default row is forced, the
      disabled list stored for the title, and whether the cached game-list
      entry for the title is deleted. */
  datatype Applied = Applied(page: Page, stored: seq<string>, removeCache: bool)

  /** Forces the default row checked when some variant is, stores the sorted
      keys of the unchecked rows, and drops the cache entry when that list
      differs from the previously stored one once both are sorted. */
  function ApplyConfiguration(page: Page, current: seq<string>): (r: Applied)
    requires page.Valid()
    ensures r.page.Valid() && r.page.defaultRow == page.defaultRow && |r.page.rows| == |page.rows|
    ensures AnyVariantChecked(page.rows) && page.defaultRow.Some? ==> r.page.rows[page.defaultRow.value].checked
    ensures forall k :: 0 <= k < |page.rows| && page.defaultRow != Some(k) ==> r.page.rows[k] == page.rows[k]
    ensures page.defaultRow.Some? ==>
              var d := page.defaultRow.value;
              r.page.rows[d] == page.rows[d].(checked := page.rows[d].checked || AnyVariantChecked(page.rows))
    ensures Sorted(r.stored) && multiset(r.stored) == multiset(UncheckedKeys(r.page.rows))
    ensures r.removeCache <==> multiset(UncheckedKeys(r.page.rows)) != multiset(current)
  {
    var rows := page.rows;
    var forced :=
      if AnyVariantChecked(rows) && page.defaultRow.Some? && !rows[page.defaultRow.value].checked then
        page.(rows := rows[page.defaultRow.value := rows[page.defaultRow.value].(checked := true)])
      else page;
    var disabled := Sort(UncheckedKeys(forced.rows));
    SortEqualIffSameMultiset(UncheckedKeys(forced.rows), current);
    Applied(forced, disabled, disabled != Sort(current))
  }

  /** A stored key disables a row of the applied page, and every unchecked
      row's key is stored. */
  lemma StoredKeysAreUncheckedRows(page: Page, current: seq<string>, key: string)
    requires page.Valid()
    ensures var r := ApplyConfiguration(page, current);
            key in r.stored <==> exists k :: 0 <= k < |r.page.rows| && !r.page.rows[k].checked && r.page.rows[k].key == key
  {
    var r := ApplyConfiguration(page, current);
    var unchecked := UncheckedKeys(r.page.rows);
    assert key in r.stored <==> key in multiset(r.stored);
    assert key in unchecked <==> key in multiset(unchecked);
  }
}
