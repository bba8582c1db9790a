/** The recursive search of one resource dictionary and its merged dictionaries
    for the key under which a given object is registered. */
module FindName {
  import opened Wpf

  /** Only dependency objects and styles carry an IsSealed flag that the search consults. */
  predicate IsSealedItem(item: Obj) {
    (item.kind == DependencyObjectKind || item.kind == StyleKind) && item.sealed
  }

  /** The key of the first entry, in enumeration order, whose value is `target`. */
  function FirstKey(entries: seq<Entry>, target: Value): (r: Option<string>)
    ensures r.None? <==> forall e | e in entries :: e.value != target
    ensures r.Some? ==>
      exists i :: 0 <= i < |entries| && entries[i] == Entry(r.value, target) &&
        forall j :: 0 <= j < i ==> entries[j].value != target
    decreases |entries|
  {
    if entries == [] then None
    else if entries[0].value == target then Some(entries[0].key)
    else
      FirstKey(entries[1..], target)
  }

  /** Every entry of a dictionary and of its merged dictionaries, in depth-first order:
      own entries first, then each merged dictionary in declared order. */
  function Flatten(d: Dict): seq<Entry>
    decreases d, 1
  {
    d.entries + FlattenAll(d.merged)
  }

  function FlattenAll(ds: seq<Dict>): seq<Entry>
    decreases ds, 0
  {
    if ds == [] then [] else Flatten(ds[0]) + FlattenAll(ds[1..])
  }

  /** FindNameFromResource: a sealed item is never found; otherwise the key of the first own
      entry holding the item, else the first non-empty name a merged dictionary yields.
      `None` stands for the null string. A result is always the key of an entry, in the
      dictionary or a merged descendant, whose value is the item itself. */
  function FindNameFromResource(dictionary: Dict, item: Obj): (r: Option<string>)
    ensures IsSealedItem(item) ==> r.None?
    ensures r.Some? ==> Entry(r.value, Ref(item.id)) in Flatten(dictionary)
    decreases dictionary, 1
  {
    if IsSealedItem(item) then None
    else
      match FirstKey(dictionary.entries, Ref(item.id))
      case Some(key) => Some(key)
      case None => FindInMerged(dictionary.merged, item)
  }

  /** What string.IsNullOrEmpty rejects: a name that is neither null nor empty. */
  predicate IsNonEmpty(name: Option<string>) {
    name.Some? && name.value != ""
  }

  /** The loop over the merged dictionaries: the first non-empty name wins, an empty name is
      passed over. */
  function FindInMerged(dictionaries: seq<Dict>, item: Obj): (r: Option<string>)
    ensures IsSealedItem(item) ==> r.None?
    ensures r.Some? ==> IsNonEmpty(r) && Entry(r.value, Ref(item.id)) in FlattenAll(dictionaries)
    decreases dictionaries, 0
  {
    if dictionaries == [] then None
    else
      var name := FindNameFromResource(dictionaries[0], item);
      if IsNonEmpty(name) then name
      else FindInMerged(dictionaries[1..], item)
  }

  /** The first match of a concatenation is the first match of its front part, if any. */
  lemma {:induction false} FirstKeyAppend(a: seq<Entry>, b: seq<Entry>, target: Value)
    ensures FirstKey(a + b, target) == if FirstKey(a, target).Some? then FirstKey(a, target) else FirstKey(b, target)
    decreases |a|
  {
    if a != [] {
      assert (a + b)[0] == a[0];
      assert (a + b)[1..] == a[1..] + b;
      FirstKeyAppend(a[1..], b, target);
    } else {
      assert a + b == b;
    }
  }

  /** Own entries are looked at before any merged dictionary: the first own entry holding
      an unsealed item gives the result. */
  lemma OwnEntriesFirst(d: Dict, item: Obj, i: nat)
    requires !IsSealedItem(item)
    requires i < |d.entries| && d.entries[i].value == Ref(item.id)
    requires forall j :: 0 <= j < i ==> d.entries[j].value != Ref(item.id)
    ensures FindNameFromResource(d, item) == Some(d.entries[i].key)
  {
  }

  /** Merged dictionaries are tried in declared order: the first one that yields a non-empty
      name decides, whatever those after it hold; those before it yielded null or "". */
  lemma {:induction false} MergedInDeclaredOrder(ds: seq<Dict>, item: Obj, i: nat)
    requires i < |ds|
    requires forall j :: 0 <= j < i ==> !IsNonEmpty(FindNameFromResource(ds[j], item))
    requires IsNonEmpty(FindNameFromResource(ds[i], item))
    ensures FindInMerged(ds, item) == FindNameFromResource(ds[i], item)
    decreases i
  {
    if i > 0 {
      assert !IsNonEmpty(FindNameFromResource(ds[0], item));
      assert ds[1..][i - 1] == ds[i];
      MergedInDeclaredOrder(ds[1..], item, i - 1);
    }
  }

  /** The other half of the merged-dictionary rule: when no merged dictionary yields a
      non-empty name, the loop yields null, whatever "" names were found on the way. */
  lemma {:induction false} NoNonEmptyMergedNameGivesNull(ds: seq<Dict>, item: Obj)
    requires forall j :: 0 <= j < |ds| ==> !IsNonEmpty(FindNameFromResource(ds[j], item))
    ensures FindInMerged(ds, item).None?
    decreases |ds|
  {
    if ds != [] {
      assert !IsNonEmpty(FindNameFromResource(ds[0], item));
      assert forall j :: 0 <= j < |ds| - 1 ==> ds[1..][j] == ds[j + 1];
      NoNonEmptyMergedNameGivesNull(ds[1..], item);
    }
  }

  /** Unless the item itself is registered under "" below the top level, the quirks vanish and
      the search is plain depth-first search: the first entry of the flattened dictionary that
      holds the item. */
  lemma {:induction false} FindIsDepthFirst(d: Dict, item: Obj)
    requires !IsSealedItem(item)
    requires forall e | e in FlattenAll(d.merged) && e.value == Ref(item.id) :: e.key != ""
    ensures FindNameFromResource(d, item) == FirstKey(Flatten(d), Ref(item.id))
    decreases d, 1
  {
    FindInMergedIsDepthFirst(d.merged, item);
    FirstKeyAppend(d.entries, FlattenAll(d.merged), Ref(item.id));
  }

  lemma {:induction false} FindInMergedIsDepthFirst(ds: seq<Dict>, item: Obj)
    requires !IsSealedItem(item)
    requires forall e | e in FlattenAll(ds) && e.value == Ref(item.id) :: e.key != ""
    ensures FindInMerged(ds, item) == FirstKey(FlattenAll(ds), Ref(item.id))
    decreases ds, 0
  {
    if ds != [] {
      var first := Flatten(ds[0]);
      assert FlattenAll(ds) == first + FlattenAll(ds[1..]);
      assert forall e | e in FlattenAll(ds[0].merged) :: e in first;
      FindIsDepthFirst(ds[0], item);
      FindInMergedIsDepthFirst(ds[1..], item);
      FirstKeyAppend(first, FlattenAll(ds[1..]), Ref(item.id));
    }
  }

  /** A merged dictionary whose own entries hold the item under "" yields "" before its own
      merged dictionaries are searched; the loop passes over that "" and goes on with the
      dictionaries after it, so whatever lies below is hidden. */
  lemma EmptyOwnKeySkipsDictionary(ds: seq<Dict>, item: Obj)
    requires ds != [] && !IsSealedItem(item)
    requires FirstKey(ds[0].entries, Ref(item.id)) == Some("")
    ensures FindNameFromResource(ds[0], item) == Some("")
    ensures FindInMerged(ds, item) == FindInMerged(ds[1..], item)
  {
  }

  /** A top-level entry with the empty key is a match like any other: "" is returned. */
  lemma TopLevelEmptyKeyIsReturned()
    ensures FindNameFromResource(Dict([Entry("", Ref(7))], []), Obj(7, StyleKind, false)) == Some("")
  {
  }

  /** An empty key in a merged dictionary hides everything below it: the item is registered
      under "Deep" in a nested merged dictionary, yet the search yields null. */
  lemma EmptyMergedKeyHidesDeeperEntries()
    ensures var d := Dict([], [Dict([Entry("", Ref(7))], [Dict([Entry("Deep", Ref(7))], [])])]);
      Entry("Deep", Ref(7)) in Flatten(d) && FindNameFromResource(d, Obj(7, StyleKind, false)).None?
  {
  }
}
