/** The store-changing logic of the add, remove, edit and sync commands. Each
    handler loads the whole list, edits its copy and saves the whole list back,
    or leaves the store alone when an input was cancelled.

    User input enters as parameters: a cancelled or empty input box is "",
    a cancelled single-item picker is `None`, and the multi-select picker of
    the sync command is the set of positions left ticked. */
module Commands {
  import opened Wrappers
  import opened Bookmarks
  import opened Store
  import opened ArcSidebar
  import opened Reconcile

  /** `bookmarks.splice(i, 1)`: the list without its entry at `i`. */
  function RemovedAt(bs: seq<Bookmark>, i: nat): (r: seq<Bookmark>)
    requires i < |bs|
    ensures |r| == |bs| - 1
    ensures forall j :: 0 <= j < i ==> r[j] == bs[j]
    ensures forall j :: i <= j < |r| ==> r[j] == bs[j + 1]
  {
    bs[..i] + bs[i + 1..]
  }

  /** `bookmarks[i] = { name, url, folder: bm.folder }`: entry `i` gets the new
      name and URL and keeps its folder; no other entry changes. */
  function Edited(bs: seq<Bookmark>, i: nat, name: string, url: string): (r: seq<Bookmark>)
    requires i < |bs|
    ensures |r| == |bs|
    ensures r[i] == Bookmark(name, url, bs[i].folder)
    ensures forall j :: 0 <= j < |bs| && j != i ==> r[j] == bs[j]
  {
    bs[i := Bookmark(name, url, bs[i].folder)]
  }

  /** Removal takes out exactly one occurrence of the removed bookmark. */
  lemma RemovedAtMultiset(bs: seq<Bookmark>, i: nat)
    requires i < |bs|
    ensures multiset(RemovedAt(bs, i)) + multiset{bs[i]} == multiset(bs)
  {
    assert bs == bs[..i] + [bs[i]] + bs[i + 1..];
  }

  /** Removal keeps a usable list usable. */
  lemma RemovedAtWellFormed(bs: seq<Bookmark>, i: nat)
    requires i < |bs| && WellFormed(bs)
    ensures WellFormed(RemovedAt(bs, i))
  {
  }

  /** Editing with a non-empty name and URL keeps a usable list usable. */
  lemma EditedWellFormed(bs: seq<Bookmark>, i: nat, name: string, url: string)
    requires i < |bs| && WellFormed(bs) && name != "" && url != ""
    ensures WellFormed(Edited(bs, i, name, url))
  {
  }

  /** How a remove or edit command ended. */
  datatype ListOutcome = NoBookmarks | Cancelled | Saved

  /** How a sync command ended; the three empty outcomes stay distinct. */
  datatype SyncOutcome = NoArcBookmarks | AllSynced | NothingPicked | Imported(count: nat)

  /** The add command: appends `{name, url}` without a folder once both the
      URL and the name were entered. */
  method Add(store: BookmarkStore, url: string, name: string) returns (saved: bool)
    modifies store
    ensures saved <==> url != "" && name != ""
    ensures saved ==> store.stored == Some(old(store.Get()) + [Bookmark(name, url, None)])
    ensures !saved ==> store.stored == old(store.stored)
    ensures WellFormed(old(store.Get())) ==> WellFormed(store.Get())
  {
    if url == "" {
      return false;
    }
    if name == "" {
      return false;
    }
    var bookmarks := store.Get();
    bookmarks := bookmarks + [Bookmark(name, url, None)];
    store.Save(bookmarks);
    saved := true;
  }

  /** The remove command: `picked` is the position chosen in a picker built
      over the loaded list. */
  method Remove(store: BookmarkStore, picked: Option<nat>) returns (outcome: ListOutcome)
    requires picked.Some? ==> picked.value < |store.Get()|
    modifies store
    ensures outcome == if old(store.Get()) == [] then NoBookmarks
                       else if picked.None? then Cancelled
                       else Saved
    ensures outcome == Saved ==> store.stored == Some(RemovedAt(old(store.Get()), picked.value))
    ensures outcome != Saved ==> store.stored == old(store.stored)
    ensures WellFormed(old(store.Get())) ==> WellFormed(store.Get())
  {
    var bookmarks := store.Get();
    if |bookmarks| == 0 {
      return NoBookmarks;
    }
    if picked.None? {
      return Cancelled;
    }
    if WellFormed(bookmarks) {
      RemovedAtWellFormed(bookmarks, picked.value);
    }
    bookmarks := RemovedAt(bookmarks, picked.value);
    store.Save(bookmarks);
    outcome := Saved;
  }

  /** The edit command: `picked` is the chosen position, then the new URL and
      the new name are entered. */
  method Edit(store: BookmarkStore, picked: Option<nat>, newUrl: string, newName: string)
    returns (outcome: ListOutcome)
    requires picked.Some? ==> picked.value < |store.Get()|
    modifies store
    ensures outcome == if old(store.Get()) == [] then NoBookmarks
                       else if picked.None? || newUrl == "" || newName == "" then Cancelled
                       else Saved
    ensures outcome == Saved ==>
              store.stored == Some(Edited(old(store.Get()), picked.value, newName, newUrl))
    ensures outcome != Saved ==> store.stored == old(store.stored)
    ensures WellFormed(old(store.Get())) ==> WellFormed(store.Get())
  {
    var bookmarks := store.Get();
    if |bookmarks| == 0 {
      return NoBookmarks;
    }
    if picked.None? {
      return Cancelled;
    }
    var i := picked.value;
    var bm := bookmarks[i];
    if newUrl == "" {
      return Cancelled;
    }
    if newName == "" {
      return Cancelled;
    }
    if WellFormed(bookmarks) {
      EditedWellFormed(bookmarks, i, newName, newUrl);
    }
    bookmarks := bookmarks[i := Bookmark(newName, newUrl, bm.folder)];
    store.Save(bookmarks);
    outcome := Saved;
  }

  /** The sync command, from the decoded sidebar items (the empty sequence
      when the sidebar file is missing) and the positions the user left ticked
      (`None` when the picker was dismissed). */
  method Sync(store: BookmarkStore, items: seq<ItemEntry>, selection: Option<set<nat>>)
    returns (outcome: SyncOutcome)
    modifies store
    ensures var arc := Parse(items);
            var cands := Candidates(old(store.Get()), arc);
            outcome == if arc == [] then NoArcBookmarks
                       else if cands == [] then AllSynced
                       else if selection.None? || Select(cands, selection.value) == [] then NothingPicked
                       else Imported(|Select(cands, selection.value)|)
    ensures outcome.Imported? ==>
              store.stored == Some(Merge(old(store.Get()),
                                         Select(Candidates(old(store.Get()), Parse(items)), selection.value)))
    ensures !outcome.Imported? ==> store.stored == old(store.stored)
    ensures forall b :: b in store.Get()[|old(store.Get())|..] ==> b.url !in Urls(old(store.Get()))
    ensures WellFormed(old(store.Get())) ==> WellFormed(store.Get())
  {
    var arcBookmarks := ReadArcBookmarks(items);
    if |arcBookmarks| == 0 {
      return NoArcBookmarks;
    }
    var existing := store.Get();
    var candidates := Candidates(existing, arcBookmarks);
    if |candidates| == 0 {
      return AllSynced;
    }
    if selection.None? {
      return NothingPicked;
    }
    var picked := Select(candidates, selection.value);
    if |picked| == 0 {
      return NothingPicked;
    }
    assert WellFormed(picked) by {
      forall i | 0 <= i < |picked| ensures Usable(picked[i]) {
        assert picked[i] in picked;
        var k :| 0 <= k < |arcBookmarks| && arcBookmarks[k] == picked[i];
      }
    }
    if WellFormed(existing) {
      MergeWellFormed(existing, picked);
    }
    var merged := Merge(existing, picked);
    store.Save(merged);
    outcome := Imported(|picked|);
  }
}
