/** The Arc sidebar flattening of `readArcBookmarks`: from the decoded array of
    sidebar items to a flat list of folder-annotated bookmarks.

    The document is loosely typed, so every field is optional, and an entry is
    either a bare string or an object whose `value` envelope may be missing.
    JavaScript truthiness is spelled out: a string is truthy when present and
    non-empty, an array's `length` when present and non-empty, an object when
    present. */
module ArcSidebar {
  import opened Wrappers
  import opened Bookmarks

  datatype Tab = Tab(savedURL: Option<string>, savedTitle: Option<string>)

  datatype ItemData = ItemData(tab: Option<Tab>)

  datatype ItemValue = ItemValue(
    id: Option<string>,
    title: Option<string>,
    parentID: Option<string>,
    childrenIds: Option<seq<string>>,
    data: Option<ItemData>)

  /** One element of `sidebarSyncState.items`. */
  datatype ItemEntry = Bare(text: string) | Wrapped(value: Option<ItemValue>)

  // ---------------------------------------------------------------------------
  // Field access with the source's truthiness
  // ---------------------------------------------------------------------------

  /** A string that JavaScript treats as true: present and non-empty. */
  predicate Truthy(s: Option<string>) {
    s.Some? && s.value != ""
  }

  /** The `value` object of an entry; bare strings have none. */
  function ValueOf(e: ItemEntry): Option<ItemValue> {
    match e
    case Bare(_) => None
    case Wrapped(v) => v
  }

  /** `val.data?.tab` */
  function TabOf(v: ItemValue): Option<Tab> {
    match v.data
    case Some(d) => d.tab
    case None => None
  }

  /** `tab?.savedURL` */
  function UrlOf(v: ItemValue): Option<string> {
    match TabOf(v)
    case Some(t) => t.savedURL
    case None => None
  }

  /** `val.title || tab?.savedTitle || ''` */
  function NameOf(v: ItemValue): string {
    if Truthy(v.title) then v.title.value
    else match TabOf(v)
      case Some(t) => if Truthy(t.savedTitle) then t.savedTitle.value else ""
      case None => ""
  }

  /** `val.childrenIds?.length && !val.data?.tab && val.title` */
  predicate IsFolder(v: ItemValue) {
    v.childrenIds.Some? && |v.childrenIds.value| > 0 && TabOf(v).None? && Truthy(v.title)
  }

  /** The map key of an item's `id`, `val.id ?? ''`. */
  function IdKey(v: ItemValue): string {
    v.id.GetOr("")
  }

  /** The lookup key of an entry's parent, `val.parentID ?? ''`. */
  function ParentKey(e: ItemEntry): string {
    match ValueOf(e)
    case Some(v) => v.parentID.GetOr("")
    case None => ""
  }

  /** The entry is a folder stored under `key` in the folder-name map. */
  predicate FolderFor(e: ItemEntry, key: string) {
    ValueOf(e).Some? && IsFolder(ValueOf(e).value) && IdKey(ValueOf(e).value) == key
  }

  /** The title an entry contributes to the folder-name map. */
  function FolderTitle(e: ItemEntry): string {
    match ValueOf(e)
    case Some(v) => v.title.GetOr("")
    case None => ""
  }

  // ---------------------------------------------------------------------------
  // Pass 1: the folder-name map
  // ---------------------------------------------------------------------------

  /** One iteration of pass 1: a folder entry sets its id to its title. */
  function Index(names: map<string, string>, e: ItemEntry): map<string, string> {
    match ValueOf(e)
    case None => names
    case Some(v) => if IsFolder(v) then names[IdKey(v) := v.title.value] else names
  }

  /** Pass 1 run over `items`, starting from `names`. Only folder titles are
      stored, and they are truthy, so a map of non-empty titles stays one. */
  function Register(names: map<string, string>, items: seq<ItemEntry>): (r: map<string, string>)
    ensures (forall k :: k in names ==> names[k] != "") ==> forall k :: k in r ==> r[k] != ""
  {
    if items == [] then names
    else Index(Register(names, items[..|items| - 1]), items[|items| - 1])
  }

  /** The map pass 1 builds: `folderNames`. Every title in it is non-empty,
      so `folderNames.get(...) ?? undefined` never yields an empty folder. */
  function FolderNames(items: seq<ItemEntry>): (r: map<string, string>)
    ensures forall k :: k in r ==> r[k] != ""
  {
    Register(map[], items)
  }

  /** `folderNames.get(key) ?? undefined` */
  function Lookup(names: map<string, string>, key: string): Option<string> {
    if key in names then Some(names[key]) else None
  }

  // ---------------------------------------------------------------------------
  // Pass 2: one bookmark per entry with a usable URL and a usable name
  // ---------------------------------------------------------------------------

  /** What one iteration of pass 2 emits for entry `e`. */
  function EntryBookmark(e: ItemEntry, names: map<string, string>): (r: Option<Bookmark>)
    ensures r.Some? ==> Usable(r.value)
    ensures r.Some? <==> ValueOf(e).Some? && Truthy(UrlOf(ValueOf(e).value)) && NameOf(ValueOf(e).value) != ""
  {
    match ValueOf(e)
    case None => None
    case Some(v) =>
      if !Truthy(UrlOf(v)) || NameOf(v) == "" then None
      else Some(Bookmark(NameOf(v), UrlOf(v).value, Lookup(names, ParentKey(e))))
  }

  /** What pass 2 pushes for one entry: zero or one bookmark. */
  function Emit(o: Option<Bookmark>): seq<Bookmark> {
    match o
    case Some(b) => [b]
    case None => []
  }

  /** Pass 2 run over `items` with the folder-name map `names`. */
  function Flatten(items: seq<ItemEntry>, names: map<string, string>): (r: seq<Bookmark>)
    ensures |r| <= |items|
    ensures WellFormed(r)
  {
    if items == [] then []
    else Flatten(items[..|items| - 1], names) + Emit(EntryBookmark(items[|items| - 1], names))
  }

  /** The result of `readArcBookmarks` once the item array is in hand: usable
      bookmarks, at most one per item, none for a missing file. */
  function Parse(items: seq<ItemEntry>): (r: seq<Bookmark>)
    ensures WellFormed(r)
    ensures |r| <= |items|
    ensures items == [] ==> r == []
  {
    Flatten(items, FolderNames(items))
  }

  /** `readArcBookmarks` from the decoded item array on: pass 1 fills the
      folder-name map, pass 2 pushes one bookmark per qualifying entry. */
  method ReadArcBookmarks(items: seq<ItemEntry>) returns (bookmarks: seq<Bookmark>)
    ensures bookmarks == Parse(items)
    ensures WellFormed(bookmarks)
    ensures |bookmarks| <= |items|
  {
    var folderNames: map<string, string> := map[];
    for i := 0 to |items|
      invariant folderNames == Register(map[], items[..i])
    {
      assert items[..i + 1][..i] == items[..i];
      match items[i]
      case Bare(_) =>
      case Wrapped(value) =>
        if value.Some? {
          var val := value.value;
          if IsFolder(val) {
            folderNames := folderNames[IdKey(val) := val.title.value];
          }
        }
    }
    assert items[..|items|] == items;

    bookmarks := [];
    for i := 0 to |items|
      invariant bookmarks == Flatten(items[..i], folderNames)
    {
      assert items[..i + 1][..i] == items[..i];
      if items[i].Bare? || items[i].value.None? {
        continue;
      }
      var val := items[i].value.value;
      var url := UrlOf(val);
      var name := NameOf(val);
      if !Truthy(url) || name == "" {
        continue;
      }
      var folder := Lookup(folderNames, val.parentID.GetOr(""));
      bookmarks := bookmarks + [Bookmark(name, url.value, folder)];
    }
  }

  // ---------------------------------------------------------------------------
  // Properties
  // ---------------------------------------------------------------------------

  /** Pass 1 over a concatenation is pass 1 over the second part, started from
      the map of the first. */
  lemma {:induction false} RegisterConcat(names: map<string, string>, a: seq<ItemEntry>, b: seq<ItemEntry>)
    ensures Register(names, a + b) == Register(Register(names, a), b)
  {
    if b == [] {
      assert a + b == a;
    } else {
      var b' := b[..|b| - 1];
      assert (a + b)[..|a + b| - 1] == a + b';
      RegisterConcat(names, a, b');
    }
  }

  /** Pass 2 preserves input order: it distributes over concatenation. */
  lemma {:induction false} FlattenConcat(a: seq<ItemEntry>, b: seq<ItemEntry>, names: map<string, string>)
    ensures Flatten(a + b, names) == Flatten(a, names) + Flatten(b, names)
  {
    if b == [] {
      assert a + b == a;
    } else {
      var b' := b[..|b| - 1];
      assert (a + b)[..|a + b| - 1] == a + b';
      FlattenConcat(a, b', names);
    }
  }

  /** Each bookmark pass 2 emits comes from one entry, and every entry that
      qualifies has its bookmark emitted. */
  lemma {:induction false} FlattenMembers(items: seq<ItemEntry>, names: map<string, string>, b: Bookmark)
    ensures b in Flatten(items, names) <==>
            exists i :: 0 <= i < |items| && EntryBookmark(items[i], names) == Some(b)
  {
    if items != [] {
      var p := items[..|items| - 1];
      FlattenMembers(p, names, b);
      assert forall i :: 0 <= i < |p| ==> p[i] == items[i];
      if b in Flatten(items, names) && b !in Flatten(p, names) {
        assert EntryBookmark(items[|items| - 1], names) == Some(b);
      }
    }
  }

  /** Entries that qualify as neither folder nor bookmark contribute nothing
      to either pass: bare strings, entries without `value`, and entries whose
      `value` is not a folder and has no usable URL or name. Inserting one
      anywhere leaves the result unchanged. */
  lemma SkippedEntryIgnored(items: seq<ItemEntry>, k: nat, e: ItemEntry)
    requires k <= |items|
    requires ValueOf(e).None? || (!IsFolder(ValueOf(e).value) && EntryBookmark(e, map[]).None?)
    ensures Parse(items[..k] + [e] + items[k..]) == Parse(items)
  {
    var a, b := items[..k], items[k..];
    assert items == a + b;
    var s := a + [e] + b;
    assert [e][..0] == [];
    assert Register(Register(map[], a), [e]) == Register(map[], a);
    assert Flatten([e], FolderNames(items)) == [];
    assert FolderNames(s) == FolderNames(items) by {
      RegisterConcat(map[], a + [e], b);
      RegisterConcat(map[], a, [e]);
      RegisterConcat(map[], a, b);
    }
    FlattenConcat(a + [e], b, FolderNames(items));
    FlattenConcat(a, [e], FolderNames(items));
    FlattenConcat(a, b, FolderNames(items));
  }

  /** `j` is the last folder entry of `items` stored under `key`. */
  predicate LastFolderFor(items: seq<ItemEntry>, key: string, j: int) {
    0 <= j < |items| && FolderFor(items[j], key) &&
    forall k :: j < k < |items| ==> !FolderFor(items[k], key)
  }

  /** The folder-name map holds `key` exactly when some folder entry has that
      id (absent id counting as ""), and then maps it to the title of the last
      such entry: `Map.set` lets the last one win. */
  lemma {:induction false} FolderNamesSpec(items: seq<ItemEntry>, key: string)
    ensures key in FolderNames(items) <==> exists j :: 0 <= j < |items| && FolderFor(items[j], key)
    ensures key in FolderNames(items) ==>
            exists j :: LastFolderFor(items, key, j) && FolderNames(items)[key] == FolderTitle(items[j])
  {
    if items != [] {
      var n := |items| - 1;
      var p, x := items[..n], items[n];
      FolderNamesSpec(p, key);
      assert FolderNames(items) == Index(FolderNames(p), x);
      assert forall i :: 0 <= i < n ==> p[i] == items[i];
      if FolderFor(x, key) {
        assert LastFolderFor(items, key, n);
      } else {
        assert key in FolderNames(items) <==> key in FolderNames(p);
        if key in FolderNames(p) {
          var j :| LastFolderFor(p, key, j) && FolderNames(p)[key] == FolderTitle(p[j]);
          assert LastFolderFor(items, key, j);
        }
      }
    }
  }

  /** Folder resolution is one hop: an emitted bookmark names a folder exactly
      when some folder entry's id key equals the entry's parent key, and then it
      is the title of the last such folder. Because both keys default to "", a
      tab with no `parentID` picks up a folder with no `id`. */
  lemma EntryFolder(items: seq<ItemEntry>, e: ItemEntry)
    requires EntryBookmark(e, FolderNames(items)).Some?
    ensures var b := EntryBookmark(e, FolderNames(items)).value;
            && (b.folder.None? <==> forall j :: 0 <= j < |items| ==> !FolderFor(items[j], ParentKey(e)))
            && (b.folder.Some? ==>
                  exists j :: LastFolderFor(items, ParentKey(e), j) && b.folder.value == FolderTitle(items[j]))
  {
    FolderNamesSpec(items, ParentKey(e));
  }

  /** The name falls back to the tab's saved title when the item's title is
      missing or empty, and the URL is always the tab's saved URL. */
  lemma EntryName(e: ItemEntry, names: map<string, string>)
    requires EntryBookmark(e, names).Some?
    ensures var v := ValueOf(e).value;
            && EntryBookmark(e, names).value.url == TabOf(v).value.savedURL.value
            && EntryBookmark(e, names).value.name ==
               if Truthy(v.title) then v.title.value else TabOf(v).value.savedTitle.value
  {
  }

  /** The folder-with-children example: a tab under folder "Dev" with an empty
      title is named after its saved title and annotated with "Dev". */
  lemma ExampleFolderAndTab()
    ensures Parse([
      Wrapped(Some(ItemValue(Some("f1"), Some("Dev"), None, Some(["t1"]), None))),
      Wrapped(Some(ItemValue(Some("t1"), Some(""), Some("f1"), None,
                             Some(ItemData(Some(Tab(Some("https://go.dev"), Some("Go")))))))) ])
      == [Bookmark("Go", "https://go.dev", Some("Dev"))]
  {
  }

  /** The "" default on both sides: a tab without `parentID` is filed under a
      titled folder that has children but no `id`. */
  lemma ExampleMissingIds()
    ensures Parse([
      Wrapped(Some(ItemValue(None, Some("Loose"), None, Some(["x"]), None))),
      Wrapped(Some(ItemValue(None, Some("Docs"), None, None,
                             Some(ItemData(Some(Tab(Some("https://a.b"), None))))))) ])
      == [Bookmark("Docs", "https://a.b", Some("Loose"))]
  {
  }
}
