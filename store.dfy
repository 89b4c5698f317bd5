/** `getBookmarks` / `saveBookmarks`: the bookmark list behind a single
    key of the extension's global state. The key is read with a default of
    the empty list and only ever replaced whole. */
module Store {
  import opened Wrappers
  import opened Bookmarks

  class BookmarkStore {
    /** What the global state holds under the storage key; `None` until the
        first save. */
    var stored: Option<seq<Bookmark>>

    /** A fresh state with nothing saved under the key. */
    constructor ()
      ensures stored == None && Get() == []
    {
      stored := None;
    }

    /** `getBookmarks`: the saved list, or the empty list before any save. */
    function Get(): (r: seq<Bookmark>)
      reads this
      ensures stored.None? ==> r == []
      ensures stored.Some? ==> r == stored.value
    {
      stored.GetOr([])
    }

    /** `saveBookmarks`: replaces the whole saved list. */
    method Save(bookmarks: seq<Bookmark>)
      modifies this
      ensures stored == Some(bookmarks) && Get() == bookmarks
    {
      stored := Some(bookmarks);
    }
  }
}
