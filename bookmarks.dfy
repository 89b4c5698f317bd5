/** The bookmark record shared by the store, the sidebar parser and the import. */
module Bookmarks {
  import opened Wrappers

  /** `interface Bookmark`: a display name, a URL and the name of the enclosing
      folder when the bookmark was imported from inside a named folder. */
  datatype Bookmark = Bookmark(name: string, url: string, folder: Option<string>)

  /** A bookmark the extension would persist: non-empty name and non-empty URL. */
  predicate Usable(b: Bookmark) {
    b.name != "" && b.url != ""
  }

  /** Every bookmark of the list is usable. */
  predicate WellFormed(bs: seq<Bookmark>) {
    forall i :: 0 <= i < |bs| ==> Usable(bs[i])
  }
}
