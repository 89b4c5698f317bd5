/** The import reconciliation of the sync command: which Arc bookmarks are
    offered for import, and how the chosen ones join the stored list. */
module Reconcile {
  import opened Wrappers
  import opened Bookmarks

  /** `new Set(existing.map(b => b.url))` */
  function Urls(bs: seq<Bookmark>): set<string> {
    set b | b in bs :: b.url
  }

  /** `arcBookmarks.filter(b => !existingUrls.has(b.url))`: the Arc bookmarks
      whose URL no stored bookmark has, in Arc order. Only the URL is compared. */
  function Candidates(existing: seq<Bookmark>, arc: seq<Bookmark>): (r: seq<Bookmark>)
    ensures |r| <= |arc|
    ensures forall b :: b in r ==> b in arc && b.url !in Urls(existing)
  {
    if arc == [] then []
    else
      var rest := Candidates(existing, arc[..|arc| - 1]);
      var b := arc[|arc| - 1];
      if b.url in Urls(existing) then rest else rest + [b]
  }

  /** `[...existing, ...picked]`: the stored list followed by the picked
      bookmarks, with no dedup among the picked ones. */
  function Merge(existing: seq<Bookmark>, picked: seq<Bookmark>): (r: seq<Bookmark>)
    ensures |r| == |existing| + |picked|
    ensures r[..|existing|] == existing && r[|existing|..] == picked
  {
    existing + picked
  }

  /** The bookmarks the multi-select picker returns when the user leaves the
      entries at positions `chosen` ticked, in list order. */
  function Select(cands: seq<Bookmark>, chosen: set<nat>): (r: seq<Bookmark>)
    ensures |r| <= |cands|
    ensures forall b :: b in r ==> b in cands
  {
    if cands == [] then []
    else
      var rest := Select(cands[..|cands| - 1], chosen);
      if |cands| - 1 in chosen then rest + [cands[|cands| - 1]] else rest
  }

  /** A candidate is exactly an Arc bookmark whose URL differs from the URL of
      every stored bookmark. */
  lemma {:induction false} CandidatesMembers(existing: seq<Bookmark>, arc: seq<Bookmark>, b: Bookmark)
    ensures b in Candidates(existing, arc) <==>
            b in arc && forall e :: e in existing ==> e.url != b.url
  {
    if arc != [] {
      var p := arc[..|arc| - 1];
      CandidatesMembers(existing, p, b);
      assert arc == p + [arc[|arc| - 1]];
    }
    if b in arc && b !in Candidates(existing, arc) {
      assert b.url in Urls(existing);
      var e :| e in existing && e.url == b.url;
    }
  }

  /** The filter keeps Arc order: it distributes over concatenation. */
  lemma {:induction false} CandidatesConcat(existing: seq<Bookmark>, a: seq<Bookmark>, b: seq<Bookmark>)
    ensures Candidates(existing, a + b) == Candidates(existing, a) + Candidates(existing, b)
  {
    if b == [] {
      assert a + b == a;
    } else {
      var b' := b[..|b| - 1];
      assert (a + b)[..|a + b| - 1] == a + b';
      CandidatesConcat(existing, a, b');
    }
  }

  /** When no Arc URL is already stored, every Arc bookmark is a candidate. */
  lemma {:induction false} CandidatesAllNew(existing: seq<Bookmark>, arc: seq<Bookmark>)
    requires forall i :: 0 <= i < |arc| ==> arc[i].url !in Urls(existing)
    ensures Candidates(existing, arc) == arc
  {
    if arc != [] {
      var p := arc[..|arc| - 1];
      CandidatesAllNew(existing, p);
      assert arc == p + [arc[|arc| - 1]];
    }
  }

  /** When every Arc URL is already stored, nothing is a candidate. */
  lemma {:induction false} CandidatesNoneNew(existing: seq<Bookmark>, arc: seq<Bookmark>)
    requires forall i :: 0 <= i < |arc| ==> arc[i].url in Urls(existing)
    ensures Candidates(existing, arc) == []
  {
    if arc != [] {
      CandidatesNoneNew(existing, arc[..|arc| - 1]);
    }
  }

  /** Once every candidate has been imported, a second sync offers nothing. */
  lemma SyncIdempotent(existing: seq<Bookmark>, arc: seq<Bookmark>)
    ensures Candidates(Merge(existing, Candidates(existing, arc)), arc) == []
  {
    var merged := Merge(existing, Candidates(existing, arc));
    forall i | 0 <= i < |arc| ensures arc[i].url in Urls(merged) {
      if arc[i].url !in Urls(existing) {
        CandidatesMembers(existing, arc, arc[i]);
        assert arc[i] in merged;
      } else {
        var e :| e in existing && e.url == arc[i].url;
        assert e in merged;
      }
    }
    CandidatesNoneNew(merged, arc);
  }

  /** The picker returns exactly the candidates at the ticked positions. */
  lemma {:induction false} SelectMembers(cands: seq<Bookmark>, chosen: set<nat>, b: Bookmark)
    ensures b in Select(cands, chosen) <==> exists i :: 0 <= i < |cands| && i in chosen && cands[i] == b
  {
    if cands != [] {
      var p := cands[..|cands| - 1];
      SelectMembers(p, chosen, b);
      assert forall i :: 0 <= i < |p| ==> p[i] == cands[i];
    }
  }

  /** Ticking every entry imports the whole candidate list. */
  lemma {:induction false} SelectAll(cands: seq<Bookmark>, chosen: set<nat>)
    requires forall i :: 0 <= i < |cands| ==> i in chosen
    ensures Select(cands, chosen) == cands
  {
    if cands != [] {
      SelectAll(cands[..|cands| - 1], chosen);
      assert cands == cands[..|cands| - 1] + [cands[|cands| - 1]];
    }
  }

  /** Importing keeps the stored list usable when the imported bookmarks are. */
  lemma MergeWellFormed(existing: seq<Bookmark>, picked: seq<Bookmark>)
    requires WellFormed(existing) && WellFormed(picked)
    ensures WellFormed(Merge(existing, picked))
  {
  }

  /** The example of one stored and two Arc bookmarks sharing one URL. */
  lemma ExampleCandidates()
    ensures Candidates([Bookmark("A", "https://a.com", None)],
                       [Bookmark("A2", "https://a.com", None), Bookmark("B", "https://b.com", None)])
            == [Bookmark("B", "https://b.com", None)]
  {
  }
}
