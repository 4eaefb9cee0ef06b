/**
 * The note repository over the Qdrant collection "notes", modelled as an
 * in-memory table of points. What the model takes for granted of the store
 * is written into the operations: upsert replaces by id, delete of an
 * absent id does nothing, scroll returns the `limit` points with the
 * smallest ids in ascending id order (all of them when there are fewer),
 * and a search answer arrives already ranked.
 */
module Store {
  import opened Wrappers
  import opened Notes

  /** How an operation on the store fails. */
  datatype StoreError =
    | NotConfigured      // the store URL or its API key is missing; raised before any call
    | InvalidId          // a negative point id, which the store refuses (ids are unsigned)
    | CollectionMissing  // the collection "notes" does not exist
    | EmbeddingFailure   // the embedding call raised; nothing is written

  /** How `assure_db_collection_exists` ends. */
  datatype Bootstrap =
    | Created        // the collection was absent and has been created
    | AlreadyExists  // the collection was already there
    | Unreachable    // the store could not be reached; the page stops

  /** Store address and key, as the client is built from them. */
  datatype Endpoint = Endpoint(url: string, apiKey: string)

  /** Python's `not x` for an optional string: `None` or `""`. */
  function Blank(s: Option<string>): (b: bool)
    ensures b <==> s == None || s == Some("")
  {
    s.None? || s.value == ""
  }

  /**
   * `get_qdrant_client`: fails fast unless both the store URL and its API
   * key are set and non-empty. `db_configured` is the same test.
   */
  function Connect(url: Option<string>, apiKey: Option<string>): (r: Result<Endpoint, StoreError>)
    ensures r.Success? <==> !Blank(url) && !Blank(apiKey)
    ensures r.Success? ==> r.value.url == url.value && r.value.apiKey == apiKey.value
    ensures r.Failure? ==> r.error == NotConfigured
  {
    if Blank(url) || Blank(apiKey) then Failure(NotConfigured)
    else Success(Endpoint(url.value, apiKey.value))
  }

  /**
   * What a listing of the whole table returns: `ListLimit` entries, or every
   * point when there are fewer, each the normalised record of a distinct
   * stored point with no score, newest first. The points shown are those
   * with the smallest ids: every stored id left out is larger than every id
   * shown. Entries sharing a `created_at` keep the scroll's ascending id order.
   */
  ghost predicate ListingOf(rs: seq<Record>, points: map<int, Point>)
  {
    && |rs| == (if |points| < ListLimit then |points| else ListLimit)
    && (forall i :: 0 <= i < |rs| ==>
          rs[i].id in points && rs[i] == ToRecord(rs[i].id, points[rs[i].id].payload, None))
    && (forall i, j :: 0 <= i < j < |rs| ==> rs[i].id != rs[j].id)
    && (forall i, k :: 0 <= i < |rs| && k in points && k !in IdsOf(rs) ==> rs[i].id < k)
    && NewestFirst(rs)
    && TiesByAscendingId(rs)
  }

  /** The set of ids a scrolled page holds. */
  ghost function PageIds(page: seq<StoredPoint>): set<int>
  {
    set i | 0 <= i < |page| :: page[i].id
  }

  /** The set of ids a listing shows. */
  function IdsOf(rs: seq<Record>): (ids: set<int>)
    ensures forall i :: 0 <= i < |rs| ==> rs[i].id in ids
    ensures forall id :: id in ids ==> exists i :: 0 <= i < |rs| && rs[i].id == id
  {
    if rs == [] then {} else IdsOf(rs[..|rs| - 1]) + {rs[|rs| - 1].id}
  }

  lemma {:induction false} DistinctIdsCount(rs: seq<Record>)
    requires forall i, j :: 0 <= i < j < |rs| ==> rs[i].id != rs[j].id
    ensures |IdsOf(rs)| == |rs|
  {
    if rs != [] {
      var rs' := rs[..|rs| - 1];
      DistinctIdsCount(rs');
      assert rs[|rs| - 1].id !in IdsOf(rs');
    }
  }

  /**
   * While the table holds at most `ListLimit` points, the listing shows
   * every one of them.
   */
  lemma ListingIsComplete(rs: seq<Record>, points: map<int, Point>)
    requires ListingOf(rs, points) && |points| <= ListLimit
    ensures forall id :: id in points ==> exists i :: 0 <= i < |rs| && rs[i].id == id
  {
    DistinctIdsCount(rs);
    SubsetOfSameSize(IdsOf(rs), points.Keys);
  }

  lemma SubsetOfSameSize(a: set<int>, b: set<int>)
    requires a <= b && |a| == |b|
    ensures a == b
  {
    assert b == a + (b - a);
    assert a * (b - a) == {};
    assert |b - a| == 0;
  }

  /**
   * A note just added shows up in the next chronological listing with its
   * text, its id as `created_at` and no score, as long as the table holds
   * at most `ListLimit` points.
   */
  lemma AddedNoteIsListed(rs: seq<Record>, before: map<int, Point>, text: string, id: int, v: Embedding)
    requires ListingOf(rs, Upsert(before, id, NotePoint(text, id, v)))
    requires |Upsert(before, id, NotePoint(text, id, v))| <= ListLimit
    ensures exists i :: 0 <= i < |rs| && rs[i] == Record(id, text, id, None)
  {
    ListingIsComplete(rs, Upsert(before, id, NotePoint(text, id, v)));
    var i :| 0 <= i < |rs| && rs[i].id == id;
    NoteReadsBack(text, id, v, None);
  }

  /**
   * Past `ListLimit` points the listing is the oldest notes only: the note
   * with the largest id, which is the newest one, is not shown.
   */
  lemma NewestNoteIsHiddenPastLimit(rs: seq<Record>, points: map<int, Point>, id: int)
    requires ListingOf(rs, points) && |points| > ListLimit
    requires id in points && forall k :: k in points ==> k <= id
    ensures forall i :: 0 <= i < |rs| ==> rs[i].id != id
  {
    DistinctIdsCount(rs);
    var left := points.Keys - IdsOf(rs);
    SubsetSplit(IdsOf(rs), points.Keys);
    PickableId(left);
    var k :| k in left;
    assert k <= id;
  }

  lemma SubsetSplit(a: set<int>, b: set<int>)
    requires a <= b
    ensures |b| == |a| + |b - a|
  {
    assert b == a + (b - a);
    assert a * (b - a) == {};
  }

  /**
   * Once the table holds `ListLimit` notes, a note added under a later
   * clock reading than every stored one is missing from the next
   * chronological listing.
   */
  lemma AddedNoteIsHiddenPastLimit(rs: seq<Record>, before: map<int, Point>, text: string, id: int, v: Embedding)
    requires |before| >= ListLimit && forall k :: k in before ==> k < id
    requires ListingOf(rs, Upsert(before, id, NotePoint(text, id, v)))
    ensures forall i :: 0 <= i < |rs| ==> rs[i].id != id
  {
    var after := Upsert(before, id, NotePoint(text, id, v));
    assert |after.Keys| == |before.Keys| + 1 by {
      assert after.Keys == before.Keys + {id};
    }
    NewestNoteIsHiddenPastLimit(rs, after, id);
  }

  /** A deleted note is absent from every later chronological listing. */
  lemma DeletedNoteIsNotListed(rs: seq<Record>, before: map<int, Point>, id: int)
    requires ListingOf(rs, Remove(before, id))
    ensures forall i :: 0 <= i < |rs| ==> rs[i].id != id
  {
  }

  /** Sorting the records of a scrolled page keeps what the page promised. */
  lemma ListingFromSorted(points: map<int, Point>, page: seq<StoredPoint>, records: seq<Record>, sorted: seq<Record>)
    requires |page| == if |points| < ListLimit then |points| else ListLimit
    requires forall i :: 0 <= i < |page| ==>
      page[i].id in points && page[i].payload == points[page[i].id].payload
    requires forall i, j :: 0 <= i < j < |page| ==> page[i].id < page[j].id
    requires forall i, k :: 0 <= i < |page| && k in points && k !in PageIds(page) ==> page[i].id < k
    requires |records| == |page|
    requires forall i :: 0 <= i < |page| ==> records[i] == ToRecord(page[i].id, page[i].payload, None)
    requires StablyNewestFirst(sorted, records) && multiset(sorted) == multiset(records)
    ensures ListingOf(sorted, points)
  {
    assert AscendingIds(records) by {
      forall i, j | 0 <= i < j < |records| ensures records[i].id < records[j].id {
        assert records[i].id == page[i].id && records[j].id == page[j].id;
      }
    }
    StableSortOfAscendingIds(records, sorted);
    assert |sorted| == |records| by {
      assert |multiset(sorted)| == |multiset(records)|;
    }
    forall i | 0 <= i < |sorted|
      ensures sorted[i].id in points && sorted[i] == ToRecord(sorted[i].id, points[sorted[i].id].payload, None)
    {
      assert sorted[i] in multiset(records);
    }
    forall i, j | 0 <= i < j < |sorted|
      ensures sorted[i].id != sorted[j].id
    {
      assert sorted[i] in multiset(records) && sorted[j] in multiset(records);
      var i' :| 0 <= i' < |records| && records[i'] == sorted[i];
      var j' :| 0 <= j' < |records| && records[j'] == sorted[j];
      // Equal ids would mean one record of the page, so one `created_at`,
      // and ties are broken by strictly ascending id.
      if i' != j' {
        assert records[i'].id != records[j'].id;
      }
    }
    SortedKeepsSmallestIds(points, page, records, sorted);
  }

  /** Reordering the records of a page of smallest ids still shows the smallest ids. */
  lemma SortedKeepsSmallestIds(points: map<int, Point>, page: seq<StoredPoint>, records: seq<Record>, sorted: seq<Record>)
    requires forall i, k :: 0 <= i < |page| && k in points && k !in PageIds(page) ==> page[i].id < k
    requires |records| == |page|
    requires forall i :: 0 <= i < |page| ==> records[i].id == page[i].id
    requires multiset(sorted) == multiset(records)
    ensures forall i, k :: 0 <= i < |sorted| && k in points && k !in IdsOf(sorted) ==> sorted[i].id < k
  {
    forall j | 0 <= j < |page|
      ensures page[j].id in IdsOf(sorted)
    {
      assert records[j] in multiset(sorted);
      var j' :| 0 <= j' < |sorted| && sorted[j'] == records[j];
    }
    forall i, k | 0 <= i < |sorted| && k in points && k !in IdsOf(sorted)
      ensures sorted[i].id < k
    {
      assert sorted[i] in multiset(records);
      var i' :| 0 <= i' < |records| && records[i'] == sorted[i];
      assert k !in PageIds(page);
      assert sorted[i].id == page[i'].id;
    }
  }

  /** A non-empty set of ids has a member to pick. */
  lemma PickableId(s: set<int>)
    ensures s != {} ==> exists k :: k in s
  {
    if forall k :: k !in s {
      assert s == {};
    }
  }

  lemma PageIdsAppend(page: seq<StoredPoint>, p: StoredPoint)
    ensures PageIds(page + [p]) == PageIds(page) + {p.id}
  {
    var page' := page + [p];
    forall k | k in PageIds(page') ensures k in PageIds(page) + {p.id} {
      var i :| 0 <= i < |page'| && page'[i].id == k;
      if i < |page| { assert page'[i] == page[i]; }
    }
    forall k | k in PageIds(page) + {p.id} ensures k in PageIds(page') {
      if k == p.id {
        assert page'[|page|].id == k;
      } else {
        var i :| 0 <= i < |page| && page[i].id == k;
        assert page'[i].id == k;
      }
    }
  }

  /**
   * The state of an ascending scan after `page`: what is left is exactly the
   * ids not yet taken, the page is ascending, holds stored points, and every
   * id taken is below every id left.
   */
  ghost predicate ScanState(points: map<int, Point>, page: seq<StoredPoint>, remaining: set<int>)
  {
    && remaining == points.Keys - PageIds(page)
    && |page| + |remaining| == |points.Keys|
    && (forall i :: 0 <= i < |page| ==>
          page[i].id in points && page[i].payload == points[page[i].id].payload)
    && (forall i, j :: 0 <= i < j < |page| ==> page[i].id < page[j].id)
    && (forall i, k :: 0 <= i < |page| && k in remaining ==> page[i].id < k)
  }

  /** Taking the smallest id left keeps the scan's state. */
  lemma ScanStep(points: map<int, Point>, page: seq<StoredPoint>, remaining: set<int>, k: int)
    requires ScanState(points, page, remaining)
    requires k in remaining && forall j :: j in remaining ==> k <= j
    ensures ScanState(points, page + [StoredPoint(k, points[k].payload)], remaining - {k})
  {
    ScanStepIds(points, page, remaining, k);
    ScanStepOrder(points, page, remaining, k);
  }

  lemma ScanStepIds(points: map<int, Point>, page: seq<StoredPoint>, remaining: set<int>, k: int)
    requires remaining == points.Keys - PageIds(page)
    requires |page| + |remaining| == |points.Keys|
    requires k in remaining
    ensures remaining - {k} == points.Keys - PageIds(page + [StoredPoint(k, points[k].payload)])
    ensures |page + [StoredPoint(k, points[k].payload)]| + |remaining - {k}| == |points.Keys|
  {
    PageIdsAppend(page, StoredPoint(k, points[k].payload));
  }

  lemma ScanStepOrder(points: map<int, Point>, page: seq<StoredPoint>, remaining: set<int>, k: int)
    requires forall i :: 0 <= i < |page| ==>
      page[i].id in points && page[i].payload == points[page[i].id].payload
    requires forall i, j :: 0 <= i < j < |page| ==> page[i].id < page[j].id
    requires forall i, j :: 0 <= i < |page| && j in remaining ==> page[i].id < j
    requires k in remaining && k in points && forall j :: j in remaining ==> k <= j
    ensures var page' := page + [StoredPoint(k, points[k].payload)];
      && (forall i :: 0 <= i < |page'| ==>
            page'[i].id in points && page'[i].payload == points[page'[i].id].payload)
      && (forall i, j :: 0 <= i < j < |page'| ==> page'[i].id < page'[j].id)
      && (forall i, j :: 0 <= i < |page'| && j in remaining - {k} ==> page'[i].id < j)
  {
    var page' := page + [StoredPoint(k, points[k].payload)];
    forall i | 0 <= i < |page'|
      ensures page'[i].id in points && page'[i].payload == points[page'[i].id].payload
    {
      if i < |page| { assert page'[i] == page[i]; }
    }
    forall i, j | 0 <= i < j < |page'|
      ensures page'[i].id < page'[j].id
    {
      assert page'[i] == page[i];
      if j < |page| { assert page'[j] == page[j]; }
    }
    forall i, j | 0 <= i < |page'| && j in remaining - {k}
      ensures page'[i].id < j
    {
      if i < |page| { assert page'[i] == page[i]; }
    }
  }

  /** When the scan stops, the page holds the smallest ids. */
  lemma ScanDone(points: map<int, Point>, page: seq<StoredPoint>, remaining: set<int>)
    requires ScanState(points, page, remaining)
    ensures forall i, k :: 0 <= i < |page| && k in points && k !in PageIds(page) ==> page[i].id < k
  {
    forall i, k | 0 <= i < |page| && k in points && k !in PageIds(page)
      ensures page[i].id < k
    {
      assert k in remaining;
    }
  }

  /** A non-empty set of ids has a smallest one. */
  lemma SmallestId(s: set<int>)
    ensures s != {} ==> exists m :: m in s && forall k :: k in s ==> m <= k
    decreases s
  {
    if s != {} {
      PickableId(s);
      var x :| x in s;
      var rest := s - {x};
      if rest == {} {
        assert s == {x};
      } else {
        SmallestId(rest);
        var m :| m in rest && forall k :: k in rest ==> m <= k;
        var least := if x <= m then x else m;
        forall k | k in s ensures least <= k {
          if k != x { assert k in rest; }
        }
        assert least in s;
      }
    }
  }

  /** The collection "notes" and the points it holds. */
  class NoteStore {
    var collectionExists: bool
    var points: map<int, Point>

    /** A store without the collection. */
    constructor ()
      ensures !collectionExists && points == map[]
    {
      collectionExists := false;
      points := map[];
    }

    /**
     * `assure_db_collection_exists`: creates the collection (3072-wide
     * vectors, cosine distance) only when it is absent; when the store
     * cannot be reached nothing changes.
     */
    method EnsureCollection(reachable: bool) returns (outcome: Bootstrap)
      modifies this`collectionExists
      ensures !reachable ==> outcome == Unreachable && collectionExists == old(collectionExists)
      ensures reachable ==> collectionExists
      ensures reachable && old(collectionExists) ==> outcome == AlreadyExists
      ensures reachable && !old(collectionExists) ==> outcome == Created
      ensures points == old(points)
    {
      if !reachable {
        return Unreachable;
      }
      if !collectionExists {
        collectionExists := true;
        outcome := Created;
      } else {
        outcome := AlreadyExists;
      }
    }

    /**
     * `add_note_to_db`: the id is the wall clock `seconds` in milliseconds,
     * and one point is upserted under it with payload `{text, created_at: id}`
     * and the text's embedding (`None` when the embedding call raised). The
     * store refuses a negative id, which a clock before 1970 gives.
     */
    method AddNote(text: string, seconds: real, embedding: Option<Embedding>) returns (r: Result<int, StoreError>)
      modifies this`points
      ensures embedding.None? ==> r == Failure(EmbeddingFailure) && points == old(points)
      ensures embedding.Some? && MillisTimestamp(seconds) < 0 ==>
        r == Failure(InvalidId) && points == old(points)
      ensures embedding.Some? && MillisTimestamp(seconds) >= 0 && !collectionExists ==>
        r == Failure(CollectionMissing) && points == old(points)
      ensures embedding.Some? && MillisTimestamp(seconds) >= 0 && collectionExists ==>
        && r == Success(MillisTimestamp(seconds))
        && points == Upsert(old(points), r.value, NotePoint(text, r.value, embedding.value))
      ensures collectionExists == old(collectionExists)
    {
      var id := MillisTimestamp(seconds);
      if embedding.None? {
        return Failure(EmbeddingFailure);
      }
      if id < 0 {
        return Failure(InvalidId);
      }
      if !collectionExists {
        return Failure(CollectionMissing);
      }
      points := Upsert(points, id, NotePoint(text, id, embedding.value));
      r := Success(id);
    }

    /**
     * `delete_note_from_db`: removes the point `id`; an absent id changes
     * nothing, and a negative id is refused.
     */
    method DeleteNote(id: int) returns (r: Result<(), StoreError>)
      modifies this`points
      ensures id < 0 ==> r == Failure(InvalidId) && points == old(points)
      ensures id >= 0 && !collectionExists ==> r == Failure(CollectionMissing) && points == old(points)
      ensures id >= 0 && collectionExists ==> r == Success(()) && points == Remove(old(points), id)
      ensures collectionExists == old(collectionExists)
    {
      if id < 0 {
        return Failure(InvalidId);
      }
      if !collectionExists {
        return Failure(CollectionMissing);
      }
      points := Remove(points, id);
      r := Success(());
    }

    /**
     * `scroll(limit=...)`: the stored points with the `limit` smallest ids
     * (all of them when there are fewer), in ascending id order, each with
     * its payload and without its vector.
     */
    method Scroll(limit: nat) returns (page: seq<StoredPoint>)
      ensures |page| == if |points| < limit then |points| else limit
      ensures forall i :: 0 <= i < |page| ==>
        page[i].id in points && page[i].payload == points[page[i].id].payload
      ensures forall i, j :: 0 <= i < j < |page| ==> page[i].id < page[j].id
      ensures forall i, k :: 0 <= i < |page| && k in points && k !in PageIds(page) ==> page[i].id < k
    {
      page := [];
      var remaining := points.Keys;
      while remaining != {} && |page| < limit
        invariant ScanState(points, page, remaining)
        invariant |page| <= limit
        decreases remaining
      {
        SmallestId(remaining);
        var k :| k in remaining && forall j :: j in remaining ==> k <= j;
        ScanStep(points, page, remaining, k);
        page := page + [StoredPoint(k, points[k].payload)];
        remaining := remaining - {k};
      }
      ScanDone(points, page, remaining);
    }

    /**
     * `list_notes_from_db`. With a blank query: the scrolled points as
     * records, newest first. With a query: one record per search hit, in
     * the order the store ranked them, each with its score. `queryEmbedding`
     * is the query's embedding (`None` when that call raised); `hits` is the
     * store's ranked answer to the similarity search for it.
     */
    method ListNotes(query: Option<string>, queryEmbedding: Option<Embedding>, hits: seq<ScoredPoint>)
      returns (r: Result<seq<Record>, StoreError>)
      ensures Blank(query) && !collectionExists ==> r == Failure(CollectionMissing)
      ensures Blank(query) && collectionExists ==> r.Success? && ListingOf(r.value, points)
      ensures !Blank(query) && queryEmbedding.None? ==> r == Failure(EmbeddingFailure)
      ensures !Blank(query) && queryEmbedding.Some? && !collectionExists ==> r == Failure(CollectionMissing)
      ensures !Blank(query) && queryEmbedding.Some? && collectionExists ==>
        && r.Success? && |r.value| == |hits|
        && forall i :: 0 <= i < |hits| ==>
             r.value[i] == ToRecord(hits[i].id, hits[i].payload, Some(hits[i].score))
    {
      if Blank(query) {
        if !collectionExists {
          return Failure(CollectionMissing);
        }
        var page := Scroll(ListLimit);
        var records := RecordsFromScroll(page);
        var sorted := SortNewestFirst(records);
        ListingFromSorted(points, page, records, sorted);
        r := Success(sorted);
      } else {
        if queryEmbedding.None? {
          return Failure(EmbeddingFailure);
        }
        if !collectionExists {
          return Failure(CollectionMissing);
        }
        var records := RecordsFromSearch(hits);
        r := Success(records);
      }
    }
  }

  /** Bootstrapping twice creates the collection at most once; the second run finds it. */
  method BootstrapTwice(store: NoteStore) returns (first: Bootstrap, second: Bootstrap)
    modifies store
    ensures first == (if old(store.collectionExists) then AlreadyExists else Created)
    ensures second == AlreadyExists
    ensures store.collectionExists && store.points == old(store.points)
  {
    first := store.EnsureCollection(true);
    second := store.EnsureCollection(true);
  }

  /** Adding a note under a fresh id and deleting that id leaves the table as it was. */
  method AddThenDelete(store: NoteStore, text: string, seconds: real, v: Embedding) returns (id: Result<int, StoreError>)
    requires store.collectionExists
    modifies store
    ensures MillisTimestamp(seconds) >= 0 ==> id == Success(MillisTimestamp(seconds))
    ensures MillisTimestamp(seconds) < 0 ==> id == Failure(InvalidId)
    ensures MillisTimestamp(seconds) !in old(store.points) ==> store.points == old(store.points)
    ensures store.collectionExists
  {
    id := store.AddNote(text, seconds, Some(v));
    if id.Success? {
      var gone := store.DeleteNote(id.value);
      if id.value !in old(store.points) {
        RemoveUndoesUpsert(old(store.points), id.value, NotePoint(text, id.value, v));
      }
    }
  }
}
