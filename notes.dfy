/**
 * The notes kept in the vector store: points, their payloads, the records
 * the listing returns, the millisecond identifiers, and the newest-first
 * ordering of the chronological listing.
 */
module Notes {
  import opened Wrappers

  /** An embedding as the store keeps it; the model never looks inside it. */
  type Embedding = seq<real>

  /** A similarity score computed and ranked by the store; passed through untouched. */
  type Score = real

  /** At most this many points are scrolled. */
  const ListLimit: nat := 100

  /** The payload dictionary of a point; either key may be absent. */
  datatype Payload = Payload(text: Option<string>, createdAt: Option<int>)

  /** A point of the collection: an optional payload and its vector. */
  datatype Point = Point(payload: Option<Payload>, vector: Embedding)

  /** A point as `scroll` returns it (`with_vectors=False`). */
  datatype StoredPoint = StoredPoint(id: int, payload: Option<Payload>)

  /** A hit of the similarity search, with the score the store gave it. */
  datatype ScoredPoint = ScoredPoint(id: int, payload: Option<Payload>, score: Score)

  /** One entry of the listing: the dictionary with keys id, text, created_at and score. */
  datatype Record = Record(id: int, text: string, createdAt: int, score: Option<Score>)

  /**
   * `int(time.time() * 1000)`: the wall clock in seconds scaled to
   * milliseconds, truncated toward zero as Python's `int` does.
   */
  function MillisTimestamp(seconds: real): (id: int)
    ensures 0.0 <= seconds ==> 0 <= id && id as real <= seconds * 1000.0 < id as real + 1.0
    ensures seconds < 0.0 ==> id <= 0 && id as real - 1.0 < seconds * 1000.0 <= id as real
  {
    var ms := seconds * 1000.0;
    if ms >= 0.0 then ms.Floor else -((-ms).Floor)
  }

  /** The point `add_note_to_db` writes: the text, and the id again as `created_at`. */
  function NotePoint(text: string, id: int, vector: Embedding): (p: Point)
    ensures p.payload.Some? && p.vector == vector
    ensures p.payload.value.text == Some(text) && p.payload.value.createdAt == Some(id)
  {
    Point(Some(Payload(Some(text), Some(id))), vector)
  }

  /**
   * One listing entry built from a point's id and payload: a missing payload
   * counts as `{}`, a missing `text` as `""`, a missing `created_at` as `0`.
   */
  function ToRecord(id: int, payload: Option<Payload>, score: Option<Score>): (r: Record)
    ensures r.id == id && r.score == score
    ensures payload.None? ==> r.text == "" && r.createdAt == 0
    ensures payload.Some? && payload.value.text.Some? ==> r.text == payload.value.text.value
    ensures payload.Some? && payload.value.text.None? ==> r.text == ""
    ensures payload.Some? && payload.value.createdAt.Some? ==> r.createdAt == payload.value.createdAt.value
    ensures payload.Some? && payload.value.createdAt.None? ==> r.createdAt == 0
  {
    var p := payload.GetOr(Payload(None, None));
    Record(id, p.text.GetOr(""), p.createdAt.GetOr(0), score)
  }

  /** A stored note reads back with its own text, and its id as `created_at`. */
  lemma NoteReadsBack(text: string, id: int, vector: Embedding, score: Option<Score>)
    ensures ToRecord(id, NotePoint(text, id, vector).payload, score) == Record(id, text, id, score)
  {
  }

  // ---------------------------------------------------------------------------
  // The point table: upsert replaces by id, delete of an absent id is a no-op.

  /** The table after upserting `p` under `id`. */
  function Upsert(points: map<int, Point>, id: int, p: Point): (r: map<int, Point>)
    ensures id in r && r[id] == p
    ensures r.Keys == points.Keys + {id}
    ensures forall k :: k in points && k != id ==> r[k] == points[k]
  {
    points[id := p]
  }

  /** The table after deleting the point `id`, present or not. */
  function Remove(points: map<int, Point>, id: int): (r: map<int, Point>)
    ensures id !in r
    ensures r.Keys == points.Keys - {id}
    ensures forall k :: k in r ==> r[k] == points[k]
    ensures id !in points ==> r == points
  {
    points - {id}
  }

  /** Deleting a freshly added note gives back the table as it was. */
  lemma RemoveUndoesUpsert(points: map<int, Point>, id: int, p: Point)
    requires id !in points
    ensures Remove(Upsert(points, id, p), id) == points
  {
  }

  // ---------------------------------------------------------------------------
  // Newest-first ordering, as `result.sort(key=created_at, reverse=True)`.

  /** Entries appear in non-increasing order of `created_at`. */
  ghost predicate NewestFirst(rs: seq<Record>)
  {
    forall i, j :: 0 <= i < j < |rs| ==> rs[i].createdAt >= rs[j].createdAt
  }

  /** The entries whose `created_at` is `t`, in the order they appear in `rs`. */
  function WithCreatedAt(rs: seq<Record>, t: int): seq<Record>
  {
    if rs == [] then []
    else WithCreatedAt(rs[..|rs| - 1], t) + (if rs[|rs| - 1].createdAt == t then [rs[|rs| - 1]] else [])
  }

  /** Every run of entries sharing a `created_at` is the same in `a` and `b`. */
  ghost predicate SameRuns(a: seq<Record>, b: seq<Record>)
  {
    forall t :: WithCreatedAt(a, t) == WithCreatedAt(b, t)
  }

  /**
   * `sorted` is what a stable descending sort by `created_at` makes of `rs`:
   * newest first, and entries sharing a `created_at` keep their relative order.
   */
  ghost predicate StablyNewestFirst(sorted: seq<Record>, rs: seq<Record>)
  {
    NewestFirst(sorted) && SameRuns(sorted, rs)
  }

  lemma {:induction false} WithCreatedAtConcat(a: seq<Record>, b: seq<Record>, t: int)
    ensures WithCreatedAt(a + b, t) == WithCreatedAt(a, t) + WithCreatedAt(b, t)
    decreases |b|
  {
    if b == [] {
      assert a + b == a;
    } else {
      var b' := b[..|b| - 1];
      assert (a + b)[..|a + b| - 1] == a + b';
      WithCreatedAtConcat(a, b', t);
    }
  }

  lemma {:induction false} WithCreatedAtNone(rs: seq<Record>, t: int)
    requires forall i :: 0 <= i < |rs| ==> rs[i].createdAt != t
    ensures WithCreatedAt(rs, t) == []
  {
    if rs != [] {
      WithCreatedAtNone(rs[..|rs| - 1], t);
    }
  }

  lemma {:induction false} WithCreatedAtMember(rs: seq<Record>, t: int, x: Record)
    requires x in WithCreatedAt(rs, t)
    ensures x in rs && x.createdAt == t
  {
    if rs != [] {
      var rs' := rs[..|rs| - 1];
      if x in WithCreatedAt(rs', t) {
        WithCreatedAtMember(rs', t, x);
        assert rs == rs' + [rs[|rs| - 1]];
      }
    }
  }

  lemma {:induction false} WithCreatedAtHas(rs: seq<Record>, i: int)
    requires 0 <= i < |rs|
    ensures rs[i] in WithCreatedAt(rs, rs[i].createdAt)
  {
    var rs' := rs[..|rs| - 1];
    if i < |rs| - 1 {
      WithCreatedAtHas(rs', i);
    }
  }

  /** The run of `t` holds exactly the entries of `rs` whose `created_at` is `t`. */
  lemma WithCreatedAtFilters(rs: seq<Record>, t: int)
    ensures forall x :: x in WithCreatedAt(rs, t) <==> x in rs && x.createdAt == t
  {
    forall x | x in WithCreatedAt(rs, t)
      ensures x in rs && x.createdAt == t
    {
      WithCreatedAtMember(rs, t, x);
    }
    forall i | 0 <= i < |rs| && rs[i].createdAt == t
      ensures rs[i] in WithCreatedAt(rs, t)
    {
      WithCreatedAtHas(rs, i);
    }
  }

  /** Ids strictly increase along `rs`. */
  ghost predicate AscendingIds(rs: seq<Record>)
  {
    forall i, j :: 0 <= i < j < |rs| ==> rs[i].id < rs[j].id
  }

  /** Entries sharing a `created_at` appear in ascending id order. */
  ghost predicate TiesByAscendingId(rs: seq<Record>)
  {
    forall i, j :: 0 <= i < j < |rs| && rs[i].createdAt == rs[j].createdAt ==> rs[i].id < rs[j].id
  }

  /** Each run of an id-ascending sequence is id-ascending too. */
  lemma {:induction false} RunKeepsAscendingIds(rs: seq<Record>, t: int)
    requires AscendingIds(rs)
    ensures AscendingIds(WithCreatedAt(rs, t))
  {
    if rs != [] {
      var rs', last := rs[..|rs| - 1], rs[|rs| - 1];
      assert AscendingIds(rs') by {
        forall i, j | 0 <= i < j < |rs'| ensures rs'[i].id < rs'[j].id {
          assert rs'[i] == rs[i] && rs'[j] == rs[j];
        }
      }
      RunKeepsAscendingIds(rs', t);
      var run' := WithCreatedAt(rs', t);
      if last.createdAt == t {
        forall x | x in run' ensures x.id < last.id {
          WithCreatedAtMember(rs', t, x);
          var i :| 0 <= i < |rs'| && rs'[i] == x;
          assert rs[i] == x;
        }
        var run := run' + [last];
        forall i, j | 0 <= i < j < |run| ensures run[i].id < run[j].id {
          assert run[i] == run'[i] && run'[i] in run';
          if j < |run'| { assert run[j] == run'[j]; }
        }
      }
    }
  }

  /** Dropping the last entry keeps every run id-ascending: each shrinks to a prefix. */
  lemma DropLastKeepsAscendingRuns(rs: seq<Record>, t: int)
    requires rs != [] && AscendingIds(WithCreatedAt(rs, t))
    ensures AscendingIds(WithCreatedAt(rs[..|rs| - 1], t))
  {
    DropLastRuns(rs, t);
    var run, run' := WithCreatedAt(rs, t), WithCreatedAt(rs[..|rs| - 1], t);
    forall i, j | 0 <= i < j < |run'| ensures run'[i].id < run'[j].id {
      assert run'[i] == run[i] && run'[j] == run[j];
    }
  }

  /** When every run is id-ascending, entries sharing a `created_at` are in ascending id order. */
  lemma {:induction false} AscendingRunsGiveTies(rs: seq<Record>)
    requires forall t :: AscendingIds(WithCreatedAt(rs, t))
    ensures TiesByAscendingId(rs)
  {
    if rs != [] {
      var rs', last := rs[..|rs| - 1], rs[|rs| - 1];
      forall t ensures AscendingIds(WithCreatedAt(rs', t)) {
        DropLastKeepsAscendingRuns(rs, t);
      }
      AscendingRunsGiveTies(rs');
      forall i, j | 0 <= i < j < |rs| && rs[i].createdAt == rs[j].createdAt
        ensures rs[i].id < rs[j].id
      {
        if j < |rs| - 1 {
          assert rs[i] == rs'[i] && rs[j] == rs'[j];
        } else {
          var t := last.createdAt;
          DropLastRuns(rs, t);
          var run' := WithCreatedAt(rs', t);
          WithCreatedAtHas(rs', i);
          var p :| 0 <= p < |run'| && run'[p] == rs'[i];
          var run := run' + [last];
          assert run[p] == rs[i] && run[|run'|] == last;
        }
      }
    }
  }

  /**
   * A stable newest-first ordering of an id-ascending sequence breaks ties
   * in `created_at` by ascending id.
   */
  lemma StableSortOfAscendingIds(rs: seq<Record>, sorted: seq<Record>)
    requires AscendingIds(rs) && SameRuns(sorted, rs)
    ensures TiesByAscendingId(sorted)
  {
    forall t ensures AscendingIds(WithCreatedAt(sorted, t)) {
      RunKeepsAscendingIds(rs, t);
    }
    AscendingRunsGiveTies(sorted);
  }

  lemma DropLastNewestFirst(rs: seq<Record>)
    requires rs != [] && NewestFirst(rs)
    ensures NewestFirst(rs[..|rs| - 1])
  {
  }

  /** The last entry of a newest-first sequence is one of its oldest. */
  lemma LastIsOldest(rs: seq<Record>, i: int)
    requires NewestFirst(rs) && 0 <= i < |rs|
    ensures rs[|rs| - 1].createdAt <= rs[i].createdAt
  {
  }

  /** Two sequences with the same runs per `created_at` hold the same keys. */
  lemma {:induction false} SameRunsSameKey(a: seq<Record>, b: seq<Record>, i: int)
    requires SameRuns(a, b)
    requires 0 <= i < |a|
    ensures exists j :: 0 <= j < |b| && b[j] == a[i]
  {
    WithCreatedAtHas(a, i);
    assert a[i] in WithCreatedAt(b, a[i].createdAt);
    WithCreatedAtMember(b, a[i].createdAt, a[i]);
  }

  lemma {:induction false} SameRunsSameLastKey(a: seq<Record>, b: seq<Record>)
    requires NewestFirst(a) && NewestFirst(b) && a != [] && b != []
    requires SameRuns(a, b)
    ensures a[|a| - 1].createdAt == b[|b| - 1].createdAt
  {
    SameRunsSameKey(a, b, |a| - 1);
    var j :| 0 <= j < |b| && b[j] == a[|a| - 1];
    LastIsOldest(b, j);
    SameRunsSameKey(b, a, |b| - 1);
    var i :| 0 <= i < |a| && a[i] == b[|b| - 1];
    LastIsOldest(a, i);
  }

  /** Dropping the last entry shortens only the run of that entry's `created_at`. */
  lemma DropLastRuns(rs: seq<Record>, t: int)
    requires rs != []
    ensures rs[|rs| - 1].createdAt == t ==>
      WithCreatedAt(rs, t) == WithCreatedAt(rs[..|rs| - 1], t) + [rs[|rs| - 1]]
    ensures rs[|rs| - 1].createdAt != t ==>
      WithCreatedAt(rs, t) == WithCreatedAt(rs[..|rs| - 1], t)
  {
  }

  lemma {:induction false} SameRunsDropLast(a: seq<Record>, b: seq<Record>)
    requires NewestFirst(a) && NewestFirst(b) && a != [] && b != []
    requires SameRuns(a, b)
    ensures a[|a| - 1] == b[|b| - 1]
    ensures SameRuns(a[..|a| - 1], b[..|b| - 1])
  {
    SameRunsSameLastKey(a, b);
    var k := a[|a| - 1].createdAt;
    DropLastRuns(a, k);
    DropLastRuns(b, k);
    var a', b' := a[..|a| - 1], b[..|b| - 1];
    var run := WithCreatedAt(a, k);
    assert run == WithCreatedAt(b, k);
    assert run[|run| - 1] == a[|a| - 1] && run[|run| - 1] == b[|b| - 1];
    forall t
      ensures WithCreatedAt(a', t) == WithCreatedAt(b', t)
    {
      DropLastRuns(a, t);
      DropLastRuns(b, t);
      assert WithCreatedAt(a, t) == WithCreatedAt(b, t);
      if t == k {
        assert WithCreatedAt(a', t) == run[..|run| - 1];
        assert WithCreatedAt(b', t) == run[..|run| - 1];
      }
    }
  }

  lemma NonEmptyHasRun(rs: seq<Record>)
    requires rs != []
    ensures WithCreatedAt(rs, rs[|rs| - 1].createdAt) != []
  {
    DropLastRuns(rs, rs[|rs| - 1].createdAt);
  }

  /**
   * The ordering is determined: two stable newest-first orderings of the
   * same entries are the same sequence, so the listing is exactly what
   * Python's stable sort produces, whatever algorithm produces it.
   */
  lemma {:induction false} StableOrderIsUnique(a: seq<Record>, b: seq<Record>)
    requires NewestFirst(a) && NewestFirst(b)
    requires SameRuns(a, b)
    ensures a == b
    decreases |a|
  {
    if a == [] || b == [] {
      if a != [] {
        NonEmptyHasRun(a);
      } else if b != [] {
        NonEmptyHasRun(b);
      }
    } else {
      SameRunsDropLast(a, b);
      DropLastNewestFirst(a);
      DropLastNewestFirst(b);
      StableOrderIsUnique(a[..|a| - 1], b[..|b| - 1]);
      assert a == a[..|a| - 1] + [a[|a| - 1]];
      assert b == b[..|b| - 1] + [b[|b| - 1]];
    }
  }

  lemma WithCreatedAtSingle(r: Record, t: int)
    ensures WithCreatedAt([r], t) == (if r.createdAt == t then [r] else [])
  {
    assert [r][..0] == [];
  }

  /** Putting `r` ahead of entries strictly older than it leaves every run as if `r` came last. */
  lemma {:induction false} InsertRuns(before: seq<Record>, after: seq<Record>, r: Record, t: int)
    requires forall k :: 0 <= k < |after| ==> after[k].createdAt < r.createdAt
    ensures WithCreatedAt(before + [r] + after, t) == WithCreatedAt(before + after + [r], t)
  {
    var b, a, one := WithCreatedAt(before, t), WithCreatedAt(after, t), WithCreatedAt([r], t);
    WithCreatedAtConcat(before + [r], after, t);
    WithCreatedAtConcat(before, [r], t);
    assert WithCreatedAt(before + [r] + after, t) == b + one + a;
    WithCreatedAtConcat(before + after, [r], t);
    WithCreatedAtConcat(before, after, t);
    assert WithCreatedAt(before + after + [r], t) == b + a + one;
    WithCreatedAtSingle(r, t);
    if t == r.createdAt {
      WithCreatedAtNone(after, t);
      assert a == [];
    } else {
      assert one == [];
    }
  }

  lemma InsertSorted(before: seq<Record>, after: seq<Record>, r: Record)
    requires NewestFirst(before + after)
    requires forall k :: 0 <= k < |before| ==> before[k].createdAt >= r.createdAt
    requires forall k :: 0 <= k < |after| ==> after[k].createdAt < r.createdAt
    ensures NewestFirst(before + [r] + after)
  {
    var s, res := before + after, before + [r] + after;
    forall i, j | 0 <= i < j < |res|
      ensures res[i].createdAt >= res[j].createdAt
    {
      if j < |before| {
        assert res[i] == s[i] && res[j] == s[j];
      } else if i > |before| {
        assert res[i] == s[i - 1] && res[j] == s[j - 1];
      } else if i < |before| {
        assert res[i] == before[i];
        if j == |before| {
        } else {
          assert res[j] == after[j - |before| - 1];
        }
      } else {
        assert res[j] == after[j - |before| - 1];
      }
    }
  }

  /**
   * Inserts `r` into the newest-first `sorted` after every entry at least as
   * new as `r`, which is where a stable sort puts an entry seen last.
   */
  method InsertNewestFirst(sorted: seq<Record>, r: Record) returns (res: seq<Record>)
    requires NewestFirst(sorted)
    ensures NewestFirst(res)
    ensures multiset(res) == multiset(sorted) + multiset{r}
    ensures SameRuns(res, sorted + [r])
  {
    var p := 0;
    while p < |sorted| && sorted[p].createdAt >= r.createdAt
      invariant 0 <= p <= |sorted|
      invariant forall k :: 0 <= k < p ==> sorted[k].createdAt >= r.createdAt
    {
      p := p + 1;
    }
    var before, after := sorted[..p], sorted[p..];
    assert sorted == before + after;
    forall k | 0 <= k < |after|
      ensures after[k].createdAt < r.createdAt
    {
      assert after[k] == sorted[p + k];
    }
    InsertSorted(before, after, r);
    res := before + [r] + after;
    forall t
      ensures WithCreatedAt(res, t) == WithCreatedAt(sorted + [r], t)
    {
      InsertRuns(before, after, r, t);
    }
  }

  /**
   * `result.sort(key=lambda x: x["created_at"], reverse=True)`: a stable
   * newest-first ordering of `rs` that loses and duplicates nothing.
   */
  method SortNewestFirst(rs: seq<Record>) returns (sorted: seq<Record>)
    ensures StablyNewestFirst(sorted, rs)
    ensures multiset(sorted) == multiset(rs)
  {
    sorted := [];
    var i := 0;
    while i < |rs|
      invariant 0 <= i <= |rs|
      invariant NewestFirst(sorted)
      invariant multiset(sorted) == multiset(rs[..i])
      invariant SameRuns(sorted, rs[..i])
    {
      assert rs[..i + 1] == rs[..i] + [rs[i]];
      sorted := InsertNewestFirst(sorted, rs[i]);
      forall t
        ensures WithCreatedAt(sorted, t) == WithCreatedAt(rs[..i + 1], t)
      {
        WithCreatedAtConcat(rs[..i], [rs[i]], t);
      }
      i := i + 1;
    }
    assert rs[..i] == rs;
  }

  // ---------------------------------------------------------------------------
  // The two loops that turn store answers into listing entries.

  /** Scroll path: one entry per scrolled point, in order, with `score = None`. */
  method RecordsFromScroll(page: seq<StoredPoint>) returns (rs: seq<Record>)
    ensures |rs| == |page|
    ensures forall i :: 0 <= i < |page| ==> rs[i] == ToRecord(page[i].id, page[i].payload, None)
  {
    rs := [];
    for i := 0 to |page|
      invariant |rs| == i
      invariant forall k :: 0 <= k < i ==> rs[k] == ToRecord(page[k].id, page[k].payload, None)
    {
      rs := rs + [ToRecord(page[i].id, page[i].payload, None)];
    }
  }

  /** Search path: one entry per hit, in the store's ranking order, carrying the hit's score. */
  method RecordsFromSearch(hits: seq<ScoredPoint>) returns (rs: seq<Record>)
    ensures |rs| == |hits|
    ensures forall i :: 0 <= i < |hits| ==> rs[i] == ToRecord(hits[i].id, hits[i].payload, Some(hits[i].score))
  {
    rs := [];
    for i := 0 to |hits|
      invariant |rs| == i
      invariant forall k :: 0 <= k < i ==> rs[k] == ToRecord(hits[k].id, hits[k].payload, Some(hits[k].score))
    {
      rs := rs + [ToRecord(hits[i].id, hits[i].payload, Some(hits[i].score))];
    }
  }
}
