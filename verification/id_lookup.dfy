/**
 * Finding a segment by its id. Both the review panel and the live buffer
 * look a segment up with `binary_search_by_key` on the segment ids, which
 * is correct because the id generator hands out increasing ids and
 * segments are appended in the order they are created.
 */
module IdLookup {
  import opened Common
  import opened Segment

  /** Segment ids strictly increase along the buffer. */
  predicate IdsAscending(b: seq<RichData>)
  {
    forall i, j | 0 <= i < j < |b| :: b[i].id < b[j].id
  }

  /** Comparing each segment's id with the key is a partition of an id-ordered buffer. */
  lemma IdOrderPartitions(b: seq<RichData>, id: int, f: RichData -> Ordering)
    requires IdsAscending(b)
    requires forall e :: f(e) == Cmp(e.id, id)
    ensures Partitioned(b, f)
  {
    forall i, j | 0 <= i < j < |b|
      ensures Rank(f(b[i])) <= Rank(f(b[j]))
    {
      assert b[i].id < b[j].id;
    }
  }

  /**
   * `binary_search_by_key(&id, |rd| rd.id)`: an `Ok` index always holds a
   * segment with that id; on an id-ordered buffer the search succeeds
   * exactly when some segment has the id, and that segment is the only
   * one.
   */
  method FindById(b: seq<RichData>, id: int) returns (r: Result<nat, nat>)
    ensures r.Ok? ==> r.value < |b| && b[r.value].id == id
    ensures IdsAscending(b) ==> (r.Ok? <==> exists i | 0 <= i < |b| :: b[i].id == id)
    ensures IdsAscending(b) && r.Ok? ==> forall j | 0 <= j < |b| && b[j].id == id :: j == r.value
  {
    var f := (e: RichData) => Cmp(e.id, id);
    if IdsAscending(b) {
      IdOrderPartitions(b, id, f);
    }
    r := BinarySearchBy(b, f);
    if IdsAscending(b) && r.Ok? {
      forall j | 0 <= j < |b| && b[j].id == id
        ensures j == r.value
      {
      }
    }
  }
}
