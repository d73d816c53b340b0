/**
 * The backend's shared state: the collection of notes that the list, create
 * and delete handlers read and change in place, seeded at start-up.
 */
module Store {
  import opened Minds

  /** The three notes the collection holds at start-up. */
  function Seed(): (s: seq<Mind>)
    ensures UniqueIds(s) && WholeSeconds(s)
    ensures |s| == 3 && s[0].id == 1 && s[1].id == 2 && s[2].id == 3
  {
    [
      // 2024-01-01T00:00:00Z
      Mind(1, Timestamp(1704067200, 0), "This is a test content."),
      // 2024-01-02T03:04:05Z
      Mind(2, Timestamp(1704164645, 0), "普普通通的第二段测试内容。"),
      // 2024-10-31T23:59:59Z
      Mind(3, Timestamp(1730419199, 0), "写点什么好呢？")
    ]
  }

  /** The state every handler shares: the notes in insertion order. */
  class AppState {
    var minds: seq<Mind>

    /**
     * Ids stay unique and every publish time is a whole second: the seed has
     * both properties and every operation keeps them.
     */
    ghost predicate Valid()
      reads this
    {
      UniqueIds(minds) && WholeSeconds(minds)
    }

    /** The state built at start-up, holding the seed notes. */
    constructor ()
      ensures Valid()
      ensures minds == Seed()
    {
      minds := Seed();
    }

    /** A copy of the whole collection, in order; nothing changes. */
    method List() returns (r: seq<Mind>)
      ensures r == minds
    {
      r := minds;
    }

    /**
     * Stores a note with text `content` published at `now` cut to whole
     * seconds, with id one above the largest present id, at the end of the
     * collection, and returns it. When that id does not fit a `u32`, the
     * request fails and the collection is left as it was.
     */
    method Create(content: string, now: Timestamp) returns (r: CreateResult)
      requires Valid()
      modifies this
      ensures Valid()
      ensures r == NewMind(old(minds), content, now)
      ensures minds == AfterCreate(old(minds), content, now)
      ensures r.Created? ==> minds == old(minds) + [r.mind] && r.mind.id == MaxId(old(minds)) + 1
      ensures r.IdOverflow? ==> minds == old(minds)
    {
      var maxId := MaxId(minds);
      if maxId < U32_MAX {
        var mind := Mind(maxId + 1, WithNanosecondZero(now), content);
        CreatePreservesUniqueIds(minds, content, now);
        CreatePreservesWholeSeconds(minds, content, now);
        minds := minds + [mind];
        r := Created(mind);
      } else {
        r := IdOverflow;
      }
    }

    /** Removes every note with id `id`, keeping the others in order; never fails. */
    method Delete(id: U32)
      requires Valid()
      modifies this
      ensures Valid()
      ensures minds == Without(old(minds), id)
      ensures IsSubsequence(minds, old(minds))
      ensures forall m :: m in minds <==> m in old(minds) && m.id != id
      ensures !HasId(old(minds), id) ==> minds == old(minds)
      ensures |minds| == if HasId(old(minds), id) then |old(minds)| - 1 else |old(minds)|
    {
      WithoutPreservesUniqueIds(minds, id);
      WithoutPreservesWholeSeconds(minds, id);
      WithoutIsSubsequence(minds, id);
      WithoutMembers(minds, id);
      WithoutLength(minds, id);
      if !HasId(minds, id) {
        WithoutAbsent(minds, id);
      }
      minds := Without(minds, id);
    }
  }

  /**
   * From the seeded state, deleting id 2 leaves ids 1 and 3, and the next
   * create still gets id 4: the counter follows the largest present id.
   */
  method SeededDeleteThenCreate(content: string, now: Timestamp)
    returns (afterDelete: seq<Mind>, created: CreateResult, afterCreate: seq<Mind>)
    ensures |afterDelete| == 2 && afterDelete[0].id == 1 && afterDelete[1].id == 3
    ensures created == Created(Mind(4, Timestamp(now.seconds, 0), content))
    ensures afterCreate == afterDelete + [created.mind]
  {
    var state := new AppState();
    state.Delete(2);
    afterDelete := state.List();
    assert afterDelete == [Seed()[0], Seed()[2]];
    created := state.Create(content, now);
    afterCreate := state.List();
  }

  /** Deleting an id the seed does not hold (999) changes nothing. */
  method SeededDeleteAbsent() returns (before: seq<Mind>, after: seq<Mind>)
    ensures before == Seed() && after == before
  {
    var state := new AppState();
    before := state.List();
    state.Delete(999);
    after := state.List();
  }

  /** Creating right after start-up gives id 4. */
  lemma SeedThenCreate(content: string, now: Timestamp)
    ensures NewMind(Seed(), content, now) == Created(Mind(4, Timestamp(now.seconds, 0), content))
  {
  }

  /**
   * Ids are unique only among present notes: deleting the highest id and
   * then creating hands out that id again.
   */
  lemma DeleteHighestThenCreateReusesId(content: string, now: Timestamp)
    ensures NewMind(Without(Seed(), 3), content, now).Created?
    ensures NewMind(Without(Seed(), 3), content, now).mind.id == 3
  {
  }
}
