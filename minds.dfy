/**
 * The note ("mind") record of the MindBox backend and the pure functions that
 * say what listing, creating and deleting do to the collection of notes.
 * The class in store.dfy changes its collection only through these functions.
 */
module Minds {

  /** Largest value of the `u32` the backend stores ids in. */
  const U32_MAX: nat := 0xFFFF_FFFF

  /** An id as the backend stores it: an unsigned 32-bit integer. */
  type U32 = n: nat | n <= U32_MAX

  /** Nanoseconds within a second; chrono keeps them below 2e9, the second half representing a leap second. */
  type Nanos = n: nat | n < 2_000_000_000

  /** A UTC instant: whole seconds since the Unix epoch and a sub-second part. */
  datatype Timestamp = Timestamp(seconds: int, nanos: Nanos)

  /** One note: its id, its publish time and its text. */
  datatype Mind = Mind(id: U32, publishTime: Timestamp, content: string)

  /** What a create request yields: the stored note, or the failure of `max_id + 1`. */
  datatype CreateResult = Created(mind: Mind) | IdOverflow

  /** No two notes of `s` share an id. */
  ghost predicate UniqueIds(s: seq<Mind>)
  {
    forall i, j :: 0 <= i < j < |s| ==> s[i].id != s[j].id
  }

  /** Every note of `s` was published at a whole second. */
  ghost predicate WholeSeconds(s: seq<Mind>)
  {
    forall i :: 0 <= i < |s| ==> s[i].publishTime.nanos == 0
  }

  /** Some note of `s` has id `id`. */
  ghost predicate HasId(s: seq<Mind>, id: U32)
  {
    exists i :: 0 <= i < |s| && s[i].id == id
  }

  /** `a` is `b` with some of its elements dropped, the rest kept in order. */
  ghost predicate IsSubsequence(a: seq<Mind>, b: seq<Mind>)
    decreases |b|
  {
    if a == [] then true
    else if b == [] then false
    else (a[0] == b[0] && IsSubsequence(a[1..], b[1..])) || IsSubsequence(a, b[1..])
  }

  /** The largest id in `s`, or 0 when `s` is empty. */
  function MaxId(s: seq<Mind>): (m: U32)
    ensures forall i :: 0 <= i < |s| ==> s[i].id <= m
    ensures s == [] ==> m == 0
    ensures s != [] ==> exists i :: 0 <= i < |s| && s[i].id == m
  {
    if s == [] then 0
    else
      var rest := MaxId(s[1..]);
      if s[0].id >= rest then s[0].id else rest
  }

  /** The same instant with its sub-second part set to zero. */
  function WithNanosecondZero(t: Timestamp): (r: Timestamp)
  {
    Timestamp(t.seconds, 0)
  }

  /**
   * The note a create request with text `content` at clock reading `now`
   * makes for the collection `s`: id one more than the largest present id
   * (1 for an empty collection), the publish time cut to whole seconds.
   * When the largest id is already the largest `u32`, the addition fails.
   */
  function NewMind(s: seq<Mind>, content: string, now: Timestamp): (r: CreateResult)
    ensures r.Created? <==> MaxId(s) < U32_MAX
    ensures s == [] ==> r == Created(Mind(1, Timestamp(now.seconds, 0), content))
    ensures r.Created? ==> r.mind.id == MaxId(s) + 1
    ensures r.Created? ==> forall i :: 0 <= i < |s| ==> s[i].id < r.mind.id
    ensures r.Created? ==> r.mind.content == content
    ensures r.Created? ==> r.mind.publishTime.seconds == now.seconds && r.mind.publishTime.nanos == 0
  {
    var maxId := MaxId(s);
    if maxId < U32_MAX then Created(Mind(maxId + 1, WithNanosecondZero(now), content))
    else IdOverflow
  }

  /** The collection after a create request: the new note appended, or unchanged on failure. */
  function AfterCreate(s: seq<Mind>, content: string, now: Timestamp): (r: seq<Mind>)
  {
    match NewMind(s, content, now)
    case Created(m) => s + [m]
    case IdOverflow => s
  }

  /** The notes of `s` whose id is not `id`, in their order in `s`; what `retain` keeps. */
  function Without(s: seq<Mind>, id: U32): (r: seq<Mind>)
  {
    if s == [] then []
    else if s[0].id != id then [s[0]] + Without(s[1..], id)
    else Without(s[1..], id)
  }

  // ---------------------------------------------------------------------
  // Create

  /** Create appends exactly the note it returns after the unchanged old notes. */
  lemma CreateAppendsReturned(s: seq<Mind>, content: string, now: Timestamp)
    ensures NewMind(s, content, now).Created? ==>
      |AfterCreate(s, content, now)| == |s| + 1 &&
      AfterCreate(s, content, now)[..|s|] == s &&
      AfterCreate(s, content, now)[|s|] == NewMind(s, content, now).mind
    ensures NewMind(s, content, now).IdOverflow? ==> AfterCreate(s, content, now) == s
  {
  }

  /** Create keeps ids unique, because the new id exceeds every present one. */
  lemma CreatePreservesUniqueIds(s: seq<Mind>, content: string, now: Timestamp)
    requires UniqueIds(s)
    ensures UniqueIds(AfterCreate(s, content, now))
  {
  }

  /** Create keeps every note's publish time at a whole second. */
  lemma CreatePreservesWholeSeconds(s: seq<Mind>, content: string, now: Timestamp)
    requires WholeSeconds(s)
    ensures WholeSeconds(AfterCreate(s, content, now))
  {
  }

  /**
   * After a successful create the returned note occurs exactly once in the
   * collection, and no other note carries its id.
   */
  lemma CreatedOccursOnce(s: seq<Mind>, content: string, now: Timestamp)
    requires NewMind(s, content, now).Created?
    ensures multiset(AfterCreate(s, content, now))[NewMind(s, content, now).mind] == 1
    ensures forall i :: 0 <= i < |s| ==> AfterCreate(s, content, now)[i].id != NewMind(s, content, now).mind.id
  {
  }

  // ---------------------------------------------------------------------
  // Delete

  /** Delete keeps exactly the notes whose id differs, as many times as they occurred. */
  lemma {:induction false} WithoutCounts(s: seq<Mind>, id: U32)
    ensures forall m :: multiset(Without(s, id))[m] == if m.id == id then 0 else multiset(s)[m]
  {
    if s != [] {
      WithoutCounts(s[1..], id);
      assert s == [s[0]] + s[1..];
      assert multiset(s) == multiset{s[0]} + multiset(s[1..]);
      if s[0].id != id {
        assert multiset(Without(s, id)) == multiset{s[0]} + multiset(Without(s[1..], id));
      }
    }
  }

  /** A note is kept by delete exactly when it was present and has another id. */
  lemma WithoutMembers(s: seq<Mind>, id: U32)
    ensures forall m :: m in Without(s, id) <==> m in s && m.id != id
  {
    WithoutCounts(s, id);
    forall m ensures m in Without(s, id) <==> m in s && m.id != id {
      assert m in Without(s, id) <==> multiset(Without(s, id))[m] > 0;
      assert m in s <==> multiset(s)[m] > 0;
    }
  }

  /** Delete keeps the survivors in their original relative order. */
  lemma {:induction false} WithoutIsSubsequence(s: seq<Mind>, id: U32)
    ensures IsSubsequence(Without(s, id), s)
  {
    if s != [] {
      WithoutIsSubsequence(s[1..], id);
      if s[0].id != id {
        assert Without(s, id)[1..] == Without(s[1..], id);
      } else {
        var w := Without(s, id);
        assert w == Without(s[1..], id);
        if w != [] {
          assert IsSubsequence(w, s[1..]);
        }
      }
    }
  }

  /** Every element of a subsequence is an element of the whole. */
  lemma {:induction false} SubsequenceMembers(a: seq<Mind>, b: seq<Mind>)
    requires IsSubsequence(a, b)
    ensures forall m :: m in a ==> m in b
    decreases |b|
  {
    if a != [] {
      assert b != [];
      if a[0] == b[0] && IsSubsequence(a[1..], b[1..]) {
        SubsequenceMembers(a[1..], b[1..]);
        assert forall m :: m in a ==> m == a[0] || m in a[1..];
        assert forall m :: m in b[1..] ==> m in b;
      } else {
        SubsequenceMembers(a, b[1..]);
        assert forall m :: m in b[1..] ==> m in b;
      }
    }
  }

  /** A subsequence of a collection with unique ids has unique ids. */
  lemma {:induction false} SubsequencePreservesUniqueIds(a: seq<Mind>, b: seq<Mind>)
    requires IsSubsequence(a, b)
    requires UniqueIds(b)
    ensures UniqueIds(a)
    decreases |b|
  {
    if a != [] {
      assert b != [];
      assert UniqueIds(b[1..]) by {
        forall i, j | 0 <= i < j < |b[1..]| ensures b[1..][i].id != b[1..][j].id {
          assert b[1..][i] == b[i + 1] && b[1..][j] == b[j + 1];
        }
      }
      if a[0] == b[0] && IsSubsequence(a[1..], b[1..]) {
        SubsequencePreservesUniqueIds(a[1..], b[1..]);
        SubsequenceMembers(a[1..], b[1..]);
        forall i, j | 0 <= i < j < |a| ensures a[i].id != a[j].id {
          if i == 0 {
            assert a[j] == a[1..][j - 1];
            assert a[j] in b[1..];
            var k :| 0 <= k < |b[1..]| && b[1..][k] == a[j];
            assert b[k + 1] == a[j];
          } else {
            assert a[i] == a[1..][i - 1] && a[j] == a[1..][j - 1];
          }
        }
      } else {
        SubsequencePreservesUniqueIds(a, b[1..]);
      }
    }
  }

  /** Delete keeps ids unique. */
  lemma WithoutPreservesUniqueIds(s: seq<Mind>, id: U32)
    requires UniqueIds(s)
    ensures UniqueIds(Without(s, id))
  {
    WithoutIsSubsequence(s, id);
    SubsequencePreservesUniqueIds(Without(s, id), s);
  }

  /** Delete keeps every remaining note's publish time at a whole second. */
  lemma {:induction false} WithoutPreservesWholeSeconds(s: seq<Mind>, id: U32)
    requires WholeSeconds(s)
    ensures WholeSeconds(Without(s, id))
  {
    WithoutMembers(s, id);
    var w := Without(s, id);
    forall i | 0 <= i < |w| ensures w[i].publishTime.nanos == 0 {
      assert w[i] in s;
    }
  }

  /** Deleting an id no note carries leaves the collection as it was. */
  lemma {:induction false} WithoutAbsent(s: seq<Mind>, id: U32)
    requires !HasId(s, id)
    ensures Without(s, id) == s
  {
    if s != [] {
      assert s[0].id != id;
      WithoutAbsent(s[1..], id);
      assert s == [s[0]] + s[1..];
    }
  }

  /** After a delete no note carries the deleted id. */
  lemma {:induction false} WithoutRemovesId(s: seq<Mind>, id: U32)
    ensures !HasId(Without(s, id), id)
  {
    WithoutMembers(s, id);
  }

  /** Deleting the same id twice gives what deleting it once gives. */
  lemma WithoutIdempotent(s: seq<Mind>, id: U32)
    ensures Without(Without(s, id), id) == Without(s, id)
  {
    WithoutRemovesId(s, id);
    WithoutAbsent(Without(s, id), id);
  }

  /** With unique ids, a delete removes one note when the id is present and none otherwise. */
  lemma {:induction false} WithoutLength(s: seq<Mind>, id: U32)
    requires UniqueIds(s)
    ensures |Without(s, id)| == if HasId(s, id) then |s| - 1 else |s|
  {
    if s != [] {
      assert UniqueIds(s[1..]) by {
        forall i, j | 0 <= i < j < |s[1..]| ensures s[1..][i].id != s[1..][j].id {
          assert s[1..][i] == s[i + 1] && s[1..][j] == s[j + 1];
        }
      }
      assert HasId(s, id) <==> s[0].id == id || HasId(s[1..], id) by {
        if HasId(s, id) && s[0].id != id {
          var i :| 0 <= i < |s| && s[i].id == id;
          assert s[1..][i - 1].id == id;
        }
        if HasId(s[1..], id) {
          var i :| 0 <= i < |s[1..]| && s[1..][i].id == id;
          assert s[i + 1].id == id;
        }
      }
      if s[0].id == id {
        WithoutAbsent(s[1..], id);
      } else {
        WithoutLength(s[1..], id);
      }
    }
  }
}
