/** The record store both screens keep: an array of records keyed by an
    integer `id`, edited only by the form and the delete button. Records are
    generic here; `idOf` reads a record's id. */
module Store {
  import opened Seqs

  /** What a submit of the form returns: saved, or refused by the
      required-field check (the source shows an `alert`). */
  datatype Outcome = Saved | ValidationError

  /** The form's state machine: the modal is closed, open on a new record,
      or open on the record with the given id. */
  datatype FormMode = Closed | Creating | Editing(id: int)

  function Ids<T>(s: seq<T>, idOf: T -> int): (r: seq<int>)
    ensures |r| == |s|
  {
    seq(|s|, i requires 0 <= i < |s| => idOf(s[i]))
  }

  ghost predicate DistinctIds<T>(s: seq<T>, idOf: T -> int)
  {
    forall i, j :: 0 <= i < j < |s| ==> idOf(s[i]) != idOf(s[j])
  }

  /** `records.filter(r => r.id !== id)`. */
  function RemoveById<T>(s: seq<T>, idOf: T -> int, id: int): seq<T>
  {
    Filter(s, x => idOf(x) != id)
  }

  /** Delete removes exactly the records carrying `id`, as many times as they
      occur, keeps every other record in its order, and changes nothing when
      no record carries `id`. */
  lemma RemoveByIdSpec<T>(s: seq<T>, idOf: T -> int, id: int)
    ensures IsSubsequence(RemoveById(s, idOf, id), s)
    ensures forall x :: x in RemoveById(s, idOf, id) <==> x in s && idOf(x) != id
    ensures forall x :: multiset(RemoveById(s, idOf, id))[x] == if idOf(x) == id then 0 else multiset(s)[x]
    ensures id !in Ids(s, idOf) ==> RemoveById(s, idOf, id) == s
  {
    FilterSpec(s, x => idOf(x) != id);
    if id !in Ids(s, idOf) {
      forall i | 0 <= i < |s|
        ensures idOf(s[i]) != id
      {
        assert Ids(s, idOf)[i] == idOf(s[i]);
      }
      FilterAll(s, x => idOf(x) != id);
    }
  }

  /** Removing records keeps ids distinct when they were. */
  lemma {:induction false} FilterKeepsDistinctIds<T>(s: seq<T>, idOf: T -> int, p: T -> bool)
    requires DistinctIds(s, idOf)
    ensures DistinctIds(Filter(s, p), idOf)
  {
    if s != [] {
      FilterKeepsDistinctIds(s[1..], idOf, p);
      if p(s[0]) {
        var f := Filter(s[1..], p);
        FilterElements(s[1..], p);
        forall j | 0 <= j < |f|
          ensures idOf(s[0]) != idOf(f[j])
        {
          var k :| 0 <= k < |s[1..]| && s[1..][k] == f[j];
          assert s[k + 1] == f[j];
        }
        assert Filter(s, p) == [s[0]] + f;
      }
    }
  }

  /** `records.map(r => r.id === id ? rec : r)`. */
  function ReplaceById<T>(s: seq<T>, idOf: T -> int, id: int, rec: T): seq<T>
  {
    if s == [] then []
    else [if idOf(s[0]) == id then rec else s[0]] + ReplaceById(s[1..], idOf, id, rec)
  }

  /** Replacement keeps the length, puts `rec` at every position whose record
      carries `id`, and leaves every other position alone. */
  lemma {:induction false} ReplaceByIdSpec<T>(s: seq<T>, idOf: T -> int, id: int, rec: T)
    ensures |ReplaceById(s, idOf, id, rec)| == |s|
    ensures forall i :: 0 <= i < |s| && idOf(s[i]) == id ==> ReplaceById(s, idOf, id, rec)[i] == rec
    ensures forall i :: 0 <= i < |s| && idOf(s[i]) != id ==> ReplaceById(s, idOf, id, rec)[i] == s[i]
  {
    if s != [] {
      ReplaceByIdSpec(s[1..], idOf, id, rec);
    }
  }

  /** A replacement that carries the id it replaces leaves the ids as they
      were, so distinct ids stay distinct. */
  lemma ReplaceKeepsIds<T>(s: seq<T>, idOf: T -> int, id: int, rec: T)
    requires idOf(rec) == id
    ensures Ids(ReplaceById(s, idOf, id, rec), idOf) == Ids(s, idOf)
  {
    ReplaceByIdSpec(s, idOf, id, rec);
  }

  /** The id a new record receives: one more than the current length. */
  function NextId<T>(s: seq<T>): int
  {
    |s| + 1
  }

  /** The new id is fresh as long as every id lies in 1..length; after a
      delete from the middle that no longer holds and the id can repeat. */
  lemma NextIdFresh<T>(s: seq<T>, idOf: T -> int)
    requires forall i :: 0 <= i < |s| ==> 1 <= idOf(s[i]) <= |s|
    ensures NextId(s) !in Ids(s, idOf)
  {
  }
}
