/**
 * A JavaScript `Set` iterates in insertion order, so the model keeps one as
 * a sequence without duplicates; adding a member already present is a no-op.
 */
module Sets {

  /** No element occurs twice in s. */
  predicate NoDup<T(==)>(s: seq<T>) {
    forall i, j :: 0 <= i < j < |s| ==> s[i] != s[j]
  }

  /** The members of a sequence, as a set. */
  function Elems<T>(s: seq<T>): set<T> {
    set x | x in s
  }

  /** `Set.prototype.add`: appends x unless it is already a member. */
  function Add<T(==,!new)>(s: seq<T>, x: T): (r: seq<T>)
    ensures forall y :: y in r <==> y in s || y == x
    ensures NoDup(s) ==> NoDup(r)
    ensures x in s ==> r == s
    ensures |s| <= |r| && r[..|s|] == s
  {
    if x in s then s else s + [x]
  }

  /** A non-empty sequence is its head followed by its tail. */
  lemma HeadTail<T>(s: seq<T>)
    requires |s| > 0
    ensures s == [s[0]] + s[1..]
  {
  }

  /** Marking a not-yet-visited member of U as visited shrinks what is left of U. */
  lemma VisitShrinks<T>(U: set<T>, visited: set<T>, f: T)
    requires f in U && f !in visited
    ensures |U - (visited + {f})| < |U - visited|
  {
    assert U - visited == (U - (visited + {f})) + {f};
  }
}
