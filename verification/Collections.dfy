/** What several components say about sequences and sets. */
module Collections {
  datatype Option<T> = None | Some(value: T)

  function Elements(s: seq<nat>): set<nat> {
    set x | x in s
  }

  ghost predicate NoDuplicates(s: seq<nat>) {
    forall i, j :: 0 <= i < j < |s| ==> s[i] != s[j]
  }

  lemma {:induction false} SubsetSize(a: set<nat>, b: set<nat>)
    requires a <= b
    ensures |a| <= |b|
    ensures |a| == |b| <==> a == b
  {
    if a != {} {
      var x :| x in a;
      SubsetSize(a - {x}, b - {x});
      assert (a - {x}) + {x} == a && (b - {x}) + {x} == b;
    }
  }
}
