/**
 * The comparison of two snapshots in `compare_and_report_differences`: both
 * are turned into sets of posts (the set of their JSON encodings, which for a
 * `{title, url}` record is equality on both fields) and subtracted both ways.
 */
module Differ {
  import opened Posts

  datatype Delta = Delta(added: set<Post>, removed: set<Post>)

  /**
   * The posts added to and removed from `oldData` to give `newData`. The two
   * sets are disjoint, and patching the old set with them gives the new set.
   */
  function Diff(newData: seq<Post>, oldData: seq<Post>): (d: Delta)
    ensures d.added !! d.removed
    ensures d.added <= Elems(newData) && d.removed <= Elems(oldData)
    ensures (Elems(oldData) - d.removed) + d.added == Elems(newData)
  {
    Delta(Elems(newData) - Elems(oldData), Elems(oldData) - Elems(newData))
  }

  /** Membership in both directions: added means new and not old, removed means old and not new. */
  lemma DiffMembers(newData: seq<Post>, oldData: seq<Post>, p: Post)
    ensures p in Diff(newData, oldData).added <==> p in newData && p !in oldData
    ensures p in Diff(newData, oldData).removed <==> p in oldData && p !in newData
  {
  }

  /** Swapping the snapshots swaps added and removed. */
  lemma DiffSwap(a: seq<Post>, b: seq<Post>)
    ensures Diff(a, b).added == Diff(b, a).removed
    ensures Diff(a, b).removed == Diff(b, a).added
  {
  }

  /** A snapshot compared with itself shows no change. */
  lemma DiffSelf(s: seq<Post>)
    ensures Diff(s, s) == Delta({}, {})
  {
  }

  /** Only the set of posts matters: duplicates and order inside a snapshot collapse. */
  lemma DiffIgnoresDuplicatesAndOrder(a: seq<Post>, a': seq<Post>, b: seq<Post>, b': seq<Post>)
    requires forall p :: p in a <==> p in a'
    requires forall p :: p in b <==> p in b'
    ensures Diff(a, b) == Diff(a', b')
  {
    assert Elems(a) == Elems(a');
    assert Elems(b) == Elems(b');
  }

  /** No change is reported exactly when both snapshots hold the same posts. */
  lemma NoChangeIffSamePosts(newData: seq<Post>, oldData: seq<Post>)
    ensures Diff(newData, oldData) == Delta({}, {}) <==> Elems(newData) == Elems(oldData)
  {
    var d := Diff(newData, oldData);
    if d == Delta({}, {}) {
      assert Elems(newData) == (Elems(oldData) - {}) + {};
    }
  }
}
