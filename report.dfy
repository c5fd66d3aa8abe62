/**
 * What `compare_and_report_differences` decides: the delta between the new
 * and the old snapshot, the order in which the added posts are listed (that
 * of iterating a Python set, so any order), and the message to send.
 */
module Report {
  import opened Posts
  import opened Differ
  import opened Notifier

  /** The messages sent for a listing of added posts: none if it is empty, otherwise exactly one. */
  function Outgoing(listed: seq<Post>): (out: seq<Message>)
    ensures |out| <= 1
    ensures out == [] <==> listed == []
    ensures out != [] ==> out[0].subject == Subject && out[0].body == Header + Lines(listed)
  {
    if listed == [] then [] else [Message(Subject, Header + Lines(listed))]
  }

  /** Lists the elements of a set, each exactly once, in an unspecified order. */
  method Enumerate(s: set<Post>) returns (listed: seq<Post>)
    ensures Elems(listed) == s
    ensures Distinct(listed)
  {
    listed := [];
    var rest := s;
    while rest != {}
      invariant rest <= s
      invariant Elems(listed) + rest == s
      invariant Elems(listed) !! rest
      invariant Distinct(listed)
      decreases |rest|
    {
      var p :| p in rest;
      listed := listed + [p];
      rest := rest - {p};
    }
  }

  /**
   * The delta of the two snapshots, the listing of the added posts, and the
   * message built from it: one message with the subject "New Posts Found"
   * exactly when some post was added, whose body lists every added post once
   * and nothing else; removed posts are only logged.
   */
  method Changes(newData: seq<Post>, oldData: seq<Post>)
      returns (d: Delta, listed: seq<Post>, outgoing: seq<Message>)
    ensures d == Diff(newData, oldData)
    ensures Elems(listed) == d.added && Distinct(listed)
    ensures outgoing == Outgoing(listed)
    ensures outgoing != [] <==> d.added != {}
  {
    d := Diff(newData, oldData);
    listed := Enumerate(d.added);
    outgoing := [];
    if listed != [] {
      assert listed[0] in d.added;
      var body := BuildBody(listed);
      outgoing := [Message(Subject, body)];
    } else {
      assert d.added == Elems(listed);
    }
  }

  /**
   * Every listed post is a new post that was not in the old snapshot (so no
   * removed post is listed), and every added post is listed exactly once.
   */
  lemma ListingIsAdded(newData: seq<Post>, oldData: seq<Post>, listed: seq<Post>)
    requires Elems(listed) == Diff(newData, oldData).added && Distinct(listed)
    ensures forall k :: 0 <= k < |listed| ==> listed[k] in newData && listed[k] !in oldData
    ensures forall p :: p in Diff(newData, oldData).removed ==> p !in listed
    ensures |listed| == |Diff(newData, oldData).added|
  {
    DistinctCard(listed);
  }

  lemma {:induction false} DistinctCard(s: seq<Post>)
    requires Distinct(s)
    ensures |Elems(s)| == |s|
  {
    if s != [] {
      var n := |s| - 1;
      DistinctCard(s[..n]);
      assert Elems(s) == Elems(s[..n]) + {s[n]};
      assert s[n] !in Elems(s[..n]);
    }
  }

  /** A snapshot compared with itself sends nothing. */
  lemma SelfComparisonIsSilent(s: seq<Post>, listed: seq<Post>)
    requires Elems(listed) == Diff(s, s).added
    ensures Outgoing(listed) == []
  {
    DiffSelf(s);
    NoElemsIffEmpty(listed);
  }

  lemma NoElemsIffEmpty(s: seq<Post>)
    ensures Elems(s) == {} <==> s == []
  {
    if s != [] {
      assert s[0] in Elems(s);
    }
  }
}
