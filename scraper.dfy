/**
 * One polling cycle (`scrape_and_check`) and the state it works on: the
 * stored snapshot (the JSON data file, empty while the file does not exist)
 * and the mail that `send_email` hands to the SMTP server.
 */
module Scraper {
  import opened Posts
  import opened Extractor
  import opened Differ
  import opened Notifier
  import opened Report

  /** How a cycle ends: it ran to the save, it was skipped after `None`, or an exception escaped it. */
  datatype Status = Completed | Skipped | Crashed

  function StatusOf(f: FetchResult): (s: Status)
    ensures s == Completed <==> f.Fetched?
    ensures s == Skipped <==> f.Failed?
  {
    match f
    case Fetched(_) => Completed
    case Failed(_) => Skipped
    case Raised(_) => Crashed
  }

  /** The snapshot stored after one cycle on response `r`, starting from `stored`. */
  function Persisted(stored: seq<Post>, r: Response): (p: seq<Post>)
    ensures !Extract(r).Fetched? ==> p == stored
    ensures Extract(r).Fetched? ==> Diff(Extract(r).posts, p) == Delta({}, {})
  {
    if Extract(r).Fetched? then Extract(r).posts else stored
  }

  /**
   * The snapshot stored after the cycles on `responses`, in order. An
   * exception that escapes a cycle ends the process, so later responses are
   * never seen.
   */
  function Replay(stored: seq<Post>, responses: seq<Response>): (r: seq<Post>)
    ensures (forall j :: 0 <= j < |responses| ==> !Extract(responses[j]).Fetched?) ==> r == stored
    decreases |responses|
  {
    if responses == [] then stored
    else
      match Extract(responses[0])
      case Raised(_) => stored
      case Failed(_) => Replay(stored, responses[1..])
      case Fetched(posts) => Replay(posts, responses[1..])
  }

  class Runner {
    /** The contents of the data file; empty while the file is absent. */
    var store: seq<Post>
    /** Every message handed to `send_email`, in order. */
    var outbox: seq<Message>
    /** The messages that the SMTP server accepted. */
    var delivered: seq<Message>

    /** A fresh process with no data file and no mail sent. */
    constructor ()
      ensures store == [] && outbox == [] && delivered == []
    {
      store, outbox, delivered := [], [], [];
    }

    /** `load_previous_data`: the stored snapshot, or nothing when the file is absent. */
    method LoadPreviousData() returns (data: seq<Post>)
      ensures data == store
    {
      data := store;
    }

    /** `save_current_data`: overwrites the stored snapshot. */
    method SaveCurrentData(data: seq<Post>)
      modifies this`store
      ensures store == data
    {
      store := data;
    }

    /**
     * `send_email`: the message is handed over; `accepted` is the SMTP
     * outcome, and a failure is swallowed.
     */
    method SendEmail(subject: string, body: string, accepted: bool)
      modifies this`outbox, this`delivered
      ensures outbox == old(outbox) + [Message(subject, body)]
      ensures delivered == old(delivered) + (if accepted then [Message(subject, body)] else [])
    {
      outbox := outbox + [Message(subject, body)];
      if accepted {
        delivered := delivered + [Message(subject, body)];
      }
    }

    /** `compare_and_report_differences`: sends the notification when posts were added. */
    method CompareAndReportDifferences(newData: seq<Post>, oldData: seq<Post>, accepted: bool)
        returns (d: Delta, listed: seq<Post>)
      modifies this`outbox, this`delivered
      ensures d == Diff(newData, oldData)
      ensures Elems(listed) == d.added && Distinct(listed)
      ensures outbox == old(outbox) + Outgoing(listed)
      ensures delivered == old(delivered) + (if accepted then Outgoing(listed) else [])
    {
      var outgoing;
      d, listed, outgoing := Changes(newData, oldData);
      if outgoing != [] {
        SendEmail(outgoing[0].subject, outgoing[0].body, accepted);
      }
    }

    /**
     * `scrape_and_check`: a failed fetch leaves the stored snapshot and the
     * mail untouched; a successful one notifies about the added posts (the
     * outcome of the delivery does not matter) and then stores the new snapshot.
     */
    method ScrapeAndCheck(r: Response, accepted: bool) returns (status: Status, listed: seq<Post>)
      modifies this
      ensures status == StatusOf(Extract(r))
      ensures store == Persisted(old(store), r)
      ensures status != Completed ==> outbox == old(outbox) && delivered == old(delivered)
      ensures status == Completed ==>
        && Elems(listed) == Diff(Extract(r).posts, old(store)).added
        && Distinct(listed)
        && outbox == old(outbox) + Outgoing(listed)
        && delivered == old(delivered) + (if accepted then Outgoing(listed) else [])
    {
      listed := [];
      var fetched := FetchPostData(r);
      status := StatusOf(fetched);
      if !fetched.Fetched? {
        return;
      }
      var newData := fetched.posts;
      var oldData := LoadPreviousData();
      var delta;
      delta, listed := CompareAndReportDifferences(newData, oldData, accepted);
      SaveCurrentData(newData);
    }

    /**
     * The polling loop with its timing left out: one cycle per response, in
     * order, until a cycle raises. `accepted[i]` is the SMTP outcome of cycle `i`.
     */
    method Run(responses: seq<Response>, accepted: seq<bool>) returns (cycles: nat)
      requires |accepted| == |responses|
      modifies this
      ensures cycles <= |responses|
      ensures forall j :: 0 <= j < cycles ==> !Extract(responses[j]).Raised?
      ensures cycles < |responses| ==> Extract(responses[cycles]).Raised?
      ensures store == Replay(old(store), responses)
      ensures store == Replay(old(store), responses[..cycles])
      ensures old(outbox) <= outbox && old(delivered) <= delivered
      ensures |outbox| - |old(outbox)| <= cycles
    {
      cycles := 0;
      while cycles < |responses|
        invariant cycles <= |responses|
        invariant forall j :: 0 <= j < cycles ==> !Extract(responses[j]).Raised?
        invariant Replay(old(store), responses) == Replay(store, responses[cycles..])
        invariant old(outbox) <= outbox && old(delivered) <= delivered
        invariant |outbox| - |old(outbox)| <= cycles
      {
        var status, _ := ScrapeAndCheck(responses[cycles], accepted[cycles]);
        if status == Crashed {
          ReplayUpToCrash(old(store), responses, cycles);
          return;
        }
        assert responses[cycles..][1..] == responses[cycles + 1..];
        cycles := cycles + 1;
      }
      assert responses[..cycles] == responses;
    }
  }

  /** A cycle whose fetch fails (or raises) leaves the stored snapshot as it was. */
  lemma FailedFetchKeepsStore(stored: seq<Post>, r: Response)
    requires !Extract(r).Fetched?
    ensures Persisted(stored, r) == stored
  {
  }

  /**
   * A second cycle on unchanged content finds nothing added or removed, and
   * stores the same snapshot again.
   */
  lemma SecondCycleIsQuiet(stored: seq<Post>, r: Response)
    requires Extract(r).Fetched?
    ensures Diff(Extract(r).posts, Persisted(stored, r)) == Delta({}, {})
    ensures Persisted(Persisted(stored, r), r) == Persisted(stored, r)
  {
    DiffSelf(Extract(r).posts);
  }

  /**
   * The cycles from the first one that raises on are never run: when cycle
   * `m` is the first to raise (or `m` is the end), the run stores what its
   * first `m` cycles store.
   */
  lemma {:induction false} ReplayUpToCrash(stored: seq<Post>, responses: seq<Response>, m: nat)
    requires m <= |responses|
    requires forall j :: 0 <= j < m ==> !Extract(responses[j]).Raised?
    requires m < |responses| ==> Extract(responses[m]).Raised?
    ensures Replay(stored, responses) == Replay(stored, responses[..m])
    decreases m
  {
    if m == 0 {
      assert responses[..0] == [];
    } else {
      var rest := responses[1..];
      var next := if Extract(responses[0]).Fetched? then Extract(responses[0]).posts else stored;
      assert Replay(stored, responses) == Replay(next, rest);
      assert responses[..m][0] == responses[0];
      assert responses[..m][1..] == rest[..m - 1];
      assert Replay(stored, responses[..m]) == Replay(next, rest[..m - 1]);
      assert forall j :: 0 <= j < m - 1 ==> rest[j] == responses[j + 1];
      assert m - 1 < |rest| ==> rest[m - 1] == responses[m];
      ReplayUpToCrash(next, rest, m - 1);
    }
  }

  /**
   * After a run whose first crash is at cycle `m` (or that has none, `m` being
   * the end), the stored snapshot is that of the last successful fetch before
   * `m`, whatever failed in between or came after the crash.
   */
  lemma {:induction false} ReplayKeepsLatest(stored: seq<Post>, responses: seq<Response>, k: nat, m: nat)
    requires k < m <= |responses| && Extract(responses[k]).Fetched?
    requires forall j :: 0 <= j < m ==> !Extract(responses[j]).Raised?
    requires m < |responses| ==> Extract(responses[m]).Raised?
    requires forall j :: k < j < m ==> !Extract(responses[j]).Fetched?
    ensures Replay(stored, responses) == Extract(responses[k]).posts
    decreases k
  {
    var rest := responses[1..];
    if k == 0 {
      var posts := Extract(responses[0]).posts;
      assert Replay(stored, responses) == Replay(posts, rest);
      forall j | 0 <= j < m - 1
        ensures !Extract(rest[j]).Raised?
      {
        assert rest[j] == responses[j + 1];
      }
      ReplayUpToCrash(posts, rest, m - 1);
      var failed := rest[..m - 1];
      forall j | 0 <= j < |failed|
        ensures !Extract(failed[j]).Fetched?
      {
        assert failed[j] == responses[j + 1];
      }
    } else {
      var next := if Extract(responses[0]).Fetched? then Extract(responses[0]).posts else stored;
      assert Replay(stored, responses) == Replay(next, rest);
      assert Extract(rest[k - 1]).Fetched? by { assert rest[k - 1] == responses[k]; }
      forall j | 0 <= j < m - 1
        ensures !Extract(rest[j]).Raised?
      {
        assert rest[j] == responses[j + 1];
      }
      assert m - 1 < |rest| ==> rest[m - 1] == responses[m];
      forall j | k - 1 < j < m - 1
        ensures !Extract(rest[j]).Fetched?
      {
        assert rest[j] == responses[j + 1];
      }
      ReplayKeepsLatest(next, rest, k - 1, m - 1);
    }
  }

  /**
   * Two cycles on the same successful response: the second one finds no
   * change, sends nothing, and leaves the stored snapshot as the first left it.
   */
  method RepeatedCycle(runner: Runner, r: Response, first: bool, second: bool)
      returns (listed1: seq<Post>, listed2: seq<Post>)
    requires Extract(r).Fetched?
    modifies runner
    ensures runner.store == Extract(r).posts
    ensures Elems(listed1) == Diff(Extract(r).posts, old(runner.store)).added
    ensures listed2 == []
    ensures runner.outbox == old(runner.outbox) + Outgoing(listed1)
    ensures runner.delivered == old(runner.delivered) + (if first then Outgoing(listed1) else [])
  {
    var status;
    status, listed1 := runner.ScrapeAndCheck(r, first);
    status, listed2 := runner.ScrapeAndCheck(r, second);
    DiffSelf(Extract(r).posts);
    NoElemsIffEmpty(listed2);
  }
}
