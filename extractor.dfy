/**
 * Fetching the results page and extracting its posts (`fetch_post_data`).
 * The HTML document is given as an abstract tree: an optional `<div id="post">`
 * container holding `<ul>` groups, each holding `<li>` entries, each with the
 * first `<a>` inside it, if any.
 */
module Extractor {
  import opened Wrappers
  import opened Posts

  /** An `<a>` element: its text and its `href` attribute, which may be absent. */
  datatype Anchor = Anchor(text: string, href: Option<string>)

  /** An `<li>` element and the first `<a>` it contains. */
  datatype Entry = Entry(anchor: Option<Anchor>)

  /** A `<ul>` element and its `<li>` entries in document order. */
  datatype Group = Group(entries: seq<Entry>)

  /** The parsed page; `container` holds the groups of `<div id="post">` when the page has one. */
  datatype Page = Page(container: Option<seq<Group>>)

  /** What the HTTP GET of the results page gives: a status and a body, or a transport exception. */
  datatype Response = Response(status: int, page: Page) | ConnectionError

  /** The two reasons for which `fetch_post_data` returns `None`. */
  datatype Failure = BadStatus(code: int) | NoPostSection

  /** Exceptions that escape `fetch_post_data`. */
  datatype Exception = RequestFailed | MissingHref

  datatype FetchResult = Fetched(posts: seq<Post>) | Failed(why: Failure) | Raised(exc: Exception)

  /** All entries of the groups, group by group, each group's entries in order. */
  function Entries(groups: seq<Group>): seq<Entry> {
    if groups == [] then []
    else Entries(groups[..|groups| - 1]) + groups[|groups| - 1].entries
  }

  /** The anchors of the entries that have one, in order. */
  function Anchors(entries: seq<Entry>): seq<Anchor> {
    if entries == [] then []
    else
      var last := entries[|entries| - 1];
      Anchors(entries[..|entries| - 1]) + (if last.anchor.Some? then [last.anchor.value] else [])
  }

  predicate AllHaveHref(anchors: seq<Anchor>) {
    forall k :: 0 <= k < |anchors| ==> anchors[k].href.Some?
  }

  /** The post of one link: its text and its target, both stripped of surrounding whitespace. */
  function PostOf(a: Anchor): (p: Post)
    requires a.href.Some?
    ensures Stripped(p.title) && Stripped(p.url)
  {
    Post(Strip(a.text), Strip(a.href.value))
  }

  /** One post per anchor, position by position. */
  function PostsOf(anchors: seq<Anchor>): (posts: seq<Post>)
    requires AllHaveHref(anchors)
    ensures |posts| == |anchors|
    ensures forall k :: 0 <= k < |anchors| ==> posts[k] == PostOf(anchors[k])
  {
    if anchors == [] then []
    else PostsOf(anchors[..|anchors| - 1]) + [PostOf(anchors[|anchors| - 1])]
  }

  /** What `fetch_post_data` returns (or raises) for a response. */
  function Extract(r: Response): (e: FetchResult)
    ensures e == Raised(RequestFailed) <==> r.ConnectionError?
    ensures e.Failed? <==> r.Response? && (r.status != 200 || r.page.container.None?)
    ensures r.Response? && r.status == 200 && r.page.container.None? ==> e == Failed(NoPostSection)
  {
    match r
    case ConnectionError => Raised(RequestFailed)
    case Response(status, page) =>
      if status != 200 then Failed(BadStatus(status))
      else if page.container.None? then Failed(NoPostSection)
      else
        var anchors := Anchors(Entries(page.container.value));
        if AllHaveHref(anchors) then Fetched(PostsOf(anchors)) else Raised(MissingHref)
  }

  lemma {:induction false} AnchorsAppend(xs: seq<Entry>, ys: seq<Entry>)
    ensures Anchors(xs + ys) == Anchors(xs) + Anchors(ys)
  {
    if ys == [] {
      assert xs + ys == xs;
    } else {
      var n := |ys| - 1;
      assert (xs + ys)[..|xs + ys| - 1] == xs + ys[..n];
      AnchorsAppend(xs, ys[..n]);
    }
  }

  /** Group `i`'s entries sit between those of the groups before it and those after it. */
  lemma {:induction false} EntriesSplit(groups: seq<Group>, i: nat)
    requires i < |groups|
    ensures Entries(groups) == Entries(groups[..i]) + groups[i].entries + Entries(groups[i + 1..])
    decreases |groups|
  {
    var n := |groups| - 1;
    if i == n {
      assert groups[..n] == groups[..i];
      assert groups[i + 1..] == [];
    } else {
      assert groups[..n][..i] == groups[..i];
      EntriesSplit(groups[..n], i);
      assert groups[..n][i + 1..] == groups[i + 1..n];
      assert groups[i + 1..][..|groups[i + 1..]| - 1] == groups[i + 1..n];
      assert groups[i + 1..][|groups[i + 1..]| - 1] == groups[n];
    }
  }

  lemma EntriesSnoc(groups: seq<Group>, i: nat)
    requires i < |groups|
    ensures Entries(groups[..i + 1]) == Entries(groups[..i]) + groups[i].entries
  {
    assert groups[..i + 1][..i] == groups[..i];
  }

  lemma PrefixSnoc(done: seq<Entry>, entries: seq<Entry>, j: nat)
    requires j < |entries|
    ensures done + entries[..j + 1] == (done + entries[..j]) + [entries[j]]
  {
    assert entries[..j + 1] == entries[..j] + [entries[j]];
  }

  /** Visiting one more entry adds its anchor, if any, and nothing else. */
  lemma AnchorsSnoc(entries: seq<Entry>, e: Entry)
    ensures Anchors(entries + [e]) == Anchors(entries) + (if e.anchor.Some? then [e.anchor.value] else [])
  {
    assert (entries + [e])[..|entries|] == entries;
  }

  lemma PostsOfSnoc(anchors: seq<Anchor>, a: Anchor)
    requires AllHaveHref(anchors) && a.href.Some?
    ensures AllHaveHref(anchors + [a])
    ensures PostsOf(anchors + [a]) == PostsOf(anchors) + [PostOf(a)]
  {
    assert (anchors + [a])[..|anchors|] == anchors;
  }

  /** An entry whose anchor has no href makes the page's anchors fail `AllHaveHref`. */
  lemma MissingHrefSeen(groups: seq<Group>, i: nat, j: nat)
    requires i < |groups| && j < |groups[i].entries|
    requires groups[i].entries[j].anchor.Some? && groups[i].entries[j].anchor.value.href.None?
    ensures !AllHaveHref(Anchors(Entries(groups)))
  {
    var entries := groups[i].entries;
    var before := Entries(groups[..i]) + entries[..j + 1];
    var after := entries[j + 1..] + Entries(groups[i + 1..]);
    EntriesSplit(groups, i);
    assert entries == entries[..j + 1] + entries[j + 1..];
    assert Entries(groups) == before + after;
    AnchorsAppend(before, after);
    assert before == (Entries(groups[..i]) + entries[..j]) + [entries[j]];
    AnchorsSnoc(Entries(groups[..i]) + entries[..j], entries[j]);
    var whole := Anchors(Entries(groups));
    var k := |Anchors(before)| - 1;
    assert Anchors(before)[k] == entries[j].anchor.value;
    assert whole[k] == Anchors(before)[k];
    assert whole[k].href.None?;
  }

  /**
   * `fetch_post_data` with the HTTP request and the HTML parse abstracted:
   * the nested loops over groups and entries append one post per linked entry.
   */
  method FetchPostData(r: Response) returns (result: FetchResult)
    ensures result == Extract(r)
  {
    if r.ConnectionError? {
      return Raised(RequestFailed);
    }
    if r.status != 200 {
      return Failed(BadStatus(r.status));
    }
    if r.page.container.None? {
      return Failed(NoPostSection);
    }
    var groups := r.page.container.value;
    var posts: seq<Post> := [];
    for i := 0 to |groups|
      invariant AllHaveHref(Anchors(Entries(groups[..i])))
      invariant posts == PostsOf(Anchors(Entries(groups[..i])))
    {
      var entries := groups[i].entries;
      ghost var done := Entries(groups[..i]);
      assert done + entries[..0] == done;
      for j := 0 to |entries|
        invariant AllHaveHref(Anchors(done + entries[..j]))
        invariant posts == PostsOf(Anchors(done + entries[..j]))
      {
        PrefixSnoc(done, entries, j);
        AnchorsSnoc(done + entries[..j], entries[j]);
        match entries[j].anchor
        case None =>
        case Some(a) =>
          if a.href.None? {
            MissingHrefSeen(groups, i, j);
            return Raised(MissingHref);
          }
          PostsOfSnoc(Anchors(done + entries[..j]), a);
          posts := posts + [PostOf(a)];
      }
      assert entries[..|entries|] == entries;
      EntriesSnoc(groups, i);
    }
    assert groups[..|groups|] == groups;
    return Fetched(posts);
  }

  /** Positions of the entries that have an anchor, in increasing order. */
  function LinkedIndices(entries: seq<Entry>): seq<nat> {
    if entries == [] then []
    else
      var n := |entries| - 1;
      LinkedIndices(entries[..n]) + (if entries[n].anchor.Some? then [n] else [])
  }

  /**
   * The anchors are those of the linked entries, one for each, in document
   * order; entries without an anchor contribute nothing.
   */
  lemma {:induction false} AnchorsInDocumentOrder(entries: seq<Entry>)
    ensures var idx, anchors := LinkedIndices(entries), Anchors(entries);
      && |idx| == |anchors| <= |entries|
      && (forall k :: 0 <= k < |idx| ==> idx[k] < |entries| && entries[idx[k]].anchor == Some(anchors[k]))
      && (forall k, l :: 0 <= k < l < |idx| ==> idx[k] < idx[l])
      && (forall i :: 0 <= i < |entries| && entries[i].anchor.Some? ==> i in idx)
  {
    if entries != [] {
      var n := |entries| - 1;
      AnchorsInDocumentOrder(entries[..n]);
      var idx, anchors := LinkedIndices(entries), Anchors(entries);
      var idx0 := LinkedIndices(entries[..n]);
      var tail := if entries[n].anchor.Some? then [n] else [];
      assert idx == idx0 + tail;
      assert forall k :: 0 <= k < |idx0| ==> idx[k] == idx0[k] && anchors[k] == Anchors(entries[..n])[k];
      forall i | 0 <= i < |entries| && entries[i].anchor.Some?
        ensures i in idx
      {
        if i < n {
          assert entries[..n][i] == entries[i];
          assert i in idx0;
        } else {
          assert idx[|idx| - 1] == n;
        }
      }
    }
  }

  /**
   * A successful extraction yields exactly one post per linked entry of the
   * container, in group-then-entry order, built from that entry's link by
   * stripping its text and its href; so there are at most as many posts as entries.
   */
  lemma OnePostPerLinkedEntry(r: Response)
    requires Extract(r).Fetched?
    ensures r.Response? && r.status == 200 && r.page.container.Some?
    ensures var entries := Entries(r.page.container.value);
      var idx, posts := LinkedIndices(entries), Extract(r).posts;
      && |posts| == |idx| <= |entries|
      && (forall k :: 0 <= k < |idx| ==>
            && idx[k] < |entries|
            && entries[idx[k]].anchor.Some?
            && entries[idx[k]].anchor.value.href.Some?
            && posts[k] == PostOf(entries[idx[k]].anchor.value))
      && (forall k, l :: 0 <= k < l < |idx| ==> idx[k] < idx[l])
      && (forall i :: 0 <= i < |entries| && entries[i].anchor.Some? ==> i in idx)
  {
    AnchorsInDocumentOrder(Entries(r.page.container.value));
  }

  /** Every extracted title and url has no surrounding whitespace. */
  lemma ExtractedPostsStripped(r: Response)
    requires Extract(r).Fetched?
    ensures forall p :: p in Extract(r).posts ==> Stripped(p.title) && Stripped(p.url)
  {
  }
}
