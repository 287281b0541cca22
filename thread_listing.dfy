/** Thread listing: the inbox page's anchors are filtered down to the links
    of conversation histories, in page order, and callers keep only the first
    `num_threads` of them. */
module ThreadListing {
  import opened Text

  /** One `.mdl_listBox_simple a` element; `href` is None when the anchor
      has no such attribute. */
  datatype Anchor = Anchor(href: Option<string>)

  const HistoryMarker := "history"

  /** `link and "history" in link` */
  predicate IsThreadLink(link: string) {
    link != "" && Contains(link, HistoryMarker)
  }

  predicate Qualifies(a: Anchor) {
    a.href.Some? && IsThreadLink(a.href.value)
  }

  /** The links the listing keeps, in page order. */
  function ThreadLinks(anchors: seq<Anchor>): (links: seq<string>)
    ensures |links| <= |anchors|
    ensures forall k :: 0 <= k < |links| ==> IsThreadLink(links[k])
  {
    if anchors == [] then []
    else
      var last := anchors[|anchors| - 1];
      ThreadLinks(anchors[..|anchors| - 1]) + (if Qualifies(last) then [last.href.value] else [])
  }

  /** Scans the anchors once and appends every qualifying href. */
  method GetAllThreadLinks(anchors: seq<Anchor>) returns (links: seq<string>)
    ensures links == ThreadLinks(anchors)
  {
    links := [];
    for i := 0 to |anchors|
      invariant links == ThreadLinks(anchors[..i])
    {
      assert anchors[..i + 1][..i] == anchors[..i];
      var link := anchors[i].href;
      if link.Some? && link.value != "" && Contains(link.value, HistoryMarker) {
        links := links + [link.value];
      }
    }
    assert anchors[..|anchors|] == anchors;
  }

  /** Page order is kept: listing a page made of two parts lists the first
      part's links, then the second part's. */
  lemma {:induction false} ThreadLinksAppend(a: seq<Anchor>, b: seq<Anchor>)
    ensures ThreadLinks(a + b) == ThreadLinks(a) + ThreadLinks(b)
    decreases |b|
  {
    if b == [] {
      assert a + b == a;
    } else {
      var b' := b[..|b| - 1];
      assert (a + b)[..|a + b| - 1] == a + b';
      ThreadLinksAppend(a, b');
    }
  }

  /** No qualifying href is dropped and nothing else is kept: a link is
      listed exactly when it qualifies and some anchor carries it. */
  lemma {:induction false} ThreadLinksMembers(anchors: seq<Anchor>, link: string)
    ensures link in ThreadLinks(anchors) <==> IsThreadLink(link) && Anchor(Some(link)) in anchors
  {
    if anchors != [] {
      var init := anchors[..|anchors| - 1];
      ThreadLinksMembers(init, link);
      assert anchors == init + [anchors[|anchors| - 1]];
    }
  }

  /** `links[:n]` for the non-negative n the callers pass. */
  function FirstThreads(links: seq<string>, n: nat): (r: seq<string>)
    ensures |r| <= n && r <= links
    ensures |r| == n || r == links
  {
    if |links| <= n then links else links[..n]
  }

  /** The threads the auto-check and the batch fetch go on to read. */
  function ThreadsToProcess(anchors: seq<Anchor>, n: nat): (r: seq<string>)
    ensures |r| <= n
    ensures forall k :: 0 <= k < |r| ==> IsThreadLink(r[k])
    ensures r <= ThreadLinks(anchors)
  {
    FirstThreads(ThreadLinks(anchors), n)
  }
}
