/** The periodic inbox check: every processed thread's newest message text
    is recorded, threads that are unseen or whose newest text changed since
    the stored snapshot are reported as new, and the stored snapshot is then
    replaced by this cycle's texts. */
module InboxMonitor {
  import opened Text
  import opened ThreadListing
  import opened MessageHarvest

  /** What one processed thread contributes to a cycle. */
  datatype Observation = Observation(link: string, partner: string, latest: string)

  function Observe(link: string, page: ThreadPage): Observation {
    Observation(link, PartnerName(page), LatestBody(page.elements))
  }

  /** The observations of a cycle over `links`, one per link in order;
      `pages[k]` is the conversation page shown when `links[k]` is opened.
      A link listed twice is opened twice, and the two pages may differ. */
  function Observations(links: seq<string>, pages: seq<ThreadPage>): seq<Observation>
    requires |pages| == |links|
  {
    seq(|links|, k requires 0 <= k < |links| => Observe(links[k], pages[k]))
  }

  /** A thread is new when its link was not stored or its stored text differs. */
  predicate IsNew(last: map<string, string>, o: Observation) {
    o.link !in last || last[o.link] != o.latest
  }

  /** `current_message_texts` after the loop: later observations of a link
      overwrite earlier ones. */
  function CurrentTexts(obs: seq<Observation>): map<string, string> {
    if obs == [] then map[]
    else
      var o := obs[|obs| - 1];
      CurrentTexts(obs[..|obs| - 1])[o.link := o.latest]
  }

  /** `new_messages` after the loop: partner name and newest text of every
      observation that is new with respect to the stored snapshot `last`. */
  function NewMessages(last: map<string, string>, obs: seq<Observation>): map<string, (string, string)> {
    if obs == [] then map[]
    else
      var o := obs[|obs| - 1];
      var m := NewMessages(last, obs[..|obs| - 1]);
      if IsNew(last, o) then m[o.link := (o.partner, o.latest)] else m
  }

  /** One pass of the auto-check loop over the processed links. */
  method CollectCycle(links: seq<string>, pages: seq<ThreadPage>, last: map<string, string>)
      returns (current: map<string, string>, newMessages: map<string, (string, string)>)
    requires |pages| == |links|
    ensures current == CurrentTexts(Observations(links, pages))
    ensures newMessages == NewMessages(last, Observations(links, pages))
  {
    ghost var obs := Observations(links, pages);
    current, newMessages := map[], map[];
    for i := 0 to |links|
      invariant current == CurrentTexts(obs[..i])
      invariant newMessages == NewMessages(last, obs[..i])
    {
      var link := links[i];
      var partner, messages, latestTimestamp := ReadThread(pages[i]);
      var latest := if messages != [] then messages[|messages| - 1] else "";
      assert obs[i] == Observation(link, partner, latest);
      CycleStep(last, obs, i);
      current := current[link := latest];
      if link !in last || last[link] != latest {
        newMessages := newMessages[link := (partner, latest)];
      }
    }
    assert obs[..|links|] == obs;
  }

  /** How one more observation extends the two maps. */
  lemma CycleStep(last: map<string, string>, obs: seq<Observation>, i: nat)
    requires i < |obs|
    ensures CurrentTexts(obs[..i + 1]) == CurrentTexts(obs[..i])[obs[i].link := obs[i].latest]
    ensures NewMessages(last, obs[..i + 1])
         == if IsNew(last, obs[i]) then NewMessages(last, obs[..i])[obs[i].link := (obs[i].partner, obs[i].latest)]
            else NewMessages(last, obs[..i])
  {
    assert obs[..i + 1][..i] == obs[..i];
  }

  /** Every processed link is in this cycle's texts, and nothing else is. */
  lemma {:induction false} CurrentTextsKeys(obs: seq<Observation>, link: string)
    ensures link in CurrentTexts(obs) <==> exists k :: 0 <= k < |obs| && obs[k].link == link
  {
    if obs != [] {
      var init := obs[..|obs| - 1];
      CurrentTextsKeys(init, link);
      if link in CurrentTexts(init) {
        var k :| 0 <= k < |init| && init[k].link == link;
        assert obs[k].link == link;
      }
      if exists k :: 0 <= k < |obs| && obs[k].link == link {
        var k :| 0 <= k < |obs| && obs[k].link == link;
        if k < |init| { assert init[k].link == link; }
      }
    }
  }

  /** A link's recorded text is the newest text of its last observation. */
  lemma {:induction false} CurrentTextsValue(obs: seq<Observation>, i: nat)
    requires i < |obs|
    requires forall k :: i < k < |obs| ==> obs[k].link != obs[i].link
    ensures obs[i].link in CurrentTexts(obs) && CurrentTexts(obs)[obs[i].link] == obs[i].latest
  {
    if i < |obs| - 1 {
      var init := obs[..|obs| - 1];
      CurrentTextsValue(init, i);
    }
  }

  /** A link is reported new exactly when one of its observations is new. */
  lemma {:induction false} NewMessagesKeys(last: map<string, string>, obs: seq<Observation>, link: string)
    ensures link in NewMessages(last, obs) <==> exists k :: 0 <= k < |obs| && obs[k].link == link && IsNew(last, obs[k])
  {
    if obs != [] {
      var init := obs[..|obs| - 1];
      NewMessagesKeys(last, init, link);
      if link in NewMessages(last, init) {
        var k :| 0 <= k < |init| && init[k].link == link && IsNew(last, init[k]);
        assert obs[k] == init[k];
      }
      if exists k :: 0 <= k < |obs| && obs[k].link == link && IsNew(last, obs[k]) {
        var k :| 0 <= k < |obs| && obs[k].link == link && IsNew(last, obs[k]);
        if k < |init| { assert init[k] == obs[k]; }
      }
    }
  }

  /** Observations of the same link agree: each link stands for one
      conversation page. Duplicate links are allowed. */
  predicate ConsistentLinks(obs: seq<Observation>) {
    forall i, j :: 0 <= i < |obs| && 0 <= j < |obs| && obs[i].link == obs[j].link ==> obs[i] == obs[j]
  }

  /** A cycle whose repeated links each showed the same page both times
      agrees on repeated links. */
  lemma ObservationsConsistent(links: seq<string>, pages: seq<ThreadPage>)
    requires |pages| == |links|
    requires forall i, j :: 0 <= i < |links| && 0 <= j < |links| && links[i] == links[j] ==> pages[i] == pages[j]
    ensures ConsistentLinks(Observations(links, pages))
  {
  }

  /** Without that agreement the report can disagree with the stored texts:
      a link listed twice whose newest text changed from `a` to `b` between
      its two reads is reported new, although the stored text `b` equals the
      text this cycle records for it. */
  lemma {:induction false} RereadReportsStoredText(link: string, partner: string, a: string, b: string)
    requires a != b
    ensures var obs := [Observation(link, partner, a), Observation(link, partner, b)];
      && link in NewMessages(map[link := b], obs)
      && CurrentTexts(obs)[link] == b
  {
    var obs := [Observation(link, partner, a), Observation(link, partner, b)];
    assert obs[..1] == [obs[0]] && obs[..1][..0] == [];
  }

  /** The last position at which a link is observed. */
  lemma LastOccurrence(obs: seq<Observation>, i: nat) returns (k: nat)
    requires i < |obs|
    ensures i <= k < |obs| && obs[k].link == obs[i].link
    ensures forall m :: k < m < |obs| ==> obs[m].link != obs[i].link
  {
    k := |obs| - 1;
    while obs[k].link != obs[i].link
      invariant i <= k < |obs|
      invariant forall m :: k < m < |obs| ==> obs[m].link != obs[i].link
      decreases k
    {
      k := k - 1;
    }
  }

  /** A thread is new exactly when it was absent from the stored snapshot or
      its stored text differs from this cycle's text. */
  lemma NewIffChanged(last: map<string, string>, obs: seq<Observation>, i: nat)
    requires ConsistentLinks(obs) && i < |obs|
    ensures obs[i].link in CurrentTexts(obs)
    ensures obs[i].link in NewMessages(last, obs)
        <==> obs[i].link !in last || last[obs[i].link] != CurrentTexts(obs)[obs[i].link]
  {
    var k := LastOccurrence(obs, i);
    CurrentTextsValue(obs, k);
    NewMessagesKeys(last, obs, obs[i].link);
  }

  /** At the last observation of a link, a new observation puts its partner
      and newest text into `new_messages`. */
  lemma {:induction false} NewMessagesValueAt(last: map<string, string>, obs: seq<Observation>, k: nat)
    requires k < |obs| && IsNew(last, obs[k])
    requires forall m :: k < m < |obs| ==> obs[m].link != obs[k].link
    ensures obs[k].link in NewMessages(last, obs)
    ensures NewMessages(last, obs)[obs[k].link] == (obs[k].partner, obs[k].latest)
  {
    if k < |obs| - 1 {
      var init := obs[..|obs| - 1];
      assert init[k] == obs[k];
      NewMessagesValueAt(last, init, k);
    }
  }

  /** A thread reported new carries its partner's name and this cycle's text
      for it, which is what the success lines and the notification show. */
  lemma NewMessagesValue(last: map<string, string>, obs: seq<Observation>, i: nat)
    requires ConsistentLinks(obs) && i < |obs| && obs[i].link in NewMessages(last, obs)
    ensures obs[i].link in CurrentTexts(obs)
    ensures NewMessages(last, obs)[obs[i].link] == (obs[i].partner, CurrentTexts(obs)[obs[i].link])
  {
    var k := LastOccurrence(obs, i);
    CurrentTextsValue(obs, k);
    NewMessagesKeys(last, obs, obs[i].link);
    var j :| 0 <= j < |obs| && obs[j].link == obs[i].link && IsNew(last, obs[j]);
    assert obs[j] == obs[k] == obs[i];
    NewMessagesValueAt(last, obs, k);
  }

  /** Storing a cycle's texts and running the same cycle again reports
      nothing new. */
  lemma NothingNewOnRepeat(obs: seq<Observation>)
    requires ConsistentLinks(obs)
    ensures NewMessages(CurrentTexts(obs), obs) == map[]
  {
    var last := CurrentTexts(obs);
    forall link | link in NewMessages(last, obs) ensures false {
      NewMessagesKeys(last, obs, link);
      var j :| 0 <= j < |obs| && obs[j].link == link && IsNew(last, obs[j]);
      var k := LastOccurrence(obs, j);
      CurrentTextsValue(obs, k);
    }
  }

  /** The part of `st.session_state` the auto-check keeps between runs. */
  class SessionState {
    var lastMessageTexts: map<string, string>

    /** `st.session_state.get("last_message_texts", {})` on the first run. */
    constructor ()
      ensures lastMessageTexts == map[]
    {
      lastMessageTexts := map[];
    }

    /** One auto-check run: list the inbox, keep the first `numThreads`
        threads, read each, diff against the stored snapshot and store this
        run's texts. Returns the threads reported as new. */
    method AutoCheck(anchors: seq<Anchor>, numThreads: nat, pages: seq<ThreadPage>)
        returns (newMessages: map<string, (string, string)>)
      requires |pages| == |ThreadsToProcess(anchors, numThreads)|
      modifies this
      ensures var obs := Observations(ThreadsToProcess(anchors, numThreads), pages);
        && lastMessageTexts == CurrentTexts(obs)
        && newMessages == NewMessages(old(lastMessageTexts), obs)
    {
      var links := GetAllThreadLinks(anchors);
      links := FirstThreads(links, numThreads);
      var current;
      current, newMessages := CollectCycle(links, pages, lastMessageTexts);
      // Whether or not something is new, this run's texts are stored; only
      // the first case also notifies, which is not part of this model.
      lastMessageTexts := current;
    }
  }
}
