/** Reply dispatch verification of `send_reply`: the newest non-blank message
    text is captured before and after submitting, and the reply counts as sent
    only when the after-snapshot exists, contains the stripped reply and
    differs from the before-snapshot. */
module SendVerification {
  import opened Text

  /** `[t.strip() for t in texts if t.strip()]` */
  function NonBlankTexts(texts: seq<string>): (r: seq<string>)
    ensures |r| <= |texts|
    ensures forall k :: 0 <= k < |r| ==> r[k] != ""
  {
    if texts == [] then []
    else
      var t := Strip(texts[|texts| - 1]);
      NonBlankTexts(texts[..|texts| - 1]) + (if t != "" then [t] else [])
  }

  /** The newest non-blank stripped text, None when every text is blank. */
  function LatestNonBlank(texts: seq<string>): Option<string> {
    var r := NonBlankTexts(texts);
    if r == [] then None else Some(r[|r| - 1])
  }

  /** A snapshot of the message list: `texts` is None when reading the page
      raised, and then the snapshot is None as well. */
  function Snapshot(texts: Option<seq<string>>): Option<string> {
    if texts.None? then None else LatestNonBlank(texts.value)
  }

  /** The kept texts of a page made of two parts are the first part's kept
      texts followed by the second part's: order is preserved. */
  lemma {:induction false} NonBlankTextsAppend(a: seq<string>, b: seq<string>)
    ensures NonBlankTexts(a + b) == NonBlankTexts(a) + NonBlankTexts(b)
    decreases |b|
  {
    if b == [] {
      assert a + b == a;
    } else {
      var b' := b[..|b| - 1];
      assert (a + b)[..|a + b| - 1] == a + b';
      NonBlankTextsAppend(a, b');
    }
  }

  /** A text is kept exactly when it is the non-empty stripped form of some
      text on the page. */
  lemma {:induction false} NonBlankTextsMembers(texts: seq<string>, x: string)
    ensures x in NonBlankTexts(texts) <==> x != "" && exists k :: 0 <= k < |texts| && Strip(texts[k]) == x
  {
    if texts != [] {
      var init := texts[..|texts| - 1];
      NonBlankTextsMembers(init, x);
      if exists k :: 0 <= k < |init| && Strip(init[k]) == x {
        var k :| 0 <= k < |init| && Strip(init[k]) == x;
        assert texts[k] == init[k];
      }
      if exists k :: 0 <= k < |texts| && Strip(texts[k]) == x {
        var k :| 0 <= k < |texts| && Strip(texts[k]) == x;
        if k < |init| { assert init[k] == texts[k]; }
      }
    }
  }

  /** The snapshot is None exactly when every text on the page is blank. */
  lemma {:induction false} LatestNonBlankNone(texts: seq<string>)
    ensures LatestNonBlank(texts).None? <==> forall k :: 0 <= k < |texts| ==> Strip(texts[k]) == ""
  {
    if texts != [] {
      var init := texts[..|texts| - 1];
      LatestNonBlankNone(init);
      if Strip(texts[|texts| - 1]) == "" {
        assert NonBlankTexts(texts) == NonBlankTexts(init);
        assert forall k :: 0 <= k < |init| ==> init[k] == texts[k];
      }
    }
  }

  /** Otherwise it is the stripped text at the last non-blank position. */
  lemma {:induction false} LatestNonBlankAt(texts: seq<string>, i: nat)
    requires i < |texts| && Strip(texts[i]) != ""
    requires forall k :: i < k < |texts| ==> Strip(texts[k]) == ""
    ensures LatestNonBlank(texts) == Some(Strip(texts[i]))
  {
    if i < |texts| - 1 {
      var init := texts[..|texts| - 1];
      assert init[i] == texts[i];
      LatestNonBlankAt(init, i);
      assert NonBlankTexts(texts) == NonBlankTexts(init);
    }
  }

  /** The verification condition on the two snapshots. */
  predicate Verified(reply: string, before: Option<string>, after: Option<string>) {
    after.Some? && after.value != "" && Contains(after.value, Strip(reply)) && after != before
  }

  /** How far the form interaction got: the input or the button could not be
      used (fill or click raised), the click went through but waiting for the
      network to settle timed out (which raises as well), or the form was
      submitted and the page settled. */
  datatype SubmitOutcome = InputMissing | ButtonMissing | SettleTimedOut | Submitted

  /** `send_reply`: the page texts before submitting, how the submission went,
      and the page texts after it. */
  function SendReply(reply: string, beforeTexts: Option<seq<string>>, submit: SubmitOutcome,
                     afterTexts: Option<seq<string>>): (sent: bool)
    ensures sent ==> submit == Submitted && Snapshot(afterTexts).Some?
    ensures sent ==> Contains(Snapshot(afterTexts).value, Strip(reply))
    ensures sent ==> Snapshot(afterTexts) != Snapshot(beforeTexts)
  {
    match submit
    case InputMissing => false
    case ButtonMissing => false
    case SettleTimedOut => false
    case Submitted => Verified(reply, Snapshot(beforeTexts), Snapshot(afterTexts))
  }

  /** A page that did not change never confirms a send. */
  lemma {:induction false} UnchangedPageNotSent(reply: string, texts: Option<seq<string>>, submit: SubmitOutcome)
    ensures !SendReply(reply, texts, submit, texts)
  {
  }

  /** A confirmed send means the reply's stripped text occurs in the newest
      non-blank message of the page after submitting, and every message after
      that one is blank. */
  lemma {:induction false} SentShowsReply(reply: string, beforeTexts: Option<seq<string>>,
                                          submit: SubmitOutcome, afterTexts: Option<seq<string>>)
      returns (i: nat)
    requires SendReply(reply, beforeTexts, submit, afterTexts)
    ensures afterTexts.Some? && i < |afterTexts.value|
    ensures Strip(afterTexts.value[i]) != ""
    ensures Snapshot(afterTexts) == Some(Strip(afterTexts.value[i]))
    ensures Contains(Strip(afterTexts.value[i]), Strip(reply))
    ensures forall k :: i < k < |afterTexts.value| ==> Strip(afterTexts.value[k]) == ""
  {
    var texts := afterTexts.value;
    LatestNonBlankNone(texts);
    i := |texts| - 1;
    while Strip(texts[i]) == ""
      invariant 0 <= i < |texts|
      invariant exists k :: 0 <= k <= i && Strip(texts[k]) != ""
      invariant forall k :: i < k < |texts| ==> Strip(texts[k]) == ""
      decreases i
    {
      i := i - 1;
    }
    LatestNonBlankAt(texts, i);
  }

  /** Conversely, a submitted reply is confirmed whenever its stripped text
      occurs in the newest non-blank message after submitting and that
      message differs from the before-snapshot. */
  lemma {:induction false} SentIfShown(reply: string, beforeTexts: Option<seq<string>>, after: seq<string>, i: nat)
    requires i < |after| && Strip(after[i]) != ""
    requires forall k :: i < k < |after| ==> Strip(after[k]) == ""
    requires Contains(Strip(after[i]), Strip(reply))
    requires Snapshot(beforeTexts) != Some(Strip(after[i]))
    ensures SendReply(reply, beforeTexts, Submitted, Some(after))
  {
    LatestNonBlankAt(after, i);
  }

  /** A reply appended as the new newest message is confirmed, unless it
      repeats the text that was already newest. */
  lemma {:induction false} AppendedReplySent(reply: string, before: seq<string>)
    requires Strip(reply) != ""
    requires LatestNonBlank(before) != Some(Strip(reply))
    ensures SendReply(reply, Some(before), Submitted, Some(before + [reply]))
  {
    var after := before + [reply];
    LatestNonBlankAt(after, |before|);
    ContainsTrivial(Strip(reply));
  }

  /** The other side of the same check: sending the text that is already the
      newest message is reported as not sent, although the page now shows it
      twice. */
  lemma {:induction false} RepeatedReplyNotSent(reply: string, before: seq<string>)
    requires Strip(reply) != ""
    requires LatestNonBlank(before) == Some(Strip(reply))
    ensures !SendReply(reply, Some(before), Submitted, Some(before + [reply]))
  {
    LatestNonBlankAt(before + [reply], |before|);
  }
}
