/** The result composition of `get_latest_message`: the received body text
    and the stamp image URL of the newest received message are combined into
    one of four fixed shapes. */
module LatestMessage {
  import opened Text
  import opened MessageHarvest

  const NotFoundText := "メッセージ本文が見つかりませんでした。"

  /** `bodyText` is the text of the received body (None when reading it
      raised), `stampSrc` the `src` of its stamp image (None when there is no
      image or no attribute). */
  function ComposeLatest(bodyText: Option<string>, stampSrc: Option<string>): (r: string)
    ensures r != ""
    ensures var text := if bodyText.Some? then Strip(bodyText.value) else "";
      && (text != "" ==> text <= r)
      && (text != "" && Truthy(stampSrc) ==> r == text + "\n" + StampImageLink(stampSrc.value))
      && (text != "" && !Truthy(stampSrc) ==> r == text)
      && (text == "" && Truthy(stampSrc) ==> r == StampImageLink(stampSrc.value))
      && (Truthy(stampSrc) ==> EndsWith(r, StampImageLink(stampSrc.value)))
      && (text == "" && !Truthy(stampSrc) ==> r == NotFoundText)
  {
    var text := if bodyText.Some? then Strip(bodyText.value) else "";
    if text != "" && Truthy(stampSrc) then text + "\n" + StampImageLink(stampSrc.value)
    else if text != "" then text
    else if Truthy(stampSrc) then StampImageLink(stampSrc.value)
    else NotFoundText
  }

  /** With both parts present the result is the text-only result, a line
      break, and the stamp-only result: neither part is lost or reordered. */
  lemma {:induction false} ComposeBoth(body: string, url: string)
    requires Strip(body) != "" && url != ""
    ensures ComposeLatest(Some(body), Some(url))
         == ComposeLatest(Some(body), None) + "\n" + ComposeLatest(None, Some(url))
  {
  }

  /** The stamp URL can be read back from any result that has one. */
  lemma {:induction false} StampRecoverable(body: Option<string>, url: string)
    requires url != ""
    ensures Contains(ComposeLatest(body, Some(url)), url)
  {
    var r := ComposeLatest(body, Some(url));
    var link := StampImageLink(url);
    var at := |r| - |link| + |StampImageLabel| + 1;
    assert link[|StampImageLabel| + 1..|StampImageLabel| + 1 + |url|] == url;
    assert r[at..at + |url|] == link[|StampImageLabel| + 1..|StampImageLabel| + 1 + |url|];
    ContainsAt(r, url, at);
  }
}
