/** Message harvesting on one conversation page: the partner's name, one
    message body and one timestamp per message element, and the latest
    timestamp. */
module MessageHarvest {
  import opened Text

  /** The first `img` inside a message element, with its two attributes. */
  datatype Image = Image(alt: Option<string>, src: Option<string>)

  /** One `.msgCont .body .wrap .wrapinner` element: its text content, the
      text of the nearest `.time` element (None when there is none, so that
      reading it raises) and its first image (None when it has none, so that
      reading the attributes raises). */
  datatype MessageElement = MessageElement(text: string, time: Option<string>, image: Option<Image>)

  /** A conversation page: the text of `.name strong` (None when it is
      missing) and the message elements in document order. */
  datatype ThreadPage = ThreadPage(nameText: Option<string>, elements: seq<MessageElement>)

  const UnknownPartner := "不明"
  const StampAltPrefix := "[スタンプ] "
  const StampMarker := "[スタンプ]"
  /** The tag every stamp description starts with. */
  const StampTag := "[スタンプ"

  const StampImageLabel := "[スタンプ画像]"

  /** The Markdown-style link written for a stamp image. */
  function StampImageLink(src: string): string {
    StampImageLabel + "(" + src + ")"
  }

  /** The body recorded for one element: its stripped text; failing that a
      stamp description from the image's alt, then its src, then a bare stamp
      marker; and "" when the element has no image at all. */
  function MessageBody(e: MessageElement): (body: string)
    ensures Strip(e.text) != "" ==> body == Strip(e.text)
    ensures Strip(e.text) == "" && e.image.Some? ==> StampTag <= body
    ensures Strip(e.text) == "" && e.image.Some? && Truthy(e.image.value.alt)
            ==> body == StampAltPrefix + e.image.value.alt.value
    ensures Strip(e.text) == "" && e.image.Some? && !Truthy(e.image.value.alt) && Truthy(e.image.value.src)
            ==> body == StampImageLink(e.image.value.src.value)
    ensures Strip(e.text) == "" && e.image.Some? && !Truthy(e.image.value.alt) && !Truthy(e.image.value.src)
            ==> body == StampMarker
    ensures body == "" <==> Strip(e.text) == "" && e.image.None?
  {
    var text := Strip(e.text);
    if text != "" then text
    else match e.image
      case None => ""
      case Some(img) =>
        if Truthy(img.alt) then StampAltPrefix + img.alt.value
        else if Truthy(img.src) then StampImageLink(img.src.value)
        else StampMarker
  }

  /** The timestamp recorded for one element: the stripped `.time` text, or
      "" when there is no such element. */
  function Timestamp(e: MessageElement): string {
    if e.time.Some? then Strip(e.time.value) else ""
  }

  function PartnerName(page: ThreadPage): string {
    if page.nameText.Some? then Strip(page.nameText.value) else UnknownPartner
  }

  /** The body of the newest message, "" on a page without messages. */
  function LatestBody(elements: seq<MessageElement>): string {
    if elements == [] then "" else MessageBody(elements[|elements| - 1])
  }

  /** Walks the elements in document order, appending exactly one body and
      one timestamp per element. */
  method HarvestMessages(elements: seq<MessageElement>) returns (messages: seq<string>, timestamps: seq<string>)
    ensures |messages| == |elements| && |timestamps| == |elements|
    ensures forall k :: 0 <= k < |elements| ==> messages[k] == MessageBody(elements[k])
    ensures forall k :: 0 <= k < |elements| ==> timestamps[k] == Timestamp(elements[k])
  {
    messages, timestamps := [], [];
    for i := 0 to |elements|
      invariant |messages| == i && |timestamps| == i
      invariant forall k :: 0 <= k < i ==> messages[k] == MessageBody(elements[k])
      invariant forall k :: 0 <= k < i ==> timestamps[k] == Timestamp(elements[k])
    {
      timestamps := timestamps + [Timestamp(elements[i])];
      messages := messages + [MessageBody(elements[i])];
    }
  }

  /** Reads one conversation page: partner name, all bodies, and the last
      timestamp ("" when there are no message elements). */
  method ReadThread(page: ThreadPage) returns (partner: string, messages: seq<string>, latestTimestamp: string)
    ensures partner == PartnerName(page)
    ensures |messages| == |page.elements|
    ensures forall k :: 0 <= k < |messages| ==> messages[k] == MessageBody(page.elements[k])
    ensures latestTimestamp == if page.elements == [] then "" else Timestamp(page.elements[|page.elements| - 1])
    ensures (if messages == [] then "" else messages[|messages| - 1]) == LatestBody(page.elements)
  {
    partner := PartnerName(page);
    var timestamps;
    messages, timestamps := HarvestMessages(page.elements);
    latestTimestamp := if timestamps != [] then timestamps[|timestamps| - 1] else "";
  }

  /** A stamp described by its alt keeps the alt text in its body. */
  lemma {:induction false} StampBodyKeepsAlt(e: MessageElement)
    requires Strip(e.text) == "" && e.image.Some? && Truthy(e.image.value.alt)
    ensures MessageBody(e) == StampAltPrefix + e.image.value.alt.value
    ensures Contains(MessageBody(e), e.image.value.alt.value)
  {
    var alt := e.image.value.alt.value;
    var body := StampAltPrefix + alt;
    assert body[|StampAltPrefix|..|StampAltPrefix| + |alt|] == alt;
    ContainsAt(body, alt, |StampAltPrefix|);
  }
}
