# Inbox reply assistant: decision logic

This project models the deterministic decision logic of a reply assistant for
a dating site's web inbox. The assistant drives a headless browser. It lists
the conversation threads that are waiting for an answer, reads each thread's
messages, has a language model draft a reply, submits the reply, and checks
that the reply now shows on the page. A periodic check reports threads whose
newest message changed, and a small tool converts an exported cookie file
into the format the browser library loads.

The browser, the language model, the web form and the notification services
are outside this model. What they return is modelled as plain input data:

- an inbox page is a sequence of anchors with optional `href`s;
- a conversation page is an optional partner-name text plus a sequence of
  message elements, each with its text, an optional `.time` text and an
  optional image with optional `alt` and `src`;
- a cookie file is a sequence of JSON cookie objects, where an absent key is
  `None`.

The modules follow the program's parts:

- `Text`: Python's `str.strip()`, defined over the exact code points
  `str.isspace()` accepts, and substring membership `in`.
- `ThreadListing`: `get_all_thread_links` and the `[:num_threads]` cut.
- `MessageHarvest`: `get_partner_name_and_messages`, with the body fallback for
  stamp messages.
- `LatestMessage`: how `get_latest_message` combines a text body with a stamp
  URL.
- `SendVerification`: the before and after snapshots of `send_reply` and its
  success condition.
- `InboxMonitor`: the auto-check loop. The loop runs as a method over maps,
  and the stored snapshot is a field of the class `SessionState`.
- `CookieConversion`: `convert_cookie`, the conversion of a whole list, and the
  cookie record that `app.py` builds for its browser context.

Four behaviours of the code are easy to misread from its names and its log
messages, and the model follows the code in each:

- An element with blank text and no image at all gets the body `""`. Reading
  the missing image's attributes raises, and the handler appends `""`. The
  generic `[スタンプ]` marker appears only when an image exists that has
  neither a usable `alt` nor a usable `src`.
- The "input not found" and "button not found" returns of `send_reply` are
  never taken, because a locator object is always truthy. A missing control
  makes `fill` or `click` raise, and the outer handler returns `False`. The
  outcome is the same, and `SubmitOutcome` models it. Waiting for the network
  to settle after the click (app.py:184) also raises on a time-out, and then
  `send_reply` returns `False` without checking the page (`SettleTimedOut`).
- A send is confirmed when the newest non-blank text on the page contains the
  stripped reply and differs from the snapshot taken before. Repeating the
  text that was already newest is therefore reported as not sent
  (`RepeatedReplyNotSent`). A stripped reply of `""` is confirmed by any
  change of the newest text.
- The auto-check keeps duplicate thread links and opens a link again each
  time it is listed, so two reads of one link can show different pages. When
  the newest text changes between them, the link is reported new even if the
  stored text equals the text recorded for it in this run
  (`RereadReportsStoredText`). The model therefore takes one page per
  processed position, and its "new exactly when changed" results assume that
  the reads of a repeated link agree.

## Model

| member | source | states |
|---|---|---|
| `Text.StripSlice` | app.py:130 | `strip()` keeps one contiguous slice of its input; everything cut away on either side is whitespace, and the slice does not start or end with whitespace |
| `Text.StripEmpty` | app.py:164 | a stripped text is empty exactly when every character of it is whitespace (the `if elem.text_content().strip()` filter) |
| `Text.StripIdempotent` | app.py:195 | stripping twice gives the same result as stripping once |
| `Text.ContainsOffset` | app.py:109 | when `needle in hay` holds, the needle occurs at some offset of the hay |
| `Text.ContainsAt` | app.py:195 | an occurrence at any offset makes `needle in hay` true |
| `ThreadListing.ThreadLinks` | app.py:105-111 | the listed links are never more than the anchors, and each is non-empty and contains `"history"` |
| `ThreadListing.GetAllThreadLinks` | app.py:105-111 | the loop's appended list equals the filtered listing of all anchors |
| `ThreadListing.ThreadLinksAppend` | app.py:107-110 | page order is kept: listing two consecutive parts of a page gives the first part's links followed by the second part's |
| `ThreadListing.ThreadLinksMembers` | app.py:109-110 | a link is listed if and only if it is a non-empty href containing `"history"` that some anchor carries, so no qualifying href is dropped |
| `ThreadListing.FirstThreads` | app.py:319 | `links[:n]` is a prefix of the links with at most n entries, and it is all of them when there are fewer than n |
| `ThreadListing.ThreadsToProcess` | app.py:357 | the processed threads are at most `num_threads`, form a prefix of the filtered listing, and are all history links |
| `MessageHarvest.MessageBody` | app.py:139-154 | non-blank stripped text is used as is; otherwise, when there is an image, the body is `[スタンプ] ` followed by a truthy alt, else `[スタンプ画像](src)` for a truthy src, else `[スタンプ]`; the body is empty exactly when the text is blank and there is no image |
| `MessageHarvest.HarvestMessages` | app.py:125-154 | exactly one body and one timestamp per element, in element order, each equal to that element's body and timestamp |
| `MessageHarvest.ReadThread` | app.py:113-157 | partner name or `不明`; as many messages as elements; the latest timestamp is the last element's, or `""` when there are none; the last message is the newest element's body |
| `MessageHarvest.StampBodyKeepsAlt` | app.py:147-148 | a stamp with an `alt` is recorded as `[スタンプ] ` followed by the alt, so the alt text is kept |
| `LatestMessage.ComposeLatest` | app.py:69-76 | the result is never empty; it is the stripped text, a line break and the stamp link when both are present; the text alone when there is no stamp; the stamp link alone when there is no text; and the fixed not-found text when there is neither |
| `LatestMessage.ComposeBoth` | app.py:69-74 | with both parts, the result is the text-only result, a line break, and the stamp-only result |
| `LatestMessage.StampRecoverable` | app.py:69-74 | whenever a stamp URL is present, the result contains it |
| `SendVerification.NonBlankTexts` | app.py:164 | the comprehension keeps at most as many texts as it is given, and none of the kept texts is empty |
| `SendVerification.NonBlankTextsAppend` | app.py:164 | the kept texts of two consecutive parts of a page are the first part's followed by the second part's, so page order is kept |
| `SendVerification.NonBlankTextsMembers` | app.py:189 | a text is kept if and only if it is non-empty and is the stripped form of some text on the page |
| `SendVerification.LatestNonBlankNone` | app.py:165 | a snapshot is None exactly when every message text on the page is blank |
| `SendVerification.LatestNonBlankAt` | app.py:189-190 | otherwise the snapshot is the stripped text at the last non-blank position |
| `SendVerification.SendReply` | app.py:159-203 | a missing input, a missing button or a settle time-out never confirms; a confirmed send needs a submitted form and an after-snapshot that exists, contains the stripped reply, and differs from the before-snapshot (the converse is `SentIfShown`) |
| `SendVerification.UnchangedPageNotSent` | app.py:195 | when the page reads the same before and after, the send is never confirmed |
| `SendVerification.SentShowsReply` | app.py:188-197 | a confirmed send yields a position holding a non-blank message after submitting, with every later message blank, whose stripped text is the after-snapshot and contains the reply's stripped text |
| `SendVerification.SentIfShown` | app.py:188-197 | conversely, a submitted reply is confirmed whenever its stripped text occurs in the newest non-blank message after submitting and that message differs from the before-snapshot |
| `SendVerification.AppendedReplySent` | app.py:188-197 | a non-blank reply that appears as the new last message is confirmed, unless its text was already the newest |
| `SendVerification.RepeatedReplyNotSent` | app.py:195 | a reply equal to the text that was already newest is reported as not sent, although it was appended |
| `InboxMonitor.CollectCycle` | app.py:320-325 | with one conversation page per processed position, the loop builds exactly `current_message_texts` and `new_messages` as the specification maps define them |
| `InboxMonitor.CurrentTextsKeys` | app.py:323 | every processed link is in `current_message_texts`, and nothing else is |
| `InboxMonitor.CurrentTextsValue` | app.py:322-323 | a link's recorded text is the newest body from its last processing |
| `InboxMonitor.NewMessagesKeys` | app.py:324-325 | a link is in `new_messages` if and only if one of its observations was absent from the stored snapshot or differed from it |
| `InboxMonitor.ObservationsConsistent` | app.py:320-321 | when every read of a repeated link shows the same page, the cycle's observations of that link agree |
| `InboxMonitor.RereadReportsStoredText` | app.py:320-325 | when a repeated link's newest text changes between its two reads, the link is reported new although the stored text equals the text this cycle records for it |
| `InboxMonitor.NewIffChanged` | app.py:324-325 | assuming the reads of each repeated link agree (`ConsistentLinks`), a thread is new if and only if it was absent from the stored snapshot or its stored text differs from this run's text |
| `InboxMonitor.NewMessagesValue` | app.py:322-325 | under the same assumption, a thread reported new carries its partner's name and this run's text for it, the pair the success lines and the notification print |
| `InboxMonitor.NothingNewOnRepeat` | app.py:330-338 | for any cycle whose reads of repeated links agree, after the snapshot is replaced, running the same cycle again reports nothing new |
| `InboxMonitor.SessionState.constructor` | app.py:283 | the stored snapshot starts empty |
| `InboxMonitor.SessionState.AutoCheck` | app.py:303-338 | given the page shown at each processed position, lists the threads, keeps the first `num_threads`, diffs them against the old snapshot, and stores this run's texts in both branches |
| `CookieConversion.NormalizeSameSite` | convert_cookie_to_playwright.py:17-21 | the result is always `Strict`, `Lax` or `None`; it is `None` if and only if the value is absent or `no_restriction`, `Strict` if and only if it is `strict`, and `Lax` for every other value |
| `CookieConversion.ConvertCookie` | convert_cookie_to_playwright.py:9-22 | succeeds if and only if name, value and domain are present (otherwise a KeyError names the first missing one); those three are copied; path defaults to `/`; expires is `expirationDate` or -1; httpOnly and secure are copied or false; sameSite is the normalised value |
| `CookieConversion.ConvertAll` | convert_cookie_to_playwright.py:27 | succeeds if and only if every cookie converts; the result then has the same length and order, with `output[i]` the conversion of `input[i]`; a failure is the first failing cookie's error |
| `CookieConversion.ContextCookieOf` | app.py:310-317 | name, value and domain are passed on; path defaults to `/`; secure and httpOnly default to false |
| `CookieConversion.ContextCookieAgrees` | app.py:310-317 | the context record and the converted cookie agree on every field they share |
| `CookieConversion.ConvertRoundTrip` | convert_cookie_to_playwright.py:9-22 | a Playwright cookie with a valid `sameSite`, spelt in the export format, converts back to itself |
| `CookieConversion.ConvertStable` | convert_cookie_to_playwright.py:9-22 | converting, re-exporting and converting again changes nothing |

## Left out

- Browser setup, navigation, locators, waits, clicks and screenshots are left out because they are calls into the browser library. The model sees only what they return, as the input sequences above.
- The navigation part of `get_latest_message` (app.py:37-68) is left out, including its `None` result when navigation raises. Only the result composition is modelled.
- `get_latest_message_in_thread` (app.py:81-98) is not part of this model.
- Reply generation (`generate_reply`, app.py:205-218) is a remote language-model call with no logic of its own. For the same reason the batch fetch at app.py:356-367 is modelled only through its thread selection (`ThreadsToProcess`).
- The web form, session widgets, auto-refresh timer and styling (app.py:245-302, 340-536) are left out. The guard `auto_check and cookies` that starts a check is left out with them.
- Slack and LINE notifications (app.py:287-301, 332-336) are network I/O.
- The driver calls in `import_yyc_cookies_from_obj` (app.py:220-243) are left out. Its cookie record has the same shape as `ContextCookieOf`, as do the records built at app.py:346-354 and app.py:391-399.
- Reading and writing the cookie JSON files (convert_cookie_to_playwright.py:24-30) is file I/O.
- The float-to-int truncation of `expirationDate` is left out: the model takes it as an integer.
- JSON `null` values and non-string or non-boolean field types in cookie objects are not modelled. A key is either absent (`None`) or holds a value of the expected type.
- An element's `text_content()` returning no text, which makes `strip()` raise, is not modelled. Element texts are always strings.
- The remaining files of the repository are not part of this model. They are debugging scripts, cookie export helpers and an earlier asynchronous variant of the workflow, built on browser sessions, subprocesses and interactive input.
- `InboxMonitor.NewIffChanged`, `InboxMonitor.NewMessagesValue` and `InboxMonitor.NothingNewOnRepeat` assume that every read of a repeated link shows the same page (`ConsistentLinks`). A message arriving between two reads of a duplicated link breaks that, and for such a cycle the model promises only `CollectCycle`'s maps and `RereadReportsStoredText`.
