# Pensieve timeline core, in Dafny

Pensieve is a timeline viewer for a decrypted Signal message archive. This
project models the pure logic in the viewer's service, API and component code
and proves properties of that model. The logic covered is:

- **Timeline merge** (`TimelineService`, `Recency`). Each registered source is
  asked for `count` items. The answers are flattened, stably sorted newest first
  and sliced to `count`.
- **Signal source** (`SignalSource`). This is what the message query denotes: two
  LEFT JOINs, `CASE`, `COALESCE`, `WHERE sent_at <= ?`, `ORDER BY sent_at DESC`
  and `LIMIT ?`. It is followed by the mapping of each result row to a timeline
  item.
- **Timeline API** (`TimelineApi`). The `/api/timeline` handler covers the method
  check, thread navigation over the sources, parameter validation and the count
  default.
- **Thread rendering rules** (`ThreadGroups`, `ChatText`, `ThreadColor`):
  - grouping items into maximal runs of one thread key;
  - the hidden-thread filter;
  - the centre-group test;
  - the copyable chat text;
  - the thread hue.
- **Attachment service and route** (`PosixPath`, `AttachmentPath`, `Cbc`,
  `Attachments`):
  - `path.join` and `path.normalize` as POSIX segment resolution;
  - the containment guard;
  - the composite key cut to its AES key;
  - AES-256-CBC decryption with PKCS#7 unpadding over an abstract block cipher;
  - the `/api/signal/attachments/[...path]` route.
- **Message card** (`MessageCard`, `FormUrlencoded`, `Utf8`):
  - header and sender-name selection;
  - the attachment test;
  - lightbox slides and their URLs;
  - the lightbox state;
  - how the route reads a slide URL back.

  URLs are encoded with the `application/x-www-form-urlencoded` serializer of
  section 5.2 of the WHATWG URL Standard. They are parsed with the parser of
  section 5.1 and the percent-decoding of section 1.3. Names and values travel as
  UTF-8, per sections 9.1.1 and 9.1.2 of the WHATWG Encoding Standard.
- **Global control pane** (`HiddenThreads`). This covers the stored hidden-thread
  list, unhiding a thread, and the count, list and reset button that the pane shows.

CBC decryption follows section 6.2 of NIST SP 800-38A. Padding follows section 6.3
of RFC 5652. OpenSSL's errors for a bad final block are modelled as thrown errors.

Everything that touches the outside world is a parameter. This includes the file
system, base64 decoding, the AES-256 block function, SHA-256, `JSON.parse`,
`parseInt`, `toLocaleString`, local storage and the clock.

The code recovers no keychain-wrapped database key: `lib/db.js` returns the
configured key verbatim. It reads only one attachment layout: `getAttachment`
takes the IV from its caller, decrypts the whole file and checks no MAC.
Neither a key recovery nor another layout is modelled.

Other modelling choices:

- **Missing thread key.** The Signal mapping leaves `threadId` undefined. Items
  therefore carry it as `Option<string>`, and the Signal source always sets `None`.
- **Sorting.** `Array.prototype.sort` is stable. It is modelled as an insertion
  sort keyed by timestamp.
- **Negative limit.** SQLite treats a negative `LIMIT` as no limit.

## Model

| member | source | states |
|---|---|---|
| TimelineService.NewService | src/services/timeline.ts:7-10 | A fresh service has exactly one source, of kind `signal_message`, whose `getItems` is the Signal query over the database. |
| TimelineService.RegisterSource | src/services/timeline.ts:12-14 | Registering appends the new source at the end; every earlier source keeps its position. |
| TimelineService.Gather | src/services/timeline.ts:18-23 | The answers succeed iff every source succeeds, and then hold each source's answer in registration order; a failure is some source's own throw. |
| TimelineService.Merge | src/services/timeline.ts:26-29 | The merged list is newest first and a sub-multiset of all answers. Its length is `min(count, total)` for `count >= 0`. For a negative count it is `total + count`, floored at 0, as `slice` drops from the end. |
| TimelineService.GetTimelineItems | src/services/timeline.ts:16-30 | The call fails iff some source fails. Otherwise the items are newest first and are the merge of every source's answer. |
| TimelineService.MergeIsTopK | src/services/timeline.ts:26-29 | Kept and dropped items together are exactly the flattened answers, and no dropped item is newer than a kept one. |
| TimelineService.MergeKeepsTies | src/services/timeline.ts:9-26 | Of each timestamp, the kept items are a prefix of that timestamp's items in flatten order: ties keep registration order. |
| TimelineService.TopKOfTopKs | src/services/timeline.ts:17-20 | The top `k` of the union of every source's top `k` equals the top `k` of all candidates together. |
| TimelineService.RequestingCountSuffices | src/services/timeline.ts:16-29 | When every source answers with the newest-first top `count` of its candidates, the service returns the top `count` of all candidates. |
| TimelineService.SignalAnswersTopK | src/sources/signal.ts:31-35 | The Signal source answers with the top `count` of its candidates (rows at or before the start time), or all of them sorted when `count` is negative. |
| TimelineService.FreshServiceReturnsTopK | src/services/timeline.ts:7-30 | End to end: a fresh service returns the newest-first top `count` of the Signal candidates. |
| Recency.SortPermutes | src/services/timeline.ts:26 | Sorting is a permutation: same elements, same multiplicities. |
| Recency.SortKeepsTies | src/services/timeline.ts:26 | Sorting is stable: the items of each timestamp keep their input order. |
| Recency.NewestFirstUnique | src/services/timeline.ts:26 | Two newest-first lists with the same items per timestamp, in the same order, are equal. |
| Recency.SameTiesAsSort | src/services/timeline.ts:26 | Any newest-first list that keeps the input's per-timestamp order is the sort's result. |
| Recency.Slice | src/services/timeline.ts:29 | `slice(0, count)` is a prefix: `min(count, n)` long for `count >= 0`, and `n + count` (floored at 0) for a negative count. |
| Recency.TakeAbove | src/services/timeline.ts:29 | A newest-first prefix of length `k` keeps `min(k, m)` of the `m` items newer than any timestamp. |
| SignalSource.LeftJoin | src/sources/signal.ts:29-30 | A LEFT JOIN gives one right-hand row per match, or a single NULL row when nothing matches. |
| SignalSource.Project | src/sources/signal.ts:13-26 | The message columns are copied. `groupName` is present iff the conversation exists, is of type `group` and has a name. `senderName` and `destName` are `Unknown` iff the joined profile name is missing or literally `Unknown`, and are that profile name whenever it is present. |
| SignalSource.JoinMessage | src/sources/signal.ts:28-30 | Every message contributes at least one joined row, each with its own id and `sent_at`. |
| SignalSource.Where | src/sources/signal.ts:31-32 | The filter keeps exactly the rows with `sent_at <= startTime`. |
| SignalSource.Limit | src/sources/signal.ts:35 | A negative limit keeps every row; otherwise the result is the first `min(count, n)` rows. |
| SignalSource.Query | src/sources/signal.ts:12-36 | Every result row is a joined row at or before the start time. The rows are newest first, at most `count` of them, and none appears more often than in the join. |
| SignalSource.ToItem | src/sources/signal.ts:43-57 | The item copies `id` and takes `timestamp = sent_at` and kind `signal_message`. `direction` and `type` both copy the row's type. Names and flags are copied, the thread key is left undefined, and the JSON is parsed. |
| SignalSource.GetItems | src/sources/signal.ts:7-59 | The source fails iff some returned row's JSON fails to parse. Otherwise it gives one item per query row, in row order: newest first, at or before the start time, of kind `signal_message` and at most `count` of them. |
| SignalSource.MappedRows | src/sources/signal.ts:43-47 | Mapping rows to items keeps their order and the start-time bound. |
| TimelineApi.CountParam | pages/api/timeline.ts:36 | The count is never 0. It is 50 exactly when the parameter is missing, unparsable, 0 or 50, and the parsed value otherwise. |
| TimelineApi.Navigate | pages/api/timeline.ts:21-29 | The loop answers `null` iff every source answers `null`. Otherwise it gives the answer (or throw) of a source that every earlier source answered `null` before. |
| TimelineApi.NavigateAppend | pages/api/timeline.ts:21-29 | Sources after the first non-`null` answer are never consulted; after all-`null` sources the answer is that of the rest. |
| TimelineApi.NavigateFirst | pages/api/timeline.ts:21-29 | The loop's answer is the answer of the first source that does not answer `null`. |
| TimelineApi.Handle | pages/api/timeline.ts:6-47 | A 405 comes exactly for non-GET requests, and every status is one of 200, 400, 405 or 500. A GET navigation gets the 400 "Invalid threadId or timestamp" exactly when its thread id is empty or absent or its timestamp does not parse. |
| TimelineApi.HandleAsWritten | pages/api/timeline.ts:6-47 | As written, the handler agrees with the intended one on every request that is not a navigation, answers 405 exactly for non-GET, and answers an invalid navigation with the same 400. |
| TimelineApi.NavigationAsWrittenNeverAnswers | pages/api/timeline.ts:13-31 | As written, no navigation request gets a 200. A valid one gets the 500 "Internal server error"; an invalid one gets the 400 "Invalid threadId or timestamp". |
| TimelineApi.NavigationNullOrThrow | pages/api/timeline.ts:21-47 | A valid navigation answers 200 `{timestamp: null}` iff every source answers null. It answers 500 iff some source throws before any source answers a timestamp. |
| TimelineApi.NavigateThrows | pages/api/timeline.ts:21-29 | The navigation loop throws iff some source throws while every source before it answered null. |
| TimelineApi.NavigationCounterexample | pages/api/timeline.ts:22 | For `GET /api/timeline?action=nextThread&threadId=a&timestamp=1` against one source whose `getNextThreadTimestamp` answers 42, the handler as written answers 500 and the intended handler answers 200 with `{timestamp: 42}`. |
| TimelineApi.NavigationAnswersFirst | pages/api/timeline.ts:21-31 | With valid parameters, the intended handler answers 200 with the first non-`null` timestamp. `nextThread` asks each source's `getNextThreadTimestamp` and `prevThread` its `getPrevThreadTimestamp`. |
| TimelineApi.FreshServiceCannotNavigate | pages/api/timeline.ts:4-27 | The constructed service's only source declares no navigation methods, so even the intended loop ends in a 500. |
| TimelineApi.ItemsPageAnswers | pages/api/timeline.ts:35-47 | A 400 comes exactly for an unparsable centre. Otherwise the answer is the service's items for that centre and the effective count, or a 500 when a source throws. |
| TimelineApi.MethodCheckFirst | pages/api/timeline.ts:7-9 | A non-GET request is answered without consulting the service, identically as written and as intended. |
| ThreadGroups.GroupByThreadRuns | src/components/timeline/Timeline.tsx:38-57 | The groups concatenate to the input exactly, in order. Every group is non-empty, all its items carry its key, and neighbouring groups have different keys. |
| ThreadGroups.RunsAreUnique | src/components/timeline/Timeline.tsx:38-57 | Any partition of the items into maximal runs is the one grouping produces. |
| ThreadGroups.GroupItemsByThread | src/components/timeline/Timeline.tsx:38-57 | The loop builds maximal runs that concatenate to the input, and they are the unique such grouping. |
| ThreadGroups.VisibleGroups | src/components/timeline/Timeline.tsx:81 | The visible groups are exactly the groups whose key is not hidden. |
| ThreadGroups.VisibleAppend | src/components/timeline/Timeline.tsx:81 | Filtering works group by group, so visible groups keep their original order. |
| ThreadGroups.NothingHidden | src/components/timeline/Timeline.tsx:81 | With an empty hidden set every group is shown. |
| ThreadGroups.HiddenThreads | src/components/timeline/Timeline.tsx:22-26 | Outside the browser, or with nothing stored, the hidden set is empty. Otherwise it fails iff parsing fails and holds exactly the parsed ids. |
| ThreadGroups.RemoveFirst | src/components/timeline/Timeline.tsx:84 | `replace` with a string pattern removes its first occurrence only, leaving the text around it, and changes nothing when the pattern is absent. |
| ThreadGroups.CentreOfLink | src/components/timeline/Timeline.tsx:84 | A `#t=` link centres on the timestamp it carries. |
| ThreadGroups.SomeAt | src/components/timeline/Timeline.tsx:102-104 | A group contains the centre iff some item's timestamp equals the centre timestamp. |
| ThreadGroups.CentreGroupShown | src/components/timeline/Timeline.tsx:79-104 | Some shown group is the centre group iff some item at the centre timestamp has a thread key that is not hidden. |
| ChatText.SpeakerSides | src/components/timeline/Timeline.tsx:66-68 | An outgoing line reads `[You] => [destName]`; any other line reads `[senderName] => [You]`; one side is always `You`. |
| ChatText.FormatChatText | src/components/timeline/Timeline.tsx:59-76 | The buffer the loop builds is the chat text: one block per group, in order. |
| ChatText.AppendBlock | src/components/timeline/Timeline.tsx:63-72 | One group's iteration appends exactly that group's `<CHAT>` block to the buffer. |
| ChatText.ChatAppend | src/components/timeline/Timeline.tsx:59-76 | The chat text of a list of groups is the chat text of its parts, concatenated. |
| ChatText.LineInChat | src/components/timeline/Timeline.tsx:62-72 | Each item's line appears in the text after its group's `<CHAT>` opener and after the lines of the items before it in the group. |
| ThreadColor.HexValueOfHex | src/components/timeline/Timeline.tsx:8-13 | Reading lower-case hex back gives the big-endian value of the bytes. |
| ThreadColor.FirstEightHex | src/components/timeline/Timeline.tsx:12-13 | `parseInt` of the first eight hex digits is the big-endian value of the first four digest bytes. |
| ThreadColor.Hue | src/components/timeline/Timeline.tsx:16 | The hue lies in 0..359. |
| ThreadColor.GetThreadColor | src/components/timeline/Timeline.tsx:6-20 | The colour fails exactly for an undefined thread key. Otherwise it is an `hsla(...)` string for a hue in 0..359. |
| ThreadColor.ColorIsHue | src/components/timeline/Timeline.tsx:6-19 | A thread's colour carries the hue of its SHA-256 digest. |
| ThreadColor.ColorsSeparateHues | src/components/timeline/Timeline.tsx:19 | Equal colour strings carry equal hues. |
| ThreadColor.DecimalRoundTrip | src/components/timeline/Timeline.tsx:19 | The decimal text of a number reads back as that number. |
| ThreadColor.SignalGroupsHaveNoColor | src/components/timeline/Timeline.tsx:113 | Items from the Signal mapping carry no thread key, so their group's colour throws. |
| PosixPath.JoinSplit | src/services/attachments.ts:27 | Joining the `/`-separated pieces of a string with `/` gives the string back. |
| PosixPath.SplitJoin | src/services/attachments.ts:27 | Splitting `/`-free segments joined with `/` gives the segments back. |
| PosixPath.ResolveCanonical | src/services/attachments.ts:27 | Resolution leaves no `.` or empty segment, and `..` only at the front of a relative path. |
| PosixPath.RenderSplit | src/services/attachments.ts:27 | A rendered path starts with `/` iff absolute, ends with `/` iff the trailing separator is kept, and splits back into its segments. |
| PosixPath.NormalizeIdempotent | src/services/attachments.ts:27 | Normalising a normalised path changes nothing. |
| AttachmentPath.AttachmentsPath | src/services/attachments.ts:8-15 | Construction fails iff `STORAGE_PATH` is unset or empty. |
| AttachmentPath.InsideMeansBelowBase | src/services/attachments.ts:27-34 | The intended guard admits exactly the paths whose resolved segments start with the attachments directory's. |
| AttachmentPath.WrittenGuardAdmitsSiblings | src/services/attachments.ts:32 | The string-prefix guard admits what the intended one admits, plus every path into a sibling whose name extends the directory's name. |
| AttachmentPath.PlainPathsAreInside | src/services/attachments.ts:27-32 | A requested path with no `..` segment always stays inside the directory. |
| AttachmentPath.SiblingEscapes | src/services/attachments.ts:27-32 | `../<sibling>/<file>` climbs to a sibling directory whose name extends the directory's name; the written guard admits it and the intended one does not. |
| AttachmentPath.SiblingPassesWrittenGuard | src/services/attachments.ts:32 | With storage `/data`, `../attachments.noindex-old/secret` passes the written guard and fails the intended one. |
| Cbc.Decrypt | src/services/attachments.ts:46-50 | CBC decryption keeps the length of whole-block input. |
| Cbc.DecryptBlock | src/services/attachments.ts:46-50 | Plaintext block `i` is the block decryption of ciphertext block `i` XORed with ciphertext block `i-1`, or with the IV for the first block. |
| Cbc.DecryptEncrypt | src/services/attachments.ts:46-50 | CBC decryption undoes CBC encryption under the same IV when the block decryption inverts the block encryption. |
| Cbc.PadLength | src/services/attachments.ts:47 | PKCS#7 padding adds 1 to 16 bytes and reaches a block boundary. |
| Cbc.UnpadAccepts | src/services/attachments.ts:47-50 | Unpadding succeeds iff the block is validly padded. It then strips 1 to 16 bytes of padding. |
| Cbc.UnpadPad | src/services/attachments.ts:47-50 | Unpadding a padded message gives the message. |
| Cbc.PadUnpad | src/services/attachments.ts:47-50 | Re-padding what unpadding accepted gives back the padded input. |
| Cbc.DecipherShape | src/services/attachments.ts:47-53 | Empty or non-whole-block ciphertext throws "wrong final block length". Success strips valid padding from the CBC decryption. |
| Cbc.DecipherEncrypted | src/services/attachments.ts:46-53 | Deciphering the CBC encryption of a padded message gives the message. |
| Attachments.AesKey | src/services/attachments.ts:40-42 | The AES key is the first 32 bytes of the decoded composite key, or all of it when shorter. |
| Attachments.GuardBeforeRead | src/services/attachments.ts:32-37 | A path the written `startsWith` guard refuses throws `Invalid path` whatever the file system holds. The same holds for the intended guard. |
| Attachments.OnlyAesKeyMatters | src/services/attachments.ts:40-42 | Composite keys that agree on their first 32 bytes give the same result, under the written guard and under the intended one; later bytes never matter. |
| Attachments.BadParametersNeverDecrypt | src/services/attachments.ts:40-46 | An IV that is not 16 bytes, or a key shorter than 32 bytes, throws whatever the block cipher does. A bad IV is reported first. |
| Attachments.DecryptedShape | src/services/attachments.ts:37-53 | A served attachment is the whole file's CBC decryption under the first 32 key bytes and the caller's IV, with 1 to 16 padding bytes removed. The file is a whole number of blocks. |
| Attachments.ServesEncryptedMessage | src/services/attachments.ts:37-53 | A file holding the CBC encryption of a padded message, under the key's first 32 bytes and the caller's IV, is served as that message. |
| Attachments.GuardsDifferOnSiblingsOnly | src/services/attachments.ts:26-37 | The written and intended services answer alike except on paths into a sibling directory. The intended one refuses those; the written one reads them. |
| Utf8.DecodeEncodeString | src/components/timeline/SignalMessageCard.tsx:76-80 | Decoding a string's UTF-8 bytes gives the string back. |
| FormUrlencoded.EncodeBytes | src/components/timeline/SignalMessageCard.tsx:76-80 | The encoded text consists only of unreserved bytes, `+` and `%`. |
| FormUrlencoded.DecodeEncodeText | src/components/timeline/SignalMessageCard.tsx:76-80 | Reading an encoded name or value back gives the original string. |
| FormUrlencoded.ParseSerialize | src/components/timeline/SignalMessageCard.tsx:76-80 | Parsing a serialised list of pairs gives the same pairs in the same order. |
| MessageCard.HeaderName | src/components/timeline/SignalMessageCard.tsx:42-48 | The header fails exactly for an empty card (`items[0]` is undefined). |
| MessageCard.HeaderIsOtherParty | src/components/timeline/SignalMessageCard.tsx:42-48 | The header is the group name when truthy. Otherwise it is the party that the first message's chat line pairs with `You`. |
| MessageCard.ShownSenderIsLineSender | src/components/timeline/SignalMessageCard.tsx:67-71 | A shown sender name is that line's sender and the receiver is `You`. No name is shown in a direct thread, nor on an outgoing message. |
| MessageCard.ShownAttachments | src/components/timeline/SignalMessageCard.tsx:68 | A message shows attachments iff it has visual media and a non-empty attachment list. |
| MessageCard.Slides | src/components/timeline/SignalMessageCard.tsx:74-84 | There is one slide per shown attachment, in order. |
| MessageCard.SlidesFollowAttachments | src/components/timeline/SignalMessageCard.tsx:74-84 | Without visual media there are no slides. Otherwise each slide carries its attachment's width and height, and a URL to the route with `contentType`, `localKey` and `size` form-encoded in that order. |
| MessageCard.RequestOfSlideUrl | src/components/timeline/SignalMessageCard.tsx:76-80 | The route reads a slide URL back as the attachment's path segments and the query's values. |
| MessageCard.SlideQueryLookups | src/components/timeline/SignalMessageCard.tsx:76-80 | The slide query as written carries a single content type and key and no IV. |
| MessageCard.SlideRequestsAreRefused | src/components/timeline/SignalMessageCard.tsx:76-80 | Every slide URL as written is refused with a 400 before the attachment service is asked. |
| MessageCard.OneLightboxAtATime | src/components/timeline/SignalMessageCard.tsx:39-136 | At most one message's lightbox is open. A click on a slide opens that message's lightbox and a close leaves none open. |
| HiddenThreads.PaneAgreesWithTimeline | src/components/timeline/GlobalControlPane.tsx:10-13 | The pane's list and the timeline's hidden set fail together and hold the same ids; with nothing stored, the list is empty. |
| HiddenThreads.UnhideCounts | src/components/timeline/GlobalControlPane.tsx:16 | Unhiding removes every occurrence of the thread and keeps every other id as often as before. |
| HiddenThreads.UnhideAppend | src/components/timeline/GlobalControlPane.tsx:16 | Unhiding keeps the remaining ids in their original relative order. |
| HiddenThreads.UnhideAbsent | src/components/timeline/GlobalControlPane.tsx:16 | Unhiding a thread that is not listed leaves the list unchanged. |
| HiddenThreads.UnhideIdempotent | src/components/timeline/GlobalControlPane.tsx:16 | Unhiding twice is the same as unhiding once. |
| HiddenThreads.UnhideThreadRemoves | src/components/timeline/GlobalControlPane.tsx:15-17 | The stored list written back fails iff reading it fails. Otherwise it lacks the thread and keeps every other id's count. |
| HiddenThreads.UnhideShowsThread | src/components/timeline/GlobalControlPane.tsx:15-18 | After unhiding, the thread's groups are shown and every other group is hidden exactly as before. |
| HiddenThreads.Pane | src/components/timeline/GlobalControlPane.tsx:41-72 | The heading count equals the number of listed ids. The reset button appears iff the count is positive, and the "No hidden threads" note iff it does not. |
| HiddenThreads.PaneAfterUnhide | src/components/timeline/GlobalControlPane.tsx:15-65 | After an unhide, the count drops by the thread's number of occurrences. The reset button stays iff another thread is still hidden. |

The attachment route, `pages/api/signal/attachments/[...path].ts`, is modelled by these members, given with that file's lines:

- `Attachments.ServeAttachment`, lines 16-50: the route over `getAttachment` as written, with its `startsWith` guard. A 405 comes exactly for non-GET requests. A served response had a truthy content type, a single key, a single IV and path segments, and carries that service's decryption of the joined path. A content type with a character outside tab, 0x20-0x7E and 0x80-0xFF makes `setHeader` throw (line 45), which is a 500.
- `Attachments.ServeAttachmentIntended`, lines 16-50: the same route over the service with the intended containment guard, with the same three properties.
- `Attachments.RouteReachesService`, lines 24-50: a GET with content type, key, IV and path segments is served the service's answer for the joined path when its content type can be set as a header; a throw of the service or of `setHeader` is a 500.
- `Attachments.RoutesDifferOnSiblingsOnly`, lines 38-42: the deployed and the intended route answer alike unless the joined path reaches a sibling of the attachments directory. For such a complete GET the intended route answers 500, and the deployed one serves iff the sibling file decrypts and the content type can be set as a header.
- `Attachments.NoIvIsRefused`, lines 30-32: A request with content type and key but no IV is refused with a 400 "iv is required".
- `MessageCard.Lookup`, lines 21-22: A query name is absent iff no pair carries it.
- `MessageCard.ServeWithoutIv`, lines 30-32: A GET without an IV is refused with a 400 by the deployed and the intended route, whatever else it carries.
- `MessageCard.ServeComplete`, lines 24-50: A GET with content type, key, IV and path segments is served iff the service decrypts the joined path and the content type can be set as a header, and then with that data; otherwise it gets a 500. This holds for the deployed route with the written guard and for the intended route.
- `MessageCard.SlideWithIvRequestsReachService`, lines 24-50: With the IV in its URL, a slide is served iff the service decrypts the attachment's file and its content type can be set as a header, and then with that data and content type. This holds for the deployed route and for the intended one.

## Left out

- **I/O and browser state.** The file read, the SQLite engine, local storage,
  `window.location`, the clipboard, page reloads and `console.log` are not
  modelled. The file read, the storage item, the hash and the clock are
  parameters. The logging of key material at src/services/attachments.ts:29 is
  not modelled.
- **Asynchrony.** `Promise.all` and `await` become evaluation in registration order.
- **Library primitives.** The AES-256 block function, SHA-256, base64 decoding,
  `JSON.parse`, `parseInt` and `toLocaleString` are uninterpreted parameters.
- **lib/db.js.** This is configuration reading and SQLCipher pragmas, and it is
  not part of this model.
- **Database key and attachment formats.** The code has no keychain key recovery
  and no authenticated attachment layout, so neither is modelled.
- **The custom server.** `server.js` mounts `express.static` on
  `/api/signal/attachments` ahead of Next.js, so under that server a request
  naming an existing file gets the stored bytes as they are. That static handler
  is not modelled; the route model is the Next.js handler alone.
- **Rendering.** React rendering, CSS, layout and the `<img>`/`Lightbox` widgets
  are not modelled. `TimelineItemCard`, the older `src/components/Timeline.tsx`
  and the pages are not part of this model.
- SignalSource.GetItems: failures of the database connection and the query are not
  modelled. Reading `config.json` (lib/db.js:7-17), opening the database and
  running the statement (src/sources/signal.ts:8 and 38-39) can throw, and that
  throw would fail the source. The model fails only on a row whose JSON does not parse.
- Utf8.DecodeEncodeString and FormUrlencoded.ParseSerialize: strings are sequences
  of Unicode scalar values. JavaScript strings may hold lone surrogates, which
  `URLSearchParams` replaces with U+FFFD before encoding; such strings are not modelled.
- SignalSource.Query: SQL leaves the order of rows with equal `sent_at` open. The
  model keeps them in join order, which is one of the orders SQLite may produce.
- SignalSource.ToItem: the `json` column is modelled as parsing to a `MessageJson`
  holding the attachment list, or failing; other JSON fields are not modelled.
- TimelineService.Source: a source's navigation methods are optional, because
  neither `TimelineSource` nor the Signal source declares them.
- TimelineApi.Request: query values are single strings or absent. Repeated query
  parameters are not modelled for this route.
- MessageCard.RequestOf: Next.js routing is simplified. The route prefix is matched
  literally, the path before the first `?` is split at `/`, and path segments are
  not percent-decoded.
- MessageCard.RequestOfSlideUrl: the attachment path is required to be non-empty
  and free of `?`. Signal's relative attachment paths have that form.
- MessageCard.SlideRequestsAreRefused: this uses the same requirement on the path.
- MessageCard.IntToString: `size` is modelled as an integer, so fractional sizes
  are not modelled.
- ThreadGroups.HiddenThreads: `new Set(...)` of a parsed value that is not an
  array is not modelled. The parse parameter answers a list of ids or fails.
- ChatText.FormatChatText: the timestamp text comes from a `time` parameter that
  stands for `toLocaleString`, so locale formatting is not modelled.

## Findings

| source | as written | input that shows it | evidently intended | confidence | as-written member | corrected member |
|---|---|---|---|---|---|---|
| pages/api/timeline.ts:22 | The navigation loop iterates `timelineService.getSources()`, which `TimelineService` does not define. | `GET /api/timeline?action=nextThread&threadId=a&timestamp=1` against a source that answers 42: the call throws and the handler answers 500. | Iterate over the registered sources and answer `{timestamp: 42}`. | not executed | TimelineApi.NavigationCounterexample | TimelineApi.NavigationAnswersFirst |
| src/services/attachments.ts:32 | The guard tests `fullPath.startsWith(this.attachmentsPath)`, a string prefix without a separator. | With `STORAGE_PATH=/data`, the path `../attachments.noindex-old/secret` joins to `/data/attachments.noindex-old/secret` and passes the guard. | Admit only the directory itself or paths below `attachmentsPath + "/"`. | not executed | AttachmentPath.SiblingPassesWrittenGuard | AttachmentPath.InsideMeansBelowBase |
| src/components/timeline/SignalMessageCard.tsx:76-80 | The slide URL carries `contentType`, `localKey` and `size`, but no `iv`, while the route refuses any request without `iv` (pages/api/signal/attachments/[...path].ts:30-32). | Any attachment with a non-empty path free of `?`: its slide image request gets a 400 "iv is required" from the Next.js route. This happens under `next start` or `next dev`, and under server.js for a path with no file on disk. Under server.js, a path naming an existing file is answered by its static handler (server.js:14) with the stored ciphertext. Either way the image does not display. | Include the attachment's `iv` in the query, so that the route reaches the attachment service. | not executed | MessageCard.SlideRequestsAreRefused | MessageCard.SlideWithIvRequestsReachService |
