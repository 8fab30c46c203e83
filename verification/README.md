# ai-chat core, modelled in Dafny

A model of the core of the `ai-chat` application, with proofs about it. The
application is a chat front end with tool-calling. The model covers:

- **Web search tool** (`lib/tools/web-search.ts`). It unwraps DuckDuckGo
  redirect links and turns result markup into plain text. It recognises
  anti-bot pages and extracts de-duplicated results from the html and lite
  result pages. It shapes the tool's answer, falling back from the html
  endpoint to the lite one.
- **Fixed-window rate limiter** (`lib/rate-limit.ts`).
- **Context truncation of the chat endpoint** (`app/api/chat/route.ts`):
  `truncateMessages`, `_estimateTokens` and `getMessageText`.
- **Text utilities tool** (`lib/tools/text-utils.ts`).
- **Browser-side chat store** (`lib/indexed-db-chat.ts`).
- **Backend chat handlers** (`convex/chat.ts`) and **scheduled cleanup**
  (`convex/cleanup.ts`).
- **Display helpers** for tool parts (`components/chat/chat-message.tsx`).

The modules follow the source files:

| module | models |
|---|---|
| `WebSearch` | `lib/tools/web-search.ts` |
| `RateLimit` | `lib/rate-limit.ts` |
| `ChatRoute` | the three helpers of `app/api/chat/route.ts` |
| `TextUtils` | `lib/tools/text-utils.ts` |
| `LocalChatStore` | `lib/indexed-db-chat.ts`; the store is a class over a key-value map |
| `ConvexDb` | the three tables the handlers use, as a `Database` class with one map per table and one id counter |
| `ConvexChat` | `convex/chat.ts` |
| `ConvexCleanup` | `deleteUserData` and `cleanupExpiredFiles` of `convex/cleanup.ts` |
| `ChatMessage` | `isToolPart`, `getToolName`, `mapToolState` and the result prop of `components/chat/chat-message.tsx` |

Four helper modules model the host functions the core calls:

| module | models |
|---|---|
| `Strings` | `includes`, `startsWith`, `split`, `replace` with a string pattern, `trim`, ECMAScript's `\s`, and collapsing runs |
| `Uri` | `encodeURIComponent` and `decodeURIComponent` over UTF-8 (section 2.1 of RFC 3986, RFC 3629) |
| `SearchParams` | `URL.searchParams.get`: `application/x-www-form-urlencoded` parsing with UTF-8 decoding that replaces bad sequences |
| `Base64` | `btoa` and the forgiving `atob` (section 4 of RFC 4648) |

`Wrappers` holds `Option` and `Result`. `ChatTypes` holds the message role.

Imperative code is modelled as imperative Dafny:

- The handlers and the cleanup jobs are methods that change a `Database`.
  Each loop carries invariants. Each method is proved against a function of
  the old state, or against the state the source promises. Lemmas about
  those functions prove completeness of the indexed queries, deletion of
  exactly the user's records, the absence of dangling attachment ids, and
  growth by exactly the imported records.
- The extraction loops of the search tool are methods. Each is proved equal
  to a pure definition, and that definition's properties are lemmas:
  - at most 15 results;
  - every result has a url and a title;
  - no url twice;
  - each kept result is the first one of its url, in page order.
- The regular-expression scans of a page are inputs: the sequence of their
  captured groups. The two extraction loops are generic over the
  conversion. `KeepFirstResults` and `CollectKept` are instantiated with
  `cleanUrl` and `normalizeText`.

## Model

| member | source | states |
|---|---|---|
| WebSearch.CleanUrl | lib/tools/web-search.ts:26-62 | an empty href cleans to ""; an href without `uddg=` becomes "" when it is internal (starts with `/` or names a DuckDuckGo page) and is kept unchanged otherwise |
| WebSearch.CleanUrlUnwrapsRedirect | lib/tools/web-search.ts:30-50 | a `/l/?uddg=` link carrying `encodeURIComponent(u)` of a non-empty `u` cleans to `decodeURIComponent(u)`, or to `u` itself when that throws: the destination is decoded once by the query parser and once more by `cleanUrl` |
| WebSearch.CleanUrlDecodesTwice | lib/tools/web-search.ts:30-36 | a redirect to the literal text `a%20b` cleans to `a b`, not to `a%20b` |
| WebSearch.CleanUrlFollowsTarget | lib/tools/web-search.ts:30-36 | an href containing `uddg=` whose `uddg` parameter is a non-empty value that `decodeURIComponent` accepts cleans to the decoded value |
| WebSearch.RedirectParameter | lib/tools/web-search.ts:32-33 | the `uddg` search parameter of a redirect link built with `encodeURIComponent(u)` is `u` again |
| WebSearch.ReplaceEntities | lib/tools/web-search.ts:77 | after replacing `&…;` runs no entity is left; text without `&` is unchanged; a first character other than `&` is kept |
| WebSearch.ReplaceEntitiesAt | lib/tools/web-search.ts:77 | in text whose first `&` opens an entity `&x;`, that entity becomes one space and the rest is replaced in turn |
| WebSearch.DecodeHtmlEntities | lib/tools/web-search.ts:67-78 | the decoded text contains no `&…;` entity |
| WebSearch.DecodeWithoutAmpersand | lib/tools/web-search.ts:67-78 | text without `&` is returned unchanged |
| WebSearch.DecodeDoubleEscaped | lib/tools/web-search.ts:69-70 | `&amp;` is replaced first, so `&amp;lt;` decodes to `<` |
| WebSearch.UnknownEntity | lib/tools/web-search.ts:67-78 | an entity that is none of the eight named ones, alone in text without another `&`, becomes one space and the text around it is kept |
| WebSearch.StripTags | lib/tools/web-search.ts:85 | after tags become spaces, no `<` is followed by a `>`; a first character other than `<` is kept |
| WebSearch.StripTagsAt | lib/tools/web-search.ts:85 | in text whose first `<` opens a tag `<x>`, that tag becomes one space and the rest is stripped in turn |
| WebSearch.StripTagsWithoutBrackets | lib/tools/web-search.ts:85 | text without `<` is unchanged |
| WebSearch.NormalizeText | lib/tools/web-search.ts:83-88 | empty input gives empty text; the result has no whitespace at either end |
| WebSearch.NormalizeTextShape | lib/tools/web-search.ts:85-87 | normalised text never holds two whitespace characters in a row, and its only whitespace is plain spaces |
| WebSearch.NormalizeKeepsEscapedBracket | lib/tools/web-search.ts:83-88 | an escaped `<` comes back as a bare `<`, so normalised text is not free of markup |
| WebSearch.IsBlocked | lib/tools/web-search.ts:93-99 | true exactly when one of the three anti-bot markers occurs in the page |
| WebSearch.DedupUrls | lib/tools/web-search.ts:113-126 | the `seenUrls` filter loses no url |
| WebSearch.DedupKeepsFirsts | lib/tools/web-search.ts:113-126 | de-duplication keeps exactly the first result of each url, in the order of those first results |
| WebSearch.DedupDistinct | lib/tools/web-search.ts:113-126 | no url is kept twice |
| WebSearch.DedupMonotone | lib/tools/web-search.ts:113-126 | de-duplicating a longer list only adds results at the end |
| WebSearch.KeptShape | lib/tools/web-search.ts:116-126 | de-duplicating and capping usable results keeps at most `n` of them, all usable, with distinct urls, each one of the input |
| WebSearch.KeptUsable | lib/tools/web-search.ts:122 | only results with both a url and a title are kept |
| WebSearch.KeptExactly | lib/tools/web-search.ts:116-126 | what is kept is exactly the usable conversions of the matches |
| WebSearch.KeptMonotone | lib/tools/web-search.ts:116-126 | looking at more matches only adds to the end of what is kept |
| WebSearch.KeptCapped | lib/tools/web-search.ts:116-126 | stopping at 15 results, or at the end of the matches, gives the first 15 de-duplicated results of all matches |
| WebSearch.KeepFirstResults | lib/tools/web-search.ts:113-128 | the loop returns the first 15 de-duplicated usable results of all its matches |
| WebSearch.ExtractHtmlResults | lib/tools/web-search.ts:105-129 | the result of `extractHtmlResults` for the page's matches |
| WebSearch.HtmlResultsShape | lib/tools/web-search.ts:105-129 | at most 15 results, each with a url and a title, no url twice, each one of the page's candidates |
| WebSearch.CollectKept | lib/tools/web-search.ts:150-156 | the link loop keeps exactly the usable converted matches, in match order |
| WebSearch.CollectLinks | lib/tools/web-search.ts:150-156 | the usable links of the lite page |
| WebSearch.NormalizedSnippets | lib/tools/web-search.ts:158-160 | one normalised snippet per snippet match, at the same position |
| WebSearch.CollectSnippets | lib/tools/web-search.ts:158-160 | the snippet loop normalises every snippet match |
| WebSearch.PairedEntries | lib/tools/web-search.ts:163-172 | result `j` pairs link `j` with snippet `j`, or with "" when there is none |
| WebSearch.PairByPosition | lib/tools/web-search.ts:162-174 | the zip loop returns the de-duplicated pairs of the first `min(links, 15)` links |
| WebSearch.ExtractLiteResults | lib/tools/web-search.ts:135-175 | the result of `extractLiteResults` for the page's link and snippet matches |
| WebSearch.PairedShape | lib/tools/web-search.ts:163-172 | pairing usable links with snippets gives usable results, one per link |
| WebSearch.LiteResultsShape | lib/tools/web-search.ts:135-175 | at most 15 results, each with a url and a title, no url twice, each the pair of a link with its snippet |
| WebSearch.DecimalValue | lib/tools/web-search.ts:205-207 | the status code is written as decimal digits whose value is the code, with no leading zero |
| WebSearch.Retrieve | lib/tools/web-search.ts:184-213 | a request succeeds exactly when a response arrived with a 2xx status and no anti-bot marker, and then yields the page's captures; it fails with the timeout error exactly when aborted; a network failure gives its own message |
| WebSearch.FetchHtml | lib/tools/web-search.ts:180-216 | fails exactly when the request does, with the same error; otherwise at most 15 results |
| WebSearch.FetchLite | lib/tools/web-search.ts:221-254 | fails exactly when the request does, with the same error; otherwise at most 15 results |
| WebSearch.Search | lib/tools/web-search.ts:279-289 | a successful html request decides the answer; otherwise the answer succeeds exactly when the html request was not aborted and the lite one succeeds; an aborted html request gives the timeout error; at most 15 results |
| WebSearch.Execute | lib/tools/web-search.ts:259-335 | the answer echoes the query; a found answer has between 1 and `maxResults` results (5 by default) and counts them; the no-results answer carries its message; an aborted html request answers with the timeout error |
| WebSearch.LiteOnlyAsFallback | lib/tools/web-search.ts:280-289 | when the html endpoint succeeds, the lite response does not matter and the answer is a success |
| WebSearch.HtmlErrorDiscarded | lib/tools/web-search.ts:282-288 | when the html endpoint throws without an abort, its error does not matter: the lite endpoint alone decides |
| WebSearch.ExecuteTruncates | lib/tools/web-search.ts:293-309 | the no-results answer is given exactly when the endpoint returned nothing; otherwise the answer holds the first `min(found, maxResults)` results |
| WebSearch.ExecuteErrors | lib/tools/web-search.ts:180-254 | after the html endpoint throws: the lite abort gives the timeout error, an anti-bot page the blocked error, a non-2xx status `HTTP <status>`, and a network failure its own message |
| WebSearch.SearchWellFormed | lib/tools/web-search.ts:180-254 | whichever endpoint answers, its results are usable with distinct urls |
| WebSearch.ExecuteResultsWellFormed | lib/tools/web-search.ts:272-335 | every result the tool returns has a url and a title, and no url is returned twice |
| RateLimit.Admit | lib/rate-limit.ts:6-40 | the stored record keeps a count between 1 and 20; a request is admitted exactly when it opens a new window or counts one more in the current window; an admitted request reports the remaining room; a refused request leaves the record unchanged with 0 remaining; `resetIn` is the time left in the window |
| RateLimit.AdmitOpensWindow | lib/rate-limit.ts:14-24 | with no record or an ended window, a one-minute window opens with one request and 19 remaining |
| RateLimit.AdmitWithinWindow | lib/rate-limit.ts:26-39 | inside the window the window end is kept; a full record is refused unchanged; otherwise the count goes up by one |
| RateLimit.AtMostMaxPerWindow | lib/rate-limit.ts:6-40 | within one window, no more requests are admitted than 20 minus the count already stored |
| RateLimit.Unexpired | lib/rate-limit.ts:42-49 | exactly the records whose window has not ended, unchanged |
| RateLimit.RateLimiter.constructor | lib/rate-limit.ts:1 | the limiter starts with no records |
| RateLimit.RateLimiter.RateLimit | lib/rate-limit.ts:6-40 | the answer is `Admit` of the identifier's stored record; only that identifier's record changes |
| RateLimit.RateLimiter.Sweep | lib/rate-limit.ts:42-49 | afterwards exactly the unexpired records remain |
| ChatRoute.EstimateTokens | app/api/chat/route.ts:20-22 | the estimate is the text length divided by four, rounded up |
| ChatRoute.PartTexts | app/api/chat/route.ts:25-31 | one text per part: its text, else its input, else its output, else "" |
| ChatRoute.MessageText | app/api/chat/route.ts:24-33 | a message's text is as long as its parts' texts plus one space between each pair of neighbouring parts; a message of one part is that part's text |
| ChatRoute.TruncateMessages | app/api/chat/route.ts:35-55 | the result is the newest messages, in their order; it is empty only when there are no messages; it fits the budget unless it is the newest message alone; the message just before it would not have fit |
| ChatMessage.GetToolName | components/chat/chat-message.tsx:26-31 | a named dynamic tool gives its name, or "unknown" when the name is empty; a `tool-` type gives what follows `tool-`; any other type is kept |
| ChatMessage.ToolPartTypes | components/chat/chat-message.tsx:15-24 | a part is a tool part exactly when its type is `dynamic-tool` or starts with `tool-` |
| ChatMessage.ToolNameOfTypedPart | components/chat/chat-message.tsx:15-31 | a part of type `tool-x` is a tool part and is named `x` |
| ChatMessage.UnnamedDynamicTool | components/chat/chat-message.tsx:26-31 | a dynamic tool without a name keeps `dynamic-tool` as its name |
| ChatMessage.MapToolState | components/chat/chat-message.tsx:33-47 | `partial-call` exactly for `input-streaming`; `result` exactly for the two output states; `call` for every other state |
| ChatMessage.ToolResult | components/chat/chat-message.tsx:133-143 | a result is shown only in the result state: the output when present, otherwise an object holding the error text |
| LocalChatStore.Retitled | lib/indexed-db-chat.ts:52-61 | the same sessions in the same order; each session with the given id gets the new title and every other session keeps its title |
| LocalChatStore.Without | lib/indexed-db-chat.ts:63-68 | no session with the id remains; every other session is kept |
| LocalChatStore.WithoutAppend | lib/indexed-db-chat.ts:63-68 | filtering keeps the relative order of the sessions it keeps |
| LocalChatStore.LocalStore.constructor | lib/indexed-db-chat.ts:1-21 | the store holds the given entries |
| LocalChatStore.LocalStore.Sessions | lib/indexed-db-chat.ts:27-30 | no stored list means no sessions |
| LocalChatStore.LocalStore.Session | lib/indexed-db-chat.ts:32-37 | the first listed session with the id, or none when no listed session has it |
| LocalChatStore.LocalStore.Messages | lib/indexed-db-chat.ts:70-77 | no stored list means no messages |
| LocalChatStore.LocalStore.CreateLocalSession | lib/indexed-db-chat.ts:39-50 | the new session, titled "New Chat" unless a title is given, is appended to the session list; nothing else changes |
| LocalChatStore.LocalStore.UpdateLocalSessionTitle | lib/indexed-db-chat.ts:52-61 | the session list is replaced by its retitled version; nothing else changes |
| LocalChatStore.LocalStore.DeleteLocalSession | lib/indexed-db-chat.ts:63-68 | the session leaves the list and its message list is deleted; nothing else changes |
| LocalChatStore.LocalStore.AddLocalMessage | lib/indexed-db-chat.ts:79-96 | the new message is appended to its session's list; nothing else changes |
| LocalChatStore.LocalStore.GetAllLocalData | lib/indexed-db-chat.ts:98-110 | the session list, and for exactly the listed session ids their message lists |
| LocalChatStore.LocalStore.ClearAllLocalData | lib/indexed-db-chat.ts:112-122 | the session list and every message list are deleted; every other key is kept |
| LocalChatStore.FirstWithId | lib/indexed-db-chat.ts:35 | the first session in the list with the id, or none when none has it |
| LocalChatStore.AddLeavesOtherSessions | lib/indexed-db-chat.ts:79-96 | adding a message extends its own session's list by it and leaves every other session's messages as they were |
| LocalChatStore.DeleteRemovesSession | lib/indexed-db-chat.ts:63-68 | after a delete no listed session has the id and it has no messages; no other key appears or disappears |
| ConvexDb.Ascending | convex/chat.ts:41-45 | an indexed query answers exactly the stored documents it selects, each as stored, in increasing id order |
| ConvexDb.Descending | convex/chat.ts:11-15 | the same documents in decreasing id order |
| ConvexDb.AscendingIgnoresRemoved | convex/chat.ts:89-98 | deleting documents a query does not select leaves its answer unchanged |
| ConvexDb.DeletedFirstAll | convex/cleanup.ts:82-85 | deleting listed documents one by one deletes exactly their ids |
| ConvexDb.Database.constructor | convex/schema.ts:1-34 | the database holds the given tables, with every id below the counter |
| ConvexDb.Database.InsertSessionDoc | convex/chat.ts:55-59 | a fresh insert: the session goes under the next id, which is returned |
| ConvexDb.Database.InsertMessageDoc | convex/chat.ts:118-125 | a fresh insert: the message goes under the next id, which is returned |
| ConvexDb.Database.DeleteMessageDocs | convex/chat.ts:94-96 | exactly the listed messages are deleted; the count is the number of records removed; the other tables are unchanged |
| ConvexChat.GetSessions | convex/chat.ts:5-17 | without a caller, nothing; otherwise only the caller's sessions, as stored, newest first |
| ConvexChat.GetSessionsComplete | convex/chat.ts:5-17 | every session of the caller is listed |
| ConvexChat.GetSession | convex/chat.ts:19-30 | the session exactly when the caller owns it |
| ConvexChat.GetMessages | convex/chat.ts:32-47 | nothing unless the caller owns the session; otherwise only that session's messages, as stored, oldest first |
| ConvexChat.SessionMessages | convex/chat.ts:41-45 | the `by_session` index lists exactly the session's messages, in id order |
| ConvexChat.GetMessagesComplete | convex/chat.ts:32-47 | every message of an owned session is listed |
| ConvexChat.CreateSession | convex/chat.ts:49-61 | without a caller, "Unauthorized" and no change; otherwise one new session of the caller, titled "New Chat" unless a title is given, and its id |
| ConvexChat.UpdateSessionTitle | convex/chat.ts:63-76 | unless the caller owns the session, the owner-check error and no change; otherwise only the title of that session changes |
| ConvexChat.DeleteSession | convex/chat.ts:78-100 | unless the caller owns the session, the owner-check error and no change; otherwise the session and all its messages are removed and nothing else |
| ConvexChat.DeleteSessionEffect | convex/chat.ts:78-100 | after a delete the session is not found and lists no messages; every other session lists the same messages as before |
| ConvexChat.AddMessage | convex/chat.ts:102-127 | unless the caller owns the session, the owner-check error and no change; otherwise one new message of the caller in that session, with no attachments, and its id |
| ConvexChat.UpdateMessage | convex/chat.ts:129-149 | unless the caller wrote the message, "Unauthorized" or "Message not found" and no change; otherwise only its content and tool invocations change |
| ConvexChat.SyncMessagesGrowth | convex/chat.ts:190-200 | importing messages adds exactly that many records, all the user's, and keeps every existing record |
| ConvexChat.SyncSessionGrowth | convex/chat.ts:182-203 | importing one local session adds one session and one message per local message stored under its id, all the user's |
| ConvexChat.SyncedGrowth | convex/chat.ts:182-203 | importing the local sessions adds one session per local session and one message per stored local message, all the user's, and keeps every existing record |
| ConvexChat.ExtendsTrans | convex/chat.ts:182-203 | the "keeps every record and adds only the user's" relation composes |
| ConvexChat.ImportMessages | convex/chat.ts:190-200 | the inner loop inserts the local messages, in order, into the session as the user's |
| ConvexChat.ImportSession | convex/chat.ts:183-202 | one pass of the session loop inserts the session and then its messages; the count is the number of messages inserted |
| ConvexChat.SyncFromLocal | convex/chat.ts:166-207 | without a caller, "Unauthorized"; for an anonymous caller, "Cannot sync to anonymous user"; neither changes anything; otherwise every local session and message is imported and the counts are reported |
| ConvexCleanup.SessionQueryComplete | convex/cleanup.ts:67-70 | the `by_user` query lists every session of the user, so deleting what it lists leaves exactly the other users' sessions |
| ConvexCleanup.AttachmentQueryComplete | convex/cleanup.ts:91-94 | the same for the user's attachments |
| ConvexCleanup.SessionMessagesDeleted | convex/cleanup.ts:77-85 | deleting what the `by_session` query lists leaves exactly the messages of other sessions |
| ConvexCleanup.OutsideFirstAll | convex/cleanup.ts:76-89 | deleting messages session by session deletes the messages of all those sessions |
| ConvexCleanup.DeleteSessionWithMessages | convex/cleanup.ts:77-88 | one pass of the session loop removes the session and exactly its messages; the count is the number of messages removed |
| ConvexCleanup.DeleteUserSessions | convex/cleanup.ts:67-89 | every session of the user and every message of those sessions is deleted and nothing else; the counts are the records removed |
| ConvexCleanup.DeleteUserAttachments | convex/cleanup.ts:91-102 | every attachment record of the user is deleted, whether or not its file could be deleted; the count is the records removed |
| ConvexCleanup.DeleteUserData | convex/cleanup.ts:64-106 | the user's sessions, their messages and the user's attachments are gone and nothing else is; each count is the number of records removed from its table |
| ConvexCleanup.NothingOfUserRemains | convex/cleanup.ts:64-106 | afterwards no session of the user and no message of a deleted session remains, while every other user's session does |
| ConvexCleanup.Without | convex/cleanup.ts:134-136 | the ids not removed, each from the list; a list that mentions no removed id is kept unchanged |
| ConvexCleanup.WithoutTwice | convex/cleanup.ts:127-142 | filtering out two sets in turn is filtering out their union |
| ConvexCleanup.Prune | convex/cleanup.ts:133-140 | a patched list holds no removed id and is never left empty, unless it was empty and untouched |
| ConvexCleanup.PruneStep | convex/cleanup.ts:121-146 | removing one more id after a set is removing both at once |
| ConvexCleanup.DetachedAll | convex/cleanup.ts:127-142 | every message is kept, with the removed ids pruned from its attachments |
| ConvexCleanup.DetachedAllStep | convex/cleanup.ts:121-146 | detaching ids one after another composes |
| ConvexCleanup.DetachOne | convex/cleanup.ts:133-140 | a list without the id is left alone; otherwise it is the filtered list, or none when the id was all it held |
| ConvexCleanup.PatchedFirstIsDetached | convex/cleanup.ts:132-142 | patching the listed messages one by one detaches exactly those |
| ConvexCleanup.PatchedAll | convex/cleanup.ts:127-142 | patching every message with attachments detaches the id from all messages |
| ConvexCleanup.PatchListed | convex/cleanup.ts:132-142 | the patch loop patches each listed message holding the id; no message is added or removed |
| ConvexCleanup.DetachEverywhere | convex/cleanup.ts:127-142 | afterwards every message has the id pruned from its attachments |
| ConvexCleanup.ExpireAttachment | convex/cleanup.ts:127-145 | one attachment leaves every message and then the table |
| ConvexCleanup.Unexpired | convex/cleanup.ts:113-116 | exactly the attachments created at or after the cutoff, unchanged |
| ConvexCleanup.ExpiredComplete | convex/cleanup.ts:113-116 | the query lists every expired attachment, so after the loop exactly the unexpired ones remain |
| ConvexCleanup.DetachedFirstAll | convex/cleanup.ts:121-146 | detaching the listed ids one after another detaches all of them |
| ConvexCleanup.FreedAtMostTotal | convex/cleanup.ts:122-125 | the freed bytes never exceed the listed sizes, and equal them when no file deletion fails |
| ConvexCleanup.ExpireListed | convex/cleanup.ts:121-146 | the listed attachments leave the table and every message; the freed bytes are the sizes of the files deleted; the count is the records removed |
| ConvexCleanup.CleanupExpiredFiles | convex/cleanup.ts:108-150 | every attachment older than seven days is deleted and no other; its id leaves every message's list and an emptied list is dropped; the file count is the records removed and the byte count adds up the files actually deleted |
| ConvexCleanup.NoDanglingAttachments | convex/cleanup.ts:127-142 | no message's list holds a deleted id, and a list is empty only if it was empty before |
| TextUtils.SplitPiecesHaveNoSpace | lib/tools/text-utils.ts:37 | the pieces of `split(/\s+/)` hold no whitespace |
| TextUtils.SplitJoined | lib/tools/text-utils.ts:37 | splitting words joined by single spaces gives the words back |
| TextUtils.WordCount | lib/tools/text-utils.ts:33-38 | the count is the number of positions where a word starts: a non-whitespace character at the start or after whitespace |
| TextUtils.WordCountOfWords | lib/tools/text-utils.ts:33-38 | text of `n` words separated by single spaces counts `n` words |
| TextUtils.CountUnpadded | lib/tools/text-utils.ts:37 | trimming does not change the count of text with no whitespace at either end |
| TextUtils.BlankHasNoWords | lib/tools/text-utils.ts:33-38 | empty or blank text counts 0 words |
| TextUtils.CharCount | lib/tools/text-utils.ts:40-46 | `withSpaces` is the length; `withoutSpaces` is no larger, and equal exactly when the text has no whitespace |
| TextUtils.KeepDropsSpace | lib/tools/text-utils.ts:45 | removing whitespace shortens text that has any |
| TextUtils.Reverse | lib/tools/text-utils.ts:65-70 | the same length, with character `i` taken from position `n-1-i` |
| TextUtils.ReverseInvolution | lib/tools/text-utils.ts:65-70 | reversing twice gives the text back |
| TextUtils.Truncate | lib/tools/text-utils.ts:96-104 | text within the limit is unchanged; longer text keeps its first `maxLength` characters (none for a negative limit) followed by `...` |
| TextUtils.ToLower | lib/tools/text-utils.ts:51-52 | the same length, no upper-case letter left, only letter case changed |
| TextUtils.ToUpper | lib/tools/text-utils.ts:48-49 | the same length, no lower-case letter left, only letter case changed |
| TextUtils.TitleCase | lib/tools/text-utils.ts:54-63 | only letter case changes; text starting with a word character starts with its capital |
| TextUtils.TitleCaseAt | lib/tools/text-utils.ts:54-63 | a word character at the start of the text or after whitespace becomes its capital; a character after a word character, other than whitespace, becomes lower case |
| TextUtils.TitleCaseWord | lib/tools/text-utils.ts:58-62 | a word starting with a word character becomes its capital followed by the lower-cased rest |
| TextUtils.Slugify | lib/tools/text-utils.ts:84-94 | the slug holds only lower-case word characters and dashes, never two dashes in a row |
| TextUtils.SlugChars | lib/tools/text-utils.ts:88-93 | after the replacements the text holds only slug characters, has no whitespace to trim, and has no two dashes in a row |
| TextUtils.SlugifyLeadingSpace | lib/tools/text-utils.ts:88-93 | leading whitespace becomes a dash that the trim does not remove |
| TextUtils.Execute | lib/tools/text-utils.ts:30-114 | base64 encoding fails exactly on text with a character above U+00FF; no operation other than the two decoders and the base64 encoder fails |
| TextUtils.Base64RoundTrip | lib/tools/text-utils.ts:72-76 | decoding the tool's base64 encoding of a Latin-1 text gives the text |
| TextUtils.UrlRoundTrip | lib/tools/text-utils.ts:78-82 | decoding the tool's URL encoding of any text gives the text |
| Base64.EncodeGroups | lib/tools/text-utils.ts:73 | four alphabet characters per three bytes, then two or three for a final one or two bytes |
| Base64.Btoa | lib/tools/text-utils.ts:73 | defined exactly for Latin-1 text; the encoding's length is a multiple of four |
| Base64.DecodeGroups | lib/tools/text-utils.ts:76 | decoded characters all stand for bytes |
| Base64.Atob | lib/tools/text-utils.ts:75-76 | after ASCII whitespace and up to two final `=` are dropped, decoding fails exactly when a character is outside the alphabet or the length leaves one character over; a success is Latin-1 text of three characters per four |
| Base64.DecodeEncodeGroups | lib/tools/text-utils.ts:73-76 | the groups decode back to the bytes they encode |
| Base64.AtobBtoa | lib/tools/text-utils.ts:73-76 | `atob(btoa(s)) == s` for every text `btoa` accepts |
| Uri.EncodeURIComponent | lib/tools/text-utils.ts:79 | the encoding holds only unescaped characters, `%` and hexadecimal digits |
| Uri.DecodeURIComponent | lib/tools/web-search.ts:35 | text without `%` decodes to itself |
| Uri.Utf8Decodes | lib/tools/text-utils.ts:79-82 | the UTF-8 bytes of a code point form a sequence the decoder accepts and maps back to it |
| Uri.DecodeEncodedChar | lib/tools/text-utils.ts:79-82 | decoding one encoded character, then more, is that character followed by decoding the rest |
| Uri.DecodeEncode | lib/tools/text-utils.ts:79-82 | `decodeURIComponent(encodeURIComponent(s)) == s` |
| Strings.Contains | lib/tools/web-search.ts:30 | true exactly when the pattern occurs somewhere |
| Strings.FirstIndex | lib/tools/web-search.ts:45 | the first position of the character, or the length when it is absent |
| Strings.Split | lib/tools/web-search.ts:45 | at least one piece, no piece holds the separator, and joining the pieces with the separator gives the text back |
| Strings.ReplaceFirst | lib/tools/web-search.ts:45 | a leading pattern is replaced; text without the pattern is unchanged |
| Strings.ReplaceFirstAt | lib/tools/web-search.ts:45 | the first occurrence of the pattern, wherever it is, is replaced and everything else is kept |
| Strings.Trim | lib/tools/web-search.ts:87 | no whitespace at either end; text without whitespace is unchanged |
| Strings.TrimRemovesOuterSpace | lib/tools/web-search.ts:87 | the text is whitespace, then the trimmed text, then whitespace: trimming removes only whitespace and only at the ends |
| Strings.CollapseRuns | lib/tools/web-search.ts:86 | empty exactly for empty text; after collapsing, no two run characters are adjacent |
| Strings.CollapseRunsAt | lib/tools/web-search.ts:86 | a run of whitespace after text without whitespace becomes one space, and the rest is collapsed in turn |
| Strings.CollapseThenTrim | lib/tools/web-search.ts:86-87 | collapsing whitespace then trimming leaves no whitespace at the ends, none adjacent, and only plain spaces |
| Strings.Keep | lib/tools/text-utils.ts:45 | only kept characters remain, and every kept character of the text is in the result; text made only of kept characters is unchanged |
| Strings.KeepAppend | lib/tools/text-utils.ts:45 | filtering a concatenation filters each part |
| SearchParams.Lookup | lib/tools/web-search.ts:33 | a value exactly when some pair has the name, and then it is the value of the first such pair |
| SearchParams.Get | lib/tools/web-search.ts:32-33 | no query gives no value; otherwise a value exactly when some parsed pair has the name |
| SearchParams.Utf8WellFormed | lib/tools/web-search.ts:33 | the UTF-8 bytes of a code point form a sequence the form decoder accepts and assembles back into it |
| SearchParams.DecodeUtf8Bytes | lib/tools/web-search.ts:33 | the UTF-8 bytes of any text decode back to the text |
| SearchParams.PercentDecodeEncoded | lib/tools/web-search.ts:33 | percent-decoding `encodeURIComponent(s)` gives the UTF-8 bytes of `s` |
| SearchParams.FormDecodeEncoded | lib/tools/web-search.ts:33 | form-decoding `encodeURIComponent(s)` gives `s` |

## Left out

- Strings are modelled as sequences of Unicode scalar values, not UTF-16 code units. `length`, `substring` and `reverse` therefore count code points, and lone surrogates do not occur.
- The regular-expression scans of the result pages (`web-search.ts:111-112`, `140-143`) are inputs to the model, given as their captured groups. The model does not define the patterns themselves.
- `fetch`, the abort timer and `getRandomUserAgent` (`web-search.ts:18-20`) are replaced by the outcome of each request, which the model takes as a parameter. The headers sent are not modelled.
- `console.warn` logging is not modelled.
- `URL` parsing is not modelled beyond the query. Every href is resolved against the base, and only the part after `?` and before `#` is read.
- The JSON text of a tool part's input and output is taken as given. `JSON.stringify` is not modelled.
- `toUpperCase` and `toLowerCase` are modelled on ASCII letters only. Every other character is kept unchanged, and special casings such as `ß` are not modelled.
- TextUtils.Execute: a failure carries no message. The host's error text is not modelled, and neither is the unreachable `Unknown operation` branch (`text-utils.ts:106-107`), since the operation is a closed enumeration.
- Id generation (`indexed-db-chat.ts:23-25`) and `Date.now()` are parameters of the operations that use them.
- JavaScript numbers are modelled as integers; fractions and floating-point rounding are not modelled.
  - `maxResults` (`web-search.ts:265-270`) and `maxLength` (`text-utils.ts:25-27`) are whole numbers in the model. A fractional value in the source acts as its floor, because `slice` and `substring` truncate their bounds and `text.length > m` compares an integer length. The model covers exactly those floored values.
  - Attachment sizes (`convex/schema.ts:28`) are natural numbers in the model: the byte sizes of stored files. The schema accepts any number the client reports, and `deletedBytes` (`convex/cleanup.ts:124`) is a floating-point sum in the source. Timestamps are integers too.
- FreedAtMostTotal: the bound "freed bytes never exceed the listed sizes" relies on sizes being natural numbers. If a file whose deletion fails had a negative client-reported size, the bytes freed in the source could exceed the total of the listed sizes.
- IndexedDB keys are strings. A stored value of another shape reads as absent.
- Browser transactions, the asynchrony of IndexedDB, and the backend's concurrency and transaction isolation are not modelled. Each handler runs atomically on one `Database`.
- The Convex query builder is modelled by its meaning: an index query answers the selected documents in id order. Document ids are numbers from one counter, not opaque strings.
- Authentication is the caller identity, passed as a parameter.
- File storage is modelled only by whether deleting a file fails, given as the set `failing`. File contents are not modelled.
- `cleanupAnonymousUsers` (`convex/cleanup.ts:7-62`) is not modelled. It depends on the external authentication adapter's tables and on scheduling.
- The module-level `setInterval` of the rate limiter is left out. Its body is `RateLimiter.Sweep`, which takes the current time as a parameter.
- The request handler `POST` of the chat endpoint is outside the core.
- The model follows the code where it differs from the behaviour one might expect:
  - `normalizeText` can return a `<` that came from `&lt;` (`WebSearch.NormalizeKeepsEscapedBracket`).
  - `slugify` keeps a leading or trailing dash, because its final `trim` removes only whitespace (`TextUtils.SlugifyLeadingSpace`).
  - `cleanUrl` returns the decoded `uddg` value even when it is a relative path.
  - `cleanUrl` decodes the destination twice: `searchParams.get` already percent-decodes it, and `decodeURIComponent` decodes the result again. A destination that itself holds `%20` comes back with a space (`WebSearch.CleanUrlDecodesTwice`).
