# rnux provider layer in Dafny

rnux is a keyboard-driven launcher. The user types a query, and every registered provider
("feature") answers it with a list of result records (`FeatureItem`: title, subtitle, icon,
data, type). The window shows the results in one list; activating a row sends its item back to
the provider that produced it.

This project models that provider layer and proves properties of it:

- **The dispatcher** (`MainWindow`, mainwindow.dfy). It registers the providers and merges
  their answers, tagging each result with its origin. It routes an activated row back to its
  provider, and it holds the 50 ms debounce decision of the query field.
- **Web search** (`WebSearch`, search.dfy). A fixed table of engines is chosen by a shortcut
  prefix. Result URLs are built by percent-encoding the query, as section 2.1 of RFC 3986
  (`Percent`) describes.
- **Package-registry lookups** (also `WebSearch`). The npm, crates.io and GitHub providers send
  debounced API requests, with at most one reply outstanding. Replies are parsed into items.
  A 24-hour cache stores them, keyed `type:query`, with a 250-entry cap. The model also covers
  the compact file format the cache is stored in.
- **The clipboard history** (`Clipboard`, clipboard.dfy). It has text and image entries, newest
  first, with duplicate checks and per-kind caps. It also has an alias-gated search, activation
  by key, and a history file whose fields are sealed by an XOR keystream cipher with an IV and
  an HMAC tag (`ClipboardCipher`). Stored fields are base64-encoded (`Base64`), and texts
  become bytes through UTF-8 (`Utf8`).
- **The application index** (`AppLauncher`). Desktop entries are filtered, de-duplicated and
  sorted into a catalog. Queries are ranked with a weighted subsequence matcher.
- **The system commands** (`SystemCommands`). A fixed table is searched with a simpler matcher
  whose score has a closed form.
- **The calculator's input gate** (`Calculator`).

Shared modules:

| module | contents |
|---|---|
| `Feature` | the result record. Its structural equality matches the record's `operator==`. |
| `Json` | parsed JSON documents, with the forgiving accessors of QJsonValue |
| `Text` | the parts of QString that are used |
| `Sorting` | the contract of `std::sort`: an ordered permutation |
| `Ranking` | the score, sort and take-n step shared by the two matchers |
| `Subsequence` | the greedy scan both matchers perform, proved equivalent to "the query is a subsequence of the text" |

What stands in for the environment:

- **Providers.** The dispatcher reaches each provider only through its search and execute
  operations. These are function parameters (`Searcher`).
- **Hashing.** SHA-256 and HMAC-SHA-256 are function parameters returning 32 bytes.
- **Randomness.** The random IVs are parameters.
- **Clock.** The current time is a parameter, in seconds for the search cache and as ISO-8601
  text for clipboard timestamps. setCachedResults and cleanupCache each read the clock, so
  storing a search result takes two readings, `now` and `cleanupNow`, with no order assumed
  between them.
- **Files and network.** The history file, the cache file and network replies are parsed
  JSON values.
- **Images.** Image storage and image equality are a stored path and a predicate.
- **Bytes.** A byte is an integer from 0 to 255.

Some code departs from the evident design. The model follows the code in each case, and a lemma
states the behaviour:

- **Trim loops keep the oldest.** The clipboard's trim loops count entries from the tail of
  the history. So they drop the newest surplus entries, and once 500 texts (or 100 images)
  are held, a new copy is dropped at once: `TextLimitFreezes`, `ImageInsertionSpec`.
- **Cache eviction.** `cleanupCache` removes at most one entry, and loading the cache file
  calls it once: `EvictionRemovesAtMostOne`.
- **Reply routing.** An API reply is routed by a substring of its URL, and that URL contains
  the query. So a crates.io search for `registry.npmjs.org` is parsed and cached as npm:
  `QueryTextSteersRouting`.
- **Cache key of a reply.** A reply is cached under the query that is active when it arrives.
  That may not be the query it was requested for.
- **Placeholder stripping.** Stripping `%X` placeholders from a desktop entry's `Exec` does
  not re-scan the text after a deletion, so `%%ff` becomes `%f`: `StripDoesNotRescan`.
- **Clipboard search case.** The clipboard search compares the remainder as typed against the
  lower-cased preview. So a remainder with an upper-case letter finds nothing:
  `UpperCaseFindsNothing`.

## Model

| member | source | states |
|---|---|---|
| Utf8.Encode | src/features/clipboard.cpp:75 | toUtf8 gives at least one byte per character and is empty only for the empty text |
| Utf8.EncodeAppend | src/features/clipboard.cpp:75 | toUtf8 works character by character: the bytes of a concatenation are the bytes of its parts |
| Utf8.DecodeFrom | src/features/clipboard.cpp:128 | the decoding loop of fromUtf8: never fails and gives at most one character per byte (DecodeFromEncode) |
| Utf8.Decode | src/features/clipboard.cpp:128 | QString::fromUtf8 never fails, skips EF BB BF at byte 0 (Qt's UTF-8 decoder does), and gives at most one character per remaining byte |
| Utf8.DecodeFromEncode | src/features/clipboard.cpp:128 | the decoding loop inverts toUtf8 on every string |
| Utf8.EncodeLeadsWithBom | src/features/clipboard.cpp:75 | toUtf8 of a text starts with EF BB BF exactly when the text starts with U+FEFF |
| Utf8.DecodeEncode | src/features/clipboard.cpp:128 | fromUtf8(toUtf8(s)) is s less a leading U+FEFF, and so s itself for every string that does not start with U+FEFF |
| Utf8.BomDropped | src/features/clipboard.cpp:128 | a leading U+FEFF is lost by toUtf8 then fromUtf8 |
| Utf8.DropBom | src/features/clipboard.cpp:128 | the text less its leading U+FEFF, if any; all other text is unchanged |
| Base64.DecodeEncode | src/features/clipboard.cpp:345 | fromBase64 (the lenient bit accumulator) inverts toBase64 for every byte string |
| Base64.Encode | src/features/clipboard.cpp:317-318 | toBase64 writes four characters per group of up to three bytes, so the text is 4 * ceil(n / 3) characters long |
| ClipboardCipher.DeriveKey | src/features/clipboard.cpp:62-68 | the key is password + salt hashed 10000 times, and is 32 bytes long |
| ClipboardCipher.Extended | src/features/clipboard.cpp:83-86 | the grown key is at least as long as needed and starts with the original key |
| ClipboardCipher.ExtendKey | src/features/clipboard.cpp:117-120 | the key-growing loop yields the extended key |
| ClipboardCipher.XorBitsTwice | src/features/clipboard.cpp:90 | XOR of the low n bits with the same value twice gives them back |
| ClipboardCipher.XorTwice | src/features/clipboard.cpp:123-126 | applying the IV-mixed keystream twice gives the data back |
| ClipboardCipher.Cipher | src/features/clipboard.cpp:88-91 | the XOR loop gives byte i as data[i] XOR key[i] XOR iv[i mod 16] |
| ClipboardCipher.Seal | src/features/clipboard.cpp:70-97 | what encrypt stores: the UTF-8 bytes when encryption is off or the text empty, else the HMAC tag, the IV and the keystream-XOR-ed bytes (SealShape, OpenSeal) |
| ClipboardCipher.Open | src/features/clipboard.cpp:99-129 | what decrypt reads: the UTF-8 text of the input when encryption is off, the input is shorter than 48 bytes or the tag does not match, else the deciphered UTF-8; every path ends in fromUtf8, so a leading byte order mark is skipped (OpenSeal, OpenFallback) |
| ClipboardCipher.Encrypt | src/features/clipboard.cpp:70-97 | encrypt returns the sealed form: plain UTF-8 when disabled or empty, else tag, IV and ciphertext |
| ClipboardCipher.Decrypt | src/features/clipboard.cpp:99-129 | decrypt returns the opened form, falling back to UTF-8 on every failure |
| ClipboardCipher.SealShape | src/features/clipboard.cpp:93-96 | a sealed non-empty text is 48 + UTF-8 length bytes, IV at 32..48, and the tag is the MAC of the rest under the key |
| ClipboardCipher.OpenSeal | src/features/clipboard.cpp:114-128 | decrypt(encrypt(p)) is p less a leading U+FEFF for every key, IV, hash, MAC and setting, and so p itself when p does not start with U+FEFF |
| ClipboardCipher.OpenFallback | src/features/clipboard.cpp:99-112 | input shorter than 48 bytes or with a wrong tag reads as its UTF-8 text; a short stored text survives enabling encryption, less a leading U+FEFF |
| Percent.EncodeByte | src/features/search.cpp:129 | an unreserved byte is kept as its character; any other becomes '%' and two upper-case hex digits |
| Percent.PercentEncode | src/features/search.cpp:129 | QUrl::toPercentEncoding: the UTF-8 bytes of the text, unreserved bytes as themselves and every other as %XX (EncodingAlphabet, PercentEncodeInverse, PercentEncodeAppend) |
| Percent.PercentEncodeAppend | src/features/search.cpp:184 | the encoding of a concatenation is the concatenation of the encodings |
| Percent.EncodingAlphabet | src/features/search.cpp:129 | an encoding holds only unreserved characters, '%' and upper-case hex digits |
| Percent.DecodeEncodeBytes | src/features/search.cpp:129 | percent-decoding an encoding gives the bytes back |
| Percent.PercentEncodeInverse | src/features/search.cpp:129 | the percent-encoding of a text determines the text: its bytes go back through the UTF-8 decoding loop to the text |
| Percent.SpaceIsEscaped | src/features/search.cpp:129 | every space of any text, wherever it stands, is encoded as %20 and the text around it is encoded as it would be alone |
| Percent.UnreservedUnchanged | src/features/search.cpp:184 | text of unreserved characters is its own encoding |
| Text.Trim | src/features/search.cpp:162 | trimmed text neither starts nor ends with white space, and is empty exactly for all-white-space text |
| Text.TrimRemovesSpaceEnds | src/features/search.cpp:162 | trimmed removes white space at the two ends and nothing else |
| Text.NatToStringValue | src/features/search.cpp:250 | the decimal digits of a number read back as that number |
| Json.ToInt | src/features/search.cpp:369 | toInt gives the number when it fits in 32 bits, else 0 |
| Feature.TakeAtMost | src/features/app_launcher.cpp:11 | mid(0, n) is the prefix of length min(n, size) |
| Sorting.InsertionSort | src/features/app_launcher.cpp:70-73 | the std::sort contract: the result is sorted by the total preorder and is a permutation of the input |
| Ranking.ScoredMembers | src/features/app_launcher.cpp:17-21 | a pair is scored exactly when its item is a candidate whose title scores that positive score |
| Ranking.Scored | src/features/app_launcher.cpp:17-21 | the (item, score) pairs of the items whose lower-cased title scores above zero against the lower-cased query, in catalog order (ScoredMembers) |
| Ranking.SortByScore | src/features/app_launcher.cpp:23-24 | the pairs sorted by non-increasing score, as a permutation |
| Ranking.Rank | src/features/app_launcher.cpp:23-30 | at most n pairs, a sub-multiset, non-increasing, and none left out scores higher than one kept |
| Ranking.TakeBest | src/features/app_launcher.cpp:26-30 | the collecting loop returns the items of the first n ranked pairs |
| Subsequence.EmbValid | src/features/app_launcher.cpp:131-147 | the scan matches each query character at a strictly later text position holding it |
| Subsequence.GreedyComplete | src/features/app_launcher.cpp:131-147 | if any embedding exists after a position, the greedy scan from there matches the whole query |
| Subsequence.GreedyMatchesIffEmbeds | src/features/app_launcher.cpp:149 | the scan consumes the whole query exactly when the query is a subsequence of the text |
| AppLauncher.MatchBonus | src/features/app_launcher.cpp:133-142 | a match adds 1, +10 when first, +5 right after the previous match, +8 at the start or after white space |
| AppLauncher.MatchScore | src/features/app_launcher.cpp:123-150 | fuzzyMatch: 1 for an empty query, 0 for empty text, else the total bonus of the greedy match positions when the whole query matches and 0 otherwise (MatchScoreSpec, FuzzyMatch) |
| AppLauncher.WeightBound | src/features/app_launcher.cpp:133-143 | k matches weigh at least k + 10 |
| AppLauncher.MatchScoreSpec | src/features/app_launcher.cpp:123-149 | 1 for an empty query, 0 for empty text, positive exactly for subsequences, and then at least |q| + 10 |
| AppLauncher.FuzzyMatch | src/features/app_launcher.cpp:123-150 | the scoring loop computes the match score |
| AppLauncher.NoPlaceholderUnchanged | src/features/app_launcher.cpp:114 | a command line without placeholders is kept as it is |
| AppLauncher.PlaceholderDeleted | src/features/app_launcher.cpp:114 | a placeholder after a clean prefix is deleted and the scan continues after it |
| AppLauncher.StripDoesNotRescan | src/features/app_launcher.cpp:114 | the deletion is not re-scanned: %%ff becomes %f |
| AppLauncher.StripPlaceholders | src/features/app_launcher.cpp:114 | the replace of %[fFuUdDnNickvm] by nothing, left to right without re-scanning; never longer than its input (NoPlaceholderUnchanged, PlaceholderDeleted, StripDoesNotRescan) |
| AppLauncher.SanitizeExec | src/features/app_launcher.cpp:114 | the Exec value stored: the placeholders stripped, then trimmed |
| AppLauncher.ItemOf | src/features/app_launcher.cpp:116-119 | the catalog item is (Name, Comment, Icon, sanitised Exec, "app") |
| AppLauncher.Accepts | src/features/app_launcher.cpp:80-96 | parseDesktopFile keeps an entry whose Type is missing or "Application", that is neither NoDisplay nor Hidden, has a non-empty Name and Exec, and whose Name was not seen |
| AppLauncher.Collect | src/features/app_launcher.cpp:58-68 | the catalog before sorting: the accepted entries in parse order, each as its item (CollectDistinct, CollectFromEntries) |
| AppLauncher.CollectDistinct | src/features/app_launcher.cpp:93-98 | catalog titles are unique: the first entry with a name wins |
| AppLauncher.CollectFromEntries | src/features/app_launcher.cpp:80-96 | every catalog item comes from an input entry that passes the type, visibility and non-empty filters |
| AppLauncher.DistinctTitlesIndices | src/features/app_launcher.cpp:93-98 | no two catalog positions share a title |
| AppLauncher.TitleOrderTotal | src/features/app_launcher.cpp:71-73 | ordering by lower-cased title is a total preorder, as std::sort requires |
| AppLauncher.ScoreAll | src/features/app_launcher.cpp:17-21 | the scoring loop keeps the apps that score above zero, with their scores, in catalog order |
| AppLauncher.Launcher.constructor | src/features/app_launcher.cpp:5-7 | construction loads the catalog: unique titles, sorted, a permutation of the accepted entries |
| AppLauncher.Launcher.ParseDesktopFile | src/features/app_launcher.cpp:76-121 | an accepted entry adds its name to the seen set and exactly one item; a rejected one changes nothing |
| AppLauncher.Launcher.LoadApplications | src/features/app_launcher.cpp:45-74 | the catalog holds the accepted entries, titles unique, sorted by lower-cased title |
| AppLauncher.Launcher.Search | src/features/app_launcher.cpp:9-33 | a blank query lists the first 8 entries; otherwise the top 8 ranked matches |
| AppLauncher.RankedResultsMatch | src/features/app_launcher.cpp:14-32 | every ranked result is a catalog entry whose lower-cased title has the lower-cased query as a subsequence |
| SystemCommands.MatchScoreClosedForm | src/features/system_commands.cpp:45-58 | the score is 1 for an empty query, |q| + 9 for a subsequence, else 0 |
| SystemCommands.MatchScore | src/features/system_commands.cpp:45-58 | fuzzyMatch: 1 for an empty query, else 10 for the first and 1 for each further character when the greedy scan consumes the whole query, and 0 otherwise (MatchScoreClosedForm) |
| SystemCommands.FuzzyMatch | src/features/system_commands.cpp:45-58 | the scoring loop computes the match score |
| SystemCommands.ScoreAll | src/features/system_commands.cpp:23-28 | the scoring loop keeps the commands that score above zero, in table order |
| SystemCommands.Search | src/features/system_commands.cpp:17-39 | an empty query lists the first 6 commands; otherwise the top 6 ranked matches |
| SystemCommands.AllCandidatesTie | src/features/system_commands.cpp:30-31 | every surviving command scores |q| + 9, so the sort order among them is unspecified |
| SystemCommands.NoSubsequenceNoResults | src/features/system_commands.cpp:23-28 | a query that is no title's subsequence scores nothing |
| Calculator.Scan | src/features/calculator.cpp:33-35 | the scan finds every character allowed, and finds an operand character, exactly when that holds |
| Calculator.DigitIsValid | src/features/calculator.cpp:30-36 | any text of the expression alphabet that holds a digit is valid |
| Calculator.NoOperandIsInvalid | src/features/calculator.cpp:35 | any text made only of brackets, points and white space is refused, for lack of a digit or operator |
| Calculator.BlankIsInvalid | src/features/calculator.cpp:31 | blank input is refused |
| Calculator.ValidIsNonBlank | src/features/calculator.cpp:30-34 | accepted input is non-blank and made of the expression alphabet |
| Calculator.Search | src/features/calculator.cpp:7-22 | at most one item; there is one exactly when the input is valid and evaluates finitely, with title = data = the formatted value |
| Calculator.GateBeforeEvaluation | src/features/calculator.cpp:9 | invalid input gives nothing whatever the evaluator does |
| Clipboard.FirstLineIsFirstPart | src/features/clipboard.cpp:135 | the first non-empty line is the first part of split('\n', SkipEmptyParts) |
| Clipboard.CreatePreview | src/features/clipboard.cpp:131-140 | the preview is empty exactly for empty text and at most 53 characters long |
| Clipboard.PreviewOfFirstPart | src/features/clipboard.cpp:135-139 | the preview is the first part, cut to 50 characters plus "..." when longer, and holds no line break |
| Clipboard.NotBlankHasLine | src/features/clipboard.cpp:161 | text that is not blank has a non-empty line, so its preview is defined |
| Clipboard.CappedKeepsOthers | src/features/clipboard.cpp:179-187 | the trim keeps every entry of the other kind, in order |
| Clipboard.CappedKeepsOldest | src/features/clipboard.cpp:179-187 | of the trimmed kind, the last min(count, cap) entries are kept, which are the oldest |
| Clipboard.Capped | src/features/clipboard.cpp:179-187 | the trim loop's result: an entry of the kind survives when at most cap entries of the kind lie at or behind it (CappedKeepsOthers, CappedKeepsOldest, CappedCount) |
| Clipboard.CappedCount | src/features/clipboard.cpp:216-227 | min(count, cap) entries of the kind remain |
| Clipboard.CappedUnderCap | src/features/clipboard.cpp:216-227 | within the cap nothing is removed and no file is deleted |
| Clipboard.RemovedCount | src/features/clipboard.cpp:216-227 | one image file is deleted per surplus entry |
| Clipboard.FullKindFreezes | src/features/clipboard.cpp:179-187 | with the kind at its cap, a new newest entry is itself the surplus, and the history comes back unchanged |
| Clipboard.ToResult | src/features/clipboard.cpp:278-290 | a result shows preview and timestamp, carries the entry's key, and has type "clipboard" |
| Clipboard.Remainder | src/features/clipboard.cpp:254-270 | the text after "clipboard " or "clip " (tested on the lower-cased query, taken from the query as typed), empty for a bare alias, none otherwise (RemainderSpec) |
| Clipboard.Listed | src/features/clipboard.cpp:276-292 | the results of the entries whose lower-cased preview contains the remainder, in history order (ListedExactly, ListedBareAlias) |
| Clipboard.RemainderSpec | src/features/clipboard.cpp:254-270 | the alias is recognised ignoring case, and the remainder is what follows it |
| Clipboard.ListedExactly | src/features/clipboard.cpp:276-292 | a result comes from a matching entry, and every matching entry gives one |
| Clipboard.ListedBareAlias | src/features/clipboard.cpp:276-292 | a bare alias lists every entry, in history order |
| Clipboard.UpperCaseFindsNothing | src/features/clipboard.cpp:277 | a remainder with an upper-case letter matches no lower-cased preview |
| Clipboard.FirstWithKey | src/features/clipboard.cpp:298-299 | the found entry is the first whose key equals the item's data; none when no entry has it |
| Clipboard.ExecuteEffect | src/features/clipboard.cpp:297-310 | the first entry with the item's key: text goes back as text, an image as its file when that loads, and anything else does nothing (ExecuteListedText) |
| Clipboard.ExecuteListedText | src/features/clipboard.cpp:297-310 | activating the result of a text entry that is first with its key copies its text back |
| Clipboard.RecordFields | src/features/clipboard.cpp:315-322 | a record has t, d, p, ts, and an f that reads back as the file path |
| Clipboard.SaveRecord | src/features/clipboard.cpp:315-322 | the saved record: t, d and p with d and p sealed and base64-encoded, ts, and f only for a non-empty path (RecordFields, SaveRecordKeys) |
| Clipboard.LoadRecord | src/features/clipboard.cpp:342-349 | one loaded record: d and p base64-decoded and decrypted, t and f as text, ts parsed and shown again as ISO text; missing fields read as empty (LoadSaveRecord) |
| Clipboard.SaveRecordKeys | src/features/clipboard.cpp:313-324 | a record's keys are t, d, p and ts, plus f exactly when there is a file path |
| Clipboard.SealedRoundTrip | src/features/clipboard.cpp:345-346 | a sealed, base64-encoded field reads back as its text less a leading U+FEFF, and so unchanged for text not starting with it |
| Clipboard.ReadBack | src/features/clipboard.cpp:342-348 | what a saved entry reads back as: data and preview less a leading U+FEFF, the timestamp as Qt's parser reads it, the rest unchanged |
| Clipboard.Persistent | src/features/clipboard.cpp:342-348 | the entries that read back unchanged: ISO timestamp Qt wrote, no leading U+FEFF in data or preview |
| Clipboard.LoadSaveRecord | src/features/clipboard.cpp:342-348 | loading a saved record gives ReadBack of the entry, whatever the key and IVs, and so the entry itself when it is Persistent |
| Clipboard.LoadRecords | src/features/clipboard.cpp:341-350 | one entry per record, in file order |
| Clipboard.LoadSaveHistory | src/features/clipboard.cpp:339-350 | saving and then loading into an empty history gives ReadBack of each entry in the same order, and so the same history when every entry is Persistent |
| Clipboard.TextInsertionSpec | src/features/clipboard.cpp:160-187 | a new text under the cap is put in front, unchanged history behind it |
| Clipboard.InsertionKeepsOtherKind | src/features/clipboard.cpp:160-227 | a text insertion keeps every image entry and an image insertion every text entry; the inserted kind stays within its cap or the history is unchanged |
| Clipboard.TextLimitFreezes | src/features/clipboard.cpp:179-187 | with 500 text entries held, a new text leaves the history as it was |
| Clipboard.ImageInsertionSpec | src/features/clipboard.cpp:192-227 | a new image is put in front under the cap; with 100 images held it is the one deleted |
| Clipboard.TextInsertion | src/features/clipboard.cpp:160-187 | addTextItem's history: unchanged for blank text or text a text entry holds, else the new entry in front and the text kind trimmed to 500 (TextInsertionSpec, TextLimitFreezes) |
| Clipboard.ImageInsertion | src/features/clipboard.cpp:192-227 | addImageItem's history and deleted files: unchanged when one of the 5 newest entries is the same image or storing failed, else the new entry in front and the image kind trimmed to 100 (ImageInsertionSpec) |
| Clipboard.ClipboardHistory.constructor | src/features/clipboard.cpp:14-23 | the history is what the history file holds, with encryption on |
| Clipboard.ClipboardHistory.OnClipboardChanged | src/features/clipboard.cpp:142-149 | an image is added as an image, text as text, anything else changes nothing |
| Clipboard.ClipboardHistory.AddTextItem | src/features/clipboard.cpp:160-190 | the history becomes the text insertion of the old history |
| Clipboard.ClipboardHistory.HoldsText | src/features/clipboard.cpp:165-169 | the duplicate check says whether a text entry holds exactly this text |
| Clipboard.ClipboardHistory.AddImageItem | src/features/clipboard.cpp:192-230 | the history and the deleted files are the image insertion of the old history |
| Clipboard.ClipboardHistory.CapKind | src/features/clipboard.cpp:216-227 | the tail-first trim loop yields the capped history and the removed paths |
| Clipboard.ClipboardHistory.Search | src/features/clipboard.cpp:252-295 | the results are the listed matches for the alias remainder, nothing without an alias |
| Clipboard.ClipboardHistory.Execute | src/features/clipboard.cpp:297-310 | the effect is that of the first entry with the key; the history is not changed |
| Clipboard.ClipboardHistory.SaveHistory | src/features/clipboard.cpp:312-331 | the document is the array of saved records, in history order |
| Clipboard.ClipboardHistory.ReadRecord | src/features/clipboard.cpp:342-349 | one iteration reads back the entry the record describes |
| Clipboard.ClipboardHistory.LoadHistory | src/features/clipboard.cpp:333-352 | the file's records are appended in file order; a missing or non-array file adds nothing |
| Clipboard.ClipboardHistory.ReadRecords | src/features/clipboard.cpp:341-350 | the loop reads one entry per record, in order |
| WebSearch.FirstSelecting | src/features/search.cpp:121-122 | the index found is the first provider whose shortcut and a space prefix the query, ignoring case |
| WebSearch.Dispatch | src/features/search.cpp:121-122 | the provider the loop of search stops at: the first whose shortcut and a space prefix the query (FirstSelecting, SelectProvider) |
| WebSearch.Template.Fill | src/features/search.cpp:125 | QString::arg: the placeholder replaced by the argument, which stands between the template's two parts |
| WebSearch.ExtractSearchQuery | src/features/search.cpp:160-165 | the trimmed text after shortcut and space, or empty when they do not prefix the query |
| WebSearch.LocalItemUrl | src/features/search.cpp:126-130 | with a remainder, the item is titled "Search name: rest", typed "search", and its URL decodes back to the remainder |
| WebSearch.LocalItem | src/features/search.cpp:123-130 | the provider's own item: its name and bare search URL for an empty remainder, else "Search name: rest" with the percent-encoded remainder in the URL (LocalItemUrl) |
| WebSearch.CreateFeatureItem | src/features/search.cpp:438-446 | name, URL, development icon, "search" type; the subtitle is the description, or metric, bullet and description |
| WebSearch.Truncate | src/features/search.cpp:244 | a description over 80 characters becomes its first 77 and "...", at most 80 in all |
| WebSearch.ParseResults | src/features/search.cpp:228-253 | one item per array element, in order; nothing for a non-object document |
| WebSearch.ParseNpmResults | src/features/search.cpp:227-254 | one npm item per element of "objects" |
| WebSearch.ParseCargoResults | src/features/search.cpp:256-277 | one crate item per element of "crates" |
| WebSearch.ParseGitHubResults | src/features/search.cpp:279-301 | one repository item per element of "items" |
| WebSearch.NpmItem | src/features/search.cpp:233-251 | an npm element as "name vversion", truncated description, package URL and "N downloads" from the monthly count |
| WebSearch.CargoItem | src/features/search.cpp:262-274 | a crate as "name vmax_version", truncated description, crate URL and "N downloads" |
| WebSearch.GitHubItem | src/features/search.cpp:285-298 | a repository as its full name, truncated description, HTML URL and a star count |
| WebSearch.CreateWithMetric | src/features/search.cpp:440-443 | with a metric the subtitle ends with bullet and description |
| WebSearch.ParsedSubtitles | src/features/search.cpp:246-298 | every parser puts a metric before the truncated description |
| WebSearch.CacheKeyInjective | src/features/search.cpp:390 | for colon-free types the key "type:query" determines type and query |
| WebSearch.Lookup | src/features/search.cpp:388-399 | results only from a present entry younger than 24 hours, and then exactly its results |
| WebSearch.AfterLookup | src/features/search.cpp:393-395 | an expired entry is removed and nothing else changes |
| WebSearch.EvictionRemovesAtMostOne | src/features/search.cpp:413-431 | cleanup removes at most one entry and changes none; above the cap with an entry older than now it removes exactly one |
| WebSearch.Evicted | src/features/search.cpp:413-431 | what cleanupCache may do: nothing at or below 250 entries or when no entry is older than now; else remove one oldest entry, unless its key is empty (EvictionRemovesAtMostOne) |
| WebSearch.SerializeCache | src/features/search.cpp:322-342 | the file object has one record per cache key |
| WebSearch.LoadedEntries | src/features/search.cpp:361-384 | a key is loaded exactly when its record has at least four fields |
| WebSearch.LoadItemRecords | src/features/search.cpp:371-381 | item records read back with title, subtitle and data, development icon and "search" type |
| WebSearch.LoadEntryRecord | src/features/search.cpp:365-383 | an entry record reads back as the entry, timestamp through toInt |
| WebSearch.CacheFileRoundTrip | src/features/search.cpp:322-384 | saving and loading gives every key back with its type, query and item texts |
| WebSearch.CacheFileRoundTripExact | src/features/search.cpp:322-384 | a cache of search items with 32-bit timestamps is saved and loaded unchanged |
| WebSearch.TimestampPast2038Expires | src/features/search.cpp:369 | a timestamp past 2^31 - 1 reloads as the epoch and is then expired |
| WebSearch.Execute | src/features/search.cpp:154-158 | a "search" item opens its URL; any other item does nothing |
| WebSearch.LoadedEntriesAreSearchItems | src/features/search.cpp:375-379 | every item loaded from the file is a search item |
| WebSearch.AnswerSpec | src/features/search.cpp:117-152 | empty query or no provider gives nothing; otherwise the first selected provider's item, followed by fresh cached results only on the API path |
| WebSearch.Answer | src/features/search.cpp:117-152 | what search returns: the selected provider's item, then the fresh cached results of its API search (AnswerSpec, AnswerOpensUrls) |
| WebSearch.AnswerOpensUrls | src/features/search.cpp:117-158 | with a cache of search items, every result of search opens its URL when executed |
| WebSearch.ApiRequestSpec | src/features/search.cpp:184-189 | the User-Agent is always set, Accept only for gh, and the query is recoverable from the URL |
| WebSearch.ApiRequest | src/features/search.cpp:184-189 | the request performApiSearch builds: the API URL filled with the percent-encoded query, the launcher's User-Agent, and the v3 Accept header for gh only (ApiRequestSpec) |
| WebSearch.Route | src/features/search.cpp:204-219 | the first host marker the reply URL contains decides the parser |
| WebSearch.ParseReply | src/features/search.cpp:204-219 | the reply is parsed by the parser its URL selects, and unknown URLs give nothing |
| WebSearch.ReplyResultsAreSearchItems | src/features/search.cpp:204-219 | every parsed reply item is a search item |
| WebSearch.OwnRequestsRouted | src/features/search.cpp:204-214 | an npm request is always parsed as npm, and crates.io and GitHub requests are never left unparsed |
| WebSearch.QueryTextSteersRouting | src/features/search.cpp:204-207 | a crates.io search for "registry.npmjs.org" is parsed and cached as npm |
| WebSearch.SelectProvider | src/features/search.cpp:121-122 | the provider loop stops at the dispatched provider |
| WebSearch.ReadEntry | src/features/search.cpp:365-381 | one key's record is read as the entry it describes, or not at all when it is too short |
| WebSearch.MergeEntries | src/features/search.cpp:362-384 | the key loop overwrites, with each loaded record, the entry under its key |
| WebSearch.WriteItems | src/features/search.cpp:331-338 | the item loop writes [title, subtitle, data] per item |
| WebSearch.StoredEntrySurvives | src/features/search.cpp:401-431 | with the stamp and the cleanup reading the clock separately, the new entry is evicted only when it is an oldest entry older than the second reading; so it survives when the clock has not moved on or another entry is older; no other entry changes and at most one goes |
| WebSearch.StoredEntryEvictedWhenNewest | src/features/search.cpp:404-431 | when every other entry is stamped later than the new one and the clock has moved on, cleanupCache may remove the entry just stored |
| WebSearch.SearchFeature.AtMostOneOutstanding | src/features/search.cpp:178-198 | a request is outstanding exactly when it is the current reply |
| WebSearch.SearchFeature.constructor | src/features/search.cpp:13-24 | the table is set up, the query, active search type and active search query are empty, no request is pending, and the cache is the loaded file after one cleanup |
| WebSearch.SearchFeature.Search | src/features/search.cpp:117-152 | the answer for the query; the lookup's lazy removal; the timer is armed and the active query recorded only on a cache miss for a new query |
| WebSearch.SearchFeature.StartTimer | src/features/search.cpp:140-145 | the query, active type and active query are recorded and the timer started |
| WebSearch.SearchFeature.StopTimer | src/features/search.cpp:21-23 | the single-shot timer is no longer running once it fires; nothing else changes |
| WebSearch.SearchFeature.GetCachedResults | src/features/search.cpp:388-399 | returns the lookup; an expired entry is removed |
| WebSearch.SearchFeature.SetCachedResults | src/features/search.cpp:401-411 | the entry overwrites its key, stamped with the first clock reading, followed by the eviction rule under cleanupCache's own reading |
| WebSearch.SearchFeature.CleanupCache | src/features/search.cpp:413-431 | the scan's outcome satisfies the eviction rule |
| WebSearch.SearchFeature.LoadCache | src/features/search.cpp:348-386 | loaded records overwrite their keys and one cleanup follows; a missing or non-object file changes nothing |
| WebSearch.SearchFeature.SaveCache | src/features/search.cpp:308-346 | the written document is the serialised cache |
| WebSearch.SearchFeature.OnSearchTimeout | src/features/search.cpp:167-176 | a request is issued only for a selected API provider with a non-empty remainder |
| WebSearch.SearchFeature.PerformApiSearch | src/features/search.cpp:178-193 | the outstanding reply is aborted, and one request is issued and becomes the outstanding one |
| WebSearch.SearchFeature.OnApiResponse | src/features/search.cpp:195-225 | only the outstanding reply is taken; on success its parsed results replace the current ones, and only non-empty results are cached, under the active query |
| MainWindow.MergedOrigin | src/mainwindow.cpp:61-71 | every merged result is one of its enabled provider's results for the query |
| MainWindow.Merged | src/mainwindow.cpp:64-71 | m_currentResults: each enabled provider's results for the query, tagged with it, in registration order (MergedOrigin, MergedPerFeature) |
| MainWindow.MergedPerFeature | src/mainwindow.cpp:61-71 | each provider's results appear in its own order, and a disabled or unregistered provider contributes nothing |
| MainWindow.RegisteredDistinct | src/mainwindow.cpp:41-49 | the registered providers are distinct, and the clipboard and time providers are not among them |
| MainWindow.AppendTagged | src/mainwindow.cpp:67-69 | the inner loop appends the provider's items tagged with it |
| MainWindow.ListItems | src/mainwindow.cpp:73-76 | the view gets the items of the merged list, in order |
| MainWindow.ShownRowIsRequested | src/mainwindow.cpp:140-143 | the activated row is the item shown there, and goes to the enabled provider that produced it |
| MainWindow.Window.constructor | src/mainwindow.cpp:9-17 | the four providers are registered and enabled, and the results are those for the empty query |
| MainWindow.Window.UpdateResults | src/mainwindow.cpp:61-80 | the results are the merge for the current query, and the view shows their items |
| MainWindow.Window.OnQueryChanged | src/mainwindow.cpp:122-134 | the query is stored; a blank one is answered at once, any other starts the timer and keeps the results |
| MainWindow.Window.OnTimerFired | src/mainwindow.cpp:32-38 | the single-shot timer stops and the search runs for the current query |
| MainWindow.Window.PerformSearch | src/mainwindow.cpp:136-138 | the results are recomputed for the current query |
| MainWindow.Window.Valid | src/mainwindow.cpp:122-134 | the search timer is pending only for a query that is not blank (kept by every Window method) |
| MainWindow.Window.HideEvent | src/mainwindow.cpp:110-115 | clearing the edit stops the pending search timer; the query is cleared and the results are those for the empty query |
| MainWindow.Window.Hide | src/mainwindow.cpp:144 | a shown window gets a hide event, which also stops the timer; a hidden one is unchanged |
| MainWindow.Window.OnItemActivated | src/mainwindow.cpp:140-146 | an index inside the list routes that tagged item and hides the window, stopping any pending search; any other index does nothing |

## Left out

- Clipboard.CreatePreview: a text made only of '\n' characters is excluded by its precondition. Splitting such a text with SkipEmptyParts leaves no part, and the source then takes the first element of an empty list. addTextItem never passes such a text, because it refuses blank text first.
- Clipboard.ClipboardHistory.AddTextItem, AddImageItem: the saveHistory call that ends each of them is not modelled. Writing the file is disk I/O, and saveHistory itself is modelled as SaveHistory.
- Clipboard.ClipboardHistory.constructor: the key comes in as a parameter. initializeEncryption reads it from key.bin or derives it from random data; that is file I/O and randomness. The derivation loop is modelled as ClipboardCipher.DeriveKey.
- ClipboardItem::operator== is not modelled; nothing in the core calls it.
- Clipboard.Listed, Text.Lower: case folding covers ASCII letters only; QString::toLower's full Unicode mapping is not modelled.
- Utf8.Decode: strings are sequences of Unicode code points rather than UTF-16 units, so the decoder yields code points. QString's handling of lone surrogates does not arise. The skipping of EF BB BF at byte 0 follows Qt's UTF-8 decoder, QUtf8::convertToUnicode, which is library code and not part of this model.
- WebSearch.Truncate, Clipboard.CreatePreview, AppLauncher.MatchScore, SystemCommands.MatchScore, AppLauncher.Launcher.LoadApplications: lengths, cut points and match positions count code points, while QString's length(), left() and operator[] count UTF-16 units. With a character outside the Basic Multilingual Plane the results differ. The source truncates a description of 80 code points that holds one such character, because it is 81 units long; the model keeps it. left(50) can split a surrogate pair; the model never does. A pair counts as two positions in the source's scoring loop, so adjacency bonuses differ. LoadApplications sorts names by code point, while QString's operator< compares UTF-16 units; the two orders differ between a character above U+FFFF and one in U+E000..U+FFFF.
- Clipboard timestamps are their ISO-8601 text (Qt::ISODate). Reading one back from the history file is QDateTime::fromString followed by toString, a parameter (`IsoDate`). It gives the empty text for text it cannot parse and drops fractional seconds. The current time and the "hh:mm:ss" clock text of image previews are parameters too.
- Clipboard.LoadSaveHistory: the exact round trip is stated for Persistent histories: timestamps Qt's parser reads back unchanged, and no data or preview starting with U+FEFF, which fromUtf8 drops. Other histories come back as ReadBack states. Timestamps Qt wrote itself are read back unchanged, but the model does not prove that the clock parameter yields such text.
- WebSearch.SearchFeature.OnApiResponse: the finished signal that abort() emits for the aborted reply is not modelled. abort() emits it at once (search.cpp line 180), while m_currentReply still points at that reply, so onApiResponse does run on it. It clears m_currentReply; performApiSearch clears it anyway right afterwards. It then finds error() set to OperationCanceledError and does nothing more (line 200), so the state ends up as the model has it.
- WebSearch.Route: it reads the URL of the request as issued. The source reads reply->url().toString(), which is QUrl's formatted form and, after a redirect, the final URL. With a redirect to another host, or a URL that QUrl formats differently, the parser chosen may differ.
- Json: numbers are integers. A fractional number in a reply or a file cannot be represented, so toInt's answer of 0 for such a value is not modelled.
- Ranking.Rank, AppLauncher.Launcher.Search, SystemCommands.Search: ties are kept in input order (catalog or table order), because the sort is stable. std::sort does not promise this. When more items tie than are shown, the source does not determine which of them appear; the model picks the earliest. The length bound, the sub-multiset property, the non-increasing order and the dominance of every shown item over every omitted one (Ranking.Rank's ensures) hold for any order std::sort may choose.
- WebSearch.SearchFeature.SetCachedResults: saving the cache through QTimer::singleShot(0, saveCache) is not modelled (event loop and disk I/O). SaveCache is modelled on its own.
- WebSearch: icon download (downloadProviderIcons, onIconDownloaded) and the icon caches are not modelled; they are network and pixmap handling.
- WebSearch: QMutex locking is left out; the model is sequential.
- MainWindow.Window: window geometry, key handling, showEvent focus and the WindowUI view are presentation; only the list handed to the view is modelled.
- Provider execute operations: SystemCommands::execute (/bin/sh -c), AppLauncher::execute (QProcess::splitCommand and startDetached) and the desktop calls behind them are foreign process and URL launching. The model returns the requested Effect where it does so: WebSearch.Execute, Calculator.Execute, Clipboard.ExecuteEffect.
- Calculator: the exprtk evaluator and QString::number(v, 'g', 10) are floating point; the evaluator is a parameter returning a formatted finite value, NaN or infinity.
- AppLauncher.Launcher.LoadApplications: directory scanning and QSettings parsing are file I/O; the desktop entries arrive as key/value maps in directory order.
- Network access, JSON text parsing and printing, QTimer and QSettings are not modelled; parsed documents and explicit timer flags stand in.
- src/features/time_conversion.cpp, src/globalhotkey.cpp, src/windowui.cpp and src/main.cpp are not part of this model.
- SHA-256 (FIPS 180-4), HMAC (RFC 2104) and QRandomGenerator are not modelled; they are parameters.
