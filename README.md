# File lookup of the Telegram bot's search service

This project models the file lookup done by `ProcessingSearchRequestsService` in the
Telegram bot, and proves properties of it. The bot is given a map of requested file names.
For each key of that map the service does three things:

1. It expands the name into its candidate names (`prepareNamesWithAllExtensions`). The
   first candidate is the name itself. An office extension (`doc`, `docx`, `xls`, `xlsx`,
   compared ignoring case) adds a second candidate: the base name with the swapped
   extension, written in lower case.
2. It lists the download directory and picks the first plain file whose name equals,
   ignoring case, one of the candidates (`searchFiles`).
3. It sends that file to the chat as a reply to the given message, or logs that nothing
   was found. An `IOException` from the listing is caught and logged.

The model has two modules:

- `JavaStrings` (`java_strings.dfy`) models `String.equalsIgnoreCase` as ASCII case
  folding, and `String.lastIndexOf(char)`.
- `SearchService` (`search_service.dfy`) models the rest:
  - the name split and the extension table;
  - the candidate method, written as a method that fills a sequence step by step and is
    proved equal to the function `Candidates`;
  - the stream selection, as the recursive function `FindFirst`;
  - `searchFiles`, as the method `SearchFiles`;
  - the per-key loop, as the method `PreparingDataForDownloadingFiles` with a `while` loop.
    Its `sendDocument` calls are collected in an output sequence of `Send` events.

The outside world enters as parameters:

- Each search gets its own directory listing (`Listing`). A listing is either the
  entries in listing order, with a name and an `isFile` flag each, or an I/O failure.
- The iteration order of the map is given as the sequence `order`, which lists each key
  exactly once.

A name without a `.` is not handled by the code. `substring(0, lastIndexOf('.'))` is called
with `-1` before the `try` block, and the `StringIndexOutOfBoundsException` it throws is not
an `IOException`. The exception therefore leaves `searchFiles` and also the loop of
`preparingDataForDownloadingFiles`, and the remaining keys are not searched. The model
follows the code: such a search ends with the outcome `BadFileName`, and the loop stops
after it. One could read the service as meant to absorb every failure locally. The code
absorbs only the listing failure.

## Model

| member | source | states |
|---|---|---|
| JavaStrings.FoldChar | src/main/java/com/ivan_degtev/telegrambotforpapablinov/service/ai/ProcessingSearchRequestsService.java:75 | a folded character is never an upper-case ASCII letter; it is the character itself unless that is A-Z, which moves to the same position in a-z |
| JavaStrings.Fold | src/main/java/com/ivan_degtev/telegrambotforpapablinov/service/ai/ProcessingSearchRequestsService.java:75 | folding keeps the length of the string |
| JavaStrings.EqualsIgnoreCase | src/main/java/com/ivan_degtev/telegrambotforpapablinov/service/ai/ProcessingSearchRequestsService.java:75 | strings equal ignoring case have the same length |
| JavaStrings.LastIndexOf | src/main/java/com/ivan_degtev/telegrambotforpapablinov/service/ai/ProcessingSearchRequestsService.java:91-92 | the index of the last occurrence of the character: -1 exactly when it does not occur, otherwise a position holding it with no later occurrence |
| JavaStrings.FoldAt | src/main/java/com/ivan_degtev/telegrambotforpapablinov/service/ai/ProcessingSearchRequestsService.java:75 | case folding for equalsIgnoreCase works character by character |
| JavaStrings.FoldAppend | src/main/java/com/ivan_degtev/telegrambotforpapablinov/service/ai/ProcessingSearchRequestsService.java:75 | folding distributes over concatenation |
| JavaStrings.FoldIsLower | src/main/java/com/ivan_degtev/telegrambotforpapablinov/service/ai/ProcessingSearchRequestsService.java:75 | a folded string has no upper-case letter, and folding it again changes nothing |
| JavaStrings.FoldLower | src/main/java/com/ivan_degtev/telegrambotforpapablinov/service/ai/ProcessingSearchRequestsService.java:99-105 | a string without upper-case letters, such as the table's literals, is its own folded form |
| JavaStrings.EqualsIgnoreCaseCharwise | src/main/java/com/ivan_degtev/telegrambotforpapablinov/service/ai/ProcessingSearchRequestsService.java:75 | two strings are equal ignoring case exactly when they have the same length and agree at each position once folded |
| JavaStrings.EqualsIgnoreCaseLower | src/main/java/com/ivan_degtev/telegrambotforpapablinov/service/ai/ProcessingSearchRequestsService.java:99-105 | comparing ignoring case with a lower-case literal is the same as comparing the folded string with that literal |
| SearchService.SplitExtension | src/main/java/com/ivan_degtev/telegrambotforpapablinov/service/ai/ProcessingSearchRequestsService.java:91-92 | for a name with a '.', the base, a '.' and the extension put back together give the name, and the extension contains no '.' |
| SearchService.SplitExtensionUnique | src/main/java/com/ivan_degtev/telegrambotforpapablinov/service/ai/ProcessingSearchRequestsService.java:91-92 | any base and dot-free extension that rebuild the name are exactly the split at the last '.' |
| SearchService.ExtensionSwapsRows | src/main/java/com/ivan_degtev/telegrambotforpapablinov/service/ai/ProcessingSearchRequestsService.java:99-106 | the constant table ExtensionSwaps has exactly the keys doc, docx, xls and xlsx, mapped to docx, doc, xlsx and xls |
| SearchService.Selectable | src/main/java/com/ivan_degtev/telegrambotforpapablinov/service/ai/ProcessingSearchRequestsService.java:72-76 | an entry passes both filters exactly when it is a plain file and its name equals some candidate ignoring case |
| SearchService.Candidates | src/main/java/com/ivan_degtev/telegrambotforpapablinov/service/ai/ProcessingSearchRequestsService.java:96-107 | one or two candidates, and the first is always the requested name |
| SearchService.PrepareNamesWithAllExtensions | src/main/java/com/ivan_degtev/telegrambotforpapablinov/service/ai/ProcessingSearchRequestsService.java:90-112 | the list built by adding the name and then the alternate from the if/else chain is the table-defined candidate list |
| SearchService.CandidatesRow | src/main/java/com/ivan_degtev/telegrambotforpapablinov/service/ai/ProcessingSearchRequestsService.java:99-106 | an extension equal, ignoring case, to a key of the table yields the name and the base joined to that key's swap |
| SearchService.CandidatesTableDoc | src/main/java/com/ivan_degtev/telegrambotforpapablinov/service/ai/ProcessingSearchRequestsService.java:99-100 | an extension equal to doc ignoring case yields exactly the name and the base with .docx |
| SearchService.CandidatesTableDocx | src/main/java/com/ivan_degtev/telegrambotforpapablinov/service/ai/ProcessingSearchRequestsService.java:101-102 | an extension equal to docx ignoring case yields exactly the name and the base with .doc |
| SearchService.CandidatesTableXls | src/main/java/com/ivan_degtev/telegrambotforpapablinov/service/ai/ProcessingSearchRequestsService.java:103-104 | an extension equal to xls ignoring case yields exactly the name and the base with .xlsx |
| SearchService.CandidatesTableXlsx | src/main/java/com/ivan_degtev/telegrambotforpapablinov/service/ai/ProcessingSearchRequestsService.java:105-106 | an extension equal to xlsx ignoring case yields exactly the name and the base with .xls |
| SearchService.CandidatesTableOther | src/main/java/com/ivan_degtev/telegrambotforpapablinov/service/ai/ProcessingSearchRequestsService.java:96-107 | any other extension, the empty one included, yields exactly the requested name alone |
| SearchService.AlternateIsLowercase | src/main/java/com/ivan_degtev/telegrambotforpapablinov/service/ai/ProcessingSearchRequestsService.java:99-106 | the alternate name keeps the base and ends in a lower-case office extension, whatever the case of the request |
| SearchService.SwapInvolution | src/main/java/com/ivan_degtev/telegrambotforpapablinov/service/ai/ProcessingSearchRequestsService.java:99-106 | the table's keys are lower case without a '.', and swapping twice gives back the key |
| SearchService.FoldedExtension | src/main/java/com/ivan_degtev/telegrambotforpapablinov/service/ai/ProcessingSearchRequestsService.java:99-106 | lower-casing the extension leaves the name equal to the original ignoring case |
| SearchService.SwapRoundTrip | src/main/java/com/ivan_degtev/telegrambotforpapablinov/service/ai/ProcessingSearchRequestsService.java:96-107 | requesting the alternate name gives, as its own alternate, the original name up to case |
| SearchService.AnyMatch | src/main/java/com/ivan_degtev/telegrambotforpapablinov/service/ai/ProcessingSearchRequestsService.java:74-75 | true exactly when the name equals some candidate ignoring case |
| SearchService.FindFirst | src/main/java/com/ivan_degtev/telegrambotforpapablinov/service/ai/ProcessingSearchRequestsService.java:70-77 | empty exactly when no plain file matches a candidate; otherwise the first entry that is a plain file and matches |
| SearchService.FirstSelectableExists | src/main/java/com/ivan_degtev/telegrambotforpapablinov/service/ai/ProcessingSearchRequestsService.java:70-77 | if some entry passes both filters, a first one does, at or before it |
| SearchService.FindFirstIsFirst | src/main/java/com/ivan_degtev/telegrambotforpapablinov/service/ai/ProcessingSearchRequestsService.java:70-77 | a selected entry is a plain file, matches a candidate, and no earlier entry does both |
| SearchService.Search | src/main/java/com/ivan_degtev/telegrambotforpapablinov/service/ai/ProcessingSearchRequestsService.java:65-89 | the search ends with BadFileName exactly when the name has no '.', with ListingFailed exactly when the name has one and the listing failed, and a sent file is a plain file of the listing |
| SearchService.SearchBranches | src/main/java/com/ivan_degtev/telegrambotforpapablinov/service/ai/ProcessingSearchRequestsService.java:65-89 | a name without '.' throws; a listing failure is reported with its message; otherwise the search sends the first matching plain file, or reports not found exactly when there is none |
| SearchService.Dispatched | src/main/java/com/ivan_degtev/telegrambotforpapablinov/service/ai/ProcessingSearchRequestsService.java:79-85 | at most one send, present exactly for a found file, carrying that file, chatId and replyToMessageId |
| SearchService.SearchFiles | src/main/java/com/ivan_degtev/telegrambotforpapablinov/service/ai/ProcessingSearchRequestsService.java:65-89 | the method's outcome is the search's outcome, and its sends are the one send for a found file and nothing otherwise |
| SearchService.SendsExactlyOnMatch | src/main/java/com/ivan_degtev/telegrambotforpapablinov/service/ai/ProcessingSearchRequestsService.java:79-88 | at most one send; a send happens exactly when the name has a '.', the listing succeeded and some plain file matches; it carries the file, chatId and replyToMessageId |
| SearchService.SentIsFirstMatch | src/main/java/com/ivan_degtev/telegrambotforpapablinov/service/ai/ProcessingSearchRequestsService.java:70-82 | the file a search sends is the first plain file in the listing that matches a candidate |
| SearchService.UniqueMatchIsSent | src/main/java/com/ivan_degtev/telegrambotforpapablinov/service/ai/ProcessingSearchRequestsService.java:70-82 | when exactly one entry passes the filters, exactly that entry is sent, to the given chat as a reply to the given message |
| SearchService.SingleMatchingFileIsSent | src/main/java/com/ivan_degtev/telegrambotforpapablinov/service/ai/ProcessingSearchRequestsService.java:70-82 | a listing holding only a plain file named like the request up to case sends that file |
| SearchService.Outcomes | src/main/java/com/ivan_degtev/telegrambotforpapablinov/service/ai/ProcessingSearchRequestsService.java:56-59 | the keys are searched in turn, with no more outcomes than keys |
| SearchService.OutcomesShape | src/main/java/com/ivan_degtev/telegrambotforpapablinov/service/ai/ProcessingSearchRequestsService.java:56-59 | outcome i is the search of key i with listing i; only the last search can throw; every key is searched unless one threw |
| SearchService.OutcomesUnique | src/main/java/com/ivan_degtev/telegrambotforpapablinov/service/ai/ProcessingSearchRequestsService.java:56-59 | a run of searches in turn that covers every key, or ends with the search that threw, is the run of the keys |
| SearchService.SearchedInTurnStep | src/main/java/com/ivan_degtev/telegrambotforpapablinov/service/ai/ProcessingSearchRequestsService.java:57-58 | searching the next key after searches that did not throw keeps the run in turn |
| SearchService.SendsOf | src/main/java/com/ivan_degtev/telegrambotforpapablinov/service/ai/ProcessingSearchRequestsService.java:56-59 | no more sends than searches |
| SearchService.PreparingDataForDownloadingFiles | src/main/java/com/ivan_degtev/telegrambotforpapablinov/service/ai/ProcessingSearchRequestsService.java:56-59 | the loop's outcomes are the searches of the keys in iteration order, stopping after a search that throws; its sends are the per-search sends concatenated in that order; the map's values play no part |
| SearchService.EveryKeyEnumerated | src/main/java/com/ivan_degtev/telegrambotforpapablinov/service/ai/ProcessingSearchRequestsService.java:57 | the iteration order visits exactly the keys of the map |
| SearchService.AllKeysSearched | src/main/java/com/ivan_degtev/telegrambotforpapablinov/service/ai/ProcessingSearchRequestsService.java:56-59 | when every key has a '.', every key is searched, once, in order |
| SearchService.SearchesPerKey | src/main/java/com/ivan_degtev/telegrambotforpapablinov/service/ai/ProcessingSearchRequestsService.java:56-59 | for a map with n keys, each with a '.', there are exactly n searches and at most n sends |

## Left out

- EqualsIgnoreCase: the model's comparison folds only the ASCII letters A-Z, and compares
  every other character exactly. Java's `equalsIgnoreCase` also matches characters that
  fold onto ASCII letters, such as U+017F (long s) with `s` and U+212A (Kelvin sign) with
  `k`. So for the request `a.xlſ`, Java adds the alternate `a.xlsx` (line 103), but
  `Candidates` gives only `["a.xlſ"]`. A listed file named `A.XLſ` also matches `a.xls` in
  Java and not in the model.
- The filesystem is left out: `Paths.get`, `Files.list`, `Path::toFile` and `File::isFile`.
  Each search receives its listing as a parameter: the entries in the order the system
  lists them, each with its `isFile` flag, or a failure. An `UncheckedIOException` raised
  while the lazy stream is being read is not modelled. Only a failure of `Files.list`
  itself is.
- The iteration order of the `HashMap` is left out. It is a parameter that lists every key
  once.
- `sendDocument` sends the file over the network through a class that is not part of this
  model. Each call is recorded only as a `Send` event in the output sequence.
- The `log.info`, `log.warn` and `log.error` calls are left out because they only log.
  Their three cases are still told apart by the outcomes `Sent`, `NotFound` and
  `ListingFailed`.
- The constructor, the `WebClient`, the OpenAI token, the mapper and the Spring annotations
  (lines 26-51) are left out. They are wiring that the lookup does not use.
- The directory constant `PATH_FOR_SAVE_FILES` (line 37) is left out. It only selects the
  directory, which arrives here as the listing parameter.
- `null` values for `chatId`, `replyToMessageId` or a key are not modelled.
- `replyToMessageId` is a `Long` in Java and an unbounded `int` here. It is only passed
  through, so the width does not matter.
- PrepareNamesWithAllExtensions: requires a '.' in the name, because the Java method throws
  without one. The throw itself is modelled one level up, in `SearchFiles`, which checks
  for the '.' first and ends with `BadFileName`.
