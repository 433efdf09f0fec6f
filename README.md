# Job-application mail tracker, modelled in Dafny

The program reads job-application e-mails from a mailbox, classifies each
reply as Rejected, Interview, Offer or "Unknown/No Decision" by phrase
matching, and appends one CSV row per message. A persisted set of processed
message ids stops any message being written twice. This project models the
three parts of `JobApplication.py` that hold logic:

- `classifier.dfy` (module `Classifier`) models `classify_outcome`. It is a
  pure function: the body text is lower-cased, then three phrase groups are
  tried in priority order. Each group is a regex made only of literal
  alternatives, so it matches when one of its phrases occurs as a substring.
  `text.dfy` (module `Text`) holds the lower-casing and the substring search.
  `Text.Contains` is recursive and is proved equal to the "occurs at some
  index" definition.
- `extraction.dfy` (module `Extraction`) models `get_email_content`.
  - Messages, payloads, headers and parts are datatypes.
  - The header loop and the two part loops are methods with loop invariants.
    Each is proved against a specification function: `LastHeader` for the
    headers, `FirstWith` / `SelectBody` for the body.
  - URL-safe base64 decoding with UTF-8 replacement is the parameter `decode`.
    The BeautifulSoup `get_text(separator="\n").strip()` step is the parameter
    `htmlToText`.
- `ledger.dfy` (module `Ledger`) models the loop of `main`. `Ledger.Run`
  walks the id list.
  - It skips ids already in the processed set.
  - For every other id it fetches, extracts and classifies the message, then
    appends one row.
  - It writes the column header row only when the ledger file did not exist.
  - The persisted state is a `State`: the id set, and the ledger rows
    (`None` when the CSV file is absent).
  - Fetching by id is the parameter `Env.fetch`.
  - The function `RunResult` and the run-level lemmas about it
    (`RerunChangesNothing`, `RunsCompose`) take the per-id row function as a
    parameter, so they hold for any row content. `Ledger.RowWriter(env)` is
    the row function `Run` actually uses: fetch, extract, classify
    (`Ledger.FetchRow`).

Two behaviours of the code are easy to misread, and the model states them
as the code has them:
- When a header name occurs more than once, the last one wins, because the
  loop overwrites the field on every match (`JobApplication.py:48-56`;
  `Extraction.LastHeader`).
- The Offer group is exactly "offer you the position", "extend an offer" and
  "congratulations on your offer" (`JobApplication.py:96`). A bare
  "congratulations" does not match it (`Classifier.BareCongratulationsIsUnknown`).

## Model

| member | source | states |
|---|---|---|
| `Text.Lower` | JobApplication.py:88 | lower-casing keeps the length, turns each upper-case letter A-Z into its lower-case counterpart (32 code points on), and keeps every other character |
| `Text.Contains` | JobApplication.py:92 | a literal pattern is found exactly when it occurs at some index of the text (what `re.search` answers for a literal alternative) |
| `Text.ContainsInSuffix` | JobApplication.py:92 | a pattern found in a suffix of the text is found in the text |
| `Text.LowerIdempotent` | JobApplication.py:88 | lower-casing an already lower-cased text changes nothing |
| `Text.LowerKeepsOccurrence` | JobApplication.py:88-92 | a lower-case phrase found in the text is still found, at the same index, in the lowered text |
| `Classifier.Label` | JobApplication.py:92-99 | every outcome label is one of the four strings the classifier returns, and none equals the column name "Outcome" |
| `Classifier.Classify` | JobApplication.py:87-99 | each outcome is reported exactly when a phrase of its group occurs in the lowered text and no phrase of a group of higher priority does, in both directions |
| `Classifier.RejectedPhraseWins` | JobApplication.py:92-93 | any rejection phrase in the text gives Rejected, whatever else the text contains |
| `Classifier.InterviewPhraseWinsOverOffer` | JobApplication.py:94-95 | an interview phrase gives Interview whenever no rejection phrase is present, even alongside offer phrases |
| `Classifier.OfferPhraseWithoutOthers` | JobApplication.py:96-97 | an offer phrase gives Offer when neither a rejection nor an interview phrase is present |
| `Classifier.ClassifyIgnoresCase` | JobApplication.py:88 | classifying the lowered text gives the same outcome as classifying the text |
| `Classifier.SameLowerSameOutcome` | JobApplication.py:88 | two texts equal up to letter case get the same outcome |
| `Classifier.EmptyBodyIsUnknown` | JobApplication.py:98-99 | an empty body is "Unknown/No Decision" |
| `Classifier.CongratulationsMatchesNothing` | JobApplication.py:92-97 | no phrase of the three groups occurs in "congratulations" |
| `Classifier.BareCongratulationsIsUnknown` | JobApplication.py:96-99 | "Congratulations" alone matches no group and is "Unknown/No Decision" |
| `Classifier.RegretToInformIsRejected` | JobApplication.py:88-93 | "We regret to inform you..." (capitalised) is Rejected |
| `Classifier.MarkedUpRegretIsRejected` | JobApplication.py:88-93 | "<p>We regret to inform you...</p>", markup included, is Rejected |
| `Extraction.LastHeader` | JobApplication.py:45-56 | the extracted value is that of a header with the matching lower-cased name after which no header has that name, or "" when no header has it |
| `Extraction.LastHeaderStep` | JobApplication.py:48-56 | one more header overrides the extracted value when its lower-cased name matches, and leaves it unchanged otherwise |
| `Extraction.LastHeaderPrefix` | JobApplication.py:48-56 | after one more header of the list, the extracted value is that header's when its name matches and unchanged otherwise |
| `Extraction.ScanHeaders` | JobApplication.py:45-56 | the header loop leaves subject, sender and date equal to the last "subject", "from" and "date" header values, or "" |
| `Extraction.FirstWith` | JobApplication.py:62-65 | the chosen index is of a part with the type and non-empty data, and no earlier part qualifies; none is chosen only when no part qualifies |
| `Extraction.SelectBody` | JobApplication.py:58-82 | the body is "", or the decoded data of a text/plain part with data, or the markup-stripped text of a text/html part with data, or, only for a payload without sub-parts, the decoded top-level body; without sub-parts it is exactly the decoded top-level data when there is any, and "" when there is none; it is "" when no sub-part is usable |
| `Extraction.ScanParts` | JobApplication.py:62-77 | a part loop yields the converted data of the earliest part of the type with non-empty data, or "" when there is none |
| `Extraction.Extract` | JobApplication.py:40-85 | each of subject, sender and date is "" or the value of a header with that lower-cased name; the body is the selected body and the snippet is the message's own |
| `Extraction.ExtractContent` | JobApplication.py:40-85 | the returned subject, sender, date, body and snippet are the last-header values, the selected body and the message snippet |
| `Extraction.TopLevelBodyIgnoredWithParts` | JobApplication.py:58-82 | when the payload has sub-parts, its top-level body data has no effect on the body |
| `Extraction.FirstPlainPartIsBody` | JobApplication.py:60-67 | the earliest text/plain part with data is the body whenever it decodes to non-empty text |
| `Extraction.FirstHtmlPartIsFallback` | JobApplication.py:68-77 | without non-empty plain text, the earliest text/html part with data, stripped of markup, is the body |
| `Extraction.EmptyPlainWithoutHtmlGivesEmptyBody` | JobApplication.py:62-77 | when the earliest text/plain part with data decodes to "" and no text/html part has data, the body is "": the loop has already stopped, so later plain parts are never used |
| `Extraction.NoUsablePartGivesEmptyBody` | JobApplication.py:58-77 | sub-parts none of which is usable plain text or HTML give an empty body |
| `Extraction.TopLevelHtmlKeepsMarkup` | JobApplication.py:78-82 | without sub-parts the decoded top-level data is the body unchanged, markup included, since its type is never consulted; "<p>We regret to inform you...</p>" there is still Rejected |
| `Extraction.OtherTypeOnlyIsUnknown` | JobApplication.py:58-99 | a message whose only part is neither text/plain nor text/html has an empty body classified "Unknown/No Decision" |
| `Extraction.HtmlOnlyRejection` | JobApplication.py:68-93 | a message whose only part is HTML reading "We regret to inform you..." after markup stripping is classified Rejected |
| `Ledger.Opened` | JobApplication.py:110-115 | opening the ledger for appending keeps an existing file's rows as they are; a file that did not exist holds the header row and nothing else |
| `Ledger.NewIds` | JobApplication.py:117-133 | an id gets a row in a run exactly when it is listed and was not processed before, and a run has no more new ids than listed ids |
| `Ledger.NewIdsSnoc` | JobApplication.py:117-120 | one more listed id is new exactly when it is neither processed nor listed earlier |
| `Ledger.RunResult` | JobApplication.py:105-133 | after a run the ledger exists, keeps the opened file as a prefix and has exactly one more row per new id; no processed id is lost and every listed id is recorded |
| `Ledger.FetchRow` | JobApplication.py:122-131 | the row written for a new id is the fetched message's date, sender, subject and snippet with its outcome label, which is one of the four outcome strings |
| `Ledger.Run` | JobApplication.py:105-133 | the loop fetches exactly the new ids, leaves the set equal to the old set plus all listed ids, and the ledger equal to the opened file plus one row per new id |
| `Ledger.NewIdsDistinct` | JobApplication.py:117-133 | an id listed several times in one run gets at most one row |
| `Ledger.NewIdsInFirstOccurrenceOrder` | JobApplication.py:117-133 | the new ids of a run come in the order of their first occurrences in the id list |
| `Ledger.NewIdsAppend` | JobApplication.py:117-133 | processing a list in two pieces, the second against the grown set, processes the same ids in the same order as processing it whole |
| `Ledger.NewIdsAllSeen` | JobApplication.py:119-120 | ids that are all already processed produce no rows |
| `Ledger.RunProcessesAll` | JobApplication.py:133 | after a run the processed set is the old set together with every listed id |
| `Ledger.RunAppendsOneRowPerNewId` | JobApplication.py:117-133 | the appended rows are, in order, one per new id; the new ids are distinct, previously unprocessed, and in the order of their first occurrences in the list |
| `Ledger.RerunChangesNothing` | JobApplication.py:105-133 | running again with the same ids on the resulting state appends no rows and adds no ids |
| `Ledger.RunsCompose` | JobApplication.py:105-133 | a run over `a` followed by a run over `b` leaves the same state as one run over `a + b` |
| `Ledger.DataRowIsNotHeader` | JobApplication.py:112-131 | no data row equals the column header row |
| `Ledger.HeaderWrittenOnce` | JobApplication.py:110-115 | starting without a ledger file, after two runs the header row is first and appears nowhere else |
| `Ledger.ExistingLedgerGetsNoHeader` | JobApplication.py:110-115 | a run on an existing ledger keeps its rows and appends no header row |

## Left out

- `get_gmail_service` (`JobApplication.py:16-32`) is not modelled. It loads, refreshes or interactively obtains OAuth credentials and writes them to a file; all of that is library calls and I/O.
- `search_job_emails` (`JobApplication.py:34-38`) is not modelled. It is one provider query whose `query` argument is overwritten by a literal. Its result is the `ids` input of `Ledger.Run`.
- The provider's `messages().get` call is not modelled. The fetched message is `Env.fetch(id)`; a provider error, which the program does not handle, is not represented.
- URL-safe base64 decoding (section 5 of RFC 4648) with UTF-8 `errors='replace'` is the total parameter `decode`. The model does not capture that a malformed base64 string raises an exception in the program.
- BeautifulSoup's `get_text(separator="\n").strip()` is the parameter `htmlToText`.
- Reading and writing `processed_ids.txt` (line stripping, one id per line, set iteration order) and CSV quoting and encoding are not modelled. The persisted state is the in-memory `Ledger.State`.
- Text.Lower: maps only the ASCII letters A-Z. Python's `str.lower` applies full Unicode case mapping, so `Classifier.ClassifyIgnoresCase` is stated for this ASCII lower-casing.
- Ledger.Run: models only runs that complete. The program appends each row inside the `with` block (`JobApplication.py:111-133`) but rewrites `processed_ids.txt` only after it (`JobApplication.py:135-137`), and nothing catches an exception. A fetch or decode failure after k rows leaves those rows in the CSV with their ids unsaved, and the next run writes them again. The guarantees across runs, `Ledger.RerunChangesNothing` and `Ledger.RunsCompose`, therefore hold only when every run finishes.
- A header without a `name`, or a message entry without an `id`, makes the program raise. The model gives every header a name and every entry an id.
- A missing `mimeType` is modelled as "". Like Python's `None`, it equals neither "text/plain" nor "text/html".
