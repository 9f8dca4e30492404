# Deduplicating SMS dataset store

This project models the storage half of the "AI Dataset Generator" tool
server in `ai-data-generator.py`. The server keeps four plain-text dataset
files, one per variety of SMS text: Bangla, English, Banglish and
code-mixed. `save_dataset(file_path, messages)` is the one piece of real
logic. It takes a batch of messages separated by `"\n"` and works in four
steps:

1. It reads the file in text mode and builds the set of its lines, each
   stripped of surrounding whitespace.
2. It splits the batch on `"\n"`, strips each fragment and drops the empty
   ones.
3. It keeps, in batch order, the fragments that are not in the set.
4. If any fragment is left, it opens the file in append mode and writes
   each one followed by `"\n"`. It returns `"<n> new message(s) saved!"`,
   or, when nothing was left, `"No new messages to save; all messages
   already exist."`.

Four tools, `save_bangla_dataset`, `save_english_dataset`,
`save_banglish_sms` and `save_code_mixed_dataset`, each call it on their
own file.

The model has four modules:

- `PyText` (`pytext.dfy`) spells out the Python text operations that the
  function relies on:
  - `str.isspace` with its exact set of characters, and `str.strip()`;
  - `str.split("\n")` and its inverse, joining;
  - reading a file line by line in text mode. With universal newlines,
    `"\n"`, `"\r\n"` and a bare `"\r"` each end a line, and each is
    delivered as `"\n"`;
  - the decimal rendering of `f"{n}"`.
- `Dataset` (`dataset.dfy`) holds two things:
  - The specification functions of `save_dataset`: `ExistingMessages`,
    `NewMessages`, `Unique`, `Fresh` (the lines a call appends), `Appended`
    (the text the write loop adds), `Stored` (the file after the call),
    `OutcomeOf` and `Message`. Alongside them are the lemmas about them.
  - The class `LineStore`, whose field `content` is the raw text of one
    dataset file. Its methods are `ReadExisting` (the read loop, lines
    40-42), `AppendLines` (the write loop, lines 52-54) and `SaveDataset`
    (the whole function). Each is proved against the specification
    functions.
- `DatasetServer` (`server.dfy`) has the class `Server`, which owns four
  different `LineStore`s, and its four tools.
- `DatasetExamples` (`examples.dfy`) works through small calls. The
  messages in them are arbitrary non-empty, stripped and terminator-free
  strings.

The file is modelled as its raw text, so the model covers files written by
other programs: with `"\r\n"` line ends, with a last line that has no
terminator, or with stray whitespace. A file that does not exist reads as
the empty text, because `ensure_files` (lines 13-30) creates every
dataset file empty before any tool can run.

Two points about the code worth noting:

- A message that is already in the file is dropped every time it occurs in
  the batch. If the file holds `a`, the batch `"a\nb\na"` appends only `b`,
  and the file ends up as `a`, `b`, not `a`, `b`, `a`. Only new messages
  that repeat within one batch are written more than once. The model
  follows the code (`DatasetExamples.AlreadyPresent`,
  `DatasetExamples.RepeatsWithinBatch`).
- The four tools are annotated `-> str` but return nothing: they drop the
  message `save_dataset` returns. The model's tool methods have no result.

Repeating a call is guaranteed to write nothing the second time only under
two conditions that the code does not check
(`Dataset.StoreTwiceAppendsNothing`):

- The file must end with a line terminator, or be empty. Otherwise the
  first new message is glued onto the unterminated last line
  (`DatasetExamples.UnterminatedFile`).
- No message may contain a bare `"\r"`. Such a message is written as one
  line but reads back as two (`DatasetExamples.InteriorCarriageReturn`).

## Model

| member | source | states |
|---|---|---|
| `Dataset.LineStore.SaveDataset` | ai-data-generator.py:33-57 | The new content is the old content followed by each fresh message and `"\n"`, so the old content is never rewritten. The returned string is the message for the outcome. It is the "no new messages" string exactly when the file did not change. |
| `Dataset.LineStore.ReadExisting` | ai-data-generator.py:38-42 | The loop builds exactly the set of stripped lines that text-mode reading of the content yields. |
| `Dataset.LineStore.AppendLines` | ai-data-generator.py:52-54 | The loop appends each line followed by `"\n"`, in order, after the old content. |
| `Dataset.LineStore.constructor` | ai-data-generator.py:13-30 | A store starts with the given content; a missing file starts empty. |
| `Dataset.ExistingMessages` | ai-data-generator.py:38-42 | `existing_messages`: the set of stripped lines of the file as text-mode reading yields them. `InTrimmedSet` and `TrimmedSetWitness` state its members in both directions, and `LineStore.ReadExisting` is proved to compute it. |
| `Dataset.NewMessages` | ai-data-generator.py:45 | `new_messages`: the batch split on `"\n"`, each fragment stripped, the empty ones dropped. `NewMessagesAreLines`, `NonBlankOrder`, `NonBlankCount` and `NonBlankMembers` state what it holds, and `NewMessagesOfLines` inverts it on plain messages. |
| `Dataset.Unique` | ai-data-generator.py:48 | `unique_messages`: the messages not in the existing set, in order. `UniqueOrder`, `UniqueCount` and `UniqueMembers` state what it keeps. |
| `Dataset.Fresh` | ai-data-generator.py:45-48 | The lines a call appends. `FreshLinesAreNew`, `FreshOrder` and `FreshCount` state what they are. |
| `Dataset.Appended` | ai-data-generator.py:52-54 | The text the write loop adds is empty exactly when there are no lines to write. `AppendedStep` and `AppendedEnds` give its shape, and `LineStore.AppendLines` is proved to write it. |
| `Dataset.Stored` | ai-data-generator.py:33-57 | The file after a call: the old text followed by the appended text. `NothingNewIff`, `ExistingAfterStore`, `SavedCountIsLinesAdded` and `StoreTwiceAppendsNothing` state its properties. |
| `Dataset.Message` | ai-data-generator.py:55-57 | The two returned strings, with the count rendered in decimal. `MessageInjective` states that they tell the outcomes apart. |
| `Dataset.MessageInjective` | ai-data-generator.py:55-57 | Different outcomes never produce the same returned string; the count can be read back from the message. |
| `Dataset.FreshLinesAreNew` | ai-data-generator.py:42-48 | Every appended line is a stripped fragment of the batch. It is non-empty, stripped, free of `"\n"`, and was not a stripped line of the file before the call. |
| `Dataset.FreshOrder` | ai-data-generator.py:45-48 | The appended lines occur in the order of the batch fragments. |
| `Dataset.FreshCount` | ai-data-generator.py:45-48 | A non-empty fragment not already in the file is appended exactly as often as it occurs in the batch; any other string, never. Duplicates within a batch are therefore not collapsed. |
| `Dataset.NothingNewIff` | ai-data-generator.py:51-57 | The file is unchanged, and the outcome is "no new messages", if and only if every non-blank message of the batch is already in the file. |
| `Dataset.BlankBatchAppendsNothing` | ai-data-generator.py:45-51 | A batch made only of whitespace, including the empty batch, appends nothing. |
| `Dataset.SavedCountIsLinesAdded` | ai-data-generator.py:41-55 | On a terminated file, with no `"\r"` in any message, the file afterwards reads as its old lines followed by one line per appended message. The reported count is the number of lines added. |
| `Dataset.ExistingAfterStore` | ai-data-generator.py:40-54 | Under the same conditions, the set of stripped lines afterwards is the old set plus the appended messages. The file is still terminated. |
| `Dataset.StoredTerminated` | ai-data-generator.py:51-54 | A call that appends something leaves the file ending in `"\n"`. A terminated file stays terminated. |
| `Dataset.StoreTwiceAppendsNothing` | ai-data-generator.py:35-57 | On a terminated file, with no `"\r"` in any message, a second call with the same batch appends nothing and leaves the file as the first call left it. |
| `Dataset.StoredFromEmpty` | ai-data-generator.py:38-54 | On an empty (or missing) file, every non-blank stripped message is appended. |
| `Dataset.NewMessagesAreLines` | ai-data-generator.py:45 | Every element of `new_messages` is non-empty, stripped and free of `"\n"`. |
| `Dataset.NewMessagesOfLines` | ai-data-generator.py:45 | Messages that are already non-empty, stripped and free of `"\n"`, joined with `"\n"`, give back exactly those messages. |
| `Dataset.NonBlankOrder` | ai-data-generator.py:45 | Dropping blank fragments keeps the order of the rest. |
| `Dataset.NonBlankCount` | ai-data-generator.py:45 | Dropping blank fragments keeps every non-empty fragment as often as it occurred and removes every empty one. |
| `Dataset.NonBlankMembers` | ai-data-generator.py:45 | A string survives the blank filter if and only if it occurred and is non-empty. |
| `Dataset.UniqueOrder` | ai-data-generator.py:48 | The filter against the existing set keeps the order of the messages. |
| `Dataset.UniqueCount` | ai-data-generator.py:48 | The filter keeps every message not in the set as often as it occurred, and none that is in the set. |
| `Dataset.UniqueMembers` | ai-data-generator.py:48 | A message survives if and only if it occurred and is not in the set. |
| `Dataset.UniqueOfNothing` | ai-data-generator.py:38-48 | Against the empty set, nothing is filtered out. |
| `Dataset.InTrimmedSet` | ai-data-generator.py:41-42 | The stripped form of every line read is in the set of existing messages. |
| `Dataset.TrimmedSetWitness` | ai-data-generator.py:41-42 | Every member of the set of existing messages is the stripped form of some line read. |
| `Dataset.TrimmedSetAppend` | ai-data-generator.py:41-42 | The set built from two runs of lines is the union of the sets built from each. |
| `Dataset.TrimmedSetOfWritten` | ai-data-generator.py:42-54 | Lines written as `msg + "\n"`, with `msg` non-empty and stripped, strip back to exactly the written messages. |
| `Dataset.ExistingOfAppended` | ai-data-generator.py:40-54 | Appending terminator-free stripped lines to a terminated file adds exactly those lines to its set of existing messages. |
| `Dataset.ReadAppended` | ai-data-generator.py:41-54 | Terminator-free lines appended to a terminated file read back as the old lines followed by the new ones, each with its `"\n"`. |
| `Dataset.FreshArePlain` | ai-data-generator.py:45-48 | When no message holds a `"\r"`, every appended line is non-empty, stripped and free of both terminators. |
| `Dataset.SubsequenceTransitive` | ai-data-generator.py:45-48 | Order kept by two successive filters is kept by their composition. |
| `PyText.Split` | ai-data-generator.py:45 | `str.split` gives at least one fragment. No fragment holds the separator, and joining the fragments with it gives back the input. |
| `PyText.SplitJoin` | ai-data-generator.py:45 | Splitting undoes joining for separator-free fragments. |
| `PyText.SplitAllSpace` | ai-data-generator.py:45 | Splitting all-whitespace text gives all-whitespace fragments. |
| `PyText.IsSpace` | ai-data-generator.py:42-45 | The characters `str.isspace` accepts, which `strip()` removes. |
| `PyText.Strip` | ai-data-generator.py:42-45 | `str.strip()`. `StripEnds`, `StripSlice`, `StripBlank`, `StripChars`, `StripFixed` and `StripIdempotent` state what it returns. |
| `PyText.StripEnds` | ai-data-generator.py:42-45 | A non-empty result of `strip()` neither starts nor ends with whitespace. |
| `PyText.StripBlank` | ai-data-generator.py:45 | `strip()` gives the empty string if and only if the text is all whitespace. |
| `PyText.StripSlice` | ai-data-generator.py:42-45 | `strip()` gives a contiguous slice of its input, and everything outside that slice is whitespace. |
| `PyText.StripChars` | ai-data-generator.py:45 | `strip()` adds no characters. |
| `PyText.StripFixed` | ai-data-generator.py:42-45 | Text with no whitespace at either end is left unchanged by `strip()`. |
| `PyText.StripIdempotent` | ai-data-generator.py:42-45 | Stripping twice is stripping once. |
| `PyText.StripTerminated` | ai-data-generator.py:42-54 | A stripped message followed by one whitespace character, such as its `"\n"`, strips back to the message. |
| `PyText.LeadingSpace` | ai-data-generator.py:42-45 | Returns the length of the leading whitespace run: all whitespace before it, a non-space at it. |
| `PyText.TrailingStart` | ai-data-generator.py:42-45 | Returns where the trailing whitespace run begins: all whitespace after it, a non-space just before it. |
| `PyText.ReadLines` | ai-data-generator.py:40-41 | Text-mode reading yields no line exactly when the file is empty. |
| `PyText.ReadLinesConcat` | ai-data-generator.py:40-41 | The lines read, concatenated, give the file's text with every line end translated to `"\n"`. |
| `PyText.Universal` | ai-data-generator.py:40-41 | The translated text contains no `"\r"`. |
| `PyText.ReadLinesShape` | ai-data-generator.py:41 | Every line read is non-empty and holds a `"\n"` at most at its end. Every line but the last ends in `"\n"`. |
| `PyText.ReadLinesLast` | ai-data-generator.py:41 | The last line read ends in `"\n"` if and only if the file ends with a line terminator. |
| `PyText.ReadLinesOfAppend` | ai-data-generator.py:41-52 | Text appended to a terminated file, not starting with `"\n"`, reads as the old lines followed by its own lines. |
| `PyText.ReadLinesOfLine` | ai-data-generator.py:41 | A terminator-free line ended by `"\n"`, `"\r\n"` or `"\r"` reads as that line plus `"\n"`, then the rest. |
| `PyText.DecimalString` | ai-data-generator.py:55 | The rendering of a count is a non-empty run of decimal digits with no leading zero. |
| `PyText.DecimalStringInjective` | ai-data-generator.py:55 | Different counts render differently. |
| `PyText.DigitChar` | ai-data-generator.py:55 | Each digit value maps to the character for it. |
| `DatasetServer.Server.constructor` | ai-data-generator.py:8-30 | The server owns four different stores, one per dataset file, each with the content it started with. |
| `DatasetServer.Server.SaveBanglaDataset` | ai-data-generator.py:98-102 | Saves the batch into the Bangla file as `save_dataset` does and leaves the other three files unchanged. |
| `DatasetServer.Server.SaveEnglishDataset` | ai-data-generator.py:142-146 | Saves the batch into the English file as `save_dataset` does and leaves the other three files unchanged. |
| `DatasetServer.Server.SaveBanglishSms` | ai-data-generator.py:187-191 | Saves the batch into the Banglish file as `save_dataset` does and leaves the other three files unchanged. |
| `DatasetServer.Server.SaveCodeMixedDataset` | ai-data-generator.py:233-237 | Saves the batch into the code-mixed file as `save_dataset` does and leaves the other three files unchanged. |
| `DatasetExamples.OrderKept` | ai-data-generator.py:45-55 | The batch `b`, `a`, `c` on an empty file is written as `b`, `a`, `c`, not sorted, and three messages are reported saved. |
| `DatasetExamples.RepeatsWithinBatch` | ai-data-generator.py:45-55 | A new message given twice in one batch is written twice, and two are reported. |
| `DatasetExamples.AlreadyPresent` | ai-data-generator.py:42-54 | If the file holds `a`, the batch `a`, `b`, `a` appends only `b`. |
| `DatasetExamples.ReadBackPair` | ai-data-generator.py:40-54 | Writing `x`, `y` to an empty file reads back as exactly the set `{x, y}`. |
| `DatasetExamples.WindowsLineEnds` | ai-data-generator.py:40-48 | A message in a file written with `"\r\n"` counts as present, and a second copy is not written. |
| `DatasetExamples.InteriorCarriageReturn` | ai-data-generator.py:40-54 | A message `a "\r" b` is written as one line but reads back as `a` and `b`, so the same batch is written again by a second call. |
| `DatasetExamples.UnterminatedFile` | ai-data-generator.py:40-54 | On a file `a` with no final terminator, `b` is appended onto that line. The file then holds only `a b`, so the same batch is written again by a second call. |

## Left out

- The MCP server, `FastMCP` construction and `@mcp.tool()` registration (lines 1, 5-6 and before each tool) are framework plumbing and are not modelled.
- The four `generate_*_dataset` prompt templates (lines 62-94, 106-138, 151-183, 196-229) are static text with a count interpolated and are not modelled.
- The `csv` import (line 3) is unused.
- Path construction with `os.path` (lines 8-11) and the file system itself are replaced by four in-memory stores. `ensure_files` (lines 13-30) and the `os.path.exists` test (line 39) are folded into a store's initial content: a missing file is the empty text.
- UTF-8 decoding and encoding are not modelled. The content is a sequence of characters. Decode failures, and disk or permission errors, are raised by the runtime and not handled by the code.
- Text-mode writing writes `"\n"`. A platform that translates it to `"\r\n"` on write is not modelled; the model reads such files correctly (`DatasetExamples.WindowsLineEnds`).
- Concurrent calls on the same file are not modelled. The code takes no lock, and a call is one read followed by at most one append.
- Dataset.StoreTwiceAppendsNothing: requires a terminated file and no bare `"\r"` in the batch, because without them the property does not hold (`DatasetExamples.UnterminatedFile`, `DatasetExamples.InteriorCarriageReturn`).
- Dataset.SavedCountIsLinesAdded: requires the same two conditions. Without them, the appended text can merge with the last line or split into more lines.
