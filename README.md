# Clipboard-history launcher plugin, modelled in Dafny

The plugin (`src/lib.rs`) is a dynamic library loaded by a launcher host. It
exports three things:

- a static metadata record `PLUGIN_INFO`;
- `get_entries`, which runs `cliphist list`, splits its output into lines,
  drops the collector's "database still empty" notice, and turns every
  `id<TAB>content` line into an entry;
- `handle_selection`, which takes the value of the entry the user picked and
  runs `sh -c "cliphist decode <id> | wl-copy"`.

The model follows that layout, one module per component:

- `Text` (text.dfy) holds the string operations the source takes from Rust's
  library, each with its own specification functions:
  - `Split` is `str::split` on one character;
  - `Join` is its inverse;
  - `SplitOnce` is `splitn(2, ..)` collected into a vector.
- `CStrings` (cstrings.dfy) models NUL termination. `Terminate` writes a
  string as the source does (`concat!(.., "\0")`, `format!("{}\0", ..)`).
  `ReadCStr` reads it back as `CStr::from_ptr` does.
- `ClipboardHistory` (history.dfy) models `get_clipboard_history`.
  - `GetClipboardHistory` is an imperative method. It scans the collector's
    output once, pushes each line, and then removes the first line when the
    sentinel rule applies.
  - It is proved equal to the specification function `History`, which is
    `DropSentinel(Split(stdout, '\n'))`.
- `Entries` (entries.dfy) models `get_entries`.
  - `GetEntries` is an imperative `for` loop with the source's two
    `continue` skips.
  - It is proved equal to `EntriesOf(History(stdout))`. `EntriesOf` is the
    filter-map of `EntryFor` over the lines.
- `Selection` (selection.dfy) models `handle_selection` as functions:
  - `SelectionText` covers the null and non-UTF-8 cases;
  - `PlanSelection` says whether the input is rejected or which process is
    launched;
  - `HandleSelection` gives the boolean result. How the launched pipeline
    ends is a parameter.
- `Plugin` (plugin.dfy) holds the `PLUGIN_INFO` constant. It also has a
  lemma linking a listed entry to what the handler does when that entry is
  selected.

The collector's standard output is a parameter, a `string`. The pipeline's
outcome is a parameter too, of type `SpawnResult`: `Exited(success)` or
`SpawnFailed`. A null pointer is `None`. A pointer to bytes that are not valid
UTF-8 is `Some(None)`. A valid selection text is `Some(Some(s))`.

Edge cases of the code that the model keeps:

- Lines are split on `'\n'` only. A `"\r"` before the newline stays in the
  line, and a final newline gives a final empty line. Empty lines are later
  skipped.
- A lone sentinel line is kept as the only line (`LoneSentinelKept`). Output
  that is the sentinel plus a newline becomes one empty line
  (`SentinelThenNothing`). That empty line yields no entry.
- Invalid UTF-8 in the selection goes through `unwrap_or("")`, so it is
  rejected exactly like an empty selection.
- A line that starts with a tab gives an entry whose value is empty. Selecting
  that entry is rejected, and no process is launched (`SelectListedEntry`).
- An id holding a NUL is listed whole. However, the handler reads the value
  only up to its first NUL, so the pipeline gets the shorter id
  (`SelectValueWithNul`).
- The id goes into the shell text unescaped. `PipelineRoundTrip` shows the id
  survives in the text exactly. What the shell makes of metacharacters in it
  is outside the model.

## Model

| member | source | states |
|---|---|---|
| Text.Split | src/lib.rs:134 | splitting always yields at least one piece |
| Text.SplitLength | src/lib.rs:134-136 | the number of lines is the number of newlines plus one |
| Text.JoinSplit | src/lib.rs:134-136 | joining the lines with the separator gives back the input exactly |
| Text.SplitJoin | src/lib.rs:134-136 | splitting a join of separator-free pieces gives back those pieces |
| Text.SplitPiecesFree | src/lib.rs:134-136 | no line contains the separator |
| Text.SplitNoSep | src/lib.rs:134-136 | a text without a separator is a single line |
| Text.SplitAppend | src/lib.rs:134-136 | a separator splits the text into the lines before it followed by the lines after it |
| Text.JoinFirst | src/lib.rs:134-136 | a join of two or more pieces starts with the first piece and a separator |
| Text.SplitOnce | src/lib.rs:101-102 | one part exactly when there is no separator, and then it is the whole line; otherwise the line is head + separator + rest, with no separator in the head |
| Text.SplitOnceAt | src/lib.rs:101-106 | splitting happens at the first separator; later separators stay in the second part |
| CStrings.ReadCStr | src/lib.rs:76 | the text read from a buffer has no NUL and is followed by a NUL in the buffer |
| CStrings.ReadTerminate | src/lib.rs:107-108 | a NUL-free text written with its terminator reads back unchanged |
| CStrings.ReadPrefix | src/lib.rs:76 | reading stops at the first NUL whatever follows it |
| CStrings.TerminateTruncates | src/lib.rs:107-108 | a stored text containing a NUL reaches the reader cut off at that NUL |
| ClipboardHistory.History | src/lib.rs:127-141 | the history always has at least one line |
| ClipboardHistory.GetClipboardHistory | src/lib.rs:133-140 | the pushed lines, minus a dropped sentinel, are exactly the specified history of the output |
| ClipboardHistory.HistoryOfJoin | src/lib.rs:134-140 | newline-free lines that do not open with the notice come back unchanged from their newline join |
| ClipboardHistory.SplitAfterSentinel | src/lib.rs:134-139 | output opening with the notice and a newline splits into the notice followed by the rest's lines |
| ClipboardHistory.SentinelFiresIff | src/lib.rs:137 | the first line is dropped if and only if the output begins with the notice followed by a newline, which covers both "more than one line" and "first line is the notice" |
| ClipboardHistory.HistoryLines | src/lib.rs:134-139 | the history is the line split of the output after the notice's line when the notice opens it, and of the whole output otherwise |
| ClipboardHistory.HistoryJoin | src/lib.rs:134-139 | joining the history reproduces the output, minus the notice's line exactly when it was dropped |
| ClipboardHistory.HistoryLength | src/lib.rs:134-139 | the history has one line per newline plus one, minus one when the notice is dropped |
| ClipboardHistory.HistoryLinesFree | src/lib.rs:134-136 | no history line contains a newline |
| ClipboardHistory.LoneSentinelKept | src/lib.rs:137 | a notice that is the only line is kept |
| ClipboardHistory.SentinelThenNothing | src/lib.rs:137-139 | the notice followed only by a newline leaves one empty line |
| Entries.EntryFor | src/lib.rs:98-115 | a line yields an entry if and only if it contains a tab; the line is then value + tab + name, the value has no tab, the description equals the name, and icon and emoji are null |
| Entries.GetEntries | src/lib.rs:95-125 | the entries built are the filter-map of the history lines, and the list's length is their number |
| Entries.EntryForLine | src/lib.rs:101-114 | the line `id<TAB>content` with a tab-free id gives value = id and name = description = content, with icon and emoji null |
| Entries.EntriesAppend | src/lib.rs:97-116 | the entries of concatenated line lists are the concatenated entries, so there is no reordering |
| Entries.EntriesSnoc | src/lib.rs:97-116 | a line appended to the input appends its entry when it has a tab, and nothing otherwise |
| Entries.EntriesCount | src/lib.rs:98-104 | the output length equals the number of lines that contain a tab |
| Entries.EntriesFromLines | src/lib.rs:97-115 | every entry comes from some input line |
| Entries.EntryPosition | src/lib.rs:97-116 | a line with a tab yields the entry that directly follows the entries of the lines before it |
| Entries.EntriesOrdered | src/lib.rs:97-116 | of two lines with tabs, the earlier one's entry comes first in the output |
| Entries.EntryFieldsClean | src/lib.rs:101-106 | entry values hold no tab and no newline, and names hold no newline |
| Entries.TwoRecords | src/lib.rs:97-116 | two well-formed records give their two entries, in order |
| Entries.ListingOfTwoRecords | src/lib.rs:95-125 | output made of two records and a trailing blank line lists exactly the two records' entries, in order, each content kept whole |
| Entries.ExampleListing | src/lib.rs:95-125 | `"42\tHello World\n7\tfoo\tbar\n\n"` lists `42`/`Hello World` and then `7`/`foo\tbar`, and the second record's extra tab stays in its content |
| Selection.PipelineId | src/lib.rs:84 | the id recovered from a pipeline text rebuilds that same text |
| Selection.PipelineRoundTrip | src/lib.rs:84 | the id can be read back unchanged from the pipeline text |
| Selection.SelectionText | src/lib.rs:71-77 | null stays null, invalid UTF-8 becomes the empty text, a valid text is kept |
| Selection.PlanSelection | src/lib.rs:71-85 | rejection happens if and only if the input is null, invalid UTF-8 or empty; otherwise it launches `sh` with `-c` and the pipeline for exactly that id |
| Selection.HandleSelection | src/lib.rs:70-92 | the result is true if and only if the selection is valid and non-empty and the launched pipeline exits successfully |
| Selection.RejectionSpawnsNothing | src/lib.rs:71-80 | a rejected selection returns false whatever a launch would do |
| Plugin.PluginInfoReadable | src/lib.rs:61-67 | the descriptor's five fields are non-empty and read back intact through their NUL-terminated buffers |
| Plugin.SelectListedEntry | src/lib.rs:76-84 | selecting a listed entry hands the handler the entry's value up to its first NUL, which is all of it when the value has no NUL; an empty id is rejected, and any other id launches the pipeline on exactly that id |
| Plugin.SelectValueWithNul | src/lib.rs:76-84 | a listed value `a` NUL `b` launches the pipeline on `a` alone, which is a different command from the one for the full value |

`Text.Join`, `Text.Count`, `CStrings.Terminate`, `ClipboardHistory.DropSentinel`,
`Entries.EntriesOf`, `Entries.TabbedCount`, `Plugin.Fields` and
`Selection.Pipeline` are specification functions. Their properties are stated
by the members above.

The following are proof helpers, not properties of the code:

- `Text.JoinExtendLast`, `Text.SplitSnoc` and `Text.ExtendLastConcat` are single unfolding steps of `Join` and `Split`.
- `ClipboardHistory.ScanStep` is the loop step of `GetClipboardHistory`.
- `Entries.RecordFree`, `Entries.JoinFour` and `Entries.ExampleOutputShape` set up the listing example.

## Left out

- Process spawning (`Command::new`, `.output()`, `.status()`) is replaced by parameters: the collector's output becomes a string, and the pipeline's end becomes a `SpawnResult`.
- The panic when `cliphist list` cannot be started (`.expect`) is not modelled. The model always has an output text.
- The panic in `String::from_utf8(..).unwrap()` is not modelled. The output is taken to be valid text.
- `println!` diagnostics are not modelled. They are logging only.
- Memory ownership and layout are not modelled: `Box::leak`, raw pointers, `#[repr(C)]`, `Send`/`Sync` and exported symbol names. `EntryList` is a sequence paired with its length, and NUL termination is modelled in `CStrings` only.
- Entries.GetEntries: the entries hold their strings without the NUL terminator the source appends. `Plugin.SelectListedEntry` models the terminated value handed back to the handler.
- The unused `AppInfo` struct is not modelled. It is dead code.
- `build.rs` is not part of this model. It is a build script that copies a library file.
- The unit tests are not modelled. They depend on live `cliphist` and `wl-copy` tools.
