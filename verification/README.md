# Ryujinx log analyser, modelled in Dafny

This project models the log analyser of the `ryuko-ng` Discord bot, found in
`cogs/logfilereader.py`. When a user posts an attachment named like a Ryujinx
emulator log, the bot does four things:

- it reads a fixed set of system fields out of the log text: emulator version,
  firmware, OS, CPU, GPU, RAM, game name and enabled log categories;
- it finds the first error line;
- it lists the mods the emulator reported loading;
- it notes which of the default log categories are switched off.

The result is a Discord embed. A game name that reads "Unknown" adds a
warning that the log looks empty.

The Discord embed becomes a plain datatype (`LogEmbed.Embed`): a title, a footer
and an ordered list of sections, each tagged with its kind. Each regular
expression of the source gets its own direct characterisation of what it
matches, following Python's `re` semantics: leftmost match, lazy and greedy
groups, `.` not matching a newline, and `$` before a final newline. Each scanner
is proved against that characterisation.

Modules, in dependency order:

- `Wrappers`: `Option`.
- `Icons`: the two emoji the embed's lines start with, defined once.
- `Text`: Python's `str.isspace`, also used for `\s`; `rstrip`; `replace(c, "")`;
  `split`; `join`. Splitting a join of separator-free parts gives the parts back.
- `FilenameGate`: the attachment filter `^Ryujinx_.*\.log$`.
- `FieldExtractor`: `regex_map`, `make_regex_obj`, `find_specs`, `specs_search`.
- `ModDetector`: `mods_information` and its `re.findall`.
- `ErrorExcerpt`: `find_error_message`.
- `LogNotes`: the Notes section, from `default_logs` to `log_string`.
- `LogEmbed`: `generate_log_embed` and `log_file_read`.

Where the code's behaviour is surprising, the model follows the code:

- The field value pattern `[^;\r]*` stops only at `;` or a carriage return. In a
  log with bare `\n` line endings, a value therefore runs on into the following
  lines up to the next `;`, and `FindSpecs` models exactly that.
- Python's `\s` includes `\r`. So the optional `(\sTotal)` group also swallows
  "Total" followed by a carriage return (`FieldExtractor.RenderedFieldReadsBack`
  excludes that one case).
- Only the space character is removed from the `Logs Enabled` tokens. Tabs and
  other whitespace inside the list stay part of a token.

## Model

| member | source | states |
|---|---|---|
| FilenameGate.IsLogFilenameCorrect | cogs/logfilereader.py:20 | The filter accepts a name exactly when it is `Ryujinx_`, a newline-free middle, `.log`, and optionally one final newline (the `$` rule). Both directions are proved. |
| FilenameGate.FilenameExamples | cogs/logfilereader.py:20 | `Ryujinx_.log` and a dated log name are accepted. A `.txt` name and a lower-case `ryujinx_` name are refused. |
| FieldExtractor.FindSpecs | cogs/logfilereader.py:35-43 | With no match the value is "Unknown". Otherwise it is the right-stripped capture of the leftmost match. The value never holds `;` or `\r` and never ends in whitespace. |
| FieldExtractor.SpecsSearch | cogs/logfilereader.py:24-51 | The result has exactly the eight `regex_map` keys. Each key maps to the field searched with its own label. |
| FieldExtractor.RenderedFieldReadsBack | cogs/logfilereader.py:35-43 | Round trip: a field `name: value` at the start of the log, ended by `;`, `\r` or the end of the text reads back as `value`. This holds for any value a capture can produce, except one starting with the absorbed word "Total". |
| FieldExtractor.TotalAbsorbed | cogs/logfilereader.py:36-38 | The optional group swallows "Total": a field `name: Total value` at the start of the log, then optional padding (whitespace other than `\r`), then `;`, `\r` or the end of the text, reads as `value`. The padding is stripped by `rstrip`. This is the RAM line's format, as in `RAM: Total 16297 MB ;`. |
| FieldExtractor.FoundValueStripped | cogs/logfilereader.py:108-109 | A searched value is already right-stripped, so the second `.rstrip()` applied to the `Logs_Enabled` value changes nothing. |
| FieldExtractor.VersionExample | cogs/logfilereader.py:24-43 | `Ryujinx Version: 1.2.3` gives the version `1.2.3`. |
| ModDetector.ScanMods | cogs/logfilereader.py:54 | `re.findall` semantics. Nothing matches before the first reported match. Each reported match is genuine, with the lazy name ending at the least position that lets the rest match. Scanning resumes at that match's end. With no match, nothing matches anywhere. |
| ModDetector.ScannedMatches | cogs/logfilereader.py:54 | Every reported match is a genuine match of the pattern, at or after the scan start. |
| ModDetector.ScannedOrdered | cogs/logfilereader.py:54 | The reported matches are in log order and do not overlap. |
| ModDetector.ModsInformation | cogs/logfilereader.py:53-61 | `None` exactly when the pattern matches nowhere. Otherwise the result is a non-empty list with one line per `findall` match, in order. Each line names the mod and says ExeFS for the tag `[E]` and RomFS for any other tag. |
| ModDetector.RenderedModDetected | cogs/logfilereader.py:54 | A `Found mod 'name' [status]` line is matched as exactly that mod and tag, whatever text follows. This holds for any newline- and quote-free name and any non-empty newline- and bracket-free status. |
| ModDetector.RenderedModListed | cogs/logfilereader.py:53-61 | A log starting with such a line yields a mod list whose first entry names that mod, marked ExeFS exactly when the status is `E`. |
| ModDetector.ModLineOneLine | cogs/logfilereader.py:56-60 | Every mod line is a single line. This is why joining the lines with newlines keeps them apart. |
| ErrorExcerpt.Excerpt | cogs/logfilereader.py:85 | The group `(.*\n.*)` is the text that starts right after the marker and ends at the end of the following line: it ends at a newline or at the end of the log, and it holds exactly one newline. So it is the rest of the error line, the line break, then the whole next line. |
| ErrorExcerpt.FindErrorMessage | cogs/logfilereader.py:83-88 | `None` exactly when the error pattern matches nowhere. Otherwise the excerpt is non-empty and contains the line break, so the source's truthiness test never drops a found excerpt. |
| ErrorExcerpt.LeftmostMatchGivesExcerpt | cogs/logfilereader.py:84-88 | The returned excerpt is the group of the match that starts leftmost, which is the one `finditer` yields first. |
| ErrorExcerpt.NoMarkerNoExcerpt | cogs/logfilereader.py:84-88 | A log in which the error-level marker (space, `E` between bars, space) never occurs has no excerpt. |
| LogNotes.DisabledLogs | cogs/logfilereader.py:107-111 | The disabled categories are a subset of the five defaults. A default category is disabled exactly when no token of the stripped, space-free, comma-split field equals it. |
| LogNotes.DisabledOfList | cogs/logfilereader.py:107-111 | A comma-joined list of space- and comma-free names disables exactly the default categories it leaves out. |
| LogNotes.SpacesIgnored | cogs/logfilereader.py:108-110 | Any run of spaces on either side of a comma (`a  ,   b`) changes neither the tokens nor the disabled set, compared with `a,b`. |
| LogNotes.UnknownDisablesAll | cogs/logfilereader.py:107-111 | When the field is missing and reads "Unknown", all five default categories are disabled. |
| LogNotes.InfoGuestExample | cogs/logfilereader.py:107-111 | `Info,Guest` leaves Warning, Error and Stub disabled. |
| LogNotes.DefaultListDisablesNothing | cogs/logfilereader.py:107-111 | Naming all five defaults, comma-separated, disables none of them. |
| LogNotes.NotesBody | cogs/logfilereader.py:112-118 | With nothing disabled the body is the "Default logs enabled" line. Otherwise it splits into exactly one warning line per disabled category: as many lines as categories, each line belonging to a disabled category, and each disabled category having its line. |
| Text.RStrip | cogs/logfilereader.py:43 | `str.rstrip()`: the result is a prefix of the input, does not end in whitespace, and everything cut off is whitespace. |
| Text.Remove | cogs/logfilereader.py:109 | `str.replace(" ", "")`: the result holds no space, every other character keeps its count, and the length drops by the number of spaces. |
| Text.RemoveAppend | cogs/logfilereader.py:109 | The replacement works piecewise on a concatenation, so the kept characters stay in order. |
| Text.Split | cogs/logfilereader.py:109 | `str.split(",")`: at least one part, no part holds the separator, and the parts joined with the separator give the input back. |
| Text.SplitJoin | cogs/logfilereader.py:109 | `split` inverts `join` on separator-free parts. |
| LogEmbed.LayoutOrdered | cogs/logfilereader.py:63-119 | Every combination of the three optional sections puts the sections in the builder's order, each kind at most once. |
| LogEmbed.GenerateLogEmbed | cogs/logfilereader.py:63-120 | The title is the game name and the footer names the author. The embed has three to six sections in builder order, opening with the two info sections and ending with Notes. The empty-log section is present exactly when the game name is "Unknown". The error section is present exactly when an excerpt exists, and it holds that excerpt in a code block. The mods section is present exactly when mods were found, and it splits back into the mod lines. |
| LogEmbed.ModLinesSplit | cogs/logfilereader.py:100-104 | The mods section's newline-joined body splits back into the mod lines. |
| LogEmbed.LogFileRead | cogs/logfilereader.py:17-122 | A name the filter refuses gives no embed. Any other name gives the embed built from the fields searched in the log, signed `@author`. |
| LogEmbed.LogFileReadEmbed | cogs/logfilereader.py:63-81 | An accepted log's embed is titled with the game name from the log and signed `Log uploaded by @author`. It carries the empty-log warning exactly when no game name was read. |
| LogEmbed.NoGameLineIsEmptyLog | cogs/logfilereader.py:76-81 | A log with no `Loader LoadNca: Application Loaded:` line is titled "Unknown" and gets the empty-log instructions. |
| LogEmbed.NoMarkerNoErrorSection | cogs/logfilereader.py:83-97 | A log without the error marker gets no error section. |

## Left out

- `download_file` (HTTP range request for the first and last 6000 bytes): network I/O. The log text is a parameter, whatever the download returned.
- `message.attachments[0]` and `message.author.name`: the file name and author name are parameters. A message without attachments, which raises in the source, is not modelled.
- Async plumbing and the bot object: no behaviour of their own.
- The embed colour `0x4A90E2` and the `inline=False` flags: presentation only, not part of `Embed`.
- `cogs/roles.py` is not part of this model.
- Emoji (`ℹ️`, `⚠️`) are kept as opaque two-code-point literals.
- ErrorExcerpt.FindErrorMessage: `\d` is modelled as the ASCII digits. Python's `\d` in a `str` pattern also matches other Unicode decimal digits, so a timestamp in another script is not recognised.
- LogNotes.NotesBody: the order of the warning lines comes from Python's `set` iteration order, which the program does not fix. It is a parameter, and the contract states the set of lines and their number, not their order.
- FieldExtractor.RenderedFieldReadsBack: values starting with "Total" plus whitespace are excluded, because the optional group swallows that prefix. `FieldExtractor.TotalAbsorbed` covers that case.
- General regular-expression matching: each of the four patterns is characterised directly rather than through a regex engine. `re.MULTILINE`, set on the field and error patterns, changes nothing here because neither of them uses `^` or `$`. The filename pattern uses both, without the flag.
