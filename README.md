# MoodeAudio 1.83" LCD: AirPlay metadata reader and status-file parsing

This project models two pieces of the MoodeAudio 1.83-inch LCD add-on.

`aplmeta.py` is the AirPlay metadata reader. It reads the text lines printed
by shairport-sync's metadata reader. For each line it does four things:
- It tracks the persistent ID (PID) of the current track. When the PID
  changes, it overwrites the status file `aplmeta.txt` with a placeholder
  record and clears the collected fields.
- It collects the title, artist, album and track length.
- Once title, artist and album are all set and a cover-art file exists, it
  writes the six-field `~~~`-separated record and the known PID to the status
  file, sends `update_aplmeta,<record>` to the front-end, and clears the
  fields.
- At startup it takes the tracked PID from the first `PID=` line of the
  status file.

`lcd_updater.py` is the display script. Its string logic is modelled:
- It reads MoOde's `currentsong.txt` into a key/value map.
- If `file` is `Spotify Active`, it takes the song, artist and cover URL from
  `spotmeta.txt`.
- Otherwise it turns the `coverurl` entry into a `http://localhost/` URL and
  takes the title and artist from the map.

Modules:
- `Wrappers`: `Option` and `Result`.
- `Text`: the Python string operations the scripts use, each characterised
  for every input by its contract or a lemma about it. These are `str.strip`,
  `str.split` (both forms), `str.replace`, `os.path.basename`, and the lines
  that iterating over a text file yields (`FileLines`).
  - `Join` and `Find` are the model's own helpers for stating `split` and
    `replace`: neither script calls `join` or `find`.
- `AplmetaLines`: the line classifiers `get_metadata` and `get_persistent_id`,
  and the startup read `read_pid_from_aplmeta`.
- `AplmetaTracker`: the loop, in two forms.
  - `Next` and `RunLines` are pure step functions on a `Session` value.
  - The class `Tracker` holds the module globals. Its `Step` and `Run`
    methods are proved to follow `Next` and `RunLines`.
  - The file writes and the front-end command are returned as `Effect` values.
  - The cover-directory listing is an input of every step.
- `LcdUpdater`: status-map parsing, with the loop as a method. Also cover-URL
  normalisation, Spotify metadata and the choice between the two sources.
  An exception that would escape `getMetaData` is an `Err`.

With an empty cover directory, aplmeta.py:176-178 only assigns
`cover_file = 'notfound.jpg'`. Nothing is written or sent, and the fields are
not reset, so the complete record stays held (`MissingCoverArtHoldsFields`).
What the next line does with it depends on the line:
- A line that carries neither a PID nor a field sends the held record, with
  the duration held at that moment, once a cover file is listed
  (`HeldRecordGoesOutWithCover`).
- A field line first overwrites its field, then the completion check runs.
- A different persistent ID, while a PID is tracked, clears the fields before
  the completion check. The held record is dropped, and only the placeholder
  is written (`HeldRecordDiscardedByNewPid`).

The status file is also read back at startup. `read_pid_from_aplmeta`
takes the first line that starts with `PID=`:
- A placeholder file gives back the PID it was written for
  (`PlaceholderPidReadBack`).
- A record file gives back the PID written after the record, or nothing when
  no PID was known (`RecordPidReadBack`).
- Both hold when the title does not start with `PID=` and no field holds a
  line break.
- A title that does start with `PID=` turns the record line itself into the
  first `PID=` line. The rest of the record, never a PID, is then read back
  (`PidTitleMisread`). The model keeps this behaviour of the source.

## Model

| member | source | states |
|---|---|---|
| Text.LinesKeepEnds | aplmeta.py:100 | the lines rebuild the text, each is non-empty and holds '\n' only as its last character, and every line but the last ends with '\n' |
| Text.UniversalNewlinesKeeps | aplmeta.py:99-100 | text without '\r' is not changed by the universal-newline translation of a read |
| Text.FileLinesOfTwo | aplmeta.py:99-100 | a file of two '\n'-ended lines without line breaks is read as those two lines |
| Text.Strip | lcd_updater.py:30 | the result has no whitespace at either end and is the input with only whitespace (Python's `isspace` set) removed around it |
| Text.StripPadded | aplmeta.py:102 | stripping removes exactly the surrounding whitespace: padding a trimmed text and stripping gives it back |
| Text.StripKeepsPrefix | lcd_updater.py:49 | an item that starts with `http` still starts with `http` after stripping |
| Text.SplitOnce | lcd_updater.py:30 | `split(c, 1)` gives one part exactly when `c` is absent, else the text before the first `c` and everything after it |
| Text.SplitOnceAt | aplmeta.py:102 | the split happens at the first occurrence whatever follows it |
| Text.Find | lcd_updater.py:46 | the index returned is an occurrence and no earlier index is one; `None` only when there is no occurrence |
| Text.Split | lcd_updater.py:46 | `split(sep)` has at least one part, joining the parts with `sep` gives the text back, no part contains `sep`, and each cut is at the leftmost occurrence (no part but the last, followed by all but the last character of `sep`, contains `sep`) |
| Text.SplitFirstField | lcd_updater.py:46-48 | the first part is the text before the first occurrence (or the whole text), and the other parts are the split of what follows that occurrence |
| Text.SplitHeadIff | lcd_updater.py:46-47 | a text is `split(sep)[0]` if and only if it is the text before the first occurrence of `sep`, or the whole text when there is none |
| Text.SplitIsWhole | lcd_updater.py:46-48 | `split(sep)` has a single part exactly when `sep` does not occur |
| Text.SplitOfJoin | lcd_updater.py:46 | splitting undoes joining when no part holds the separator's first character |
| Text.ReplaceAllSkips | lcd_updater.py:35 | text that cannot start an occurrence is copied through |
| Text.ReplaceAllIsJoinOfSplit | lcd_updater.py:35 | for every text, `s.replace(pat, rep)` equals `rep.join(s.split(pat))` |
| Text.Basename | aplmeta.py:181 | the base name holds no '/', ends the path, and is preceded by '/' when shorter than the path |
| AplmetaLines.Between | aplmeta.py:65-69 | `Some(v)` exactly when the body is prefix + v + suffix with no newline in v (both directions) |
| AplmetaLines.GetMetadata | aplmeta.py:64-73 | a recognised quoted field means the line is `Key: "v".` (an optional final newline allowed) with no newline in v; a Track length is the first space-separated token of the text before the final `.` |
| AplmetaLines.GetMetadataOfAnnounce | aplmeta.py:64-73 | every announcement line of each field, with or without its newline, is recognised as that field with its value (for Track length, the first token) |
| AplmetaLines.FirstTokenOfSplit | aplmeta.py:71 | `split(' ')[0]` holds no space and is the whole text or is followed by a space |
| AplmetaLines.SplitAtFirstSpace | aplmeta.py:71 | a value with a space in it yields the text before its first space |
| AplmetaLines.PidToken | aplmeta.py:91 | a token found is `0x` plus hex digits (x in either case), followed by `.` and only whitespace |
| AplmetaLines.PidTokenOf | aplmeta.py:91 | every such tail yields its token |
| AplmetaLines.GetPersistentId | aplmeta.py:90-92 | a PID found is the group of a match of the case-insensitive pattern at some position |
| AplmetaLines.GetPersistentIdComplete | aplmeta.py:90-92 | every line matching the pattern yields its group |
| AplmetaLines.PersistentIdIff | aplmeta.py:90-92 | `get_persistent_id(line) == pid` if and only if the line matches with that group |
| AplmetaLines.GetPersistentIdOfAnnounce | aplmeta.py:91 | `Persistent ID: <pid>.` followed by any whitespace yields pid verbatim |
| AplmetaLines.LongSInLabelMatches | aplmeta.py:91 | the label matches under Python's non-ASCII case folds: `Perſistent ID: 0x1.` yields `0x1` |
| AplmetaLines.PidLineIsNotAField | aplmeta.py:145-164 | a PID line never updates a field |
| AplmetaLines.AnnounceIsNotPid | aplmeta.py:145-164 | a field announcement never carries a PID |
| AplmetaLines.ReadPidFromStatusFile | aplmeta.py:95-105 | a missing file gives None; None only if no line starts with `PID=`; otherwise the stripped text after `PID=` on the first such line; the loop's result is `StatusFilePid`, which the read-back lemmas use |
| AplmetaTracker.Tracker.constructor | aplmeta.py:43-49 | the globals start unset, with duration '0' and the PID read at startup |
| AplmetaTracker.Tracker.UpdateField | aplmeta.py:76-85 | `update_globals` sets exactly the named global |
| AplmetaTracker.Tracker.ResetFields | aplmeta.py:154-157 | the three fields become None and the duration '0'; the PID is kept |
| AplmetaTracker.Tracker.Step | aplmeta.py:141-206 | one pass of the loop changes the globals and produces the effects of the step function `Next` |
| AplmetaTracker.Tracker.CheckPid | aplmeta.py:145-157 | the persistent-ID check changes the globals and writes the placeholder as `PidStage` says |
| AplmetaTracker.Tracker.StoreField | aplmeta.py:161-164 | storing a recognised non-empty field changes the globals as `FieldStage` says |
| AplmetaTracker.Tracker.EmitIfComplete | aplmeta.py:167-206 | the completion check writes, sends and resets as `CompletionStage` says |
| AplmetaTracker.Tracker.Run | aplmeta.py:139-206 | the loop over a finite input follows `RunLines`, the step function applied line by line |
| AplmetaTracker.FieldLineUpdatesOnlyItsSlot | aplmeta.py:161-164 | a field line with a non-empty value changes only that field's slot, and not the PID |
| AplmetaTracker.EmptyValueIgnored | aplmeta.py:163 | a field line with an empty value changes nothing |
| AplmetaTracker.FieldStageKeepsFilledNonEmpty | aplmeta.py:161-164 | storing a value never sets a field to the empty string |
| AplmetaTracker.NextKeepsFilledNonEmpty | aplmeta.py:145-206 | no step sets a field to the empty string |
| AplmetaTracker.CompleteIffAllSet | aplmeta.py:167 | in such states, `artist and title and album` means all three are set |
| AplmetaTracker.PidLineStep | aplmeta.py:145-157 | a differing PID while a truthy PID is tracked writes the placeholder with the new PID and resets; otherwise only a pending record may go out; in both cases the parsed PID becomes the tracked one |
| AplmetaTracker.RepeatedPidIsQuiet | aplmeta.py:148 | the same PID again resets nothing and writes no placeholder |
| AplmetaTracker.FirstPidAfterStartupIsQuiet | aplmeta.py:133-157 | with no PID, or an empty one, read at startup, the first PID line writes nothing and only records the PID |
| AplmetaTracker.PlaceholderHasFiveFields | aplmeta.py:108-114 | the placeholder record is five fields: empty title, `airplay source`, `0`, the not-found cover, `ALAC/AAC` |
| AplmetaTracker.PidTokenIsPlain | aplmeta.py:91 | a PID an announcement yields holds no line break and is its own strip |
| AplmetaTracker.PlaceholderPidReadBack | aplmeta.py:95-114 | reading back the placeholder file at startup gives the PID it was written for |
| AplmetaTracker.RecordPidReadBack | aplmeta.py:187-193 | reading back a record file gives the PID written after the record, or None when no truthy PID was known, if the title does not start with `PID=` and no field holds a line break |
| AplmetaTracker.PidTitleMisread | aplmeta.py:187-193 | for a title that starts with `PID=` and a non-space character, reading back gives the record after `PID=`, which is never a PID, whatever PID was written |
| AplmetaTracker.RecordHasSixFields | aplmeta.py:187-188 | a track record splits back into title, artist, album, duration, cover URL and format when no field holds '~' |
| AplmetaTracker.CoverUrlNamesTheFile | aplmeta.py:181-182 | the cover URL is the web root followed by the listed file's base name: a suffix of the path with no '/', preceded by '/' whenever it is shorter than the path |
| AplmetaTracker.EmissionWithCoverArt | aplmeta.py:179-205 | with all fields set and a cover listed: the record and the known PID are written, `update_aplmeta,` and the record are sent, and the fields reset |
| AplmetaTracker.NoCoverArtKeepsRecordPending | aplmeta.py:176-178 | with no cover listed the completion check writes, sends and resets nothing, so the complete record stays held |
| AplmetaTracker.NotifyingStepClears | aplmeta.py:198-205 | a step that notifies the front-end leaves the fields unset and the duration '0' |
| AplmetaTracker.OneLineCannotComplete | aplmeta.py:161-167 | from a state with no fields set, one line cannot emit a record |
| AplmetaTracker.NoSecondEmissionOnNextLine | aplmeta.py:167-206 | the line after an emission never emits again |
| AplmetaTracker.FieldAnnounceStep | aplmeta.py:161-167 | a quoted announcement stores its value and then checks for completion |
| AplmetaTracker.ThreeFieldsSet | aplmeta.py:76-85 | the three quoted fields in any order end with each holding its own value, and the first two alone leave the record incomplete |
| AplmetaTracker.RunAppend | aplmeta.py:139-141 | running one more line continues from the state and effects of the lines before |
| AplmetaTracker.TrackLengthStep | aplmeta.py:69-85 | a Track length line while the record is incomplete, or no cover is listed, only stores its first token as the duration |
| AplmetaTracker.RecordIndependentOfArrivalOrder | aplmeta.py:161-206 | Title, Artist and Album Name in any of the six orders emit the same record, with the duration held before them and the cover listed at the third line, then reset |
| AplmetaTracker.LateTrackLengthMissesRecord | aplmeta.py:161-206 | a Track length announced after the third field is not in the record; it is held for the next track |
| AplmetaTracker.MissingCoverArtHoldsFields | aplmeta.py:167-178 | with an empty cover directory the three fields and a Track length produce no output; the fields and the new duration are held |
| AplmetaTracker.HeldRecordGoesOutWithCover | aplmeta.py:167-206 | a held record goes out, with the duration held at that moment, on a line carrying neither a PID nor a field once a cover is listed |
| AplmetaTracker.HeldRecordDiscardedByNewPid | aplmeta.py:145-168 | a complete record with a truthy tracked PID and a line with a different PID: only the placeholder is written, nothing is sent, and the fields are cleared |
| AplmetaTracker.RestartWithKnownPid | aplmeta.py:133-157 | after a restart that recovered a PID, announcing the same PID is quiet and a different one writes the placeholder and resets |
| AplmetaTracker.PidComparisonIsCaseSensitive | aplmeta.py:148-157 | `0xABC` while `0xabc` is tracked is a new track: placeholder and reset |
| LcdUpdater.KeyValue | lcd_updater.py:30 | no pair exactly when the stripped line has no '='; otherwise stripped line = key + '=' + value with no '=' in the key |
| LcdUpdater.KeyValueOf | lcd_updater.py:30 | a `key=value` line (key without '=' or leading space, value without trailing space) yields that key and value, even when the value contains '=' |
| LcdUpdater.DictOf | lcd_updater.py:27-31 | the map exists exactly when every line parses; the error names the first line that does not; the keys are exactly those the lines bind |
| LcdUpdater.DictOfLastValueWins | lcd_updater.py:29-31 | a key's value is the one of the last line that binds it |
| LcdUpdater.DictOfFailsOnce | lcd_updater.py:29-30 | once a line fails, later lines change nothing |
| LcdUpdater.LastValueWins | lcd_updater.py:29-31 | a later status line with the same key overwrites an earlier one |
| LcdUpdater.ParseStatusLines | lcd_updater.py:27-31 | the loop fills the map, or raises at the first line without '=', as `StatusMap` says |
| LcdUpdater.DecodeSlashesSplit | lcd_updater.py:35 | for every cover URL, decoding joins its `%2F`-separated pieces with '/', keeping other escapes such as `%20` |
| LcdUpdater.DecodedPrefix | lcd_updater.py:35 | up to the first '/' it produces, decoding copies its input |
| LcdUpdater.NoEncodedSlashLeft | lcd_updater.py:35 | no `%2F` remains after decoding |
| LcdUpdater.CoverImageUrlOfPieces | lcd_updater.py:35-38 | the image URL is `http://localhost/`, then the cover URL's `%2F`-separated pieces joined with '/', less one leading '/' |
| LcdUpdater.ImageUrlHasNoEncodedSlash | lcd_updater.py:35-38 | the image URL contains no `%2F` |
| LcdUpdater.CoverImageUrlOfRootedPath | lcd_updater.py:36-38 | a `/`-rooted local path gives the web root plus the decoded path, and the same path without the '/' gives the same URL unless its decoded form starts with '/' |
| LcdUpdater.CoverImageUrlStripsOneSlash | lcd_updater.py:35-38 | only one leading '/' is removed, and an encoded `%2F` at the start counts as one |
| LcdUpdater.FirstHttpItem | lcd_updater.py:49 | None exactly when no item starts with `http`; otherwise the first such item, stripped, which still starts with `http` |
| LcdUpdater.FirstHttpItemAppend | lcd_updater.py:49-52 | the search over two item sequences is the search of the first, else of the second |
| LcdUpdater.FirstHttpInLines | lcd_updater.py:52 | an item found starts with `http` |
| LcdUpdater.FirstHttpInLinesIsFirstOfAll | lcd_updater.py:52 | the search over later lines is the search over all their stripped `~~~` items in order |
| LcdUpdater.SpotMetaData | lcd_updater.py:44-53 | raises exactly when the first line has no `~~~`; the song is the text before the first `~~~` and the artist the text after it up to the next `~~~` (or the end); the image URL is the first `http` item of the first line's fields then of the later lines' fields, or "", so it is "" or starts with `http` |
| LcdUpdater.SpotSongAndArtist | lcd_updater.py:46-48 | conversely, for any first line, the text before its first `~~~` is the song and the next field the artist, unstripped, whatever '~' the fields hold |
| LcdUpdater.SelectSource | lcd_updater.py:32-40 | `Spotify Active` uses the Spotify metadata; otherwise a missing `coverurl` raises, and the image URL is `CoverImageUrl` of the map's `coverurl` (so starts with `http://localhost/` and has no `%2F`), with title and artist from the map |
| LcdUpdater.GetMetaData | lcd_updater.py:26-42 | the method parses the status lines and selects the source as `MetaData` says |
| LcdUpdater.NoCoverUrlFails | lcd_updater.py:35 | a status file binding neither `coverurl` nor `file` raises |
| LcdUpdater.BadStatusLineFails | lcd_updater.py:30 | the first status line without '=' is the error `getMetaData` raises |

## Left out

- `time.sleep(1)` before the cover lookup (aplmeta.py:173): this is timing only.
- `glob.glob` (aplmeta.py:174) is an input listing per line. Its order, and its
  skipping of hidden files, are whatever that listing is.
- File and process I/O are returned as `Effect` values:
  - the status-file writes;
  - `subprocess.call` to `send-fecmd.php`.
- A failing placeholder write is swallowed by the source (aplmeta.py:115-116).
  The model always emits it.
- A failing record write (aplmeta.py:189-194) would end the reader. That is not
  modelled.
- `read_pid_from_aplmeta` is given the file's lines, or None for a missing or
  unreadable file. The read-back lemmas split a written file with `FileLines`.
  The file's encoding is not modelled.
- RecordPidReadBack: covers only titles that do not start with `PID=` and
  fields without a line break, because otherwise the record is not one line
  that `read_pid_from_aplmeta` skips; the `PID=` title case is
  `PidTitleMisread`, and the model keeps the source's behaviour there.
- `debug_msg`, the debug levels, `--version` and `argv` handling, and the
  `KeyboardInterrupt` exit are plumbing.
- The `while True` loop spins on end of input. The model runs over a finite
  sequence of lines instead.
- Python's general Unicode case-insensitive matching is not modelled. The
  `Persistent ID` pattern holds only ASCII letters, and `IgnoreCaseFold`
  covers every character `re.IGNORECASE` matches against one: both ASCII
  cases, long s, dotless i, dotted capital I and the Kelvin sign.
- `getImage`, `roundImage`, `drawImage` and the SPI display driver in
  lcd_updater.py are HTTP, imaging and hardware code.
- PIL's failure when the song or artist is None is not modelled.
- The `IOError` handler at lcd_updater.py:91 covers missing or unreadable
  files. The model takes both files as already read.
