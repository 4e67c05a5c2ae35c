# True Players Battlefield 3 — a Dafny model

This project models the core of the BBLog plugin "True Players Battlefield 3". The plugin works on the Battlelog server browser. It corrects the player count shown in each server row. On every debounced page change it:

1. finds the server rows not yet marked `bblog-true-players`;
2. asks the population endpoint for each row's roster;
3. filters the roster by ignored names and by "playing" presence;
4. rewrites the row's players cell in one of two ways:
   - annotate mode: `fake <b>[real]</b> / max`;
   - replace mode: `\n <span><b>[real]</b> / max`, where the text from the start of the line up to the delimiter is dropped;
5. marks the row so that it is never patched again.

A settings button opens an editor that stores a comma-separated list of ignored names.

Both shipped files are modelled:

- the release, `bblog-true-players-bf3.js` (modules `Release`, `Roster`, `CountPatch`, `ServerView`, `Text`);
- the earlier beta, `beta/bblog-true-players-bf3-v1.2-beta.js` (module `Beta`). The beta has the playing filter only, the same two patches and the same marker, and a stricter page gate.

Files:

- `text.dfy` (`Text`): literal substring search, `endsWith`, `split`/`join` on one character, and the decimal text of a count.
- `roster.dfy` (`Roster`): players, the stored name list, the two-stage filter chain and the corrected count.
- `patch.dfy` (`CountPatch`): the two cell rewrites. Replace mode models the search of `/^.*(?=( \/ ))/m` literally: each start position is tried, `^` admits only line starts, and the greedy `.*` backtracks from the end of the line. It is proved equal to a declarative description: from the start of the first line that holds `" / "` up to the last `" / "` of that line.
- `view.dfy` (`ServerView`): rows, the selection of unmarked rows, the guarded patch-and-mark step, and runs of responses in any order. The class `ServerList` holds the rows in an array.
- `release.dfy` (`Release`): the page gate, the storage object with the name editor, `domchange` and the response continuation.
- `beta.dfy` (`Beta`): the beta's gate, count, `domchange` and continuation.

Behaviours of the plugin worth noting:

- The name filter drops a player only when both the persona name and the account name match an ignored name; a player with one unmatched name is kept (`DroppedOnlyIfBothNamesMatch`).
- The editor stores the pieces between the commas as typed, spaces included.
- Cancelling the editor stores `""`, exactly as an empty answer does, so the stored list is cleared (`ParseAnswer`).
- The name filter runs when the stored value is truthy. An array is truthy even when empty, and an empty array makes the empty pattern, which matches every name (`NameFilterOn`, `EmptyListMatchesEverything`).
- Replace mode rewrites from the start of the first line holding `" / "` up to the last `" / "` on that line, and puts a line break and an unclosed `<span>` in front of the count (`Replace`).
- The two filter stages commute, so their order does not affect the count (`FiltersCommute`, `CountIsOneFilter`).

## Model

| member | source | states |
|---|---|---|
| `Roster.CorrectedCount` | bblog-true-players-bf3.js:152-178 | the corrected count is at most the raw roster length, and 0 for an empty roster |
| `Roster.Survivors` | bblog-true-players-bf3.js:152-163 | with the name toggle not 1 or the stored list falsy the survivors are the raw roster; otherwise a player survives exactly when it is in the roster and not both of its names match |
| `Roster.DroppedOnlyIfBothNamesMatch` | bblog-true-players-bf3.js:156-160 | with the name filter on, a roster entry is dropped if and only if both its persona name and its account name match an ignored name |
| `Roster.PlayingFilterLowersCount` | bblog-true-players-bf3.js:172-178 | turning the playing filter on never raises the count, and leaves it unchanged exactly when every name-filter survivor is playing |
| `Roster.NameFilterOn` | bblog-true-players-bf3.js:152 | the name filter runs only on a stored array (never on the cleared `""` or an unset value, nor with the toggle other than 1), and does run on a stored empty array |
| `Roster.MatchesAny` | bblog-true-players-bf3.js:153-159 | for ignored names without `\|`, a name matches the pattern exactly when one of the ignored names occurs in it |
| `Roster.KeptByNames` | bblog-true-players-bf3.js:157-159 | for ignored names without `\|`, a player is kept exactly when one of its two names contains none of them; a player whose two names are equal is kept exactly when that name does not match |
| `Roster.EmptyNameIsAlternative` | bblog-true-players-bf3.js:153-155 | an empty stored name is an empty alternative of the joined pattern, whatever the other names contain |
| `Roster.PlainPairMatches` | bblog-true-players-bf3.js:153-159 | with two ignored names without `\|`, a name matches exactly when it contains one of them |
| `Roster.CountIsOneFilter` | bblog-true-players-bf3.js:152-178 | the two-stage chain counts exactly the roster entries that pass the name test (when on) and the playing test (when on), one entry at a time |
| `Roster.FiltersCommute` | bblog-true-players-bf3.js:156-175 | applying the name filter and the playing filter in either order leaves the same players |
| `Roster.Filter` | bblog-true-players-bf3.js:156-160 | `Array.filter`: every kept element is in the input and accepted, every accepted input element is kept, and the result is no longer than the input |
| `Roster.FilterCounts` | bblog-true-players-bf3.js:156-160 | `Array.filter` keeps every accepted element as many times as it occurs in the input and drops every copy of a rejected one |
| `Roster.SurvivorCounts` | bblog-true-players-bf3.js:152-163 | a roster entry listed several times survives the name filter as often as it is listed when it is kept (or the filter is off), and not at all when it is dropped |
| `Roster.Alternatives` | bblog-true-players-bf3.js:153-155 | the pattern built by joining the names with `\|` has at least one alternative |
| `Roster.AlternativesOfPlainNames` | bblog-true-players-bf3.js:153-155 | names without `\|` are exactly the alternatives of their joined pattern |
| `Roster.EmptyListMatchesEverything` | bblog-true-players-bf3.js:153-155 | an empty stored list builds the empty pattern, which matches every name |
| `Roster.EmptyNameMatchesEverything` | bblog-true-players-bf3.js:153-159 | an empty ignored name matches every name, whatever the other stored names contain |
| `Roster.EmptyNameDropsEveryone` | bblog-true-players-bf3.js:152-178 | with the name filter on and an empty name among the stored names, the count is 0 for every roster |
| `Roster.BotNames` | bblog-true-players-bf3.js:153-159 | the pattern of ["Bot1","Bot2"] has exactly those two alternatives, and "Bot1" matches it |
| `Roster.OtherNamesDoNotMatch` | bblog-true-players-bf3.js:153-159 | "Player2" and "alice" do not match the pattern of ["Bot1","Bot2"] |
| `Roster.NameFilterExample` | bblog-true-players-bf3.js:152-178 | ignoring Bot1 and Bot2, a bot and a player count 1; a player named Bot1 with account alice still counts, so the count is 2 |
| `Roster.PlayingFilterExample` | bblog-true-players-bf3.js:172-178 | with the playing filter on, players that are playing, not playing and playing count 2 |
| `Text.IndexOf` | bblog-true-players-bf3.js:195 | the first occurrence of a literal pattern: it occurs there and nowhere before, or it occurs nowhere |
| `Text.IndexFrom` | bblog-true-players-bf3.js:195 | the left-to-right scan finds the first occurrence at or after its start position, or reports that none exists |
| `Text.Decimal` | bblog-true-players-bf3.js:189 | the rendered count is a non-empty string of digits without a leading zero (except for 0) |
| `Text.DecimalRoundTrip` | bblog-true-players-bf3.js:189 | reading back the rendered count gives the count |
| `Text.Split` | bblog-true-players-bf3.js:233 | `split(",")` gives at least one piece, and no piece contains the separator |
| `Text.JoinSplit` | bblog-true-players-bf3.js:232-235 | joining the stored pieces with "," gives back the answer typed into the editor |
| `Text.SplitJoin` | bblog-true-players-bf3.js:233 | splitting the join of pieces without separators gives back the pieces |
| `CountPatch.Annotate` | bblog-true-players-bf3.js:192-195 | annotate mode inserts " <b>[n]</b>" right before the first " / " and changes nothing else; a cell without " / " is returned unchanged |
| `CountPatch.AnnotateChangesCell` | bblog-true-players-bf3.js:192-195 | annotate mode lengthens every cell that holds " / " |
| `CountPatch.AnnotateSimpleCell` | bblog-true-players-bf3.js:192-195 | a plain cell "fake / max" becomes "fake <b>[n]</b> / max" |
| `CountPatch.Replace` | bblog-true-players-bf3.js:183-190 | replace mode rewrites the span from the start of the first line holding " / " to the last " / " on that line as "\n <span><b>[n]</b>", keeping earlier lines, the delimiter and everything after it; without " / " the cell is unchanged |
| `CountPatch.Search` | bblog-true-players-bf3.js:188 | the regular-expression search finds a match exactly when the cell holds " / ", and that match is the first delimiter line's span |
| `CountPatch.Backtrack` | bblog-true-players-bf3.js:188 | the greedy `.*` gives back characters until the lookahead succeeds: it stops at the last delimiter in range, or there is none |
| `CountPatch.LineEnd` | bblog-true-players-bf3.js:188 | `.` reaches up to the first line terminator (or the end of the text) and no further |
| `CountPatch.ReplaceSpanUnique` | bblog-true-players-bf3.js:188 | the line start and the delimiter of a replace-mode match are determined by the cell |
| `CountPatch.ReplaceChangesCell` | bblog-true-players-bf3.js:183-190 | replace mode changes every cell that holds " / " |
| `CountPatch.ReplaceSimpleCell` | bblog-true-players-bf3.js:183-190 | a plain one-line cell "fake / max" becomes "\n <span><b>[n]</b> / max" |
| `CountPatch.PatchCell` | bblog-true-players-bf3.js:182-197 | the selected rewrite leaves a cell without " / " unchanged and always changes a cell with one |
| `ServerView.Pending` | bblog-true-players-bf3.js:140 | the scan selects exactly the rows without the marker, in page order and without repeats |
| `ServerView.ServerList.Unprocessed` | bblog-true-players-bf3.js:140 | the selector loop returns the selection `Pending` of the current rows |
| `ServerView.Respond` | bblog-true-players-bf3.js:181-201 | a response marks its row; it rewrites the cell only if the row was unmarked, changes nothing if the row was marked, and leaves every other row untouched |
| `ServerView.RespondLeavesPending` | bblog-true-players-bf3.js:140 | after a response on a row, later scans skip that row and select every other row as before |
| `ServerView.Run` | bblog-true-players-bf3.js:143 | a sequence of responses keeps the number of rows |
| `ServerView.FirstFor` | bblog-true-players-bf3.js:143 | returns a response addressed to the row that occurs in the sequence with no earlier response addressed to that row, or shows that none is addressed to it |
| `ServerView.FirstResponseWins` | bblog-true-players-bf3.js:181-201 | whatever the order and number of responses, each row is patched at most once: by the first response addressed to it, and only if it started unmarked |
| `ServerView.MarkerMonotone` | bblog-true-players-bf3.js:200 | the marker never resets, a marked row never changes again, and a row that got any response ends marked |
| `ServerView.RunAppend` | bblog-true-players-bf3.js:143 | responses delivered one batch after another compose |
| `ServerView.DuplicateResponseHarmless` | bblog-true-players-bf3.js:181 | a duplicate response for a row an earlier response settled changes no row |
| `Release.ParseAnswer` | bblog-true-players-bf3.js:232-238 | a non-empty answer is stored as comma-free pieces that join back to the answer; an empty or cancelled answer stores "" |
| `Release.PromptDefault` | bblog-true-players-bf3.js:220-230 | the prompt is pre-filled exactly when the stored list is truthy, and with the text that produced it |
| `Release.ResubmitKeepsNames` | bblog-true-players-bf3.js:220-235 | accepting the pre-filled prompt unchanged stores the same list again |
| `Release.ParseAnswerPieces` | bblog-true-players-bf3.js:232-235 | the editor stores exactly the pieces between the commas, in order and untrimmed |
| `Release.EmptyPieceDropsEveryone` | bblog-true-players-bf3.js:232-235 | the answer "a,,b" stores an empty name, and with the name filter on, every roster then counts 0 |
| `Release.PluginStorage.constructor` | bblog-true-players-bf3.js:74-97 | after loading, the endpoint URL is stored, every toggle is 0 and no names are stored |
| `Release.PluginStorage.EditNames` | bblog-true-players-bf3.js:219-239 | the editor shows the stored list pre-filled, stores the parsed answer and changes no other setting |
| `Release.PageGate` | bblog-true-players-bf3.js:111-114 | the release runs exactly for mode "bf3" and a clean URL of the form anything, "/bf3/servers", anything, as `/.*\/bf3\/servers.*/` matches |
| `Release.DomChange` | bblog-true-players-bf3.js:110-143 | off the server pages no request is issued; on them, one request goes out per unmarked row, in page order, to the endpoint plus the row's guid, carrying the settings read at the start |
| `Release.OnResponse` | bblog-true-players-bf3.js:143-202 | the continuation computes the corrected count with the captured settings, then patches and marks its row only if the row is still unmarked |
| `Beta.PageGate` | beta/bblog-true-players-bf3-v1.2-beta.js:98-101 | the beta runs exactly for mode "bf3" and a clean URL that is anything followed by "/bf3/servers/" |
| `Beta.GateNarrowerThanRelease` | beta/bblog-true-players-bf3-v1.2-beta.js:98-101 | the beta runs only for mode "bf3" with a clean URL ending in "/bf3/servers/"; every such page passes the release gate, and the favourites page passes only the release gate |
| `Beta.PlayerCount` | beta/bblog-true-players-bf3-v1.2-beta.js:118-124 | the beta count is at most the roster length, and equals the release count with the name filter off (playing toggle 1 counts the playing entries, otherwise the roster length) |
| `Beta.DomChange` | beta/bblog-true-players-bf3-v1.2-beta.js:97-110 | off the server list no request is issued; on it, one request goes out per unmarked row, in page order, to the endpoint plus the row's guid |
| `Beta.OnResponse` | beta/bblog-true-players-bf3-v1.2-beta.js:110-141 | the continuation computes the beta count, then applies the patch that `only.real.players === 1` selects and marks the row, only if the row is still unmarked |

## Left out

- Plugin registration, translations and the settings-menu entries are configuration glue with no behaviour. The storage constructor models only the initial values they set.
- `$.get`, the network and JSON decoding are not modelled. A response is an already parsed roster passed to the continuation.
- Asynchronous interleaving is modelled only as an arbitrary order of responses (`ServerView.Run`). A second scan during an in-flight request issues a duplicate request. This model does not capture that race; it models only the guard that makes the duplicate response harmless.
- Failed requests are left out. Their continuation never runs, so the row stays unmarked and a later scan selects it again.
- jQuery and the DOM are not modelled. The page's rows are a fixed array of records. Rows that the host page removes or re-creates are not modelled, so neither is a response arriving for a row that is gone.
- The cell text is the string `.html()` returns. The browser's re-serialisation of the written markup (for example, closing the `<span>` that replace mode opens) is not modelled.
- The `prompt()` dialog and the BBLog storage API are not modelled. The prompt's answer is an `Option<string>` argument (`None` for cancel), and storage is a class with fields.
- Ignored names are matched as literal substrings, with `|` as the only pattern metacharacter. A name holding another metacharacter (`.`, `*`, `+`, `?`, `(`, `[`, `\`, `^`, `$`) behaves differently in the real code. It may match other names or make the pattern invalid and throw.
- Malformed roster entries are not modelled. An entry with missing `persona`, `user` or `presence` fields makes the real code throw. Players are total records here.
- A stored list that is a non-empty string instead of an array would make `join` throw. The plugin itself only ever stores an array or `""`.
- `Text.Decimal`: does not model JavaScript's exponent notation for numbers of 1e21 and above, because a roster count never reaches it.
- Toggles are compared with `=== 1` against integers. Non-numeric stored values are not modelled.
