# youtube-polislike: video id extraction and the vote session

This project models the script of the earliest revision of a page that plays a
YouTube video beside a list of statements and lets the viewer vote on the
statement on show. The script has two parts, and the model follows them:

- `YouTubeId` (pure): `extractYouTubeID`, which applies the fixed pattern
  `(?:v=|youtu\.be\/|embed\/)([^&?/]+)` to a url. The engine finds the
  leftmost start position. There it tries the markers `v=`, `youtu.be/` and
  `embed/` in that order. It accepts a marker only when at least one character
  other than `&`, `?` and `/` follows. The captured id is the longest run of
  such characters. The model writes this scan out by hand: `FindMatch`,
  `AlternativeAt` and `RunEnd`. `IsLeftmostMatch` is a separate reference
  description of a match, and `ExtractCharacterised` proves that the two agree
  in both directions.
- `VoteSession` (imperative): the module state `player`, `statementIndex` and
  `statements` becomes the class `Session`. `LoadVideo`, `SendVote` and
  `Shown` are the page's `loadVideo`, `sendVote` and `showStatement`. The vote
  record that the page writes to the console is returned as `Some(vote)`. It
  is also appended to the ghost log `emitted`. An alert becomes `None` and an
  unchanged state. The built-in statement list is the constant `Statements`.
  It holds the same three texts as the page, and the third is built with
  `Repeat` and `Slice`, as `repeat(5).slice(0, 260)` builds it.

`Wrappers` holds the `Option` type used for `null` and for the unset player.

Notes on what the code does:

- The vote record's `statementId` is the raw vote counter `statementIndex`,
  not an index into the list. After a full round of votes the first statement
  is on show again (`StatementCycle`), but the next vote on it carries
  statementId 3, not 0 (`ScenarioFullRound`). The model keeps the counter, because the
  code does.
- `loadVideo` tests `!id`. The only falsy values `extractYouTubeID` can
  return are `null` and the empty string, and the id is never empty
  (`ExtractYouTubeId` ensures this), so the test is modelled as `None?`.
- The pattern is unanchored and has no word boundaries, so a marker may sit
  inside another word. For example, `rev=5&v=ab` yields `5`, because `v=5`
  occurs inside `rev=5` (`ExampleMarkerInsideWord`).

## Model

| member | source | states |
|---|---|---|
| YouTubeId.ExtractYouTubeId | app.js:17-21 | a returned id is non-empty and free of `&`, `?` and `/` |
| YouTubeId.ExtractNoneIffNoMatch | app.js:19-20 | the result is None exactly when no start position in the url has a marker followed by an id character |
| YouTubeId.ExtractSound | app.js:18-20 | a returned id is the capture of the match the scan found, and that match is leftmost and maximal |
| YouTubeId.ExtractCharacterised | app.js:17-21 | extraction yields `id` if and only if some leftmost match, with some marker, captures exactly `id` |
| YouTubeId.FindMatchAtLeftmost | app.js:19 | the scan stops at the start of any leftmost match, with that match's marker |
| YouTubeId.ExtractComplete | app.js:18-20 | any leftmost maximal match fixes the result: the engine returns that match's id |
| YouTubeId.ExtractedIdFollowsMarker | app.js:18-20 | a returned id follows one of the three markers, so marker plus id is a substring of the url |
| YouTubeId.FindMatch | app.js:18-19 | the scan returns the first start position at or after `from` where a marker is followed by an id character, with that marker; None means no later position matches |
| YouTubeId.AlternativeAt | app.js:18 | the alternative accepted at a position is a marker followed by an id character, and there is none exactly when the pattern cannot match there |
| YouTubeId.MarkersExclusive | app.js:18 | at most one of the three markers occurs at any position |
| YouTubeId.RunEnd | app.js:18 | the greedy run `[^&?/]+` from a position contains no delimiter and stops at a delimiter or at the end of the url |
| YouTubeId.RunEndUnique | app.js:18 | a delimiter-free run ending at a delimiter or at the end of the url is the run the greedy class takes |
| YouTubeId.NoMarkerLetterAt | app.js:18 | no match starts at a character other than `v`, `y` and `e` |
| YouTubeId.ExampleWatchUrl | app.js:17-21 | `?v=ab&t` yields `ab`: the id stops at `&` |
| YouTubeId.ExampleSkipsEmptyId | app.js:17-21 | `v=&embed/x` yields `x`: a marker followed by a delimiter is passed over |
| YouTubeId.ExampleMarkerInsideWord | app.js:17-21 | `rev=5&v=ab` yields `5`: the unanchored pattern matches `v=` inside the word `rev` |
| YouTubeId.ExampleNoId | app.js:17-21 | `youtu.be/` yields None: a marker with nothing after it does not match |
| VoteSession.Repeat | app.js:8 | `repeat(n)` has length `n` times that of the text, starts with the text, and has only the text's characters |
| VoteSession.Slice | app.js:8 | `slice(0, end)` is a prefix of at most `end` characters, the whole text when it is shorter, and exactly `end` characters when it is longer |
| VoteSession.StatementsWithinLimit | app.js:4-9 | the list has three statements, each at most 260 characters, and the third is cut to exactly 260 |
| VoteSession.StatementAt | app.js:46-47 | the statement selected for any index is one of the list, and an index inside the list selects that entry |
| VoteSession.StatementCycle | app.js:46-47 | after any number of full rounds, each as many votes as there are statements, the same statement is selected again |
| VoteSession.Session.constructor | app.js:1-14 | a fresh page has no player, index 0, the built-in statements and an empty vote log, and shows the first statement |
| VoteSession.Session.Shown | app.js:46-49 | the statement on show is always one of the list and at most 260 characters |
| VoteSession.Session.LoadVideo | app.js:28-44 | an unparseable url leaves the player unchanged; a parseable one sets it to the extracted id; nothing else changes |
| VoteSession.Session.SendVote | app.js:51-71 | with no player no vote is returned and nothing changes; otherwise the vote carries the vote value, the old index and the floor of the playback time, the index grows by one and the record is appended to the log, which keeps each record's statementId equal to its position |

## Left out

- DOM access (`getElementById`, `textContent`), the `DOMContentLoaded` listener, `alert` and `console.log`: the url is a parameter of `LoadVideo`, the statement on show is the function `Shown`, the logged record is the result of `SendVote`, and an alert is an unchanged state.
- `YT.Player` construction and `onYouTubeIframeAPIReady` belong to the video player library; the player is modelled only as the stored video id.
- `player.getCurrentTime()` is a parameter of `SendVote`, a `real`; floating-point behaviour is not modelled, and `Math.floor` is `.Floor`.
- `statementIndex` is a JavaScript number, exact only up to 2^53; the model's index is an unbounded `nat`.
- The general regular-expression engine: only this one fixed pattern is written out.
- Strings are sequences of characters; the model does not distinguish UTF-16 code units from code points.
- Repeat: states the length, the leading copy and where the characters come from, not the full periodic content of the repetition, which would need modular arithmetic on every position.
- The unlock tracker, the waiting state, the synthetic vote generator, the redaction and the timeline renderer are not in this revision of the script and are not part of this model.
