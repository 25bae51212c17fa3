# tasks-ui: a Dafny model of the logic in `app.js`

`app.js` is a small client for a remote task API. It loads today's tasks,
shows them as tiles, creates a task from a form, toggles a task's
completed flag through a PATCH request, and can reset every flag on the
page. Once the network, the clock and the DOM are set aside, what remains
is modelled here:

- `Escaping`: `escapeHtml`, the encoder applied to every title before it
  becomes a label's markup, with a decoder of its five character
  references as its partner.
- `Dates`: the formatting half of `todayISO`. That covers `String(n)` for
  integers, `padStart(2, "0")`, and `Y-MM-DD` assembled from year, 0-based
  month index and day. `ParseDate` is the partner that reads it back.
- `Forms`: `String.prototype.trim` (its white-space and line-terminator
  set given by code point) and the submit handler. An all-white-space title
  is ignored. Any other title is trimmed, submitted, and the field is cleared.
- `Tasks`: the `Task` record and the list rebuilt by the handlers. An
  update replaces every entry with the same id. A reset clears every flag.
  A create goes in front. A click sends a request for the opposite flag.
- `Board`: class `TaskBoard` holds the module-level `tasks` list, the
  status line and the date line. Its methods are the handlers' effects
  once the server has answered. `Render` is the loop that rebuilds the grid.
- `Wrappers`: an `Option` type.

The clock and the server are parameters. `FormatDate`, `Load` and
`Create` take the year, month index and day that `new Date()` would
report, and `Load` and `Create` format the date with `FormatDate` as
`todayISO` does. `Load`, `Create` and `Toggle` take the record or list the
server returned.

The code does not do what a general description of this kind of client
might suggest. There is no optimistic update and no rollback. The list
changes only after the PATCH request succeeds (app.js:90-96). The model
follows the code.

`todayISO` prints the year with `String(y)` and does not pad it. So the
comment's `YYYY-MM-DD` holds only for four-digit years. `FormatDate`
states the general shape, and states length 10 for years 1000-9999.

## Model

| member | source | states |
|---|---|---|
| Escaping.EscapeChar | app.js:46-48 | a special character becomes a different string of 4-6 characters that starts with `&` and ends with `;`; any other character stays as it is |
| Escaping.EscapeHtml | app.js:45-49 | the output is at least as long as the input and at most six times as long |
| Escaping.EscapeSafe | app.js:45-49 | the output has no raw `<`, `>`, `"` or `'`, and every `&` in it starts `&amp;`, `&lt;`, `&gt;`, `&quot;` or `&#039;` |
| Escaping.EscapeIdentity | app.js:45-49 | escaping leaves a string unchanged if and only if it has none of the five special characters |
| Escaping.EscapeGrows | app.js:45-49 | a string that contains a special character gets strictly longer |
| Escaping.EscapeConcat | app.js:45-49 | escaping `a + b` gives the escaped `a` followed by the escaped `b` |
| Escaping.SafeConcat | app.js:45-49 | joining two safe markups gives safe markup |
| Escaping.EscapeCharSafe | app.js:46-48 | the replacement of each single character is safe markup |
| Escaping.UnescapeAfterChar | app.js:46-48 | decoding a character's replacement followed by any text gives back that character first |
| Escaping.UnescapeEscape | app.js:45-49 | decoding the five references in the escaped string gives back the original string |
| Escaping.EscapeInjective | app.js:45-49 | two strings that escape to the same markup are equal |
| Dates.DecimalString | app.js:40-41 | `String(n)` for `n >= 0` is non-empty and all digits, and starts with `0` only for zero |
| Dates.DecimalRoundTrip | app.js:40-41 | reading back the digits of `String(n)` gives `n` |
| Dates.DecimalLength | app.js:39-42 | numbers below 10, 100, 1000 and 10000 print with 1, 2, 3 and 4 digits |
| Dates.IntString | app.js:39-42 | `String(y)` starts with `-` exactly for a negative year and is then followed by the digits of `-y` |
| Dates.IntRoundTrip | app.js:39-42 | parsing `String(y)` back gives `y`, for every integer `y` |
| Dates.PadStart | app.js:40-41 | `padStart` keeps the string as the suffix, reaches length `max(width, length)`, and fills only with the fill character |
| Dates.TwoDigits | app.js:40-41 | for `n < 100`, the padded field is the tens digit followed by the units digit: two digits that denote `n` |
| Dates.PaddedDigits | app.js:40-41 | `String(n).padStart(2, "0")` for `n < 100` is two digits, the tens digit first, that denote `n` |
| Dates.DateString | app.js:42 | in `${y}-${m}-${day}` with padded fields, the year's text comes first, the dashes sit after it and three places later, and the two-digit fields denote the month number and the day |
| Dates.FormatDate | app.js:36-43 | for a month index below 99 and a day below 100, the result is the year's `String`, `-`, two digits denoting the month index plus one, `-`, and two digits denoting the day, six characters longer than the year; a four-digit year gives length 10 |
| Dates.YearLength | app.js:39-42 | a year from 1000 to 9999 is printed with four characters |
| Dates.DateFields | app.js:42 | the positions of year, dashes and the two two-digit fields in `y-mm-dd` |
| Dates.DateStringRoundTrip | app.js:42 | `ParseDate` reads `y-mm-dd` back as the year's value, the month number minus one, and the day |
| Dates.ParseLayout | app.js:42 | any string laid out as year, dash, two digits, dash, two digits is read back by `ParseDate` as the values of its fields |
| Dates.FormatDateRoundTrip | app.js:36-43 | `ParseDate` recovers year, month index and day from the formatted date |
| Dates.FormatDateInjective | app.js:36-43 | different dates are formatted into different strings |
| Forms.TrimStart | app.js:133 | the result is a suffix of the input, everything removed is white space, and the result does not start with white space |
| Forms.TrimEnd | app.js:133 | the result is a prefix of the input, everything removed is white space, and the result does not end with white space |
| Forms.Trim | app.js:133 | the input is a white-space prefix, the result, and a white-space suffix; the result has no white space at either end and is empty exactly when the input is all white space |
| Forms.TrimBothEnds | app.js:133 | trimming the start and then the end has the three properties `Trim` promises |
| Forms.EmptyIffWhitespace | app.js:133 | a string split into white space, a middle that does not start with white space, and white space is all white space exactly when the middle is empty |
| Forms.TrimIdempotent | app.js:133 | trimming twice equals trimming once |
| Forms.OnSubmit | app.js:131-137 | an all-white-space value is ignored and stays in the field; any other value submits its non-empty trimmed title and clears the field |
| Forms.SubmittedTitleStable | app.js:133-136 | submitting a submitted title again submits the same title |
| Tasks.ReplaceById | app.js:93 | length and order are kept; each entry with the updated record's id becomes that record; every other entry is unchanged |
| Tasks.ReplaceByIdKeepsIds | app.js:93 | an update leaves the sequence of ids unchanged |
| Tasks.ReplaceByIdIdempotent | app.js:93 | applying the same update twice equals applying it once |
| Tasks.ReplaceByIdAbsent | app.js:93 | an update whose id is not in the list leaves the list unchanged |
| Tasks.ClearCompleted | app.js:145 | length and order are kept; each entry keeps its id and title and is not completed |
| Tasks.ClearCompletedKeepsIdsAndTitles | app.js:145 | a reset leaves the sequences of ids and titles unchanged |
| Tasks.ClearCompletedIdempotent | app.js:145 | resetting twice equals resetting once |
| Tasks.ClearCompletedAfterReplace | app.js:93-145 | a reset after an update equals the reset list, updated with the reset copy of the record |
| Tasks.Prepend | app.js:85 | the created record is at index 0, the old list follows unchanged, and the length grows by one |
| Tasks.PrependShifts | app.js:85 | the ids after a create are the created id followed by the old ids |
| Tasks.ToggleRequest | app.js:91-92 | the request addresses the task's id and asks for the opposite completed flag |
| Tasks.Patched | app.js:91-93 | the record a server returns when it carries out the request keeps id and title and takes the requested flag |
| Tasks.ToggleFlipsOne | app.js:90-93 | with distinct ids, a carried-out toggle of entry k flips only entry k's flag |
| Tasks.ToggleTwice | app.js:90-93 | with distinct ids, two carried-out toggles of the same entry restore the list |
| Board.TileClass | app.js:114 | the class starts with `task`, and is `task done` exactly when the task is completed |
| Board.TileFor | app.js:113-122 | a tile toggles its own task, is `task done` exactly when the task is completed, and its label is safe markup that decodes to the title |
| Board.View | app.js:101-126 | an empty list gives the single muted notice; otherwise the grid has one tile per task, in order |
| Board.Tiles | app.js:112-125 | the i-th element is the i-th task's tile, and there are as many tiles as tasks |
| Board.LabelsDistinguishTitles | app.js:119 | different titles never give the same label markup |
| Board.ClickRequestsToggle | app.js:91-122 | clicking the i-th tile sends a request for the i-th task's id with the opposite flag |
| Board.ResetView | app.js:145-147 | after a reset every tile has class `task` and keeps its label |
| Board.TaskBoard.constructor | app.js:16 | the list starts empty |
| Board.TaskBoard.Load | app.js:71-79 | the list becomes the fetched list; the date line shows `Hoy: ` and the day's formatted date; the status shows the count |
| Board.TaskBoard.Create | app.js:81-88 | the request carries the title and the day's formatted date; the created record goes in front of the unchanged old list; the status says the task was created |
| Board.TaskBoard.Toggle | app.js:90-96 | the request asks for the opposite flag; the list is the old list updated by id, with the same length and ids; the status reflects the returned flag |
| Board.TaskBoard.Reset | app.js:143-148 | the list is the old list with every flag cleared and the same ids and titles; the status says nothing was saved |
| Board.TaskBoard.Render | app.js:101-126 | the grid is the muted notice for an empty list; otherwise there is one tile per task, in order, each marked done exactly when its task is, with a label that decodes to the title and a click that toggles that task |

## Left out

- `apiFetch` (app.js:51-66): network I/O, HTTP status handling and content-type checks against a remote service. Server answers are parameters instead.
- A non-JSON server answer: `apiFetch` then returns `null`. `loadToday` stores it and then throws on `tasks.length` (app.js:77), so the count status and `render()` never run. From then on every handler throws on the `null` list: `tasks.unshift` (app.js:85), `tasks.map` (app.js:93, 145) and `render`'s `tasks.length` (app.js:104). A `null` record in `createTask` or `toggleTask` fails the same way. The model assumes every answer is a task record or a list of them.
- `async`/`await`, promise `.catch` chains, event listeners and the `Error: ...` status messages built from exception text (app.js:122, 131-155): asynchrony and error text from code outside the model.
- The DOM itself (app.js:21-29, 102-125): elements, `innerHTML` and `textContent`. The grid is modelled as a sequence of `Element` values.
- `new Date()` (app.js:38): the clock. `FormatDate`, `Load` and `Create` take year, month index and day as parameters.
- `endpoints`, `encodeURIComponent` and `JSON.stringify` (app.js:7-11, 83, 91): URL building and serialisation by library calls. Requests are modelled as the values they serialise.
- Task fields other than `id`, `title` and `completed`, which the reset's object spread would carry along unchanged.
- Task ids are modelled as integers compared by value. That is how `===` treats numbers and strings alike.
- Exponent notation: JavaScript prints numbers of 1e21 and above (22 or more digits) in exponent form; `String(1e20)` is still printed in full. `IntString` always prints digits. Years a `Date` can hold stay far below that.
- HTML parsing of the label: the browser decodes every named and numeric character reference, turns CR and CRLF into LF and drops U+0000. `Unescape` decodes only the five references `escapeHtml` writes, so `TileFor` and `Render` state that decoding those five gives back the title, not what the browser displays for a title with CR or U+0000.
- UTF-16: JavaScript strings are UTF-16 code units and Dafny characters are code points. Every character `trim` removes is in the Basic Multilingual Plane, so both see the same set.
