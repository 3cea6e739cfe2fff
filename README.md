# Go tour client services, modelled in Dafny

This project models the Angular services of the Go tour's browser client
(`_content/tour/eng/static/js/services.js`). It is one Dafny module per
service:

- `Storage`: the `storage` service. It probes local storage once. When the
  probe fails it falls back to a store where every `get` is `null` and every
  `set` does nothing.
- `I18n`: `i18n.l`, a translation lookup with a placeholder for missing keys.
- `Runner`: the `run` service.
  - It appends a default `go.mod`/`go.sum` to a txtar snippet that has no
    `go.mod` section.
  - Its output interceptor highlights the editor lines that `stderr` reports
    as `<file>.go:<line>: <message>`, forwards every event, and signals
    completion on the `end` event.
- `Editor`: the `editor` context.
  - It holds two boolean preferences read from storage and persisted when
    toggled.
  - It keeps the set of editor lines marked as errors.
- `Navigation`: `prevLesson` and `nextLesson` of the `toc` service, over a
  table of modules of lesson names, with a back-reference from each lesson to
  its module.
- `Toc`: the success callback of the lesson-table fetch. It attaches every
  lesson to its module and lays the locally saved edits over the files that
  the server delivered.
- `Options`: the `Option` type, standing for JavaScript's `null`.

Step-by-step code is imperative Dafny:

- the load is a set of classes with nested loops;
- the interceptor is a method with a loop over the lines;
- the editor toggles and storage writes are methods on classes.

Each method is proved against a specification function or states its new
state outright. Lookups and string transforms are pure functions.

The main results:

- Navigation walks one reading order: modules in order, each module's
  lessons in order (`Flat`). `nextLesson` is the following element of that
  order and `prevLesson` the preceding one, with `""` at either end. The two
  operations undo each other.
- The load leaves a table on which those navigation results hold, provided
  no module is empty.
- Preparing a snippet keeps the code as a prefix and always yields a
  `go.mod` section. Doing it twice is the same as doing it once.
- The interceptor's actions for one event are as follows:
  - the highlights come first, in line order;
  - the event is then forwarded, exactly once and unchanged;
  - completion is signalled last, exactly for `end`;
  - the compiler line `prog.go:12: undefined: foo` highlights line `12` with
    `undefined: foo`.

## Model

| member | source | states |
|---|---|---|
| Storage.KeyValueStore.constructor | _content/tour/eng/static/js/services.js:96-114 | The probe outcome is kept. A failed probe leaves a store that holds nothing. |
| Storage.KeyValueStore.Get | _content/tour/eng/static/js/services.js:100-111 | `get` yields a value exactly when storage is available and holds the key, and it is the stored value. |
| Storage.KeyValueStore.Set | _content/tour/eng/static/js/services.js:103-112 | `set` stores the value under the key when storage is available and does nothing otherwise. Every other key reads as before. |
| Storage.UnavailableReadsNull | _content/tour/eng/static/js/services.js:107-113 | Without local storage every key reads as `null`. |
| Storage.BoolText | _content/tour/eng/static/js/services.js:126-131 | A boolean is persisted as the text `true` or `false`; `FlagRoundTrip` states that it reads back as itself. |
| Storage.ReadFlag | _content/tour/eng/static/js/services.js:123-128 | A preference is read as `get(key) === 'true'`: only the stored text `true` gives true, and a missing key gives false; `FlagRoundTrip` is the round trip with `BoolText`. |
| Storage.FlagRoundTrip | _content/tour/eng/static/js/services.js:123-131 | A boolean stored as its text reads back, under `=== 'true'`, as the same boolean. |
| I18n.Translate | _content/tour/eng/static/js/services.js:26-29 | The result is the translation when the table holds a non-empty one. Otherwise it is the placeholder naming the key. It is never empty. |
| I18n.Placeholder | _content/tour/eng/static/js/services.js:28 | The text shown for a missing key; `PlaceholderNamesKey` and `PlaceholderInjective` state that it names the key and that different keys give different texts. |
| I18n.PlaceholderNamesKey | _content/tour/eng/static/js/services.js:28 | The key can be read back from its placeholder. |
| I18n.PlaceholderInjective | _content/tour/eng/static/js/services.js:28 | Different missing keys never show the same placeholder. |
| Runner.Find | _content/tour/eng/static/js/services.js:61 | `indexOf` yields -1 exactly when the pattern does not occur. Otherwise it yields an occurrence with no earlier one. |
| Runner.HasGoMod | _content/tour/eng/static/js/services.js:61 | A snippet has a go.mod section exactly when the delimiter follows a line break somewhere or opens the snippet. |
| Runner.WithGoMod | _content/tour/eng/static/js/services.js:61-64 | A snippet with a go.mod section is sent unchanged. Any other snippet gets the default manifest (module `example`, go 1.24.0, empty go.sum) appended. |
| Runner.WithGoModExtends | _content/tour/eng/static/js/services.js:61-64 | The original code is an unchanged prefix of what is sent, and what is sent always has a go.mod section. |
| Runner.WithGoModIdempotent | _content/tour/eng/static/js/services.js:61-64 | Preparing a snippet twice is the same as preparing it once. |
| Runner.Split | _content/tour/eng/static/js/services.js:41 | `split('\n')` gives at least one piece. No piece holds a line break, and joining the pieces with line breaks gives back the body. |
| Runner.SplitJoin | _content/tour/eng/static/js/services.js:41 | Splitting lines that were joined with line breaks gives back exactly those lines. |
| Runner.DigitsEnd | _content/tour/eng/static/js/services.js:43 | The run of digits that `[0-9]+` consumes ends at the first non-digit. |
| Runner.MatchAtSound | _content/tour/eng/static/js/services.js:43 | A reported match reads `.go:`, one or more digits, `: ` and the message, from its position to the end of the line. |
| Runner.MatchAtComplete | _content/tour/eng/static/js/services.js:43 | Every such reading at a position is the match reported there. |
| Runner.LastSome | _content/tour/eng/static/js/services.js:43 | The search finds the last position before the bound that holds a match, and reports none when there is no such position. |
| Runner.MatchLine | _content/tour/eng/static/js/services.js:43 | The `match` of one line against `/.*\.go:([0-9]+): ([^\n]*)/`; `MatchLineSpec` states that it reports a match exactly when one exists, and the rightmost one. |
| Runner.MatchLineSpec | _content/tour/eng/static/js/services.js:43-44 | A line matches exactly when some position reads `.go:<digits>: <message>`. The reported match is the rightmost one, as the greedy leading `.*` makes it. |
| Runner.OnlyMatch | _content/tour/eng/static/js/services.js:43 | A line with a match and no `.` after it reports that match. |
| Runner.NoMatchOnEmptyLine | _content/tour/eng/static/js/services.js:43-44 | An empty line does not match. |
| Runner.HighlightsStep | _content/tour/eng/static/js/services.js:42-47 | One more scanned line adds exactly that line's highlight, if it matches. |
| Runner.Highlights | _content/tour/eng/static/js/services.js:42-47 | The highlights of the lines, one per matching line in line order; `HighlightsAppend`, `HighlightsOfLine` and `OnlyHighlights` state those facts. |
| Runner.Intercepted | _content/tour/eng/static/js/services.js:38-51 | The actions for one event: the highlights (stderr only), the forward, and completion (end only); `InterceptedOrder` and `NoHighlightUnlessStderr` state their order and conditions, and `Intercept` is proved equal to it. |
| Runner.Intercept | _content/tour/eng/static/js/services.js:38-51 | The interceptor's loop performs exactly the actions of the specification `Intercepted`: the highlights of the lines, the forward, then completion. |
| Runner.HighlightsAppend | _content/tour/eng/static/js/services.js:42-47 | The highlights of consecutive blocks of lines come block after block, so the highlights follow line order. |
| Runner.HighlightsOfLine | _content/tour/eng/static/js/services.js:43-46 | A line yields one highlight when it matches, carrying the match's line number and message, and none otherwise. |
| Runner.OnlyHighlights | _content/tour/eng/static/js/services.js:40-48 | Scanning the lines produces nothing but highlights. |
| Runner.InterceptedOrder | _content/tour/eng/static/js/services.js:38-51 | The event is forwarded exactly once, unchanged, after all its highlights. Completion is signalled exactly for `end`, once, after the forward. |
| Runner.NoHighlightUnlessStderr | _content/tour/eng/static/js/services.js:40 | Events other than `stderr` cause no highlight. |
| Runner.InterceptedErrorLine | _content/tour/eng/static/js/services.js:40-49 | A one-line error report yields that line's highlight, if any, and then the forward. |
| Runner.InterceptedExample | _content/tour/eng/static/js/services.js:40-49 | `prog.go:12: undefined: foo\n` on stderr highlights line `12` with `undefined: foo`, then forwards the event. |
| Editor.EditorContext.constructor | _content/tour/eng/static/js/services.js:122-128 | Each preference starts as `storage.get(key) === 'true'`, and no line is marked. |
| Editor.EditorContext.ToggleImports | _content/tour/eng/static/js/services.js:124-127 | The show-imports preference flips and is persisted under `imports` (when storage is available). Nothing else changes. |
| Editor.EditorContext.ToggleSyntax | _content/tour/eng/static/js/services.js:129-132 | The syntax preference flips and is persisted under `syntax` (when storage is available). Nothing else changes. |
| Editor.EditorContext.Highlight | _content/tour/eng/static/js/services.js:150-154 | The line is marked with the message as its tooltip, and other marks are kept. |
| Editor.EditorContext.OnChange | _content/tour/eng/static/js/services.js:155-157 | Every mark is cleared. |
| Editor.ToggleTwice | _content/tour/eng/static/js/services.js:123-131 | Toggling a preference twice restores it, and the stored value reads back as it. The marked lines and every other storage key are left as they were. |
| Navigation.IndexOf | _content/tour/eng/static/js/services.js:179 | `indexOf` yields the first position of the name, or -1 exactly when it is absent. |
| Navigation.PrevLesson | _content/tour/eng/static/js/services.js:177-187 | `prevLesson`, branch by branch; `PrevFollowsOrder` states that it is the preceding lesson of the reading order, or `""` at the start, and `UnlistedHasNoNeighbours` covers the `idx < 0` branch. |
| Navigation.NextLesson | _content/tour/eng/static/js/services.js:189-199 | `nextLesson`, branch by branch; `NextFollowsOrder` states that it is the following lesson of the reading order, or `""` at the end, and `UnlistedHasNoNeighbours` covers the `idx < 0` branch. |
| Navigation.NextFollowsOrder | _content/tour/eng/static/js/services.js:189-199 | `nextLesson` of the lesson at position k of the reading order is the lesson at k+1, or `""` at the end. |
| Navigation.PrevFollowsOrder | _content/tour/eng/static/js/services.js:177-187 | `prevLesson` of the lesson at position k of the reading order is the lesson at k-1, or `""` at the start. |
| Navigation.FirstHasNoPrev | _content/tour/eng/static/js/services.js:183-184 | The first lesson of the first module has no previous lesson. |
| Navigation.LastHasNoNext | _content/tour/eng/static/js/services.js:195-196 | The last lesson of the last module has no next lesson. |
| Navigation.UnlistedHasNoNeighbours | _content/tour/eng/static/js/services.js:179-180 | A lesson missing from its module's list has neither neighbour. |
| Navigation.ListedWhenNeighbour | _content/tour/eng/static/js/services.js:189-192 | A lesson with a neighbour is listed in its module. |
| Navigation.NextThenPrev | _content/tour/eng/static/js/services.js:177-199 | When `nextLesson(id)` is not `""`, `prevLesson(nextLesson(id)) == id`. |
| Navigation.PrevThenNext | _content/tour/eng/static/js/services.js:177-199 | When `prevLesson(id)` is not `""`, `nextLesson(prevLesson(id)) == id`. |
| Navigation.NextPrevNext | _content/tour/eng/static/js/services.js:177-199 | Going forward, back and forward again lands where the first step did. |
| Toc.Overlay | _content/tour/eng/static/js/services.js:216-220 | A loaded file keeps its hash. Its original contents are the delivered contents, and its contents are the saved edit when there is one, else the delivered contents. |
| Toc.OverlayPagesAt | _content/tour/eng/static/js/services.js:214-222 | Overlaying keeps every page and every file in place, and overlays each file from the edit saved under its own hash. |
| Toc.OverlayPage | _content/tour/eng/static/js/services.js:215-221 | The file loop changes page p alone, and overlays each of its files. |
| Toc.OverlayLesson | _content/tour/eng/static/js/services.js:214-222 | The page loop overlays every page of the lesson. |
| Toc.AttachLesson | _content/tour/eng/static/js/services.js:208-222 | The lesson points back at its module and its pages are overlaid. |
| Toc.LoadModule | _content/tour/eng/static/js/services.js:205-223 | After one module is loaded: its lesson map holds exactly its lessons by name; each of them points back at it; each has its files overlaid. |
| Toc.Load | _content/tour/eng/static/js/services.js:202-224 | After the load, for every module: its lesson map holds exactly its listed lessons; every listed lesson points back at its module; every file is overlaid. With no empty module, the resulting table is consistent for navigation. |
| Toc.LoadedTableConsistent | _content/tour/eng/static/js/services.js:204-211 | The back-references the load sets satisfy what navigation needs, provided no module is empty: names are unique and every listed lesson points at the module that lists it. |

## Left out

- Storage.KeyValueStore.constructor: the probe of `window.localStorage` is a
  host-environment effect. Its outcome and the stored contents are
  parameters.
- Storage.KeyValueStore.Set: a `setItem` that throws (a full store) is not
  modelled; on an available store every write succeeds.
- Editor.EditorContext.ToggleSyntax: the repaint it triggers (`paint`)
  polls the CodeMirror widget on a timer with no bound. It is not part of
  this model.
- Editor.EditorContext.Highlight, Editor.EditorContext.OnChange: the
  jQuery class and tooltip edits on the widget's DOM are modelled as a map
  from marked line to tooltip.
- I18n.Translate: the translation table is a map of own string entries.
  A JavaScript property lookup also finds members inherited from
  `Object.prototype`, so `l("toString")` or `l("constructor")` answers a
  function rather than the placeholder; that is not modelled.
- Runner.MatchLine, Runner.MatchLineSpec: the regular expression's `.` and `[^\n]` are taken
  to match every character of a line. JavaScript's `.` also excludes `\r`,
  U+2028 and U+2029, so a line holding those is not modelled exactly.
  Backtracking is modelled only through its result: the rightmost match.
- Runner.Intercept: its effects are returned as a trace of actions. The
  `editor.highlight`, `writer` and `done` callbacks are the trace's
  elements. The `PlaygroundOutput` sink and `window.transport.Run` are foreign
  calls and are not modelled.
- Navigation.PrevLesson, Navigation.NextLesson: they require the lesson to
  have a back-reference into the table (the service throws without one), and
  they exclude every table with an empty module altogether. The service
  misbehaves on such a table only when a step enters the empty module: it
  then returns `undefined` (`modules[idx - 1]` or `modules[idx + 1]` has no
  lessons); every other query on that table is answered normally and is not
  covered by this model. A module object is represented by its index, so the
  `modules.indexOf(mod) < 0` branch cannot arise.
- Toc.Load: it requires every listed lesson to be delivered, lesson names to
  be unique, and the module and lesson objects to be distinct. An undelivered
  name makes the service throw. A name listed twice makes the service visit
  the lesson twice: its back-reference ends at the last module listing it,
  and the second pass copies the current contents into the original
  contents, so a file that has a saved edit no longer keeps the delivered
  contents as its original; such tables are not modelled. A lesson's
  pages are a sequence field reassigned per file, not JavaScript objects
  updated in place, so aliasing between files is not modelled.
- The `$http` fetch, the `$q` promises, the error callback and `$log` are
  asynchronous plumbing and are not modelled.
- `fmt` (a form POST to `/_/fmt`) is network plumbing and is not modelled.
- `analytics` (a call into a page-provided function) is not modelled.
