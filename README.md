# Italian university course explorer — a Dafny model

The repository has two front ends for the Universitaly course catalogue.
Both download the 575 pages of the catalogue and let the user narrow the
courses by a search text, an "English only" switch and a degree type.

* The desktop explorer (`uni.py`, class `CourseFinderApp`) runs the download
  in a background thread. The thread posts messages on a queue. The GUI
  polls the queue, appends each page's courses to an aggregate list, and
  adds the page's matching courses to a numbered results table. When the
  user changes a filter widget, a debounced full filter rebuilds the table.
* The web front end (`src/App.js`) downloads the pages in one async loop.
  A `filteredCourses` memo chains three `.filter` passes, and the component
  shows a loading screen, an error screen or the results.

The model is split into these modules:

| file | module | what it holds |
|---|---|---|
| `json_values.dfy` | `Json` | JSON values and records, Python truthiness, `dict.get`, ASCII lower-casing and whitespace stripping |
| `sequences.dfy` | `Sequences` | order-preserving subsequences |
| `course_filter.dfy` | `CourseFilter` | `filter_course_list` as a function, with an independent one-pass reference selection |
| `renderer.dfy` | `Renderer` | how `add_filtered_courses_to_tree` turns records into numbered rows |
| `fetcher.dfy` | `Fetcher` | `fetch_all_courses`: the messages the thread puts for given page outcomes |
| `drainer.dfy` | `Drainer` | one tick of `check_fetch_queue` as a function, and what a tick and a whole run end in |
| `explorer.dfy` | `Explorer` | class `CourseFinder`: the GUI object whose methods update its fields in place, each proved against the functions above |
| `react_app.dfy` | `ReactApp` | the web memo (it may throw), the provider's page loop as class `CourseProvider`, and the view gate |

The two front ends are also tied together. `ReactApp.SameRunSameCourses`
states that the same page outcomes give the same course list on both.

## Model

| member | source | states |
|---|---|---|
| Json.LowerSpec | uni.py:165 | lower-casing maps each character through the ASCII case map, leaves no upper-case letter and keeps every other character |
| Json.TrimStartSpec | uni.py:165 | the left trim is a suffix of the input; everything it removed is whitespace; it starts with a non-space |
| Json.TrimEndSpec | uni.py:165 | the right trim is a prefix of the input; everything it removed is whitespace; it ends with a non-space |
| Json.StripSpec | uni.py:165 | `strip()` returns the block `s[i..j]` of the input with only whitespace before `i` and after `j`; it is empty exactly when the input is all whitespace; otherwise both its ends are non-space |
| CourseFilter.SearchTermBlank | uni.py:165-169 | the search stage is skipped exactly when the typed text is all whitespace |
| CourseFilter.KeepCompose | uni.py:168-179 | filtering by one stage list and then by another equals filtering once by both lists |
| CourseFilter.KeepAppend | uni.py:168-179 | filtering distributes over concatenation of course lists |
| CourseFilter.KeepIdempotent | uni.py:168-179 | filtering a filtered list again changes nothing |
| CourseFilter.KeepSubsequence | uni.py:168-179 | the selection keeps the input order and invents nothing |
| CourseFilter.KeepMembers | uni.py:168-179 | a record is selected iff it is in the input and passes every stage |
| CourseFilter.FilterIsAdmitted | uni.py:163-180 | the three stages, applied one after another as written, select exactly what one pass with all active criteria selects; an empty list gives `[]` |
| CourseFilter.FilterSubsequence | uni.py:167-180 | the result is an order-preserving subsequence of the input, and `[]` for an empty input |
| CourseFilter.FilterMembers | uni.py:168-180 | a record is in the result iff it is in the input and all active criteria admit it |
| CourseFilter.AdmitsExactly | uni.py:169-179 | admission means: the name or university contains the term (when a term is set), the language is "EN" (when English only) and the degree description matches (unless "All Degree Types") |
| CourseFilter.FilterNoCriteria | uni.py:167-180 | with a blank search, English only off and all degree types, the list comes back unchanged |
| CourseFilter.FilterIdempotent | uni.py:217-218 | filtering the filtered list again changes nothing, so the second filter in `add_filtered_courses_to_tree` is harmless |
| CourseFilter.FilterAppend | uni.py:148 | filtering page by page gives the same records as filtering the concatenated list |
| Renderer.RenderedSound | uni.py:187-197 | every row comes from a renderable record at the position its number gives, shown as that record's columns; numbers strictly increase |
| Renderer.RenderedComplete | uni.py:188-195 | every renderable record is shown under its own number |
| Renderer.RenderedAtMost | uni.py:188-197 | at most one row per record |
| Renderer.RenderedCount | uni.py:188-197 | there are as many rows as records iff no record is skipped |
| Renderer.RenderedNoGap | uni.py:187-190 | without skipped records, row `k` is record `k` under number `start + k` |
| Fetcher.FetchAllCourses | uni.py:121-137 | the thread puts, page by page, a `page_data` for each non-empty page, a `progress` for each successful page and an `error` for each failed page, and then `complete` with the error list |
| Fetcher.TranscriptEndsWithComplete | uni.py:124-137 | a run's last message is `complete` with the error list, and no earlier message is `complete` |
| Fetcher.TranscriptPayloads | uni.py:130-131 | the records carried by `page_data` are exactly the successful pages' `corsi`, in page order |
| Fetcher.EmittedPayloads | uni.py:130-131 | the same for the messages before `complete` |
| Fetcher.EmittedPageDataNonEmpty | uni.py:131 | `page_data` never carries an empty list |
| Fetcher.TranscriptProgress | uni.py:132 | the `progress` pages are exactly the successful pages, in order |
| Fetcher.EmittedProgress | uni.py:132 | the same for the messages before `complete` |
| Fetcher.FetchedPagesExactly | uni.py:124-136 | the successful pages are listed once each, strictly increasing; page `p` is listed iff its request succeeded |
| Fetcher.TranscriptErrors | uni.py:133-137 | the `error` messages of a whole run carry the same failures, in the same order, as the `complete` list |
| Fetcher.EmittedErrors | uni.py:133-136 | the `error` messages list the failed pages in page order |
| Fetcher.ErrorsCount | uni.py:133-137 | failures plus successes make up all pages |
| Fetcher.ErrorsMembers | uni.py:133-137 | an entry is in the error list iff that page failed in that way |
| Drainer.DrainLeavesSuffix | uni.py:143-155 | a tick only removes messages from the front of the queue |
| Drainer.TakenBounds | uni.py:141-155 | a tick handles at most 5 non-empty pages; it passes no `complete` without stopping; it stops early only when the budget is spent or after `complete`; it stops as soon as the budget is spent, so the message after the fifth non-empty page waits for the next poll; with a non-empty queue it handles at least one message |
| Drainer.StepAppends | uni.py:145-158 | one message appends its records to the aggregate list, and rows are only ever added |
| Drainer.DrainAppends | uni.py:143-148 | after a tick the aggregate list is the old list followed by the records of the messages handled |
| Drainer.DrainKeepsRows | uni.py:148 | a tick never removes a table row |
| Drainer.DrainComplete | uni.py:149-155 | after handling `complete`, loading is over, the progress bar is full and the status reports the error count, the total and the rows shown; otherwise the loading flag is unchanged |
| Drainer.DrainStatus | uni.py:156-158 | after a tick during loading whose last message is not `complete`, loading is still on and the status line shows the current page, the records fetched and the rows displayed |
| Drainer.LastTick | uni.py:149-155 | a tick that takes the whole queue, ending in `complete`, is the last one: the final state holds every record and the completed summary |
| Drainer.StaleRowsAfterSkippedFilter | uni.py:210-213 | a filter change during loading is dropped rather than deferred, and the `complete` handler does not rebuild the table: after `complete` the table keeps a row for a record that the new criteria reject |
| Drainer.SettleUntilComplete | uni.py:139-161 | polling until a queue that ends in its only `complete` is empty appends all of its records and ends in the completed state |
| Drainer.NumbersRepeatAcrossPages | uni.py:187-190 | row numbers are unique within one list only: after a skipped record, the next page is numbered on from the row count and reuses a number (pages `[a, r, b]` then `[c]` give 1, 3, 3) |
| Drainer.ProgressSource | uni.py:145 | the progress bar after some messages is the value before them or the value one of them set |
| Drainer.RisingMonotone | uni.py:145-150 | over messages whose values never fall, handling a longer prefix never shows a lower progress |
| Drainer.EmittedRising | uni.py:124-132 | the thread's `progress` messages report pages 1..n in rising order |
| Drainer.TranscriptRising | uni.py:124-137 | a whole run's progress values, `complete` included, never fall and start from 0 |
| Drainer.TranscriptMonotone | uni.py:124-150 | over a fetch run's messages the progress bar never goes back |
| Drainer.DrainProgress | uni.py:143-155 | after a tick the progress bar shows the last value set by a message it handled (full for `complete`), or what it showed before |
| Drainer.TickFromPrefix | uni.py:139-161 | a tick over the rest of the messages, from the progress the handled prefix left, leaves the progress of the longer prefix |
| Drainer.TickProgress | uni.py:139-161 | polling a fetch run from progress 0, each tick shows the last page reported so far and never moves the bar back |
| Drainer.RenderedFilterAtMost | uni.py:182-197 | filtering and rendering never give more rows than records |
| Drainer.StepConsistent | uni.py:145-158 | one message keeps the table no longer than the fetched list, and no status line reports more displayed than fetched |
| Drainer.DrainConsistent | uni.py:141-158 | a tick keeps those counts consistent |
| Drainer.FetchRunSettles | uni.py:121-161 | draining a whole fetch run from an empty list ends with every successful page's records in page order, loading over, a full progress bar, one error counted per failed page, and no further poll |
| Explorer.CourseFinder.constructor | uni.py:17-45 | the explorer starts loading, with progress 0, an empty list, table and queue, default widgets and no pending filter; its counts are consistent |
| Explorer.CourseFinder.StartFetchThread | uni.py:112-119 | a fetch starts only when none is running; starting resets the list, the table, the status and the progress bar; consistent counts stay consistent |
| Explorer.CourseFinder.RunFetchThread | uni.py:118-137 | the thread puts its messages one at a time, so the queue gains its whole transcript in order |
| Explorer.CourseFinder.Put | uni.py:131-137 | a message is appended at the back of the queue |
| Explorer.CourseFinder.CheckFetchQueue | uni.py:139-161 | one poll changes the state and the queue exactly as `Tick` does, schedules the next poll iff still loading or the queue is not empty, and keeps the table no longer than the fetched list |
| Explorer.CourseFinder.HandleMessage | uni.py:144-158 | one message changes the state as `Step` does, and counts against the budget iff it is a non-empty `page_data` |
| Explorer.CourseFinder.DrainQueue | uni.py:161 | repeated polls empty the queue and end in the state `Settle` gives, with the counts kept consistent |
| Explorer.CourseFinder.FilterCourseList | uni.py:163-180 | the loop over the search stage and the two comprehensions return `Filter` of the list under the current widgets |
| Explorer.CourseFinder.AddFilteredCoursesToTree | uni.py:182-197 | the matching records are appended as rows numbered on from the current row count; nothing is added for an empty input or no match |
| Explorer.CourseFinder.ClearTreeview | uni.py:199-203 | the table is empty afterwards |
| Explorer.CourseFinder.ScheduleFilterUpdate | uni.py:205-208 | a full filter is pending afterwards |
| Explorer.CourseFinder.SetCriteria | uni.py:40-42 | a widget change stores the new criteria and schedules a full filter |
| Explorer.CourseFinder.ApplyFullFilter | uni.py:210-224 | while pages are still arriving, nothing changes; otherwise the table holds exactly the filtered list numbered from 1, and the status reports rows shown (at most the total), total and whether loading goes on |
| Explorer.FullRun | uni.py:112-161 | a started explorer whose thread runs to the end and whose queue is drained holds all successful pages' records in page order, is no longer loading, has a full progress bar, reports one error per failed page and shows no more rows than records |
| Explorer.FullTableSound | uni.py:216-218 | every row of the rebuilt table is the record its number points at in the filtered list, which comes from the full list, is admitted and is renderable |
| Explorer.FullTableComplete | uni.py:216-218 | every admitted, renderable record of the full list appears in the rebuilt table |
| ReactApp.ThroughExactly | src/App.js:93-107 | a course survives the chained passes iff every active pass's callback returns true for it |
| ReactApp.ThroughThrows | src/App.js:93-107 | a course makes the chain throw iff some pass throws on it after all earlier passes accepted it |
| ReactApp.ThroughAppend | src/App.js:93-107 | a course goes through a longer chain of passes by going through the first part, then the rest |
| ReactApp.SiftCompose | src/App.js:90-110 | chaining `.filter` calls equals one sift over the concatenated passes, a throw included |
| ReactApp.SiftNoStages | src/App.js:90-110 | with no pass the list comes back unchanged |
| ReactApp.SiftThrows | src/App.js:94-106 | the passes throw iff some course makes its chain throw |
| ReactApp.SiftKept | src/App.js:94-106 | without a throw, the result is an order-preserving subsequence holding exactly the courses every pass accepts |
| ReactApp.SiftAllKept | src/App.js:94-106 | when every pass accepts every course, the list comes back whole |
| ReactApp.FilteredIsSift | src/App.js:90-110 | the memo equals one sift over the active passes |
| ReactApp.FilteredThrows | src/App.js:90-110 | the memo throws iff some course makes an active pass throw after the earlier ones accepted it |
| ReactApp.FilteredKept | src/App.js:90-110 | without a throw, the memo keeps the input order and holds exactly the courses for which every active callback returns true |
| ReactApp.FilteredNoCriteria | src/App.js:86-110 | with the initial filter states the memo returns the course list itself, even for null courses |
| ReactApp.FilteredIdempotent | src/App.js:90-110 | applying the memo's passes to their own result gives that result again |
| ReactApp.SearchMeaning | src/App.js:93-96 | the name pass accepts a course iff its `nomeCorsoEn` is a string containing the term, case-insensitively; it throws iff the course is null or its name is not a string |
| ReactApp.CourseProvider.constructor | src/App.js:13-16 | the provider starts with no courses, not loading, progress 0 and no error |
| ReactApp.CourseProvider.FetchAllCourses | src/App.js:20-54 | after the loop the courses are the loaded pages' courses in page order, progress counts the loaded pages, the error is the last failure, and loading is over |
| ReactApp.LoadedCountExactly | src/App.js:40 | progress never exceeds the page count, and reaches it iff every page loaded |
| ReactApp.LastFailureExactly | src/App.js:41-45 | there is no error iff every page loaded; otherwise the error names a failed page with its message, and every later page loaded |
| ReactApp.GatheredEmpty | src/App.js:26-48 | the course list is empty iff every loaded page had no courses |
| ReactApp.SameRunSameCourses | src/App.js:26-48 | for the same page outcomes, the web list equals the desktop aggregate list, web progress equals the number of desktop `progress` messages, and the web error is absent iff the desktop error list is empty |
| ReactApp.LoadingShown | src/App.js:124-133 | while loading, the loading screen with progress, total and error is shown unless the memo throws on some course; for the empty list the provider holds until the loop ends, it is always shown |
| ReactApp.ScreenAfterFetch | src/App.js:124-138 | after the loop, the error screen is shown iff some page failed and no courses arrived; otherwise the results screen is shown whenever the memo does not throw, and it shows the memo's result |

## Left out

- The Tk widgets, the Excel export with its password, fonts and layout are not modelled. The results table is its list of rows.
- The wording of the status line and the `print` diagnostics are not modelled. The status is a datatype holding the counts the line reports.
- HTTP requests, JSON decoding and `FETCH_DELAY` sleeps are replaced by one outcome per page (its `corsi` or the kind of failure). The failure text is not modelled.
- Threads, `root.after` timers and the 400 ms debounce are not modelled. The thread's messages are appended to the queue all at once (`RunFetchThread`). A poll sees no message arriving while it runs. The pending debounce timer is one flag.
- `tk.TclError` on insert and delete is not modelled. The table is a list, which cannot fail.
- The generic `except Exception` around the polling loop is not modelled. No modelled message raises.
- Page elements are JSON objects or `null`. A truthy element that is not an object would make Python's `.get` raise AttributeError, and it is excluded by the `Record` type.
- `data.get("corsi", [])` is modelled as a list of records. A `corsi` that is not a list is not modelled.
- Json.Lower: only ASCII letters are case-mapped. Python's `str.lower` and JavaScript's `toLowerCase` also map non-ASCII letters.
- Json.IsSpace: covers ASCII whitespace and the separators `\x1c`-`\x1f` that Python's `strip` removes. Unicode spaces are not included.
- Float values are kept as opaque values. Only their kind matters to the table.
- ReactApp.CourseProvider.FetchAllCourses: a response whose `corsi` is missing or not iterable makes `push(...data.corsi)` throw. That page then counts as a failed page, with its message.
- The outer `try`/`catch` of the web loop (src/App.js:49-51) is not modelled. Only the per-page handler can catch anything.
- The React state setters are modelled as direct field updates. Batching and re-renders between pages are not modelled.
- The JSX of the web results table (src/App.js:140-186) is not modelled. That includes the TypeError a course without `tipoLaurea` raises there. `RenderView` returns the list that table is built from.
- Explorer.CourseFinder.AddFilteredCoursesToTree: row numbers start from the current row count plus one. A skipped record leaves a gap in the numbers. Across two pages a number can therefore repeat; Drainer.NumbersRepeatAcrossPages proves one such case (numbers 1, 3, 3). The model keeps this as-written numbering.
- Explorer.CourseFinder.ApplyFullFilter: a filter change that arrives while pages are still loading is dropped. The handler of `complete` does not rebuild the table, so after a run the table can hold rows chosen under two different criteria. The model keeps this as-written behaviour, and Drainer.StaleRowsAfterSkippedFilter exhibits one such case.
