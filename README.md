# Colour-coded week schedule: catalog and grid logic in Dafny

This project models the logic of a personal weekly-schedule planner. Users keep a
catalog of *pillars* (life categories), each owning an ordered list of coloured
*activities*, and paint activities onto a grid of hours by days. The planner is a
React application whose logic lives in event handlers. Every catalog and grid handler
builds a new value from the old one with `map`, `filter` and object spread, and the
week navigation handlers compute an index, so the model is purely functional:
datatypes, functions and lemmas, one module per source file.

- `Types` (`src/types.ts`): `Activity`, `Pillar`, and the catalog invariants: every
  activity points back at its pillar, pillar ids are unique, and activity ids are unique
  across the whole catalog.
- `PillarManager` (`src/components/PillarManager.tsx`): adding a pillar, adding an
  activity, deleting a pillar, deleting an activity. A handler that returns without
  calling `onPillarsChange` gives `None`.
- `Schedule` (`src/components/Schedule.tsx`): looking up an activity by id (first match
  in pillar order, then activity order), the colour a cell renders, painting one cell,
  next/previous week, and the guard that shows an error instead of a missing week.
- `App` (`src/App.tsx`): the seeded catalog and the seeded empty 24 × 7 grid, plus the
  lemmas about the two components together (adding then finding, deleting and the
  dangling ids left in the grid).
- `Text` and `Seqs` are the two JavaScript built-ins modelled as separate modules:
  `String.prototype.trim` (with ECMAScript's whitespace and line-terminator set) and
  `Array.prototype.filter`. The others are modelled where they are used:
  `Array.prototype.map` as the sequence comprehensions of `PillarManager.AddActivity`,
  `PillarManager.DeleteActivity` and `Schedule.AssignCell`, `find` as
  `Schedule.FindInList`, and `Array.from` and `Object.fromEntries` as
  `App.DefaultSchedule` and `App.EmptyDayMap`.
- `Wrappers` holds `Option`.

The grid has the shape the handlers actually read and write: `days` (a list of day
names) and `timeSlots`, each an `hour` and a map from day name to activity id, `""`
meaning empty. A week is its id, start date and such a grid. New ids, which the source
takes from `Date.now()`, the text typed into the name fields and the colour picked are
parameters.

Painting a cell overwrites whatever it held; there is no occupied check
(`Schedule.AssignCellOverwrites`).

## Model

| member | source | states |
|---|---|---|
| `Text.Trim` | src/components/PillarManager.tsx:39-42 | the trimmed name is the slice of the input from its first to its last non-whitespace character, everything cut off is whitespace, and it is empty exactly when the input is blank |
| `Text.WhitespaceIsTable` | src/components/PillarManager.tsx:39-42 | the code point test `trim` uses is exactly membership in the table of ECMAScript's 25 WhiteSpace and LineTerminator characters |
| `Text.TrimIdempotent` | src/components/PillarManager.tsx:42 | trimming a stored (already trimmed) name again changes nothing |
| `Seqs.Filter` | src/components/PillarManager.tsx:70 | `filter` keeps only elements the callback accepts, never grows the list, and returns the list itself when every element is accepted |
| `Seqs.KeptIndicesExact` | src/components/PillarManager.tsx:70 | the positions `filter` keeps are in range, strictly increasing, and exactly those whose element the callback accepts |
| `Seqs.FilterKeepsOrder` | src/components/PillarManager.tsx:70 | the filtered list is the input read at strictly increasing positions, and those positions are exactly the ones whose element is accepted |
| `Seqs.FilterMembers` | src/components/PillarManager.tsx:70 | an element is in the filtered list exactly when it is in the input and accepted |
| `PillarManager.AddPillar` | src/components/PillarManager.tsx:38-45 | a blank name emits nothing; otherwise exactly one pillar is appended at the end, with the trimmed name, the given id and no activities, and the old pillars stay unchanged and in order |
| `PillarManager.NewActivity` | src/components/PillarManager.tsx:52-57 | the new activity has the new id, the trimmed typed name, the picked colour and a back-reference to its pillar; its name is empty exactly when the typed name is blank, and trimming it again changes nothing |
| `PillarManager.AddActivity` | src/components/PillarManager.tsx:50-62 | a blank name emits nothing; otherwise the pillar count is unchanged, every pillar with the given id gets the new activity (trimmed name, picked colour, back-reference to that id) at the end of its list, and every other pillar is untouched |
| `PillarManager.DeletePillar` | src/components/PillarManager.tsx:69-71 | no pillar with the id survives, the list does not grow, and it is unchanged when no pillar has that id |
| `PillarManager.DeleteActivity` | src/components/PillarManager.tsx:73-83 | the pillar count, order, ids and names are unchanged, pillars with another id are untouched, and the targeted pillars keep no activity with the deleted id |
| `PillarManager.DeletePillarMembers` | src/components/PillarManager.tsx:70 | a pillar survives deletion exactly when it was in the list and its id is another one |
| `PillarManager.DeletePillarKeepsOrder` | src/components/PillarManager.tsx:70 | the surviving pillars are exactly those at positions with another id, in their original relative order |
| `PillarManager.DeleteActivityKeepsOrder` | src/components/PillarManager.tsx:78 | inside a targeted pillar the surviving activities are exactly those with another id, in their original relative order |
| `PillarManager.AddActivityToMissingPillar` | src/components/PillarManager.tsx:58-62 | adding to a pillar id that no pillar has emits either nothing or the same list |
| `PillarManager.DeletePillarIdempotent` | src/components/PillarManager.tsx:69-71 | deleting a pillar twice is deleting it once |
| `PillarManager.DeleteActivityIdempotent` | src/components/PillarManager.tsx:73-83 | deleting an activity twice is deleting it once |
| `PillarManager.AddThenDeletePillar` | src/components/PillarManager.tsx:38-71 | deleting the pillar just added under an unused id gives back the old list |
| `PillarManager.AddThenDeleteActivity` | src/components/PillarManager.tsx:50-83 | deleting the activity just added under an unused id from the same pillar gives back the old catalog |
| `PillarManager.AddPillarKeepsCatalogValid` | src/components/PillarManager.tsx:40-45 | adding a pillar under an unused id keeps back-references and id uniqueness |
| `PillarManager.AddActivitySource` | src/components/PillarManager.tsx:58-62 | after adding, each activity of a pillar is the old activity at the same place, or else the new activity appended to a pillar with the target id |
| `PillarManager.AddActivityKeepsCatalogValid` | src/components/PillarManager.tsx:52-62 | adding an activity under an unused id keeps back-references and id uniqueness (the new activity points at the pillar it lands in, and unique pillar ids put it in at most one pillar) |
| `PillarManager.DeletePillarKeepsPillarIdsUnique` | src/components/PillarManager.tsx:69-71 | deleting pillars keeps pillar ids unique |
| `PillarManager.DeletePillarSurvivorsDistinct` | src/components/PillarManager.tsx:69-71 | two distinct activity positions left by deleting a pillar hold distinct ids |
| `PillarManager.DeletePillarKeepsActivityIdsUnique` | src/components/PillarManager.tsx:69-71 | deleting pillars keeps activity ids unique across the catalog |
| `PillarManager.DeletePillarKeepsBackRefs` | src/components/PillarManager.tsx:69-71 | deleting pillars keeps every activity's back-reference equal to its pillar's id |
| `PillarManager.DeletePillarKeepsCatalogValid` | src/components/PillarManager.tsx:69-71 | deleting pillars keeps back-references and id uniqueness |
| `PillarManager.DeleteActivitySurvivorsDistinct` | src/components/PillarManager.tsx:73-83 | two distinct activity positions left by deleting an activity hold distinct ids |
| `PillarManager.DeleteActivityKeepsIdsUnique` | src/components/PillarManager.tsx:73-83 | deleting activities keeps activity ids unique across the catalog |
| `PillarManager.DeleteActivityKeepsBackRefs` | src/components/PillarManager.tsx:73-83 | deleting activities keeps every activity's back-reference equal to its pillar's id |
| `PillarManager.DeleteActivityKeepsCatalogValid` | src/components/PillarManager.tsx:73-83 | deleting activities keeps back-references and id uniqueness |
| `Schedule.FindInList` | src/components/Schedule.tsx:78 | `find` returns an activity of the list with the queried id, and nothing exactly when none has it |
| `Schedule.FindInListFirst` | src/components/Schedule.tsx:78 | `find` returns the activity at the first position holding the id |
| `Schedule.FindActivity` | src/components/Schedule.tsx:76-82 | the lookup returns an activity of some pillar whose id is the query, and `undefined` exactly when no pillar holds such an activity |
| `Schedule.FindActivityFirst` | src/components/Schedule.tsx:76-82 | when `(i, j)` is the first match in pillar order, then activity order, the lookup returns the activity there |
| `Schedule.FindActivityIsFirstMatch` | src/components/Schedule.tsx:76-82 | whatever the lookup returns sits at the first match |
| `Schedule.FindActivityUnambiguous` | src/components/Schedule.tsx:76-82 | with activity ids unique across the catalog, looking up any activity's id returns that activity |
| `Schedule.CellActivity` | src/components/Schedule.tsx:259-260 | a cell resolves to an activity exactly when its day key is present, its id is non-empty and the catalog holds that id, and the activity resolved is the catalog's first one with that id in pillar order, then activity order |
| `Schedule.CellColor` | src/components/Schedule.tsx:259-267 | a cell renders white when it resolves to no activity or the resolved activity's colour is empty, otherwise in that activity's colour, and any non-white colour it renders is the resolved activity's |
| `Schedule.AssignCell` | src/components/Schedule.tsx:90-100 | every slot with the selected hour holds the activity id under the selected day, whatever it held before; its other days keep their values and its key set grows by at most that day; slots with other hours are unchanged; the slot count and hour order are unchanged |
| `Schedule.SelectActivity` | src/components/Schedule.tsx:88-108 | with no cell selected nothing is emitted; otherwise the current week's id and the grid with its `days` kept and its slots painted |
| `Schedule.AssignCellIdempotent` | src/components/Schedule.tsx:94-97 | painting the same cell with the same activity twice is painting it once |
| `Schedule.AssignCellOverwrites` | src/components/Schedule.tsx:94-97 | there is no occupied check: painting a cell again replaces the first painting |
| `Schedule.AssignCellCommutes` | src/components/Schedule.tsx:90-100 | painting two different cells gives the same grid in either order |
| `Schedule.PreviousWeek` | src/components/Schedule.tsx:110-114 | "previous" asks for index − 1 exactly when the index is above 0 |
| `Schedule.NextWeek` | src/components/Schedule.tsx:116-120 | "next" asks for index + 1 exactly when the index is below the last week's |
| `Schedule.NavigationStaysInRange` | src/components/Schedule.tsx:110-120 | from an index in `[0, weeks − 1]` either button leaves the index in that range |
| `Schedule.NavigationRoundTrip` | src/components/Schedule.tsx:110-120 | "next" then "previous", and "previous" then "next", return to the starting index whenever the first step moves |
| `Schedule.CurrentWeek` | src/components/Schedule.tsx:53-74 | the "no weeks" error exactly when the list is empty, the week shown exactly when the index names one, and then it is the week at that index; otherwise the "invalid week" error |
| `Schedule.NavigationKeepsWeekShown` | src/components/Schedule.tsx:53-120 | from a week that is shown, either button leads to a week that is shown |
| `App.EmptyDayMap` | src/App.tsx:59 | the seeded slot map has a key for exactly the given days, each holding the empty id |
| `App.DefaultSchedule` | src/App.tsx:56-61 | the seeded grid's days are `Mon`..`Sun` in order, it has 24 slots, slot `i` is hour `i`, and every slot has an empty entry for each day and no other key |
| `App.DefaultPillars` | src/App.tsx:13-48 | the seeded catalog, entry for entry: four pillars and ten activities with their ids, names, colours and back-references |
| `App.DefaultCatalogValid` | src/App.tsx:13-48 | in the seeded catalog every activity's back-reference is its pillar's id, pillar ids are unique and activity ids are unique across the catalog |
| `App.DefaultLookupResolvesSeededIds` | src/App.tsx:13-48 | looking up any seeded activity's id returns that activity |
| `App.PaintSeededGrid` | src/components/Schedule.tsx:88-105 | painting a cell of the seeded grid sets exactly that cell; the slot's other days stay empty and the other 23 slots are unchanged |
| `App.AddedActivityIsFound` | src/components/PillarManager.tsx:50-62 | an activity just added under an unused id to an existing pillar is what the lookup returns for that id |
| `App.DeletedPillarCellRendersWhite` | src/components/PillarManager.tsx:69-71 | deleting a pillar leaves the grid alone; a cell still holding the id of an activity that lived only there resolves to nothing and renders white |
| `App.DeletedActivityCellRendersWhite` | src/components/Schedule.tsx:259-267 | after deleting an activity whose id no other pillar uses, a cell still holding that id resolves to nothing and renders white |

## Left out

- PDF export (`handleExportPDF`) and the legend: DOM cloning, html2canvas and jsPDF calls, and floating-point page splitting.
- Date handling (`handleEditDateClick`, `handleUpdateDate`, `formatDate`): relies on JavaScript `Date` and locale formatting; `handleUpdateDate` is only a non-empty check around a callback.
- Loading and saving through `localStorage` and `JSON.parse`/`JSON.stringify`: persistence I/O. Only the fallback defaults are modelled.
- Id generation with `Date.now().toString()`: nondeterministic. The new id is a parameter, and the lemmas that need it fresh say so.
- All rendering, the dialogs, the colour picker and the tabs; `src/components/Legend.tsx` is UI only and is not part of this model.
- The local UI state the handlers reset after success (`setNewPillarName('')`, `setNewActivityName('')`, `setIsColorPickerOpen(false)`, `setSelectedCell(null)`), the colour picker's initial colour, and `handleCellClick`, which only records the selected cell: the selected cell, the typed names and the picked colour are parameters.
- The Confirm button's `if (selectedPillarId)` check before `handleAddActivity`: dialog wiring.
- What the parent does with `onWeekChange`, `onScheduleChange` and `onPillarsChange`: the model returns the value that would be passed. `Schedule.IndexAfter` assumes the parent stores the requested index.
- The wiring in `src/App.tsx:87-91`: it passes `Schedule` no `weeks`, `currentWeekIndex` or `onWeekChange`, so the defaults `weeks = []` and `currentWeekIndex = 0` (`src/components/Schedule.tsx:38-39`) apply and the component always shows "No weeks available" (`src/components/Schedule.tsx:53-61`), the state `Schedule.CurrentWeek([], 0) == NoWeeks`. The model studies the component under the props it declares.
- Schedule.CurrentWeek: the week index is an integer. The source's index is a JavaScript number, which could also be fractional or NaN; `weeks[index]` is then `undefined` and the "invalid week" error shows. Those values are not modelled, and a missing `weeks` prop is modelled as the empty list.
- Text.Trim: strings are sequences of Unicode scalar values, not UTF-16 code units, so lone surrogates are not modelled.
- Schedule.CellActivity: day names are plain map keys; JavaScript objects would also answer inherited property names such as `constructor`, which is not modelled.
- `src/types.ts` declares a `TimeSlot` with `activityId` and `endTime` and a `WeekSchedule` keyed by day and hour string, with an `endTime` in `HH:mm`, but no handler reads or writes that shape; the model uses the `hour`/`activities` grid the handlers build. No code fills a range of cells or deletes a block.
