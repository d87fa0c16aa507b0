# School timetable, teacher folders and academic calendar — a Dafny model

This project models the core of a school administration backend (an Express
and MongoDB service). It covers three route families and the helpers and
document schemas behind them:

- **Timetable** (`routes/schedules.js`, `models/Schedule.js`,
  `utils/scheduleHelpers.js`). A principal creates, edits, deletes and
  publishes timetable entries. Each entry is one teacher's subject and class
  in one teaching period of one weekday. Everyone reads the published
  entries, grouped by weekday, or as a download grid with one row per slot of
  the school day. The helpers hold the fixed slot table (nine periods and two
  recesses) and these operations:
  - the period-by-day table builder;
  - the slot lookup;
  - the searches for the current and the next slot at a given clock time.
- **Teacher folders** (`routes/folders.js`, `models/Folder.js`). Each teacher
  has at most one folder per folder type (material, administration, event,
  other). It is created on the first upload. Files are appended on upload,
  spliced out on delete and served on download. Each download is recorded on
  the downloader's account. When a principal views a teacher's folders, the
  visit is recorded too.
- **Academic calendar** (`routes/academicCalendar.js`,
  `models/AcademicCalendar.js`). A principal uploads a calendar image. It
  deactivates every earlier calendar, removes their image files from disk and
  becomes the one active calendar. GET returns the newest active calendar
  with its image URL.

How the model is built:

- Each MongoDB collection is a class whose field is a sequence of documents.
  Documents are datatypes. The classes are `ScheduleStore`, `FolderStore`,
  `CalendarStore` and, for the user accounts, `UserStore`.
- Each route handler is a method on its collection. It returns a `Result`
  whose error names the HTTP answer: validation failure, invalid folder type,
  no file, not an image, conflict, not found, or server error.
- Document ids are natural numbers drawn from a counter in the store.
- The clock is the `now` parameter. Helpers that read the time of day take
  hours and minutes instead.
- The upload directory appears as the set of paths on disk, plus the paths or
  the flag for which removal throws. The paths actually removed are returned.

Module layout:

| module | file | models |
|---|---|---|
| `Common` | common.dfy | ids, `Option`, `Result`, the error kinds, what an upload delivers |
| `Users` | users.dfy | the account fields the core touches; the bounded recent-access lists |
| `ScheduleHelpers` | schedule_helpers.dfy | `utils/scheduleHelpers.js` |
| `ScheduleModel` | schedule_model.dfy | `models/Schedule.js` |
| `Schedules` | schedules.dfy | `routes/schedules.js` |
| `FolderModel` | folder_model.dfy | `models/Folder.js` |
| `Folders` | folders.dfy | `routes/folders.js` |
| `CalendarModel` | calendar_model.dfy | `models/AcademicCalendar.js` |
| `AcademicCalendar` | academic_calendar.dfy | `routes/academicCalendar.js` |

The model follows these behaviours of the code:

- A create or update that hits an occupied (teacher, day, period) slot is
  answered with 400 (`Conflict` here), not 409.
- The calendar upload reclaims the files of **all** inactive records, not
  only those it has just deactivated.
- When removing an old calendar image throws, the upload ends with a server
  error. The earlier records stay deactivated and no new record is inserted.
- Removing a folder file from disk may fail; the failure is swallowed and
  the record is deleted anyway.

## Model

| member | source | states |
|---|---|---|
| `ScheduleHelpers.SlotKeysInOrder` | utils/scheduleHelpers.js:1-13 | The slot keys in iteration order are period1–3, recess1, period4–6, recess2, period7–9. |
| `ScheduleHelpers.SlotRecordsWellFormed` | utils/scheduleHelpers.js:1-13 | Exactly the two recess slots carry the recess flag. Every display text is the start, " - " and the end. |
| `ScheduleHelpers.SlotTimesAreClockTimes` | utils/scheduleHelpers.js:1-13 | Every start and end is a well-formed zero-padded "HH:MM" time. |
| `ScheduleHelpers.SlotsAreContiguous` | utils/scheduleHelpers.js:1-13 | Each slot starts before it ends. Each slot ends where the next begins. The day runs from 07:55 to 14:10, and the last slot starts at 13:35. |
| `ScheduleHelpers.StartsNonDecreasing` | utils/scheduleHelpers.js:1-13 | Slot starts never decrease along the table. Every slot lies within the school day. |
| `ScheduleHelpers.FormatClock` | utils/scheduleHelpers.js:48 | Zero-padded hours and minutes give a clock string whose minute value is hours·60 + minutes. |
| `ScheduleHelpers.LessIsEarlier` | utils/scheduleHelpers.js:51 | JavaScript string comparison of two clock strings agrees with comparing their minute values. |
| `ScheduleHelpers.GenerateScheduleTable` | utils/scheduleHelpers.js:17-40 | The table lists every slot key and the five weekdays. Each row holds the five weekdays plus any other day an entry placed there, taken as an ordinary key. Each cell holds the last entry for that slot and day, or null. |
| `ScheduleHelpers.BlankData` | utils/scheduleHelpers.js:24-30 | The initial data has a row for exactly the slot keys, each with exactly the five weekdays set to null. |
| `ScheduleHelpers.FillData` | utils/scheduleHelpers.js:33-37 | Filling keeps the row keys. An entry whose period is a slot key writes its day's cell, and later entries overwrite earlier ones. An entry whose period is not a slot key is skipped. Periods that name built-in object members are not distinguished (see Left out). |
| `ScheduleHelpers.LastPlacedIsLastMatch` | utils/scheduleHelpers.js:33-37 | The cell value is the last entry with that period and day, and no later entry matches. |
| `ScheduleHelpers.GetTimeSlotInfo` | utils/scheduleHelpers.js:42-44 | Corrected lookup: finds a slot exactly when the key is a slot key, and the slot found carries that key. |
| `ScheduleHelpers.GetTimeSlotInfoAsWritten` | utils/scheduleHelpers.js:42-44 | Lookup as written: for a slot key, that key's own slot from the table. For "toString" and the other prototype names, the inherited member of that name. Null otherwise, both directions. |
| `ScheduleHelpers.InheritedKeyIsNotNull` | utils/scheduleHelpers.js:42-44 | "toString" is not a slot key, yet the as-written lookup returns an inherited member for it while the corrected one returns none. |
| `ScheduleHelpers.FindCurrent` | utils/scheduleHelpers.js:50-54 | Returns the first slot whose start ≤ t ≤ end, or none when no slot covers t. |
| `ScheduleHelpers.FindNext` | utils/scheduleHelpers.js:63-67 | Returns the first slot that starts after t, or none when none does. |
| `ScheduleHelpers.CurrentPeriodByMinutes` | utils/scheduleHelpers.js:46-57 | The current slot at hh:mm is the first whose start ≤ hh·60+mm ≤ end in minutes. There is none exactly when no slot covers that minute. |
| `ScheduleHelpers.NextPeriodByMinutes` | utils/scheduleHelpers.js:59-70 | The next slot at hh:mm is the first whose start in minutes is later than hh·60+mm. There is none exactly when none is. |
| `ScheduleHelpers.BoundaryTimeBelongsToEarlierSlot` | utils/scheduleHelpers.js:50-54 | At 08:30, a shared boundary, the current slot is period1 (the earlier one). 09:45 falls in recess1. 07:54 and 14:11 have no current slot. |
| `ScheduleHelpers.NoNextPeriodFromLastStart` | utils/scheduleHelpers.js:59-70 | There is no next slot exactly from 13:35 onwards. |
| `ScheduleModel.ParseDay` | models/Schedule.js:10-14 | Only the five lower-case weekday names are accepted, and each maps to its day. |
| `ScheduleModel.ParsePeriod` | models/Schedule.js:15-19 | Only "period1"…"period9" are accepted, each giving its number. |
| `ScheduleModel.DayNamesRoundTrip` | models/Schedule.js:10-14 | Parsing a day's name gives that day back. |
| `ScheduleModel.PeriodNamesRoundTrip` | models/Schedule.js:15-19 | Parsing a period's name gives that period back. |
| `ScheduleModel.Trim` | models/Schedule.js:24-33 | The stored text is the input minus JavaScript whitespace at both ends. Nothing else is removed. The result neither starts nor ends with whitespace. |
| `ScheduleModel.TrimEmptyExactlyWhenBlank` | models/Schedule.js:24-33 | Trimming gives the empty string exactly when the input is all whitespace. |
| `ScheduleModel.TrimKeepsTrimmed` | models/Schedule.js:24-33 | Text with no whitespace at either end is stored unchanged. |
| `ScheduleModel.TrimIsIdempotent` | models/Schedule.js:24-33 | Trimming twice gives the same result as trimming once. |
| `Schedules.TimeOfIsTableEntry` | routes/schedules.js:11-23 | The time stored for period p is the entry of the route's table under key "period p". It is found by the key lookup and is non-empty. |
| `Schedules.RouteTableMatchesHelperTable` | routes/schedules.js:11-23 | The route's slot table has the same keys in the same order as the helpers' table, with their display texts as values. |
| `Schedules.AppendKeepsSlotsUnique` | routes/schedules.js:133-139 | Inserting an entry keeps the unique (teacher, day, period) index exactly when the create conflict query finds nothing. |
| `Schedules.ReplaceKeepsSlotsUnique` | routes/schedules.js:200-212 | Replacing an entry keeps the unique index exactly when the update conflict query, which skips that id, finds nothing. |
| `Schedules.IndexOfId` | routes/schedules.js:190 | `findById` finds the entry with that id, or reports none exactly when no entry has it. |
| `Schedules.UnpublishedZeroIffAllPublished` | routes/schedules.js:269-272 | The draft count is zero exactly when every entry is published. |
| `Schedules.PublishTwiceChangesNothing` | routes/schedules.js:269-272 | After publishing there are no drafts. Only the flag changed. Publishing again changes nothing. |
| `Schedules.VisibleByRole` | routes/schedules.js:30-40 | The listing filter passes an entry exactly when it is published, belongs to the caller if the caller is a teacher, and belongs to the named teacher if a principal names one. |
| `Schedules.BucketContents` | routes/schedules.js:55-60 | A day's bucket holds an item exactly when some visible entry of that day produced it, with its period's display time. |
| `Schedules.PeriodOrderIsSorted` | routes/schedules.js:42-44 | The sorted query result is ordered by period. |
| `Schedules.PeriodOrderIsPermutation` | routes/schedules.js:42-44 | Sorting neither loses nor adds entries: the result is a permutation of the input. |
| `Schedules.OfPeriodHasOnlyThatPeriod` | routes/schedules.js:42-44 | Each period block of the sorted result holds only entries of that period. |
| `Schedules.BucketKeepsPeriodOrder` | routes/schedules.js:55-60 | Bucketing a period-sorted list keeps each day's bucket sorted by period. |
| `Schedules.SortedBucketContents` | routes/schedules.js:42-60 | After sorting, a day's bucket still holds exactly the items the visible entries of that day produce. |
| `Schedules.GroupByDay` | routes/schedules.js:47-60 | The grouping has exactly the five weekdays as keys. Each holds the bucket of the entries of that day, in query order. |
| `Schedules.CellTextIsLastMatch` | routes/schedules.js:305-323 | A grid cell is empty exactly when no visible entry has that period and day. Otherwise it shows "subject (class)" of the last such entry. |
| `Schedules.WithCell` | routes/schedules.js:318-319 | Writing one day's cell changes that cell only. |
| `Schedules.GridLayout` | routes/schedules.js:302-336 | Table rows 3 and 7 are the recesses, so they are not period rows. Every period's row is a period row whose Period column shows its digit. |
| `Schedules.ScheduleStore.constructor` | models/Schedule.js:47-48 | An empty collection satisfies the unique index. |
| `Schedules.ScheduleStore.Create` | routes/schedules.js:104-153 | An invalid body is a validation failure. An unknown teacher, or a user who is not a teacher, is not found. An occupied slot is a conflict. Past those checks it succeeds exactly when both trimmed texts are non-empty, and a subject or class that trims to empty is a server error. On success a draft entry is appended with the teacher's name, the period's time and the trimmed texts. Every error leaves the collection unchanged, and the unique index is kept. |
| `Schedules.ScheduleStore.Update` | routes/schedules.js:173-220 | An invalid body is a validation failure. A missing id is not found. A slot held by another entry of the same teacher is a conflict. Past those checks it succeeds exactly when both trimmed texts are non-empty, and a blank trimmed text is a server error. On success the entry keeps its id, teacher and flag, and day, period, time, subject and class change. The index is kept. |
| `Schedules.ScheduleStore.Delete` | routes/schedules.js:240-249 | A missing id is not found and nothing changes. Otherwise exactly that entry is removed and returned. |
| `Schedules.ScheduleStore.Publish` | routes/schedules.js:267-276 | Every entry becomes published and nothing else changes. The count returned is the number of drafts before. |
| `Schedules.ScheduleStore.List` | routes/schedules.js:28-76 | Keys are exactly the five weekdays. Each day's list holds exactly the visible entries of that day, each with its display time. The list is the bucket of the period-sorted collection, so it is ordered by period. |
| `Schedules.ScheduleStore.Download` | routes/schedules.js:290-336 | One row per slot of the table, in order, each with the slot's time. Period rows show the period digit and, per weekday, the last matching published entry. Recess rows carry the recess label. |
| `Schedules.ScheduleStore.PeriodRow` | routes/schedules.js:305-323 | A period row's Period column is the key's digit and its day cells are the last-match cell texts. |
| `Users.PushRecent` | routes/folders.js:30-42 | The new entry goes first, the earlier entries follow in order, and the list is cut to ten. |
| `Users.RecordAllKeepsMostRecent` | routes/folders.js:320-337 | Starting from an empty list, any run of accesses leaves the ten most recent (or all, if fewer), most recent first. |
| `Users.UserStore.RecordFolderAccess` | routes/folders.js:30-42 | The viewer's folder list gains the entry in front, capped at ten. An unknown viewer changes nothing. |
| `Users.UserStore.RecordFileAccess` | routes/folders.js:322-337 | The viewer's file list gains the entry in front, capped at ten. An unknown viewer changes nothing. |
| `FolderModel.ParseFolderType` | models/Folder.js:37-41 | Only the four lower-case folder type names are accepted, each giving its type. |
| `FolderModel.TypeNamesRoundTrip` | models/Folder.js:37-41 | Parsing a type's name gives that type back. |
| `Folders.FolderIndex` | routes/folders.js:178 | `findOne({teacherId, folderType})` finds the first folder of that teacher and type, or none exactly when there is none. |
| `Folders.FileIndex` | routes/folders.js:244-246 | The first file with that id is found, or none exactly when no file has it. |
| `Folders.Locate` | routes/folders.js:236-252 | A file is located exactly when the type is a valid name, the addressed teacher has a folder of that type, and the folder holds the id. An unknown type matches no folder. |
| `Folders.UploadedAppendsFile` | routes/folders.js:178-200 | The owner's files of that type grow by the new file at the end. A folder is created only when none existed. Every other folder is unchanged. |
| `Folders.TwoUploadsShareOneFolder` | routes/folders.js:178-200 | Two uploads to a slot that had no folder leave one new folder holding both files, in upload order. |
| `Folders.UploadedKeepsInvariant` | routes/folders.js:178-200 | Uploading keeps one folder per (teacher, type), keeps file ids unique per folder, and keeps ids below the counter. |
| `Folders.Removed` | routes/folders.js:266 | Splicing out position j keeps the files before j and shifts the later ones down by one. |
| `Folders.RemovedDropsOnlyThatId` | routes/folders.js:244-267 | After the splice, the removed id is not found any more. Every other file is still there and ids stay unique. |
| `Folders.RemovedKeepsInvariant` | routes/folders.js:266-267 | Removing a file keeps the store invariant. |
| `Folders.RemovingLastUploadRestores` | routes/folders.js:199-203 | Deleting the file just appended gives back the earlier list. |
| `Folders.Views` | routes/folders.js:118-127 | One view per file, in order. Each view's `updatedAt` falls back to `createdAt`. |
| `Folders.NewestIsLatest` | routes/folders.js:103-112 | The pick is a selected folder that no other selected folder was updated later than. There is a pick exactly when a folder is selected. |
| `Folders.OldestStep` | routes/folders.js:58-60 | One grouping step over the folders, sorted newest first within a type, keeps holding a selected folder created no later than any other seen. |
| `Folders.FolderStore.constructor` | models/Folder.js:30-42 | An empty collection satisfies the store invariant. |
| `Folders.FolderStore.Upload` | routes/folders.js:142-220 | An invalid type is refused. A missing file is refused. A principal naming an unknown user gets not found. Past those checks it succeeds exactly when the new record has every required string, and a record missing one is a server error. On success the file (id, the five upload fields, timestamps now) is appended to the owner's folder of that type, which is created if missing. Errors change nothing and the invariant is kept. |
| `Folders.FolderStore.Save` | routes/folders.js:177-200 | The find-or-create and push: the folders become `Uploaded` of the old ones (the file appended to the owner's folder of that type, or a new folder created for it), that folder's files gain exactly the new file at the end, and the store invariant is kept. |
| `Folders.FolderStore.Delete` | routes/folders.js:226-282 | An unlocated file is not found and nothing changes. Otherwise exactly that file is spliced out of its folder. The file on disk is removed when its path is set, exists and removal does not fail. The record goes either way. |
| `Folders.FolderStore.Download` | routes/folders.js:287-342 | An unlocated file, or one with no path on disk, is not found and the account is untouched. Otherwise the file is served, and the caller's recent files gain it in front, capped at ten, unless that update fails. |
| `Folders.FolderStore.GetGrouped` | routes/folders.js:15-73 | Keys are exactly the four folder types. Each holds the oldest selected folder of that type, or none when there is none. A principal naming an existing teacher has the visit recorded on their account; otherwise the accounts are untouched. |
| `Folders.FolderStore.GroupByType` | routes/folders.js:50-60 | The grouping loop gives, for each of the four types, the oldest selected folder or none. |
| `Folders.FolderStore.GetByType` | routes/folders.js:78-137 | An invalid type is refused. Not found exactly when no folder of that type is selected. When a folder is selected the result is exactly the views (every field, `updatedAt` falling back to `createdAt`) of the most recently updated selected folder's files, in order. |
| `CalendarModel.ShownFileName` | routes/academicCalendar.js:23 | A file name is shown exactly when the image and a non-empty file name are present. |
| `CalendarModel.StoredPath` | routes/academicCalendar.js:79 | A path is reclaimed only when the image and a non-empty file path are present. |
| `AcademicCalendar.ImageUrlEndsWithFileName` | routes/academicCalendar.js:31 | The image URL is the origin, "/uploads/" and the file name, so the name reads back off its end. |
| `AcademicCalendar.Deactivated` | routes/academicCalendar.js:74 | Every record becomes inactive and nothing else changes. |
| `AcademicCalendar.SweepRemovesEachPathOnce` | routes/academicCalendar.js:77-82 | The removed paths are distinct, were on disk and did not fail. The disk afterwards is the disk before minus exactly them. |
| `AcademicCalendar.SweepReclaimsEveryOldImage` | routes/academicCalendar.js:77-82 | The sweep succeeds exactly when no reclaimable path fails to be removed. On success, every inactive record's stored file that was on disk has been removed. |
| `AcademicCalendar.NewestActiveIsLatest` | routes/academicCalendar.js:19-21 | The pick is an active record no other active record is newer than. There is none exactly when nothing is active. |
| `AcademicCalendar.UploadedCalendarIsTheOnlyActive` | routes/academicCalendar.js:74-96 | After deactivating and inserting, the new record is the only active one and GET finds it. |
| `AcademicCalendar.CalendarStore.constructor` | models/AcademicCalendar.js:15-18 | An empty collection has at most one active record, and it is the last. |
| `AcademicCalendar.CalendarStore.Current` | routes/academicCalendar.js:17-47 | None when no record is active or the newest active record has no file name. Otherwise that record with URL origin + "/uploads/" + name, and no active record is newer. |
| `AcademicCalendar.CalendarStore.Upload` | routes/academicCalendar.js:53-116 | A missing file is refused. A non-image is refused after removing its upload from disk, or is a server error when that removal throws. Otherwise all records are deactivated and every inactive record's image is reclaimed. On success the new record is appended, active, with the upload's fields. On a failed removal it is a server error with the records left deactivated. At most the last record is ever active. |
| `AcademicCalendar.CalendarStore.Reclaim` | routes/academicCalendar.js:77-82 | The loop's outcome, the disk left and the paths removed are those of the sweep over the records. |

## Left out

- Authentication and role middleware (`auth`, `principalOnly`). The routes are modelled as called by an already-authenticated caller. Principal-only routes take no role check.
- The multipart middleware, its storage naming and its directories. An upload arrives as its file name, original name, path, size and MIME type. The module-level directory creation in `utils/scheduleHelpers.js:81-99` is not modelled.
- `populate`, `toObject` and the JSON envelopes (`success`, `message`). The model returns the documents themselves and the error kind.
- Database and network failures. These are the catch-all 500 paths. Only the server errors the code itself provokes are modelled: a schema rejection on save, and a removal that throws.
- `routes/schedules.js:81-99` (GET /teachers): a plain user query with no logic of its own.
- The user schema (`models/User.js`) is not part of this model. Only the fields the core reads and writes are modelled.
- Timestamps are the `now` parameter. `updatedAt` on schedules and calendars is not modelled, because nothing in the core reads it.
- Concurrency. Each request runs alone, so the race between the conflict check and the save is not modelled.
- Mongo sort order among equal keys is left open by the database. The model fixes one order:
  - Listing: entries of one period keep store order.
  - Grouped folders: among equal `createdAt` the folder later in store order is kept, because the loop's assignment replaces on a tie.
  - By-type view and calendar GET: among equal timestamps the earliest in store order is taken.
- `ScheduleHelpers.CurrentPeriodByMinutes` and `ScheduleHelpers.NextPeriodByMinutes`: the clock is passed in as hours and minutes instead of being read with `new Date()`.
- `Schedules.ScheduleStore.Download`: the day sort `{day: 1}` is alphabetical. Only the relative order of entries for the same period and day matters to the grid, which the model takes in store order. The CSV serialisation of the rows is not modelled.
- `Folders.FolderStore.Download`: `res.download` streaming is not modelled. A failed recent-files update is the `recencyFails` flag, and then the account stays unchanged.
- `Folders.FolderStore.Delete`: a removal from disk that throws is the `unlinkFails` flag. It stays a flag and the disk itself is not updated.
- `Folders.FolderStore.GetGrouped` and `Folders.FolderStore.Download`: they do not require any invariant of the user collection. An unknown caller id leaves it unchanged, as `findByIdAndUpdate` on a missing id does.
- Reordering of request-body fields and the express-validator error list. A failed validation is one `ValidationFailed`.
- File ids, folder ids and schedule ids come from one counter per store, not ObjectIds. An unknown id is an id that no document has, which the routes answer with 404.
- `ScheduleHelpers.FillData` and `ScheduleHelpers.GenerateScheduleTable`: periods and days that name built-in object members (`toString`, `constructor`, `hasOwnProperty`, `__proto__` and the like) are treated as ordinary keys. In the code, `table.data` is a plain object and the guard at `utils/scheduleHelpers.js:34` only tests truthiness. So an entry whose period names an inherited member is not skipped: line 35 writes its day onto that shared built-in, which for `__proto__` is `Object.prototype` itself. A day `__proto__` under a slot key runs the prototype setter instead of adding a cell. The model skips the first case and adds a plain cell in the second. Stored schedules cannot carry such periods or days, because the schema's enums accept only `period1` to `period9` and the five weekdays (`ScheduleModel.ParsePeriod`, `ScheduleModel.ParseDay`); only a caller passing other objects could reach these paths.
- Malformed id strings. In the code, a string that is not a valid ObjectId makes `find`, `findById`, `findByIdAndDelete` or `findOne` (with a `teacherId` in the query) throw a cast error, and the route's catch answers 500, not 404. This affects `routes/schedules.js:42`, `routes/schedules.js:124`, `routes/schedules.js:190`, `routes/schedules.js:242`, `routes/schedules.js:298`, `routes/folders.js:28`, `routes/folders.js:103`, `routes/folders.js:166`, `routes/folders.js:236` and `routes/folders.js:297`. A principal's `?teacherId=` query reaches the `find` and `findOne(query)` sites with no earlier lookup. The model's ids are numbers, so this path does not arise.

## Findings

| source | as written | input that shows it | evidently intended | confidence | as-written member | corrected member |
|---|---|---|---|---|---|---|
| utils/scheduleHelpers.js:42-44 | `TIME_PERIODS[period] \|\| null` looks the key up on a plain object, so inherited `Object.prototype` members are found too | `getTimeSlotInfo("toString")` returns the inherited function instead of null | null for every key that is not one of the eleven slot keys | not executed | `ScheduleHelpers.GetTimeSlotInfoAsWritten` (shown by `ScheduleHelpers.InheritedKeyIsNotNull`) | `ScheduleHelpers.GetTimeSlotInfo` |
