# bird-photos: a Dafny model of the photo database and its maintenance scripts

bird-photos is a small photo gallery. An Express server answers species
searches and edits a SQLite database `birds.db`. In that database a photo
(`bird_photos`) is linked to species (`bird_species`) through
`bird_photo_species`. Three scripts maintain the database:

- `process_images.py` keeps the photo table in step with the image folder.
- `populate_species.js` fills in the scientific name, family, order and status of species rows from the eBird taxonomy.
- `update_scientific_names.js` fills in missing scientific names from the same taxonomy.

The model has these parts:

- `Tables`: the database as a value (`Tables`) and as the mutable connection object `BirdDb`. Tables are sequences of rows in rowid order and the link table is a set. It also holds the `sqlite_sequence` counters that hand out AUTOINCREMENT ids, and the invariant `Valid`: species ids and photo ids are unique and ascend in table order, no id is above its table's counter, and no link names a species id above the species counter.
- `Suggestions`: `GET /api/species-suggestions`. This is a class holding `allSpecies` and `speciesCache`; its handler is proved against the pure transition `SuggestStep`.
- `Server`: `POST /api/update-species`, `/api/remove-species` and `/api/update-location`. Each one is a module-level method that takes the connection `db: BirdDb` and is proved against a pure step function on `Tables`.
- `Taxonomy`: the eBird record and the case-insensitive `find` both scripts use.
- `PopulateSpecies`: the `run` loop and `updateSpeciesInDB`.
- `UpdateScientificNames`: `getBirdDetails` and the `updateScientificNames` loop.
- `ExifDate`: the `strptime`/`strftime` date conversion of `extract_metadata`.
- `ProcessImages`: `sync_database_with_folder`, `insert_new_images` and `process_images`.
- `Ascii` and `Wrappers`: lower-casing, prefix and suffix tests, and `Option`.

Each loop is a `while` or `for` loop over the `BirdDb` fields. Its `ensures` clause ties the new state to a pure "pass" function of the old state. The lemmas about those pass functions state what the scripts promise.

Inputs that come from outside the program are parameters:

- the folder listing (`None` when the folder does not exist);
- what `extract_metadata` reads from one file (`ExifInfo`: the raw EXIF date tag, the GPS position, the geocoded city);
- the taxonomy response of each script (`None` when the fetch fails);
- the request body fields (`None` when absent).

A request field is an optional number (`photo_id`) or an optional string (`common_name`, `location`). Following JavaScript truthiness, a missing field, `0` or `""` counts as missing.

Where the code's behaviour is easy to mistake, the model follows the code:

- Species lookup by name is an exact, case-sensitive `=`, and `common_name` has no UNIQUE constraint. So "egret" becomes a second species beside "Egret" (`UpdateSpeciesIsCaseSensitive`).
- Suggestions are prefix matches only: the first five in list order, with no substring matching and no sorting.
- An unknown species in remove-species is answered with status 400 and "Species not found".
- `common_name` may be NULL. In `populate_species.js`, calling `toLowerCase` on it throws a TypeError whenever the taxonomy is non-empty. The surrounding `catch` ends the whole run (`Throws`, `StopIndex`). In `getBirdDetails` the same error is caught and gives `null`.
- `image_filename` may be NULL. The Python set of stored names then holds `None`, and `DELETE ... WHERE image_filename = NULL` deletes nothing, so such rows survive every sync.
- `create_table.py` defines no `family`, `order_name` or `status` columns, yet the scripts write them. The model has them.

## Model

| member | source | states |
|---|---|---|
| Ascii.Lower | server.js:99 | lower-casing keeps the length and maps each ASCII capital to its small letter, every other character to itself |
| Tables.BirdDb.constructor | server.js:11 | a connection starts on a given database state |
| Tables.FindSpeciesByName | server.js:137 | the lookup finds the first row whose `common_name` equals the name exactly, or reports that no row has it; a NULL name never matches |
| Tables.FindSpeciesByNameAppend | server.js:137-161 | appending a species row keeps every answer already found; a name not found before is now found at the new row exactly when the row carries it |
| Suggestions.PrefixMatches | server.js:104-105 | the filter returns names of the list whose lower-cased form starts with the lower-cased query |
| Suggestions.Suggestions | server.js:104-106 | an answer never holds more than five names |
| Suggestions.PrefixMatchesMembership | server.js:105 | a name is among the matches if and only if it is in the list and matches |
| Suggestions.PrefixMatchesConcat | server.js:104-105 | filtering keeps list order: the matches of a concatenation are the concatenated matches |
| Suggestions.SuggestionRank | server.js:104-106 | every matching name with fewer than five matches before it is returned, at the position equal to that count |
| Suggestions.MatchOrigin | server.js:104-105 | the k-th match is a matching list entry with exactly k matches before it |
| Suggestions.SuggestionsAreFirstMatches | server.js:104-106 | the answer has min(5, number of matches) names and position j holds the name with exactly j matches before it |
| Suggestions.LaterNamesDoNotDisplace | server.js:104-106 | once five names match, names further down the list never change the answer |
| Suggestions.SuggestStep | server.js:93-110 | the cache transition of one request; no contract of its own: SuggestStepRecords, CachedAnswerRepeats, CacheIsTransparent and StaleEmptyEntry state its effect |
| Suggestions.SuggestStepRecords | server.js:93-110 | a missing or one-character query answers `[]` and leaves the cache alone; otherwise afterwards the lower-cased query maps to the answer and every other entry is unchanged; a hit answers the cached list and changes nothing; a miss answers the first five matches of the current list, whatever the cache held |
| Suggestions.ReplayCache | server.js:93-110 | the cache after a sequence of requests, each with the species list of its moment; no contract of its own: CacheEntriesPersist and CachedAnswerRepeats state its effect |
| Suggestions.CacheEntriesPersist | server.js:100-108 | no sequence of requests removes or changes an entry already cached |
| Suggestions.CachedAnswerRepeats | server.js:99-102 | once a query has been answered, a later query with the same lower-cased form, after any requests in between, gets the same answer and changes nothing, even if the species list has changed |
| Suggestions.CacheIsTransparent | server.js:99-109 | while the list stays the same, a cache whose entries all agree with the list still agrees after a request, and the answer equals the uncached one |
| Suggestions.StaleEmptyEntry | server.js:100-108 | an empty answer cached before the list was loaded is a hit and keeps answering `[]` afterwards, though the loaded list matches |
| Suggestions.SuggestionService.constructor | server.js:18-19 | the server starts with an empty species list and an empty cache |
| Suggestions.SuggestionService.ReplaceSpeciesList | server.js:39-46 | loading sets the species list and nothing else |
| Suggestions.SuggestionService.SpeciesSuggestions | server.js:93-110 | the handler's answer and new cache are the cache transition of the old cache, the current list and the query |
| Server.NewSpeciesRow | server.js:155 | the inserted species row: the name and NULL other columns; UpdateSpeciesNewName states that this is the row appended |
| Server.UpdateSpeciesStep | server.js:130-173 | the update-species step; no contract of its own: UpdateSpeciesKnownName, UpdateSpeciesNewName, UpdateSpeciesLinksName, UpdateSpeciesPreservesValid and UpdateSpeciesIdempotent state its effect |
| Server.RemoveSpeciesStep | server.js:176-202 | the remove-species step; no contract of its own: RemoveSpeciesEffect and RemoveUndoesUpdate state its effect |
| Server.SetLocation | server.js:119 | the UPDATE keeps the number of photo rows; UpdateLocationEffect states which rows and columns change |
| Server.UpdateLocationStep | server.js:113-127 | the update-location step; no contract of its own: UpdateLocationEffect and UpdateLocationIdempotent state its effect |
| Server.UpdateSpecies | server.js:130-173 | the handler's reply and new database are the update-species step of the old database; the database invariant is kept |
| Server.RemoveSpecies | server.js:176-202 | the handler's reply and new database are the remove-species step of the old database |
| Server.UpdateLocation | server.js:113-127 | the handler's reply and new database are the update-location step of the old database |
| Server.MissingFieldsChangeNothing | server.js:113-181 | in all three handlers a missing, zero or empty required field gives 400 "Missing required fields" and no change |
| Server.UpdateSpeciesPreservesValid | server.js:153-169 | update-species keeps ids unique, ascending and within the AUTOINCREMENT counter; the inserted species id is fresh |
| Server.UpdateSpeciesLinksName | server.js:137-169 | afterwards the name resolves to a species row linked to the photo; the species table gains at most one row at the end, exactly one link pair may be added, and photos are untouched |
| Server.UpdateSpeciesKnownName | server.js:137-152 | for a name a row already has, the reply is "Species added successfully!", the species table, its counter and the photos stay as they were, and the photo is linked to the id of the first row with that name |
| Server.UpdateSpeciesNewName | server.js:153-169 | for an unknown name exactly one row with a fresh id one past the species counter, the name and NULL other columns is appended, the counter becomes that id, the reply names it, exactly one new link is added, and photos and their counter are untouched |
| Server.UpdateSpeciesIdempotent | server.js:143-152 | repeating update-species with the same fields changes nothing more (`INSERT OR IGNORE` on an existing pair) |
| Server.UpdateSpeciesIsCaseSensitive | server.js:137 | with "Egret" stored, "egret" is inserted as a second species and linked |
| Server.RemoveSpeciesEffect | server.js:183-200 | remove-species never touches species or photos; for an unknown name it gives 400 "Species not found" with no change, otherwise it removes exactly that one pair and reports success even if the pair was absent |
| Server.RemoveSpeciesPreservesValid | server.js:183-200 | remove-species keeps the database invariant |
| Server.RemoveUndoesUpdate | server.js:130-202 | remove-species after update-species with the same fields restores the link table, provided the pair was not already there |
| Server.UpdateLocationEffect | server.js:119-125 | update-location changes only the `location` column, only on rows with that id, at most one row, leaves the other tables and both counters alone, and succeeds even if no row has the id |
| Server.UpdateLocationPreservesValid | server.js:113-127 | update-location keeps the database invariant |
| Server.UpdateLocationIdempotent | server.js:119 | setting the same location twice equals setting it once |
| Taxonomy.FirstMatch | populate_species.js:17 | `find` gives the first record whose lower-cased `comName` equals the lower-cased name, or reports that none does |
| Taxonomy.FirstMatchIgnoresCase | populate_species.js:17 | names with the same lower-cased form find the same record |
| PopulateSpecies.Incomplete | populate_species.js:16 | a row is a candidate when its scientific name or family is NULL or empty; PopulatePassEffect states that only candidates change |
| PopulateSpecies.Throws | populate_species.js:17 | a candidate with a NULL common name throws when the taxonomy is non-empty; StopIndex gives the first such row, PopulatePassEffect states that it and every later row are left as they were, and Run reports no completion |
| PopulateSpecies.Populated | populate_species.js:16-21 | an iteration never changes a row's id or common name |
| PopulateSpecies.StopIndex | populate_species.js:15-27 | the run stops at the first row that throws (incomplete, NULL name, non-empty taxonomy); no earlier row throws |
| PopulateSpecies.PopulatePass | populate_species.js:15-23 | a run keeps the number of rows |
| PopulateSpecies.SetDetails | populate_species.js:52-64 | the UPDATE sets the four columns on the rows with that id and leaves every other row and the id and name as they were |
| PopulateSpecies.UpdateSpeciesInDB | populate_species.js:52-64 | the new database is the old one with exactly that UPDATE applied to the species table |
| PopulateSpecies.Run | populate_species.js:7-31 | a failed taxonomy fetch ends the run with no change and without completion; otherwise the method reports completion exactly when no row throws, the species table becomes the pass function's result, and nothing else changes |
| PopulateSpecies.PopulatePassEffect | populate_species.js:15-27 | ids and names are kept; complete rows, rows with a NULL name (which find no record when the taxonomy is empty), rows without a match and rows from the first throwing row on are untouched; an incomplete row before the stop takes scientific name, family, order and "Extinct"/"Not Extinct" from its first match |
| PopulateSpecies.PopulatedIdempotent | populate_species.js:16-21 | populating a row twice equals populating it once, and it throws afterwards exactly when it threw before |
| PopulateSpecies.PopulatePassPreservesValid | populate_species.js:15-23 | a run keeps the database invariant |
| PopulateSpecies.PopulatePassIdempotent | populate_species.js:7-31 | a second run with the same taxonomy leaves the table as the first left it |
| UpdateScientificNames.GetBirdDetails | update_scientific_names.js:6-17 | a name is only ever returned when the fetch succeeded and the common name is not NULL |
| UpdateScientificNames.GetBirdDetailsFirstMatch | update_scientific_names.js:8-12 | the result is the `sciName` of the first record whose lower-cased name equals the lower-cased common name; null means no record matches |
| UpdateScientificNames.GetBirdDetailsFailures | update_scientific_names.js:13-16 | a failed fetch or a NULL common name (whose `toLowerCase` throws) gives null |
| UpdateScientificNames.LacksScientificName | update_scientific_names.js:20 | the WHERE clause `scientific_name IS NULL OR scientific_name = ''`; SelectLacking and ScientificNamePassEffect state its use |
| UpdateScientificNames.SelectLacking | update_scientific_names.js:20 | the query selects exactly the rows whose scientific name is NULL or empty |
| UpdateScientificNames.Renamed | update_scientific_names.js:20-38 | what the pass makes of one row; no contract of its own: ScientificNamePassEffect and ScientificNamePassIdempotent state its effect |
| UpdateScientificNames.ScientificNamePass | update_scientific_names.js:19-41 | a run keeps the number of rows |
| UpdateScientificNames.SetScientificName | update_scientific_names.js:29 | the UPDATE sets the scientific name on the rows with that id and changes nothing else |
| UpdateScientificNames.SetScientificNameInDB | update_scientific_names.js:29 | the new database is the old one with exactly that UPDATE applied to the species table |
| UpdateScientificNames.UpdateScientificNames | update_scientific_names.js:19-41 | the species table becomes the pass function's result, and nothing else changes |
| UpdateScientificNames.ScientificNamePassEffect | update_scientific_names.js:20-38 | only the scientific name can change; it changes exactly when it was NULL or empty and the lookup returned a non-empty name, which it then holds |
| UpdateScientificNames.ScientificNamePassPreservesValid | update_scientific_names.js:19-41 | a run keeps the database invariant |
| UpdateScientificNames.ScientificNamePassIdempotent | update_scientific_names.js:19-41 | a second run with the same taxonomy changes nothing |
| UpdateScientificNames.DetailsIgnoreCase | update_scientific_names.js:10 | "emu" finds the record "Emu" |
| ExifDate.DigitPrefix | process_images.py:26 | the digit run a field is read from is all digits and is followed by a non-digit |
| ExifDate.SpacePrefix | process_images.py:26 | the blank is the whole run of whitespace at that point |
| ExifDate.StrptimeFields | process_images.py:26 | the `strptime` match before the date is built; no contract of its own: ParseLayoutFields, ParseShortFields, ConvertDateRejectsDay and ConvertDateRejectsLeapSecond state what it reads |
| ExifDate.IsValid | process_images.py:26 | the range checks of the `datetime` constructor: year 1-9999, month 1-12, day within its month (leap years by the Gregorian rule), hour, minute and second within a day; ParseExifDate and ConvertDateRejectsDay/LeapSecond state its use |
| ExifDate.ParseExifDate | process_images.py:26 | a parsed date is a real date: year 1-9999, day within its month, seconds below 60 |
| ExifDate.Layout | process_images.py:26 | the printed layout is 19 characters |
| ExifDate.ConvertDate | process_images.py:22-28 | an absent tag gives NULL; a stored date is 19 characters and is the `YYYY-MM-DD HH:MM:SS` layout of a valid date |
| ExifDate.ParseLayoutFields | process_images.py:26 | every field of a zero-padded `YYYY:MM:DD HH:MM:SS` text is read back, valid date or not |
| ExifDate.ParseExifLayout | process_images.py:26 | the EXIF layout of any valid date parses back to that date |
| ExifDate.ConvertExifLayout | process_images.py:22-28 | any valid date in the EXIF layout is stored as the same date in `YYYY-MM-DD HH:MM:SS` |
| ExifDate.ConvertDateRejectsDay | process_images.py:25-28 | 31 April matches the pattern but gives NULL |
| ExifDate.ConvertDateRejectsLeapSecond | process_images.py:25-28 | second 60 matches the pattern but gives NULL |
| ExifDate.TrailingTextRejected | process_images.py:25-28 | for every valid date, its EXIF layout followed by any further text gives NULL (unconverted data remains) |
| ExifDate.ParseShortFields | process_images.py:26 | one-digit month, hour, minute and second, a day written as a space and a digit, and a tab for the blank are all accepted |
| ExifDate.ParseShortLayout | process_images.py:26 | that short text of a date parses to the date |
| ExifDate.ConvertShortLayout | process_images.py:22-28 | the short text is stored zero-padded, the same as the EXIF layout of the same date |
| ProcessImages.IsImageFile | process_images.py:60 | the extension filter; no contract of its own: ImageFilterAccepts and ImageFilterRejects state what passes |
| ProcessImages.ImageFilterAccepts | process_images.py:60 | a name ending in `.jpg`, `.jpeg` or `.png` in any mix of cases passes the filter |
| ProcessImages.ImageFilterRejects | process_images.py:75 | a name whose last character is not `g` or `G` never passes |
| ProcessImages.WithoutNames | process_images.py:63-64 | the deletes keep exactly the rows whose filename is NULL or not deleted, and never add rows |
| ProcessImages.FolderImages | process_images.py:60 | `folder_images`: the `/images/` keys of the listing's image files; FolderImagesCons, SyncedRows and ProcessImagesMirrorsFolder state its use |
| ProcessImages.StoredImages | process_images.py:58-59 | `stored_images`: every `image_filename` value, NULL included; SyncDatabaseWithFolder walks it |
| ProcessImages.DeleteByFilename | process_images.py:64 | one DELETE; no contract of its own: with NULL it deletes nothing, otherwise the rows with that name go, as SyncDatabaseWithFolder's loop uses it |
| ProcessImages.Synced | process_images.py:58-64 | the photo table after sync; no contract of its own: SyncedRows states which rows survive |
| ProcessImages.WithoutNamesTwice | process_images.py:63-64 | deleting one set of names and then another equals deleting their union |
| ProcessImages.WithoutNamesKeepsIdsUnique | process_images.py:63-64 | deleting rows keeps photo ids unique |
| ProcessImages.WithoutNamesKeepsIdsAscending | process_images.py:63-64 | deleting rows keeps photo ids ascending in table order |
| ProcessImages.SyncDatabaseWithFolder | process_images.py:54-68 | in whatever order the set is walked, the photo table becomes the rows whose filename is NULL or an image of the folder, and nothing else changes |
| ProcessImages.SyncedRows | process_images.py:58-64 | a row survives sync if and only if its filename is NULL or is `/images/` plus an image file of the folder |
| ProcessImages.NewPhotoRow | process_images.py:82-90 | the inserted row has the new id and the `/images/` filename; an absent date tag gives a NULL date and a stored date is a valid date's dashed layout; without GPS the location is "Unknown" and both coordinates are NULL |
| ProcessImages.InsertOne | process_images.py:74-91 | one iteration; no contract of its own: InsertOneEffect states that it either changes nothing or appends the new row for an unstored image with the next id |
| ProcessImages.InsertOneEffect | process_images.py:74-91 | one iteration either leaves table and counter alone, or appends exactly the new photo row for an unstored image file with the next id and advances the counter; the stored names gain the image's key |
| ProcessImages.InsertPass | process_images.py:70-94 | the table and counter after the loop; no contract of its own: InsertPassEffect and InsertPassPreservesValid state its effect |
| ProcessImages.InsertNewImages | process_images.py:70-94 | the photo table and counter become the insert pass of the listing, and nothing else changes |
| ProcessImages.InsertPassEffect | process_images.py:74-91 | insert keeps every row and appends rows with consecutive fresh ids, one for each folder image not yet stored, with no two sharing a filename, each exactly the new row of a listed file with what `extract_metadata` read from it; afterwards the stored names are the old ones plus the folder's images |
| ProcessImages.InsertPassRows | process_images.py:77-90 | every appended row is the new row of one of the listed files: its `/images/` key, the date, location and coordinates extracted from that file |
| ProcessImages.InsertPassPreservesValid | process_images.py:87-90 | insert keeps photo ids unique, ascending and within the counter |
| ProcessImages.ProcessImages | process_images.py:96-103 | a missing folder changes nothing; otherwise sync then insert run on the same listing |
| ProcessImages.ProcessImagesMirrorsFolder | process_images.py:96-103 | after a run the non-NULL stored filenames are exactly the folder's images |
| ProcessImages.ProcessImagesPreservesValid | process_images.py:96-103 | both phases keep the database invariant |

## Left out

- I/O is not modelled: the HTTP transport and JSON encoding, `console` output, `print`, `fs` reads and writes of the species cache file, `os.listdir`, `os.path.exists`, and `time.sleep`. The listing, the folder's existence, the request fields and the taxonomy response are parameters; the preload step is only its assignment (`ReplaceSpeciesList`).
- Network calls to eBird and Nominatim are not modelled: each script's taxonomy response is one given value (`None` for a failed fetch), and the geocoded city is part of `ExifInfo`. Reverse geocoding with its three attempts on timeout is not modelled. If all three attempts time out, the city input is "Unknown".
- UpdateScientificNames.GetBirdDetails: `getBirdDetails` fetches the taxonomy again on every call. The model gives all calls one response, so it does not capture a fetch that fails for some rows and not others.
- `convert_to_decimal` and the GPS values are floating point and are not modelled. The position is given as two reals. A photo whose EXIF data has only one of latitude and longitude is not modelled.
- Database errors and the 500 replies they cause are not modelled, nor is the order in which non-awaited `db.run` callbacks finish. Statements are modelled as applied in program order.
- `GET /api/photos`, `GET /api/species-suggestions-ai`, the image URL rewriting, the front end, the Firebase scripts and `extract_metadata.py` are outside the core and are not part of this model.
- Suggestions.SuggestionService.SpeciesSuggestions: the cache is a map, so keys that a plain JavaScript object already inherits (`"constructor"`, `"__proto__"`) are not modelled. Nor are request values of other JSON types, such as an array-valued `query`.
- Lower-casing is ASCII only. Unicode case mapping, Unicode digits in `\d` and the non-ASCII whitespace that `\s` also matches (such as U+0085 and U+00A0) are not modelled.
- ProcessImages.InsertNewImages: a geocoder error other than a timeout, or a failure to open or read an image, escapes `extract_metadata` and `insert_new_images` before `conn.commit()`. The inserts of that pass are then lost, while the deletes the sync already committed stay. The model has no failing extraction, so InsertPassEffect and ProcessImagesMirrorsFolder describe only a pass in which every extraction returns.
- ExifDate.ConvertDate: `strftime("%Y")` output for years below 1000 is modelled as four zero-padded digits, which is what CPython 3.13 and later print on glibc. Earlier CPython releases pass `%Y` to glibc, which prints such years without padding; that output is not modelled.
- `sync_database_with_folder` and `insert_new_images` each list the folder. The model uses one listing for both, so a folder that changes between the two calls is not modelled.
- The databases are modelled as one. The scripts open different paths (`birds.db`, `/persistent/birds.db`, `./birds.db`).
- The `description` column of `bird_species` and the `species_id` column of `bird_photos` (create_table.py) are not part of the model's rows: no modelled operation reads or writes them.
- The link table's schema is not part of this model. Its pairs are taken to be unique, so it is a set. `Valid` also takes every link's species id to be at most the species counter, which is an assumption about the existing link table; Server.UpdateSpecies requires it so that the link to a new species is new.
- Request fields of other JSON types are not modelled: `false`, a string `photo_id` such as `"12"`, or a numeric `common_name` or `location`.
- `query.length` in JavaScript counts UTF-16 code units, while a Dafny string counts characters. A one-character query outside the Basic Multilingual Plane is short in the model, but JavaScript caches `[]` under it.
- Each request is one atomic step. Two update-species requests that interleave between the name lookup and the INSERT can each add the same new name; that race is not modelled.
