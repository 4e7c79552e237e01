# Trading-card importer: classifiers, card store and import rule

This is a Dafny model of the core of `birdwell/trading-cards`. The program collects sports trading-card checklists. It reads the sport off a checklist page URL, reads the release year and set name off the downloaded spreadsheet's file name, and works out the brand of a set from its name. It keeps the sets and their cards in two database tables, `sets` and `cards`, and imports the cards of each checklist file at most once.

The model has three parts.

- **Classifiers** (`Text`, `Brands`, `SetNames`, `Sports`).
  - `getBrand`, `normalizeBrand`, `getSetName` and `getSport` are written over `seq<char>`.
  - Each regular expression is an explicit matcher.
  - The brand patterns are data: a `Pattern` is a list of words, `\s+` runs and optional words. The greedy matcher `MatchEnd` is proved sound and complete against the reference meaning `Spells`.
  - `getBrand` is a method with the source's loop. It is proved equal to the function `Brand`, and the lemmas are about `Brand`.
  - The unit-test vectors are proved as lemmas in `BrandExamples`, `SetNameExamples` and `SportExamples`.
- **Card store** (`Records`, `CardService`, `LegacyCardService`).
  - `TradingCardService` is a class. Its fields `sets` and `cards` are the two tables in row order.
  - Inserts, updates and deletes are methods that reassign the fields. Queries are functions of the fields.
  - Row ids follow SQLite's rule for an integer primary key: one more than the largest id present, and 1 for an empty table.
  - `Valid()` says that the ids are positive and increase along each table. Every method keeps it.
  - `Linked()` says that every card's `setId` names a stored set. The methods keep it whenever their input refers to stored sets.
  - The older copy of the service in `src/` is `LegacyCardService`.
- **Import-once rule** (`CardImport`, `LegacyCardImport`).
  - `createCards` is a method over the store.
  - If a set already has the file name as its source file, the result is `[]` and nothing changes.
  - Otherwise exactly one set is added, named by `getSetName`, and every card is stored stamped with the new set's id.

Inputs the source reads from its environment are parameters. The current year of the last `getSetName` fallback is `currentYear`.

Where the source trees disagree, the model follows the code.

- The `getSetName` unit test imports `src/utils/get-set-name.ts`; src/utils/get-set-name.ts is not part of this model. The model uses `server/utils/get-set-name.ts`, including for the older `createCards`.
- The older `cards.create` has no guard for an empty list. The ORM refuses an empty insert, so the older insert and import fail in that case.
- `server/tests/delete-card.test.ts` expects `ownedCards` in the statistics and a `cards.delete`. Neither exists in `server/db/service.ts`, so neither is modelled.

## Model

| member | source | states |
|---|---|---|
| Brands.GetBrand | server/utils/get-brand.ts:6-89 | `getBrand` returns `Brand(setName)`: the first pattern in list order that matches, else the year-skipping two-word heuristic |
| Brands.BrandBy | server/utils/get-brand.ts:54-88 | the loop over the patterns with early return, the `words.shift()` of a year word and the keyword checks compute `BrandFrom(ps, setName)` for any pattern list |
| Brands.MatchEndSound | server/utils/get-brand.ts:10-51 | what the greedy matcher consumes is an instance of the pattern (`Spells`) |
| Brands.MatchEndComplete | server/utils/get-brand.ts:10-51 | any prefix that is an instance of a well-formed pattern is exactly what the matcher consumes, so greedy `\s+` and the optional `NBA\s+` group lose no match |
| Brands.BrandPatternsShaped | server/utils/get-brand.ts:8-52 | all 30 patterns are well formed and begin and end with a letter |
| Brands.FirstMatchFrom | server/utils/get-brand.ts:55-60 | the index found matches, and every earlier pattern fails to match |
| Brands.BrandOfMatch | server/utils/get-brand.ts:55-58 | on a match, the brand is the matched prefix of the name with its own casing, no other prefix spells that pattern, and no earlier pattern spells any prefix |
| Brands.BrandNonEmpty | server/utils/get-brand.ts:55-88 | the brand is empty exactly when the set name is empty |
| Brands.NoMatchWithoutLetter | server/utils/get-brand.ts:10-51 | a name that does not begin with a letter matches no pattern |
| Brands.YearWordSkipped | server/utils/get-brand.ts:64-69 | `YEAR rest` matches no pattern, and the heuristic sees exactly the words of `rest` |
| Brands.FallbackChoice | server/utils/get-brand.ts:72-88 | two words exactly when the lower-cased second word is not a non-brand word; otherwise the first word, or the whole name when that word is empty |
| Brands.NormalizeBrandIsTitledWords | server/utils/get-brand.ts:96-104 | `normalizeBrand` is the title-cased words of the input joined by single blanks |
| Brands.NormalizeBrandShape | server/utils/get-brand.ts:97-103 | the result has no outer white space and no white-space runs: trimming and collapsing it changes nothing, and each word is in title case |
| Brands.NormalizeBrandIdempotent | server/utils/get-brand.ts:96-104 | normalising twice is the same as normalising once |
| Brands.NormalizeBrandByWords | server/utils/get-brand.ts:97-99 | two brands with the same words normalise alike |
| Brands.TitleWord | server/utils/get-brand.ts:100-102 | a lower-cased, capitalised word is in title case, and lower-casing it gives back the lower-cased word |
| BrandExamples.BrandToppsChrome | server/tests/get-brand.test.ts:18 | "Topps Chrome" gives "Topps Chrome", from the tenth pattern (index 9) and not the plain `Topps` one that comes later |
| BrandExamples.BrandToppsStadiumClub | server/tests/get-brand.test.ts:19 | "Topps Stadium Club" gives "Topps Stadium Club", from the eleventh pattern (index 10), after the Panini patterns and `Topps Chrome` fail |
| BrandExamples.BrandKeepsCase | server/tests/get-brand.test.ts:24 | "PANINI PRIZM" gives "PANINI PRIZM", with the input's case kept |
| BrandExamples.BrandSeason | server/tests/get-brand.test.ts:29 | "2024-25 Panini Prizm Basketball" gives "Panini Prizm" |
| BrandExamples.BrandUnknown | server/tests/get-brand.test.ts:35 | "Unknown Brand Name" gives "Unknown Brand" |
| BrandExamples.NormalizeUpperCase | server/tests/get-brand.test.ts:42 | "DONRUSS OPTIC" normalises to "Donruss Optic" |
| BrandExamples.NormalizePadded | server/tests/get-brand.test.ts:43 | "  Topps   Chrome  " normalises to "Topps Chrome" |
| SetNames.BaseName | server/utils/get-set-name.ts:15 | the base name contains no `/` |
| SetNames.BaseNameOfFile | server/utils/get-set-name.ts:15 | `stem.ext` has base name `stem` |
| SetNames.BaseNameIgnoresDirectory | server/utils/get-set-name.ts:15 | a directory in front of a file name without `/` does not change the base name |
| SetNames.ChecklistSplitAt | server/utils/get-set-name.ts:20-21 | the lazy `(.+?)` ends at `m` exactly when the text from `m` on is `-(Basketball\|Football)-Checklist` in some mix of cases |
| SetNames.RangeMatch | server/utils/get-set-name.ts:20 | a year-range match captures the first seven characters, of the form DDDD-DD |
| SetNames.SingleMatch | server/utils/get-set-name.ts:21 | a single-year match captures the first four characters, all digits |
| SetNames.LazyEnd | server/utils/get-set-name.ts:42 | the shortest non-empty group after which the rest is a run of `-Basketball`, `-Football` and `-Checklist` tokens |
| SetNames.FallbackAfter | server/utils/get-set-name.ts:42 | after a year, the fallback matches exactly when text follows the year; the optional `-` is taken when more text follows it; the name is the shortest non-empty text after which the rest is only `-Basketball`, `-Football` or `-Checklist` tokens (any case), so trailing tokens are stripped |
| SetNames.FallbackAccepts | server/utils/get-set-name.ts:42-45 | the fallback pattern accepts exactly the base names that begin with four digits and go on after them |
| SetNames.NameHasNoHyphen | server/utils/get-set-name.ts:23-57 | the name returned never contains `-` |
| SetNames.YearOfSetName | server/utils/get-set-name.ts:20-57 | a base name that begins with four digits and continues gets a year of the form DDDD or DDDD-DD taken from its front; any other gets the current year and the whole base name with spaces for hyphens |
| SetNames.RangeBeforeSingle | server/utils/get-set-name.ts:20-39 | every year-range name also matches the single-year pattern, so trying the range first is what keeps the season |
| SetNames.RangeRoundTrip | server/utils/get-set-name.ts:20-30 | `SEASON-name-Sport-Checklist.ext` parses back to the season and the name with spaces for hyphens |
| SetNames.SingleRoundTrip | server/utils/get-set-name.ts:32-39 | `YEAR-name-Sport-Checklist.ext` parses back to the year and the name, unless the name begins like the second half of a season |
| SetNameExamples.SeasonChecklist | tests/get-set-name.test.ts:4-8 | the season, year "2024-25" and name "Panini NBA Hoops" |
| SetNameExamples.YearChecklist | tests/get-set-name.test.ts:10-14 | year "2024" and name "Panini Prizm" |
| SetNameExamples.OtherBrandChecklist | tests/get-set-name.test.ts:16-20 | year "2023" and name "Topps Chrome" |
| SetNameExamples.OtherSeasonChecklist | tests/get-set-name.test.ts:22-26 | year "2023-24" and name "Upper Deck Series 1" |
| SetNameExamples.FallbackName | tests/get-set-name.test.ts:28-32 | without `-Checklist` the fallback removes the trailing `-Football`: year "2024", name "Panini Donruss" |
| SetNameExamples.ChecklistInDirectory | tests/get-set-name.test.ts:34-38 | the path `./spreadsheet-downloads/...` parses like the bare file name |
| SetNameExamples.UnrecognisedName | tests/get-set-name.test.ts:40-44 | "random-file-name.xlsx" gets the current year and the name "random file name" |
| Sports.BasketballIffKeyword | src/utils/get-sport.ts:9-13 | Basketball exactly when "basketball" occurs in the URL in some mix of cases, which also settles a URL with both keywords |
| Sports.FootballOtherwise | src/utils/get-sport.ts:15-20 | every other URL, with "football" or without a keyword, gives Football |
| Sports.SportIgnoresCase | src/utils/get-sport.ts:9 | URLs that differ only in the case of ASCII letters have the same sport |
| SportExamples.FootballPage | tests/get-sport.test.ts:5-9 | the Beckett football page gives Football |
| SportExamples.BasketballPage | tests/get-sport.test.ts:11-15 | the Beckett basketball page gives Basketball |
| SportExamples.FootballUpperCase | tests/get-sport.test.ts:18 | "FOOTBALL" in upper case gives Football |
| SportExamples.BasketballUpperCase | tests/get-sport.test.ts:19-21 | "BASKETBALL" in upper case gives Basketball |
| SportExamples.BothKeywords | tests/get-sport.test.ts:24-27 | with both keywords present, Basketball wins |
| SportExamples.NoKeyword | tests/get-sport.test.ts:29-32 | a URL with neither keyword defaults to Football |
| Records.NextId | server/db/service.ts:16 | the next row id is positive and above every id present |
| Records.NextIdLeast | server/db/service.ts:16 | the next row id is 1 or one more than an id present |
| Records.Distinct | server/db/service.ts:178-179 | `[...new Set(xs)]` is duplicate-free, has the same elements as `xs`, and is no longer |
| Records.DistinctOrder | server/db/service.ts:178-179 | the distinct elements come in the order they are first met in `xs` |
| Records.DistinctCount | server/db/service.ts:184-185 | its length is the number of different values |
| Records.StatsOf | server/db/service.ts:181-188 | the statistics record: card count, distinct types and players, counts, and a preview of at most 10 players that is a prefix of the distinct players |
| Records.SetsWithoutIncrease | server/db/service.ts:59 | deleting a set row keeps the set ids increasing |
| CardService.TradingCardService.CreateSet | server/db/service.ts:15-18 | `sets.create` appends the set under the next free id, which exceeds every stored id; cards unchanged |
| CardService.TradingCardService.FindBySourceFile | server/db/service.ts:20-28 | a set with that source file, present exactly when one is stored |
| CardService.TradingCardService.FindById | server/db/service.ts:30-33 | the set with that id, present exactly when one is stored |
| CardService.TradingCardService.DeleteSet | server/db/service.ts:53-64 | removes every card of the set and then the set, keeps every other row in order, and answers true even for an absent id |
| CardService.DeletePartitions | server/db/service.ts:56 | the cards deleted plus the cards kept are the old cards, none lost or duplicated |
| CardService.TradingCardService.CreateCards | server/db/service.ts:69-74 | `[]` returns `[]` and stores nothing; otherwise each card is appended with its own set id and a fresh positive id above every stored id |
| CardService.TradingCardService.CreateSingle | server/db/service.ts:76-79 | `cards.createSingle` appends one card under the next free id; every other row stays as it was; a card that names a stored set keeps every card linked to a set |
| CardService.TradingCardService.FindCardById | server/db/service.ts:81-84 | the card with that id, present exactly when one is stored |
| CardService.TradingCardService.FindBySetId | server/db/service.ts:86-88 | exactly the stored cards of the set, in id order |
| CardService.TradingCardService.UpdateOwnership | server/db/service.ts:148-155 | only the `isOwned` field of the card with that id changes; answers the updated card, or nothing when there is no such card |
| CardService.SetOwnedFinds | server/db/service.ts:148-155 | `returning()` after the update gives the old card with the new ownership, exactly when that card existed |
| CardService.TradingCardService.FindCardsInSet | server/db/service.ts:159-161 | the cards of the set; none for an unknown set when every card refers to a stored set |
| CardService.TradingCardService.GetSetStats | server/db/service.ts:172-189 | null exactly when the set is missing; otherwise the set, the card count, the distinct types and players in first-encounter order with their counts, and the first 10 players |
| CardService.TradingCardService.TotalCardsCounts | server/db/service.ts:172-188 | `totalCards` is the number of stored cards with that set id |
| CardService.FreshSetCards | server/core/create-cards.ts:53-73 | right after a new set is created, its cards are exactly the ones stamped with its id |
| CardImport.FileNameIsLastSegment | server/core/create-cards.ts:40 | the file name is the text after the last `/`, or the whole path when that text is empty |
| CardImport.StampRoundTrip | server/core/create-cards.ts:64-67 | stamping keeps the number, player and type of every card, in input order: dropping the set id gives back the input |
| CardImport.StampForSet | server/core/create-cards.ts:64-67 | every stamped card carries the new set's id and leaves `isOwned` to the column default |
| CardImport.StampAppend | server/core/create-cards.ts:64-67 | stamping a concatenation stamps each part in turn |
| CardImport.CreateCards | server/core/create-cards.ts:35-75 | if the source file is known: answers `[]` and changes nothing. Otherwise: one set, from `getSetName`, with an id above every stored set; the stamped cards appended; the answer is the new set's cards, equal to the stamped cards when every card refers to a stored set |
| CardImport.ImportTwice | server/core/create-cards.ts:41-49 | a second import of the same file answers `[]`; the first adds one set and one row per card |
| LegacyCardService.TradingCardService.CreateSet | src/db/service.ts:8-11 | `sets.create` appends the set under the next free id |
| LegacyCardService.TradingCardService.FindBySourceFile | src/db/service.ts:13-19 | a set with that source file, present exactly when one is stored |
| LegacyCardService.TradingCardService.FindById | src/db/service.ts:21-24 | the set with that id, present exactly when one is stored |
| LegacyCardService.TradingCardService.CreateCards | src/db/service.ts:44-46 | fails exactly on an empty list and then stores nothing; otherwise appends every card with its given set id and fresh ids, and returns them all |
| LegacyCardService.TradingCardService.FindBySetId | src/db/service.ts:58-60 | exactly the stored cards of the set, in increasing id order with no repeats |
| LegacyCardService.TradingCardService.FindBySetIdWithSet | src/db/service.ts:62-69 | the cards of the set in order, each joined with that set |
| LegacyCardService.TradingCardService.FindCardsInSet | src/db/service.ts:110-112 | the cards of the set; none for an unknown set when every card refers to a stored set |
| LegacyCardService.TradingCardService.GetSetStats | src/db/service.ts:123-140 | the same statistics as the server copy: null exactly when the set is missing, counts, first-encounter order, and a preview of at most 10 players |
| LegacyCardImport.CreateCards | src/core/create-cards.ts:6-44 | if the source file is known: answers `[]` and changes nothing. Otherwise one set with the given sport string; an empty card list fails the insert; any other list is stored stamped and answered as the new set's cards, each joined with that set |

## Left out

- Regular expressions: `.` is modelled as any character, including line terminators, which JavaScript's `.` does not match. A file name with a line break in it is out of scope.
- Case mapping: `toLowerCase`, `toUpperCase` and the `i` flag are modelled on ASCII letters only. Unicode case mapping is not modelled.
- The query methods built on SQL `LIKE` are not modelled: `sets.findByName`, `cards.findByPlayer`, `findPlayerCardsInSet` and `searchCards`. Their meaning depends on SQLite's case folding and `%` wildcards.
- The plain equality queries are not modelled: `sets.findAll`, `sets.findByYear`, `cards.findByPlayerExact`, `cards.findByCardType`, `cards.findByCardNumber` and `cards.findAll`. Each is a filter of one table like `FindBySetId`, and the import rule does not use them.
- The server's `cards.findBySetIdWithSet` and `cards.findAllWithSets` are not modelled, because the server's import rule does not call them. The older tree's `findBySetIdWithSet` is modelled.
- The older tree's `cards.createSingle` and `cards.findById` are not modelled. They are the same as the server's `CreateSingle` and `FindCardById`.
- `ownedCards` and `cards.delete` are not modelled. `server/tests/delete-card.test.ts` expects them, but `server/db/service.ts` does not implement them.
- Foreign keys are not enforced. `Linked()` states the property instead, and each method keeps it under the stated condition.
- The database connection, asynchronous calls and thrown database errors are not modelled. Each call is one atomic step on the two sequences. The older empty insert is the one error that is modelled.
- The error text in `LegacyCardService.EmptyInsert` is a stand-in for the ORM's message. The ORM is not part of this model.
- An omitted `isOwned` is stored as `false`. The server schema that would hold this column default is not part of this model. The only evidence for it is that `isOwned` is optional when a card is created (server/db/types.ts:14) and a plain boolean on a stored card (server/db/types.ts:31).
- The logger calls in `createCards` are not modelled.
- `new Date().getFullYear()` is the parameter `currentYear`.
- The React client, the tRPC router and server, the Playwright scraper, the file download, the spreadsheet reader and the LLM call are not modelled. They are UI, I/O or foreign calls.
- SetNames.SingleRoundTrip: demands that the set name does not begin with `DD-` and more text. Such a name makes the year-range pattern match first, as the source does.
