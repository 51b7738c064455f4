# xkcdbrowser sync engine, modelled in Dafny

xkcdbrowser is an iOS client that keeps a local Core Data copy of the xkcd archive. xkcd serves one JSON document per comic, at `https://xkcd.com/<n>/info.0.json`. This project models the client's sync engine and proves properties of it.

**What is modelled:**

- **`ComicManager.loadComicsIntoContext`** reads the smallest and the largest stored comic numbers. It walks down from below the oldest comic to comic 1, probes the latest comic, then walks up from above the newest comic to the latest one. On an empty store it walks from the latest comic down to 1.
- **`addComicToBatch`** passes every fetched comic through a serial accumulator. The accumulator holds a pending list and a process-wide counter. It uses a threshold of 50, a cap of 200 and a force flag. Each flushed batch is upserted by comic number (`updateWithComic` / `createWithComic`) and saved, or rolled back if the save fails.
- **`ComicFetcher`** covers:
  - choosing the endpoint URL;
  - decode-or-nil;
  - the one-at-a-time range walk;
  - the `.png` → `_2x.png` rewrite, with one fallback to the original image URL.

  The earlier top-level `ComicFetcher` differs only in its image loader, which never calls back on failure.
- **`ManagedComic.willSave`** keeps four normalized "twin" fields equal to the folded form of their source fields.
- **The comic list's string builders:** the wildcard search pattern, the digits-only number string, the shape of the search predicate, and the section index title "’18" built from "2018".

**How the outside world is represented:**

- The network is a function from URL to an optional payload; images are a function from URL to an optional image.
- `Calendar.current.date(from:)`, `URL(string:)` and `String.normalized` are function-valued parameters.
- A failed save is a parameter `saveSucceeds(batch)`.
- A Swift trap (`Int32(comic.year)!`, `Int32(comic.number)`) is a `None` result or a `Trapped` outcome. It ends the process.

**Files:**

| file | module | contents |
|---|---|---|
| `wrappers.dfy` | `Wrappers` | `Option` |
| `decimal.dfy` | `Decimal` | `%u` formatting and Swift's integer parsing |
| `strings.dfy` | `Strings` | substring search, `replacingOccurrences`, `components(separatedBy:)` / `joined` |
| `comics.dfy` | `Comics` | `Comic`, the coding keys, the decoder |
| `fetcher.dfy` | `ComicFetcher` | endpoints, range walk, image loading |
| `legacy_fetcher.dfy` | `LegacyComicFetcher` | the earlier image loader |
| `managed_comic.dfy` | `ManagedComics` | the stored record and `willSave` |
| `store.dfy` | `ComicStore` | the comic → record mapping, the batch upsert, the context |
| `comic_manager.dfy` | `ComicManager` | walk planning, the batch queue, the sync run |
| `search.dfy` | `Search` | search predicate and section titles |

**The walk-end flag.** Each walk's completion passes `forceSave = comic?.number == terminal` to `addComicToBatch` (xkcdbrowser/Model/ComicManager.swift:40, 53, 60). The sync run is parameterised by a `ForceRule`: `AsWritten` is that flag, and `Corrected` forces the completion for the walk's last request whatever it returned. `LoadComicsIntoContext` with `AsWritten` is the source's behaviour. The headline theorems hold for both rules, under an extra hypothesis for `AsWritten` (see Findings).

## Model

| member | source | states |
|---|---|---|
| Decimal.DecimalString | xkcdbrowser/Model/ComicFetcher.swift:31 | `%u` output is a non-empty run of ASCII digits with no leading zero, one digit exactly below 10 |
| Decimal.DecimalStringValue | xkcdbrowser/Model/ComicFetcher.swift:31 | the digits written for `n` denote `n` |
| Decimal.DecimalStringInjective | xkcdbrowser/Model/ComicFetcher.swift:29-34 | two numbers never share a decimal spelling |
| Decimal.ParseInteger | xkcdbrowser/Model/ComicManager.swift:128-139 | `Int32(text)` / `Int(text)` yields only in-range values of text that starts with a sign or a digit |
| Decimal.ParseDecimalString | xkcdbrowser/Model/ComicManager.swift:139 | every in-range number written in decimal parses back to itself |
| Decimal.ParseRejectsNonDigit | xkcdbrowser/Model/ComicManager.swift:139 | a non-digit after the first character makes the parse nil, so `Int32(comic.year)!` traps |
| Strings.ReplaceAllWithoutOccurrence | xkcdbrowser/Model/ComicFetcher.swift:91 | `replacingOccurrences` leaves a string without the pattern unchanged |
| Strings.ReplaceAllLeavesReplacement | xkcdbrowser/Model/ComicFetcher.swift:91 | after replacing an occurring pattern, the result contains the replacement |
| Strings.Components | xkcdbrowser/ComicsTableViewController.swift:152 | `components(separatedBy:)` yields at least one piece, and no piece holds a separator |
| Strings.JoinedComponents | xkcdbrowser/ComicsTableViewController.swift:152 | splitting on a character set and joining with a separator replaces each separator character with it (a reference definition) |
| Strings.SubstituteCharacter | xkcdbrowser/ComicsTableViewController.swift:152 | substituting one character keeps the length and every non-separator's position |
| Strings.SubstituteNothing | xkcdbrowser/ComicsTableViewController.swift:154 | joining with "" keeps exactly the characters outside the separator set, in order |
| Strings.FilterMembers | xkcdbrowser/ComicsTableViewController.swift:154 | the filtered string holds exactly the text's characters that pass the filter |
| Comics.CodingKeyNames | xkcdbrowser/Model/ComicFetcher.swift:136-148 | `num`, `safe_title`, `img`, `alt` are the renamed keys; the other seven use the property name |
| Comics.CodingKeysDistinct | xkcdbrowser/ComicFetcher.swift:134-146 | no two properties share a JSON key |
| Comics.EncodeMembers | xkcdbrowser/Model/ComicFetcher.swift:116-148 | the published document holds each property under its key |
| Comics.DecodeEncode | xkcdbrowser/Model/ComicFetcher.swift:46-48 | decoding the document of a comic whose number fits `UInt` gives that comic back |
| Comics.DecodeMissingKey | xkcdbrowser/Model/ComicFetcher.swift:136-148 | a document missing any of the eleven keys does not decode |
| Comics.DecodeExactly | xkcdbrowser/Model/ComicFetcher.swift:116-148 | a document decodes to `c` iff every key holds `c`'s property and the number fits `UInt` |
| ComicFetcher.ComicUrl | xkcdbrowser/Model/ComicFetcher.swift:13-34 | every endpoint starts with `https://xkcd.com/` and ends with `/info.0.json`; a numbered one holds the decimal number between them |
| ComicFetcher.FetchComic | xkcdbrowser/Model/ComicFetcher.swift:36-52 | a comic arrives only when a JSON document arrived for the endpoint and decodes to it |
| ComicFetcher.WalkOrder | xkcdbrowser/Model/ComicFetcher.swift:63-78 | `|first-last|+1` numbers, starting at `first` |
| ComicFetcher.HighResolutionUrl | xkcdbrowser/Model/ComicFetcher.swift:89-92 | a URL already holding `_2x.png`, or without `.png`, is unchanged; a URL with `.png` becomes one holding `_2x.png` |
| ComicFetcher.ComicUrlInjective | xkcdbrowser/ComicFetcher.swift:12-22 | different requests (latest, or any number) never share an endpoint |
| ComicFetcher.ComicUrlOf2050 | xkcdbrowserTests/ComicFetcherTests.swift:28 | comic 2050 is read from `https://xkcd.com/2050/info.0.json` |
| ComicFetcher.FetchPublishedComic | xkcdbrowser/Model/ComicFetcher.swift:36-52 | the completion receives the comic whose document the server publishes at the URL |
| ComicFetcher.FetchComicSource | xkcdbrowser/ComicFetcher.swift:24-40 | the completion receives a comic iff a document arrived for the URL and decoded; otherwise nil |
| ComicFetcher.WalkOrderShape | xkcdbrowser/ComicFetcher.swift:43-57 | a walk makes `|first-last|+1` requests, stepping by one towards `last` |
| ComicFetcher.WalkOrderVisits | xkcdbrowser/Model/ComicFetcher.swift:63-78 | a walk starts at `first`, ends at `last`, visits exactly the numbers between them, each once |
| ComicFetcher.FetchComicsWithNumbers | xkcdbrowser/Model/ComicFetcher.swift:63-78 | requests are the walk order, and each completion receives the fetch result for its number, nil results included |
| ComicFetcher.HighResolutionUrlIdempotent | xkcdbrowser/Model/ComicFetcher.swift:90 | rewriting an already rewritten URL changes nothing |
| ComicFetcher.HighResolutionUrlWithoutPng | xkcdbrowser/Model/ComicFetcher.swift:89-92 | a URL without ".png" is requested unchanged |
| ComicFetcher.HighResolutionUrlOfPng | xkcdbrowser/Model/ComicFetcher.swift:91 | `stem.png` is requested as `stem_2x.png` |
| ComicFetcher.ImageAttemptsBound | xkcdbrowser/Model/ComicFetcher.swift:94-104 | one or two requests; a second one iff the high-resolution request failed, and it is for the original URL |
| ComicFetcher.LoadedImageFallback | xkcdbrowser/Model/ComicFetcher.swift:94-108 | high resolution yields the `_2x` image, else the normal one, and nil iff both are missing |
| ComicFetcher.LoadImageForUrl | xkcdbrowser/Model/ComicFetcher.swift:88-110 | the requests are the attempts above and the completion runs exactly once, with the loaded image |
| LegacyComicFetcher.LoadImageForUrl | xkcdbrowser/ComicFetcher.swift:59-66 | the completion runs once with the image, or never; it matches the current loader's successes and stays silent where that loader reports nil |
| ManagedComics.NormalizedOptional | xkcdbrowser/Model/ManagedComic+CoreDataProperties.swift:34-36 | the folded twin is nil exactly when its source is nil |
| ManagedComics.NormalizedLink | xkcdbrowser/Model/ManagedComic+CoreDataProperties.swift:38-40 | the link twin is nil exactly when there is no link |
| ManagedComics.AfterWillSave | xkcdbrowser/Model/ManagedComic+CoreDataProperties.swift:33-49 | after the hook all four twins equal the fold of their source, and no source attribute changes |
| ManagedComics.StaleTwinsByField | xkcdbrowser/Model/ManagedComic+CoreDataProperties.swift:33-49 | the twins the hook writes are exactly those that differ from their target |
| ManagedComics.AfterWillSaveFixesCurrent | xkcdbrowser/Model/ManagedComic+CoreDataProperties.swift:33-49 | the hook leaves a record unchanged iff its twins are current, iff it writes nothing |
| ManagedComics.WillSaveIdempotent | xkcdbrowser/Model/ManagedComic+CoreDataProperties.swift:33-49 | a second `willSave` changes nothing and writes nothing |
| ManagedComics.ManagedComic.WillSave | xkcdbrowser/Model/ManagedComic+CoreDataProperties.swift:33-49 | in place: writes exactly the stale twins, leaves all twins current and every other attribute unchanged |
| ComicStore.UpdatedWith | xkcdbrowser/Model/ComicManager.swift:124-140 | traps iff the year is not an `Int32`; keeps the record's number |
| ComicStore.Created | xkcdbrowser/Model/ComicManager.swift:142-146 | a record exists iff the comic is storable, and it carries the comic's number |
| ComicStore.Upsert | xkcdbrowser/Model/ComicManager.swift:105-114 | the keys gain the comic's number, whose record carries the comic; other records are unchanged |
| ComicStore.ApplyBatch | xkcdbrowser/Model/ComicManager.swift:105-114 | the keys grow by exactly the batch's numbers |
| ComicStore.Persist | xkcdbrowser/Model/ComicManager.swift:104-117 | traps iff the upsert loop traps; a failed save keeps the old store; a successful one adds the batch's numbers |
| ComicStore.UpdatedWithRules | xkcdbrowser/Model/ComicManager.swift:124-146 | traps iff the year is not an `Int32` (creation also iff the number exceeds `Int32`); empty alt text → nil; unbuildable date → `distantPast`; number set only on creation |
| ComicStore.LaterUpdateWins | xkcdbrowser/Model/ComicManager.swift:124-140 | updating with one comic and then another equals updating with the later one |
| ComicStore.UpdatedCarries | xkcdbrowser/Model/ComicManager.swift:124-140 | an updated record carries the comic it was updated with |
| ComicStore.UpsertEffect | xkcdbrowser/Model/ComicManager.swift:105-114 | one upsert traps iff the comic is not storable; otherwise it files the record under its number and leaves other numbers alone |
| ComicStore.ApplyBatchSucceeds | xkcdbrowser/Model/ComicManager.swift:105-114 | the upsert loop goes through iff every comic in the batch is storable |
| ComicStore.ApplyBatchShape | xkcdbrowser/Model/ComicManager.swift:104-114 | keys grow by exactly the batch's numbers, and records outside the batch are unchanged |
| ComicStore.ApplyBatchLastWins | xkcdbrowser/Model/ComicManager.swift:105-114 | the last comic with a number in the batch decides that number's record |
| ComicStore.ApplyBatchPrefixTrap | xkcdbrowser/Model/ComicManager.swift:105-114 | a trap part-way through a batch is a trap of the batch |
| ComicStore.PersistEffect | xkcdbrowser/Model/ComicManager.swift:104-117 | a saved batch keeps the store invariant and adds the batch's numbers; a failed save restores the old store |
| ComicStore.PersistLastWins | xkcdbrowser/Model/ComicManager.swift:104-117 | after the save, each number's record carries the batch's last comic with that number |
| ComicStore.Context.SaveOrRollback | xkcdbrowser/Model/ComicManager.swift:150-159 | returns whether the save happened; a save runs `willSave` and persists; a failure rolls back to the last saved state |
| ComicStore.Context.UpsertBatch | xkcdbrowser/Model/ComicManager.swift:104-117 | the saved state becomes the batch's persisted result, or is unchanged on a trap; the context stays valid |
| ComicManager.OlderWalk | xkcdbrowser/Model/ComicManager.swift:37-39 | a walk exists iff the oldest number is above 1; it runs from oldest-1 down to 1 |
| ComicManager.NewerWalk | xkcdbrowser/Model/ComicManager.swift:46-62 | no walk without a current comic; a walk ends at the current number, or at 1 on an empty store |
| ComicManager.OlderWalkRule | xkcdbrowser/Model/ComicManager.swift:33-43 | the older walk runs iff a minimum above 1 exists, and it requests exactly 1 … oldest-1, ending at 1 |
| ComicManager.NewerWalkRule | xkcdbrowser/Model/ComicManager.swift:46-66 | no walk without a current comic; newest < current walks newest+1 … current; an empty store walks current … 1; otherwise no walk |
| ComicManager.NewestNumber | xkcdbrowser/Model/ComicManager.swift:28-31 | the largest stored number, nil iff the store is empty |
| ComicManager.OldestNumber | xkcdbrowser/Model/ComicManager.swift:33-34 | the smallest stored number, nil iff the store is empty |
| ComicManager.PlanLeavesOnlyInnerGaps | xkcdbrowser/Model/ComicManager.swift:26-66 | each number from 1 to the current one is requested by a walk or lies inside the stored range |
| ComicManager.Offer | xkcdbrowser/Model/ComicManager.swift:87-102 | the flush is withheld iff count > 50, pending < 200 and not forced; handed-over plus pending = old pending plus the comic; pending < 200; the counter grows by one per comic |
| ComicManager.BatchQueue.AddComic | xkcdbrowser/Model/ComicManager.swift:87-102 | in place on the queue's statics: the returned batch and the new state are those of `Offer` |
| ComicManager.OfferAllConserves | xkcdbrowser/Model/ComicManager.swift:87-102 | in any order of offers, the batches handed over, followed by the pending list, are every offered comic in order |
| ComicManager.OfferAllCounts | xkcdbrowser/Model/ComicManager.swift:83-91 | the counter counts every non-nil comic offered and is never reset |
| ComicManager.ForceSaveAsWritten | xkcdbrowser/Model/ComicManager.swift:40 | the flag as written is never set for a nil result |
| ComicManager.ForceSaveRulesAgree | xkcdbrowser/Model/ComicManager.swift:40-61 | when the arriving comic is the requested one, the written flag and the corrected flag agree; a nil is never forced as written |
| ComicManager.NilAtWalkEndStrandsPending | xkcdbrowser/Model/ComicManager.swift:40 | the walk 2 → 1 after 51 counted comics, with comic 1 unanswered: as written, comic 2 stays pending after the walk and nothing is saved |
| ComicManager.WalkEndFlushes | xkcdbrowser/Model/ComicManager.swift:52-55 | a walk that ends without a trap leaves nothing pending: always with the corrected flag, and as written when its last request returns the terminal comic |
| ComicManager.AsWrittenWalkAgrees | xkcdbrowser/Model/ComicManager.swift:39-42 | a walk with the flag as written is the walk with the corrected flag when every returned comic is the requested one and every request for the terminal number is answered |
| ComicManager.AsWrittenRunAgrees | xkcdbrowser/Model/ComicManager.swift:26-69 | the sync as written equals the corrected sync when the server answers each number with that comic and answers comic 1 and the current comic's number |
| ComicManager.DeliverCommits | xkcdbrowser/Model/ComicManager.swift:87-117 | a delivery with storable comics and working saves loses nothing: stored plus pending numbers grow by the comic's number |
| ComicManager.DeliverWalkCommits | xkcdbrowser/Model/ComicManager.swift:87-117 | the same over a whole walk's completions |
| ComicManager.WalkCommitsFetched | xkcdbrowser/Model/ComicManager.swift:39-42 | after a walk (with the flag as written: when its last number is answered), nothing is pending; the store holds exactly the old numbers plus every requested number the server answered; each such record carries the server's comic; records not requested keep their attributes |
| ComicManager.SyncRunFillsCatalogue | xkcdbrowser/Model/ComicManager.swift:26-69 | a sync (with the flag as written: when comic 1 and the current comic are answered) keeps every record with its attributes, adds only answered numbers, each record carrying the server's comic, leaves nothing pending, and stores every answered number from 1 to the current one unless it lies strictly inside the previously stored range |
| ComicManager.Deliver | xkcdbrowser/Model/ComicManager.swift:87-117 | one completion: the queue takes `Offer`'s new state; a withheld flush leaves the store alone; no stored number is lost; a trapped run stays as it is |
| ComicManager.AddComicToBatch | xkcdbrowser/Model/ComicManager.swift:78-118 | in place on queue and context: the queue step and, when it flushes, the batch's upsert and save, as specified by `Deliver`; the context stays valid unless a trap ended the process |
| ComicManager.SyncRun | xkcdbrowser/Model/ComicManager.swift:26-69 | extremes read first, the older walk, the probe, then the newer walk; no stored number is lost, and a trapped run does nothing |
| ComicManager.RunWalk | xkcdbrowser/Model/ComicManager.swift:39-42 | in place on queue and context: the walk's completions delivered in order with the rule's flag, as specified by `SyncWalk`; the context stays valid unless a trap ended the process |
| ComicManager.LoadComicsIntoContext | xkcdbrowser/Model/ComicManager.swift:26-69 | in place: queue and saved store end as specified by `SyncRun` under the given rule (`AsWritten` is the source); the context stays valid unless a trap ended the process |
| Search.StarPattern | xkcdbrowser/ComicsTableViewController.swift:152 | the pattern has at least two characters and starts and ends with `*` |
| Search.NumberString | xkcdbrowser/ComicsTableViewController.swift:154 | every character of the number string is a decimal digit |
| Search.SearchPredicate | xkcdbrowser/ComicsTableViewController.swift:150-156 | a predicate exists iff the search text is non-nil and non-empty, with five alternatives |
| Search.StarPatternShape | xkcdbrowser/ComicsTableViewController.swift:152 | the pattern is `|text|+2` long, starts and ends with `*`, and keeps each alphanumeric character one place to the right, the others becoming `*` |
| Search.NumberStringDigits | xkcdbrowser/ComicsTableViewController.swift:154 | the number string is exactly the text's decimal digits, in order, possibly empty |
| Search.SearchPredicateShape | xkcdbrowser/ComicsTableViewController.swift:150-157 | a predicate exists iff the search text is non-empty; it has the four normalized-field `LIKE` alternatives with the one pattern and `number ==` the digit string, and nothing else |
| Search.SectionIndexTitle | xkcdbrowser/ComicsTableViewController.swift:205-207 | traps (None) iff the name has fewer than two characters; otherwise one character shorter |
| Search.SectionIndexTitleShape | xkcdbrowser/MasterViewController.swift:235-237 | a title exists iff the name has at least two characters; it is `’` followed by the name minus its first two characters, one character shorter |
| Search.SectionIndexTitleOfYear | xkcdbrowser/ComicsTableViewController.swift:205-207 | the section "2018" is indexed as "’18" |

## Left out

- Networking, `JSONDecoder` and `UIImage(data:)` are oracles: `Server` (URL → nothing, unparsable bytes, or a JSON document) and `images` (URL → optional image). Timeouts, HTTP status codes and the live-network tests are not modelled.
- Comics.Decode: the `img` member is accepted as any JSON string, although Swift decodes it as a `URL`. JSON numbers are integers; `2050.0` and other non-integral spellings of `num` are not modelled.
- ComicFetcher.ComicUrl: `%u` formats the whole number; the 32-bit truncation `String(format:)` may apply to numbers of 2^32 and above is not modelled.
- Concurrency is collapsed. The older walk runs to its end, then the probe for the latest comic, then the newer walk. `DispatchQueue` hops and `context.perform` are sequential steps. ComicManager.OfferAllConserves covers the accumulator under any order of offers, but interleaved saves are not modelled.
- ComicManager.RunWalk: every fetch of the walk happens before its completions are delivered. Results do not depend on the store, so the delivered sequence is the same.
- ComicManager.WalkCommitsFetched and ComicManager.SyncRunFillsCatalogue: with the flag as written they are proved only when the walks' terminal numbers are answered; without that, comics can stay pending at a walk's end (see Findings).
- ComicManager.NewestNumber and ComicManager.OldestNumber: a failing Core Data fetch (`try?` giving nil) is not modelled.
- A trap is modelled as the end of the process. Changes made in the context before the trap are not saved.
- The store is a map from comic number to record. The `number = %u` fetch is a key lookup, so there are never two records with the same number.
- `Calendar.current.date(from:)`, `URL(string:)` and `String.normalized` are function-valued parameters. A `Date` is seconds from the reference date.
- A save either succeeds or fails, as decided by `saveSucceeds(batch)`. Core Data validation, merge conflicts and `NSLog` are not modelled.
- Search: `CharacterSet.alphanumerics` and `CharacterSet.decimalDigits` are parameters. Only the shape of the predicate is modelled, not `LIKE` matching. The `NSFetchedResultsController` and its cache are left out.
- Search.SectionIndexTitle works on `char`s, not Swift grapheme clusters.
- The earlier fetcher's `fetchComicWithNumber`, `fetchComicsWithNumbers` and `Comic` have the same text as the current ones. They are modelled once, by the `ComicFetcher` and `Comics` members; some rows above cite the earlier file.
- All UI is left out: table and detail controllers, thumbnail drawing, zoom, theme and navigation styling.

## Findings

| source | as written | input that shows it | evidently intended | confidence | as-written member | corrected member |
|---|---|---|---|---|---|---|
| xkcdbrowser/Model/ComicManager.swift:40 | the force flag is `comic?.number == terminal`, so a nil result for the walk's terminal number is not forced (same at lines 53 and 60) | the walk 2 → 1 after 51 comics have been counted in the process: comic 2 arrives and is held (count 52 > 50, pending 1 < 200); the request for comic 1 fails, and comic 2 stays pending when the walk ends | the completion for a walk's terminal request always flushes, so nothing stays pending after a completed walk | medium; not executed | ComicManager.NilAtWalkEndStrandsPending | ComicManager.WalkEndFlushes |
