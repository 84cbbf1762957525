# Catalog content core, modelled in Dafny

This project models the core of a catalog service for content records (title,
description, genres, scheduling window). It covers four parts:

- **The contents manager** (`Managers`, with `GenreLists`, `ContentFilter`,
  `Sequences` and `Text`). It provides the filtered scan, the genre edits and
  the create/read/update/delete delegations to the store. The genre edits treat
  a genre list as a case-insensitive set that keeps insertion order:
  - `AddGenres` appends the new genres and drops case duplicates, keeping the
    first occurrence.
  - `RemoveGenres` drops every entry that matches a given genre, ignoring case.

  The filtered scan keeps the records whose title contains the title filter
  and whose genre list holds the genre filter, both ignoring case. A blank
  filter is skipped.
- **The keyed store** (`Database.FastDatabase`). It is a class holding a map
  from identifier to record, and it offers create, read, read-all, update and
  delete. The mapper that builds and patches records is not part of this
  model. It is passed to the store as two functions, `Map` and `Patch`, and
  either one may yield nothing.
- **The cache-aside service** (`Cache.InMemoryCacheService`). It offers
  get-or-populate, overwrite and evict over a map from an abstract key type to
  entries. The producer's outcome, a value or a failure, is passed in as a
  parameter. A ghost counter records how often a producer runs.
- **The genre-list column conversion** (`GenreListConversion`). A list is
  written as its entries joined by `','`. It is read back by splitting at every
  `','`, keeping empty pieces.

The store signals a failed delete with the `Guid.Empty` sentinel. Deleting a
stored record whose id is `Guid.Empty` also returns `Guid.Empty`, so callers
cannot tell that case from "not found". The contract of
`Database.FastDatabase.Delete` states this as the source does it.

Case-insensitive comparison goes through one case-folding function
(`Text.Fold`), so ignore-case equality is an equivalence relation. The general
lemmas depend only on comparisons going through the fold. The worked examples
of the genre edits (`MergeGenresExample`, `MergeGenresKeepsFirstCasing`,
`WithoutGenresExample`) use what the ASCII fold does to particular characters.

## Model

| member | source | states |
|---|---|---|
| `Text.ContainsIgnoreCase` | NOS.Engineering.Challenge/Managers/ContentsManager.cs:30 | the title test: the folded filter occurs as a contiguous run in the folded title; a predicate, whose use is stated by `ContentFilter.ByTitleSpec` |
| `Text.IsNullOrWhiteSpace` | NOS.Engineering.Challenge/Managers/ContentsManager.cs:29-32 | a filter is blank when absent, empty or made only of `char.IsWhiteSpace` characters; a predicate, whose use is stated by `ContentFilter.BlankFiltersKeepEverything` and `ContentFilter.GetFilteredContentsFails` |
| `Text.EqualsIgnoreCase` | NOS.Engineering.Challenge/Managers/ContentsManager.cs:33 | ignore-case string equality, as the genre filter's `Equals` and the comparers of lines 69 and 83 use it: equal once folded; a predicate, whose use is stated by `Text.EqualsIgnoreCaseIsEquivalence` |
| `Text.EqualsIgnoreCaseIsEquivalence` | NOS.Engineering.Challenge/Managers/ContentsManager.cs:33 | ignore-case equality, used by the genre filter and the genre edits, is reflexive, symmetric and transitive |
| `Sequences.Where` | NOS.Engineering.Challenge/Managers/ContentsManager.cs:30 | every element LINQ `Where` returns is from its input and satisfies the predicate, and every input element satisfying it is returned |
| `Sequences.WhereIsSubsequence` | NOS.Engineering.Challenge/Managers/ContentsManager.cs:30 | LINQ `Where` keeps the input's order: its result is a subsequence of its input |
| `Sequences.WhereCount` | NOS.Engineering.Challenge/Managers/ContentsManager.cs:30 | LINQ `Where` keeps every occurrence of an element satisfying the predicate, as many times as the input holds it, and no occurrence of any other element |
| `Sequences.WhereComposes` | NOS.Engineering.Challenge/Managers/ContentsManager.cs:29-33 | two `Where` filters applied in a row keep exactly what the single filter on their conjunction keeps, in the same order |
| `GenreLists.Mentions` | NOS.Engineering.Challenge/Managers/ContentsManager.cs:33 | some entry of the list equals the genre ignoring case, as the genre filter's `Any` and the removal's `Contains` (line 83) test it; a predicate, whose use is stated by `GenreLists.MentionsAppend` and `GenreLists.DistinctMentions` |
| `GenreLists.MentionsAppend` | NOS.Engineering.Challenge/Managers/ContentsManager.cs:67-69 | a concatenation matches a genre exactly when one of its parts does |
| `GenreLists.Distinct` | NOS.Engineering.Challenge/Managers/ContentsManager.cs:69 | the ignore-case `Distinct` result never holds two entries equal ignoring case |
| `GenreLists.DistinctIsSubsequence` | NOS.Engineering.Challenge/Managers/ContentsManager.cs:69 | `Distinct` only deletes entries and keeps the order of the survivors |
| `GenreLists.DistinctMentions` | NOS.Engineering.Challenge/Managers/ContentsManager.cs:69 | a genre is matched, ignoring case, by the `Distinct` result exactly when it is matched by the input |
| `GenreLists.DistinctOfDuplicateFree` | NOS.Engineering.Challenge/Managers/ContentsManager.cs:69 | a list with no case duplicates is unchanged by `Distinct` |
| `GenreLists.DistinctKeepsPrefix` | NOS.Engineering.Challenge/Managers/ContentsManager.cs:67-69 | `Distinct(a)` is a prefix of `Distinct(a + b)`: the first occurrence wins, so earlier entries keep their place whatever follows |
| `GenreLists.DistinctAbsorbs` | NOS.Engineering.Challenge/Managers/ContentsManager.cs:67-69 | appending to a duplicate-free list only entries it already matches leaves `Distinct` equal to that list |
| `GenreLists.MergeGenres` | NOS.Engineering.Challenge/Managers/ContentsManager.cs:65-69 | the list `AddGenres` writes, the ignore-case `Distinct` of existing followed by added; its contract is carried by `GenreLists.MergeGenresSpec` and `GenreLists.MergeGenresIdempotent` |
| `GenreLists.MergeGenresSpec` | NOS.Engineering.Challenge/Managers/ContentsManager.cs:65-69 | the merged list has no case duplicates; it starts with the deduplicated existing genres (exactly the existing list when that has no duplicates); it matches exactly the genres matched by the existing or the added list; it is a subsequence of existing followed by added |
| `GenreLists.MergeGenresIdempotent` | NOS.Engineering.Challenge/Managers/ContentsManager.cs:67-69 | merging the same genres into an already merged list leaves it unchanged |
| `GenreLists.MergeGenresExample` | NOS.Engineering.Challenge.Tests/Managers/ContentManagerTest.cs:115-126 | `["Genre1"]` merged with `["Genre2"]` gives `["Genre1", "Genre2"]` |
| `GenreLists.MergeGenresKeepsFirstCasing` | NOS.Engineering.Challenge/Managers/ContentsManager.cs:67-69 | `["Drama"]` merged with `["drama", "Comedy"]` gives `["Drama", "Comedy"]`: the stored casing wins and the new genre is appended |
| `GenreLists.WithoutGenres` | NOS.Engineering.Challenge/Managers/ContentsManager.cs:81-83 | the list `RemoveGenres` writes; its contract is carried by `GenreLists.WithoutGenresSpec`, and `GenreLists.RemoveAll` computes it in place |
| `GenreLists.WithoutGenresSpec` | NOS.Engineering.Challenge/Managers/ContentsManager.cs:83 | the list after removal holds exactly the entries matching no removed genre, each as many times as the original holds it, in their original order, as a subsequence of the original |
| `GenreLists.SubsequenceKeepsNoCaseDuplicates` | NOS.Engineering.Challenge/Managers/ContentsManager.cs:83 | deleting entries from a list without case duplicates, as `RemoveAll` does, leaves none |
| `GenreLists.RemovalKeepsNoCaseDuplicates` | NOS.Engineering.Challenge/Managers/ContentsManager.cs:81-83 | removing genres from a list without case duplicates gives a list without case duplicates |
| `GenreLists.WithoutAbsentGenres` | NOS.Engineering.Challenge/Managers/ContentsManager.cs:83 | removing genres that no entry matches leaves the list unchanged |
| `GenreLists.RemoveUndoesAdd` | NOS.Engineering.Challenge/Managers/ContentsManager.cs:67-69 | removing a genre just added to a duplicate-free list that did not match it restores that list |
| `GenreLists.WithoutGenresExample` | NOS.Engineering.Challenge.Tests/Managers/ContentManagerTest.cs:134-145 | removing `["Genre2"]` from `["Genre1", "Genre2"]` gives `["Genre1"]` |
| `GenreLists.RemoveAll` | NOS.Engineering.Challenge/Managers/ContentsManager.cs:81-83 | `List.RemoveAll` on an array compacts the survivors to the front in place; the returned count and the front cells are exactly the list without the removed genres |
| `ContentFilter.ByTitleSpec` | NOS.Engineering.Challenge/Managers/ContentsManager.cs:29-30 | the title step keeps exactly the records passing the title filter: all records for a blank title, otherwise those whose title contains it ignoring case |
| `ContentFilter.GetFilteredContentsFails` | NOS.Engineering.Challenge/Managers/ContentsManager.cs:24-33 | an empty scan gives an empty result; the filter fails exactly when the scan is not empty, the genre filter is not blank and a title-passing record has a null genre list |
| `ContentFilter.GetFilteredContents` | NOS.Engineering.Challenge/Managers/ContentsManager.cs:24-35 | the filter over a given scan; its contract is carried by `ContentFilter.GetFilteredContentsFails`, `ContentFilter.GetFilteredContentsSpec`, `ContentFilter.FilteredRecordsPassBothFilters` and `ContentFilter.FilteredRecordsHaveDistinctIds` |
| `ContentFilter.GetFilteredContentsSpec` | NOS.Engineering.Challenge/Managers/ContentsManager.cs:24-35 | a successful filter equals one `Where` over the scan with the conjunction of the title and genre tests: the filters compose as AND |
| `ContentFilter.FilteredRecordsPassBothFilters` | NOS.Engineering.Challenge/Managers/ContentsManager.cs:24-35 | a successful result is an order-preserving subsequence of the scan and holds exactly the records passing both filters |
| `ContentFilter.FilteredRecordsHaveDistinctIds` | NOS.Engineering.Challenge/Managers/ContentsManager.cs:24-35 | filtering a scan whose records have distinct identifiers lists no record twice |
| `ContentFilter.SubsequenceKeepsDistinctIds` | NOS.Engineering.Challenge/Managers/ContentsManager.cs:29-33 | deleting records from a list with distinct identifiers, as each `Where` does, keeps them distinct |
| `ContentFilter.BlankFiltersKeepEverything` | NOS.Engineering.Challenge/Managers/ContentsManager.cs:29-35 | with a blank or whitespace title and genre, the result is the whole scan |
| `Database.FastDatabase.constructor` | NOS.Engineering.Challenge/Database/FastDatabase.cs:11-17 | the store starts over the rows present, with the given mapper and no update calls |
| `Database.FastDatabase.Create` | NOS.Engineering.Challenge/Database/FastDatabase.cs:19-30 | returns what the mapper builds for the fresh id; if that is a record, the table gains exactly it under that id, otherwise the table is unchanged |
| `Database.FastDatabase.Delete` | NOS.Engineering.Challenge/Database/FastDatabase.cs:32-44 | an absent id gives `Guid.Empty` and an unchanged table; a present id is removed alone and returned |
| `Database.FastDatabase.Read` | NOS.Engineering.Challenge/Database/FastDatabase.cs:46-49 | returns the record stored under the id, which carries that id, or nothing when there is none |
| `Database.FastDatabase.ReadAll` | NOS.Engineering.Challenge/Database/FastDatabase.cs:51-54 | returns exactly the stored records, each once |
| `Database.Enumerate` | NOS.Engineering.Challenge/Database/FastDatabase.cs:53 | lists every key of the table exactly once, in some order |
| `Database.FastDatabase.Update` | NOS.Engineering.Challenge/Database/FastDatabase.cs:56-74 | an absent id gives nothing and an unchanged table; for a present id the mapper's patch is returned, and if it is a record it replaces the stored one, otherwise the table is unchanged |
| `Managers.ContentsManager.GetManyContents` | NOS.Engineering.Challenge/Managers/ContentsManager.cs:16-20 | returns exactly the stored records, each once: no two results share an identifier |
| `Managers.ContentsManager.GetFilteredContents` | NOS.Engineering.Challenge/Managers/ContentsManager.cs:22-36 | an empty store gives an empty result; failure exactly when a genre filter meets a title-passing record with a null genre list; otherwise exactly the stored records passing both filters, none listed twice |
| `Managers.ContentsManager.constructor` | NOS.Engineering.Challenge/Managers/ContentsManager.cs:11-14 | the manager works over the store it is given |
| `Managers.ContentsManager.CreateContent` | NOS.Engineering.Challenge/Managers/ContentsManager.cs:38-41 | delegates to the store's create with the same outcome |
| `Managers.ContentsManager.GetContent` | NOS.Engineering.Challenge/Managers/ContentsManager.cs:43-46 | returns the stored record for the id, or nothing |
| `Managers.ContentsManager.UpdateContent` | NOS.Engineering.Challenge/Managers/ContentsManager.cs:48-51 | delegates to the store's update with the same outcome, as exactly one update call |
| `Managers.ContentsManager.DeleteContent` | NOS.Engineering.Challenge/Managers/ContentsManager.cs:53-56 | delegates to the store's delete: `Guid.Empty` for an absent id, otherwise the id with its record removed; no update call |
| `Managers.ContentsManager.AddGenres` | NOS.Engineering.Challenge/Managers/ContentsManager.cs:58-72 | with no record, returns nothing and makes no update call; otherwise makes one update call with the record's genres (empty when null) merged with the new ones, and the store changes only as that update does |
| `Managers.ContentsManager.RemoveGenres` | NOS.Engineering.Challenge/Managers/ContentsManager.cs:74-86 | with no record, returns nothing; with a null genre list, returns the record; neither makes an update call; otherwise makes one update call with the list minus every entry matching a given genre |
| `Cache.InMemoryCacheService.constructor` | NOS.Engineering.Challenge/Cache/InMemoryCacheService.cs:6 | the service works over the memory cache it is given, whatever entries that cache already holds; no producer has run |
| `Cache.InMemoryCacheService.IsHit` | NOS.Engineering.Challenge/Cache/InMemoryCacheService.cs:10 | `TryGetValue` finds an entry for the key; a predicate, whose use is stated by `Cache.InMemoryCacheService.GetOrSetAsync` |
| `Cache.InMemoryCacheService.GetOrSetAsync` | NOS.Engineering.Challenge/Cache/InMemoryCacheService.cs:8-23 | a hit returns the cached value, runs no producer and changes nothing; a miss runs the producer once; a value is stored under the key with the given sliding expiration (90 seconds by default) and returned; a failure is returned and nothing is stored |
| `Cache.InMemoryCacheService.SetAsync` | NOS.Engineering.Challenge/Cache/InMemoryCacheService.cs:25-30 | inserts or overwrites the entry for the key, with no expiration, and nothing else |
| `Cache.InMemoryCacheService.RemoveAsync` | NOS.Engineering.Challenge/Cache/InMemoryCacheService.cs:32-37 | deletes the key's entry if present and is a no-op otherwise |
| `Cache.GetOrSetTouchesOnlyItsKey` | NOS.Engineering.Challenge/Cache/InMemoryCacheService.cs:8-23 | a get-or-populate leaves every other key's entry as it was |
| `Cache.SetTouchesOnlyItsKey` | NOS.Engineering.Challenge/Cache/InMemoryCacheService.cs:25-30 | an overwrite leaves every other key's entry as it was |
| `Cache.RemoveTouchesOnlyItsKey` | NOS.Engineering.Challenge/Cache/InMemoryCacheService.cs:32-37 | an eviction leaves every other key's entry as it was |
| `Cache.SetThenGetOrSetHits` | NOS.Engineering.Challenge.Tests/Cache/InMemoryCacheServiceTest.cs:37-50 | after `SetAsync(key, item)`, a get-or-populate on the key returns `item` without running the producer |
| `Cache.RemoveThenGetOrSetMisses` | NOS.Engineering.Challenge.Tests/Cache/InMemoryCacheServiceTest.cs:53-63 | after `RemoveAsync(key)`, a get-or-populate on the key runs the producer and returns its outcome |
| `Cache.SecondGetOrSetHits` | NOS.Engineering.Challenge/Cache/InMemoryCacheService.cs:10-22 | after a successful get-or-populate, a second one on the same key returns the same value; at most one producer runs |
| `GenreListConversion.Read` | NOS.Engineering.Challenge/Context/EFSQLServerContext.cs:28 | splitting never gives an empty list |
| `GenreListConversion.Write` | NOS.Engineering.Challenge/Context/EFSQLServerContext.cs:27 | `string.Join(',', genres)`; its contract is carried by `GenreListConversion.WriteRead`, `GenreListConversion.ReadWrite` and `GenreListConversion.RoundTripExactly` |
| `GenreListConversion.ReadPieceCount` | NOS.Engineering.Challenge/Context/EFSQLServerContext.cs:28 | reading gives one piece more than the stored string has commas |
| `GenreListConversion.ReadPiecesHaveNoSeparator` | NOS.Engineering.Challenge/Context/EFSQLServerContext.cs:28 | no piece read back contains a comma |
| `GenreListConversion.WriteRead` | NOS.Engineering.Challenge/Context/EFSQLServerContext.cs:27-28 | reading then writing gives back any stored string |
| `GenreListConversion.ReadPiece` | NOS.Engineering.Challenge/Context/EFSQLServerContext.cs:28 | a comma-free leading piece is read off up to the first comma |
| `GenreListConversion.ReadWrite` | NOS.Engineering.Challenge/Context/EFSQLServerContext.cs:27-28 | writing then reading gives back any non-empty list whose entries hold no comma |
| `GenreListConversion.RoundTripExactly` | NOS.Engineering.Challenge/Context/EFSQLServerContext.cs:27-28 | a list survives a write followed by a read if and only if it is not empty and none of its entries holds a comma |
| `GenreListConversion.EmptyListReadsBackAsOneEmptyGenre` | NOS.Engineering.Challenge/Context/EFSQLServerContext.cs:27-28 | the empty list is written as `""` and read back as `[""]` |
| `GenreListConversion.EmbeddedSeparatorSplitsEntry` | NOS.Engineering.Challenge/Context/EFSQLServerContext.cs:27-28 | the single entry `"Sci,Fi"` is read back as the two entries `"Sci"` and `"Fi"` |

## Left out

- Asynchrony: `Task`, `await`, `ConfigureAwait` and the blocking `.Result` reads are left out. Every operation runs to completion in sequence.
- Concurrency: the lost update between two concurrent genre edits of the same record is left out. So is a concurrent miss running two producers.
- Expiry inside the memory cache is left out. Entries record their sliding expiration as data, and no entry ever expires.
- `TryGetValue` treats a stored value of another type as a miss. This is left out: the cache holds one value type.
- Cache keys are an abstract type. How the HTTP controller builds them, from strings on reads and from identifiers on writes, is outside this model. So is the controller itself.
- Case folding is one fold for every comparison. The culture-specific rules of `CurrentCultureIgnoreCase`, and non-ASCII case mapping, are left out.
- The content mapper is not part of this model. `Map` and `Patch` are arbitrary functions given to the store. The store assumes they keep identifiers: a built record carries the fresh id and a patched record keeps its id. It does not assume that a genre-only request leaves the other fields alone.
- `Guid.NewGuid` is replaced by an identifier passed to `Create`. The caller must pass one that is not already stored.
- EF Core machinery is left out: key and property configuration, `EnsureCreated`, `SaveChangesAsync` and the database connection. `SetValues` is modelled as replacing the stored record with the patched one.
- The non-genre fields of a record (subtitle, description, image, duration, start and end times) are carried but never read.
- Null records in a scan and null titles are left out. Records and titles are never null. A genre list may be null.
- `GenreLists.RemovalKeepsNoCaseDuplicates`: removal keeps a list free of case duplicates but does not deduplicate one. A stored list that already holds case duplicates, such as a record created with `["Drama", "drama"]`, keeps them after a removal of another genre, as `RemoveAll` does.
- Null entries inside a genre list are left out: entries are never null. In the source, a list such as `["a", null]` can reach `AddGenres` from a request body. The genre filter would then raise when it compares against the null entry, a failure that `ContentFilter.FilterError` does not have.
- LINQ runs the filters lazily, so a null genre list raises only when the result is enumerated. The model reports that failure when the filter is called.
- `Managers.ContentsManager.GetFilteredContents`: the method states which records are in the result and that none is listed twice, not their order. The scan order of `ReadAll` is unspecified. `ContentFilter.FilteredRecordsPassBothFilters` states the order for any given scan.
