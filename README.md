# Book-source catalog of MyBookshelf, modelled in Dafny

MyBookshelf keeps a catalog of *book sources*. Each source is a set of scraping rules for one web site. The catalog is stored as a database table keyed by the source's url. `BookSourceManager` is the layer that reads and writes this table. Its operations include:

- listing the sources in one of several orders;
- adding a source, which merges it with the row already stored under the same canonical url;
- promoting one source to the top of the manual order;
- collecting the group names used in the catalog;
- importing a JSON payload of sources, in which a candidate can also ask for a row to be deleted.

This project models that layer as follows:

- The table is a `map<string, BookSource>` from url to row (`BookSources`).
- Each operation is a function on that map:
  - add/merge in `AddMerge`;
  - promote-to-top in `Promotion`;
  - the group list in `Groups`;
  - import in `Import`.
- The class `Manager.BookSourceManager` holds the table in a field. Its methods perform the operations step by step, as the Java code does, and each method's postcondition equates the new table to the matching function.
- The properties the catalog relies on are proved as lemmas about those functions.

The properties proved include:

- **Add/merge.** A rejected source leaves the table alone. Otherwise:
  - the stored key is the url without trailing `/`;
  - an existing row keeps its enable flag, and its serial number unless that is negative, in which case it becomes `count + 1`;
  - a new row is enabled, and is appended at `count + 1` when its serial number is negative;
  - no other key changes;
  - adding twice is the same as adding once.
- **Promote-to-top.**
  - The target gets serial number 0.
  - Every other row gets its 1-based position in the previous serial order.
  - All serial numbers end up pairwise distinct.
  - The relative order of the others is kept, also after promoting twice.
- **Group list.** The list is sorted, has no duplicates and no empty strings. It holds exactly the tokens of the non-blank group values.
- **List import.**
  - A candidate with the delete marker removes exactly the row under its raw url. So does a candidate whose url is malformed.
  - Any other candidate is merged with its serial number forced to 0, so a new candidate never lands at `count + 1`.
  - Re-importing an exported catalog changes nothing, provided every row:
    - has a non-empty name and url;
    - is stored under its url without trailing `/`;
    - has a serial number of at least 0;
    - carries no delete marker;
    - has a url that parses.

    Otherwise the re-import can change the catalog:
    - a row with a negative serial number comes back at `count + 1`;
    - a marked row, or one with a malformed url, is deleted;
    - a row whose key ends in `/` is merged into the row under the canonical key, which is created if absent;
    - a row with an empty name or url is skipped.
- **Listings.**
  - Each listing query returns every qualifying row exactly once, in the order of its mode.
  - Ties are broken by serial number.
  - The sort-mode preference maps to those modes as the code says.

Files:

| file | module | content |
|---|---|---|
| `wrappers.dfy` | `Wrappers` | `Option`, `Result` |
| `strings.dfy` | `Strings` | `String.compareTo` order, `String.trim`, trailing-slash removal, the group splitter `split("\\s*[,;，；]\\s*")` |
| `sorting.dfy` | `Sorting` | `Collections.sort` as a stable insertion sort over a total preorder, and permutation facts |
| `book_sources.dfy` | `BookSources` | the row, the table, the sort-mode preference, the listing orders and what a listing is |
| `add_merge.dfy` | `AddMerge` | `addBookSource`, single and list |
| `promotion.dfy` | `Promotion` | `toTop` |
| `groups.dfy` | `Groups` | what `getGroupList` is made of |
| `import.dfy` | `Import` | `importSource` and `importBookSourceFromJson` on a parsed payload |
| `manager.dfy` | `Manager` | class `BookSourceManager`: the table as a field, and every operation as a method |

In the code's terms:

- A Java `null` string is read as `""`.
- A `null` bean passed to `saveBookSource`/`removeBookSource` is `None`.
- `importSource` returning `null` is `Imported.NoStream`.
- The network fetch branch is `Imported.Remote(url)`.
- The collaborators the import consults are parameters, fields of `Import.Env`:
  - `StringUtils.isJsonType`;
  - `NetworkUtil.isUrl`;
  - the JSON shape check and Gson parsing;
  - `new java.net.URL(url)` not throwing;
  - `BookSourceBean.containsGroup`.
- The `SourceSort` preference is an explicit `int` argument.

Three places where the code does something a reader might not expect; the model follows the code:

- `importSource` on blank text returns `null` (line 152); it does not fail with a format error.
- A new candidate of a list import is stored with serial number 0, not `count + 1`. Line 182 sets 0 before `addBookSource`, so line 109 never applies to it.
- The delete marker is tested with `containsGroup`. The deletion uses the raw url, not the canonical one (lines 175-178).

All source paths below are relative to the repository root.

## Model

| member | source | states |
|---|---|---|
| Strings.StrLe | app/src/main/java/com/kunfei/bookshelf/model/BookSourceManager.java:147 | `a.compareTo(b) <= 0`: character by character, with a proper prefix first; the model also orders names by it for the `COLLATE LOCALIZED` clause at line 83 (see "Left out") |
| Strings.StrLeTotal | app/src/main/java/com/kunfei/bookshelf/model/BookSourceManager.java:147 | any two strings are comparable under `String.compareTo` order |
| Strings.StrLeTransitive | app/src/main/java/com/kunfei/bookshelf/model/BookSourceManager.java:147 | that order is transitive |
| Strings.StrLeAntisymmetric | app/src/main/java/com/kunfei/bookshelf/model/BookSourceManager.java:147 | two strings ordered both ways are equal |
| Strings.IsBlank | app/src/main/java/com/kunfei/bookshelf/model/BookSourceManager.java:141 | `TextUtils.isEmpty(s.trim())`: every character of the text is at most U+0020, the condition under which `Strings.Trim` gives the empty string |
| Strings.Trim | app/src/main/java/com/kunfei/bookshelf/model/BookSourceManager.java:154 | `trim` gives the empty string exactly when the text is blank; otherwise neither end of the result is a character up to U+0020 |
| Strings.TrimIsSlice | app/src/main/java/com/kunfei/bookshelf/model/BookSourceManager.java:154 | the result of `trim` is a slice `s[i..j]` of the text, and every character cut off either end is at most U+0020 |
| Strings.StripTrailingSlashes | app/src/main/java/com/kunfei/bookshelf/model/BookSourceManager.java:98-100 | the canonical url is a prefix of the url; it does not end in `/`, and only `/` characters were removed |
| Strings.Pieces | app/src/main/java/com/kunfei/bookshelf/model/BookSourceManager.java:142 | the text between delimiters: one piece more than there are delimiters, none containing a delimiter, and together with the delimiters they rebuild the string |
| Strings.Token | app/src/main/java/com/kunfei/bookshelf/model/BookSourceManager.java:142 | the whitespace around a delimiter belongs to the match, so a token neither starts nor ends in `\s` on a side that touches a delimiter; a piece with no delimiter on either side is kept whole |
| Strings.TokenIsSlice | app/src/main/java/com/kunfei/bookshelf/model/BookSourceManager.java:142 | a token is a slice of its piece: only `\s` characters are cut off, and only on the sides that touch a delimiter |
| Strings.Tokens | app/src/main/java/com/kunfei/bookshelf/model/BookSourceManager.java:142 | the i-th token is the i-th piece cut down on the sides where it has a delimiter neighbour: all pieces but the first lose leading `\s`, all but the last lose trailing `\s` |
| Strings.Split | app/src/main/java/com/kunfei/bookshelf/model/BookSourceManager.java:142 | with no delimiter the result is the whole string alone; otherwise it is a prefix of the token list ending in a non-empty token, and every token it drops is empty (Java drops trailing empty strings); no token contains a delimiter |
| Sorting.Insert | app/src/main/java/com/kunfei/bookshelf/model/BookSourceManager.java:147 | inserting adds exactly one occurrence of the element |
| Sorting.InsertSorted | app/src/main/java/com/kunfei/bookshelf/model/BookSourceManager.java:147 | inserting into a sorted list keeps it sorted |
| Sorting.Sort | app/src/main/java/com/kunfei/bookshelf/model/BookSourceManager.java:147 | the sorted list is a permutation of the input |
| Sorting.SortSorted | app/src/main/java/com/kunfei/bookshelf/model/BookSourceManager.java:147 | the sorted list is sorted under any total preorder |
| Sorting.PermutationNoDuplicates | app/src/main/java/com/kunfei/bookshelf/model/BookSourceManager.java:147 | sorting a duplicate-free list keeps it duplicate-free |
| Sorting.PermutationElements | app/src/main/java/com/kunfei/bookshelf/model/BookSourceManager.java:147 | sorting keeps exactly the same elements |
| Sorting.InsertNoDuplicates | app/src/main/java/com/kunfei/bookshelf/model/BookSourceManager.java:40-66 | adding a row not yet listed keeps the listing free of duplicates |
| BookSources.GetBookSourceSort | app/src/main/java/com/kunfei/bookshelf/model/BookSourceManager.java:78-87 | preference 1 is weight descending, 2 is name ascending, any other value is serial ascending, each in both directions |
| BookSources.PrecedesTotal | app/src/main/java/com/kunfei/bookshelf/model/BookSourceManager.java:40-53 | any two rows can be placed in some order under every listing order |
| BookSources.PrecedesTransitive | app/src/main/java/com/kunfei/bookshelf/model/BookSourceManager.java:40-53 | every listing order, with its serial-number tie-break, is transitive |
| BookSources.Precedes | app/src/main/java/com/kunfei/bookshelf/model/BookSourceManager.java:40-85 | the ORDER BY clauses: weight descending (lines 43-44), the preference's order (50-51, 81-85: serial ascending, weight descending, or name ascending), serial ascending (58, 64); every one falls back to serial number ascending |
| BookSources.IsListing | app/src/main/java/com/kunfei/bookshelf/model/BookSourceManager.java:40-66 | what a `.list()` query returns: every row of the table that passes the `where` filter (all rows, or the enabled ones), each exactly once, ordered by `Precedes` |
| BookSources.OrderIsTotalPreorder | app/src/main/java/com/kunfei/bookshelf/model/BookSourceManager.java:40-66 | each listing order is a comparator a sort may rely on |
| BookSources.ListingStep | app/src/main/java/com/kunfei/bookshelf/model/BookSourceManager.java:40-66 | looking at one more row keeps the partial listing sorted, duplicate-free, made of qualifying rows and complete for the keys seen |
| BookSources.ListingDone | app/src/main/java/com/kunfei/bookshelf/model/BookSourceManager.java:40-66 | once every key is seen, the rows are a listing: each qualifying row once, urls distinct, in order |
| AddMerge.Accepts | app/src/main/java/com/kunfei/bookshelf/model/BookSourceManager.java:96 | the add goes ahead only when both the name and the url are non-empty |
| AddMerge.Merged | app/src/main/java/com/kunfei/bookshelf/model/BookSourceManager.java:95-111 | a rejected bean is returned unchanged; an accepted one has the canonical url and its own name, group and weight; it takes the stored serial number and enable flag when a row exists, otherwise it is enabled; a negative serial number becomes `count + 1` |
| AddMerge.AddBookSource | app/src/main/java/com/kunfei/bookshelf/model/BookSourceManager.java:95-113 | an empty name or url leaves the table unchanged; otherwise exactly the canonical key is added or replaced, with the merged bean |
| AddMerge.AddKeepsInvariants | app/src/main/java/com/kunfei/bookshelf/model/BookSourceManager.java:98-112 | after an add, every key is still its row's url, and no key ends in `/` if none did before |
| AddMerge.AddIsIdempotent | app/src/main/java/com/kunfei/bookshelf/model/BookSourceManager.java:101-112 | adding the same bean twice leaves the table as adding it once |
| AddMerge.AddBookSources | app/src/main/java/com/kunfei/bookshelf/model/BookSourceManager.java:89-93 | adding a list keeps every key; every accepted bean's canonical url becomes a key; no key appears that no accepted bean names; a stored row no accepted bean names is left untouched |
| AddMerge.AddBookSourcesStoresLast | app/src/main/java/com/kunfei/bookshelf/model/BookSourceManager.java:89-113 | the row under a canonical url carries the url, name, group and weight of the last accepted bean in the list that names it |
| AddMerge.AddAllKeepsInvariants | app/src/main/java/com/kunfei/bookshelf/model/BookSourceManager.java:89-93 | adding a list keeps keys equal to urls and keeps keys canonical |
| AddMerge.MergedBeans | app/src/main/java/com/kunfei/bookshelf/model/BookSourceManager.java:89-111 | the caller's list after `addBookSource(List)`: one bean per input bean, each merged in place with the table the earlier beans left |
| AddMerge.MergedBeansAt | app/src/main/java/com/kunfei/bookshelf/model/BookSourceManager.java:89-111 | after `addBookSource(List)`, the caller's bean `i` is merged, in place, with the table that beans `0..i - 1` produced |
| AddMerge.SlashOnlyUrlIsStoredUnderEmptyKey | app/src/main/java/com/kunfei/bookshelf/model/BookSourceManager.java:96-99 | the empty-url check is done before the slashes are stripped, so the url `/` is stored under the empty key |
| Promotion.Renumbered | app/src/main/java/com/kunfei/bookshelf/model/BookSourceManager.java:124-126 | each row of the list gets its 1-based position as serial number and is otherwise unchanged |
| Promotion.PutAll | app/src/main/java/com/kunfei/bookshelf/model/BookSourceManager.java:128 | a batch write adds exactly the urls of the batch and leaves every other key alone |
| Promotion.PutAllStoresEachRow | app/src/main/java/com/kunfei/bookshelf/model/BookSourceManager.java:128 | with distinct urls, every row of the batch is what ends up stored |
| Promotion.RenumberedStored | app/src/main/java/com/kunfei/bookshelf/model/BookSourceManager.java:123-128 | writing the renumbered listing adds no key and stores each row at its position |
| Promotion.Promote | app/src/main/java/com/kunfei/bookshelf/model/BookSourceManager.java:123-129 | what `toTop` writes: the serial listing renumbered from 1 in one batch, then the target with serial number 0 over it |
| Promotion.PromoteRenumbers | app/src/main/java/com/kunfei/bookshelf/model/BookSourceManager.java:123-129 | after `toTop` the target is stored with serial 0; every other row keeps its fields and gets its 1-based position in the previous serial order |
| Promotion.PromoteKeepsKeysMatch | app/src/main/java/com/kunfei/bookshelf/model/BookSourceManager.java:128-129 | after `toTop` every key is still its row's url |
| Promotion.PromoteGivesDistinctSerials | app/src/main/java/com/kunfei/bookshelf/model/BookSourceManager.java:123-129 | after `toTop` no two rows share a serial number |
| Promotion.PromoteKeepsRelativeOrder | app/src/main/java/com/kunfei/bookshelf/model/BookSourceManager.java:123-129 | rows other than the target keep their relative serial order |
| Promotion.PromoteTwice | app/src/main/java/com/kunfei/bookshelf/model/BookSourceManager.java:121-131 | promoting the same source twice leaves it at 0, every other row above 0, and the others in their original order |
| Groups.GroupValues | app/src/main/java/com/kunfei/bookshelf/model/BookSourceManager.java:136-137 | the distinct group values are exactly the groups of the rows |
| Groups.IsGroupName | app/src/main/java/com/kunfei/bookshelf/model/BookSourceManager.java:138-145 | what `getGroupList` collects: a non-empty token of the split of some row's non-blank group value |
| Groups.FromGroupValues | app/src/main/java/com/kunfei/bookshelf/model/BookSourceManager.java:136-145 | a token of a distinct group value is exactly a group name of some row |
| Groups.GroupOrderIsTotalPreorder | app/src/main/java/com/kunfei/bookshelf/model/BookSourceManager.java:147 | `String.compareTo` order is a total preorder, as `Collections.sort` needs |
| Import.DeletesOnImport | app/src/main/java/com/kunfei/bookshelf/model/BookSourceManager.java:175-187 | a list candidate is deleted instead of added exactly when it carries the delete marker group or its url does not parse |
| Import.ImportOne | app/src/main/java/com/kunfei/bookshelf/model/BookSourceManager.java:175-188 | one step of the list-import loop: a marked candidate deletes the row under its raw url; otherwise a parsable url adds the candidate with serial number 0; otherwise the raw url is deleted |
| Import.ImportOneCases | app/src/main/java/com/kunfei/bookshelf/model/BookSourceManager.java:175-188 | a marked or malformed candidate removes exactly the row under its raw url and is returned unchanged; any other is merged with serial number 0, so a new one is stored at 0, an existing one keeps its serial number (or gets `count + 1` when that is negative) and its enable flag |
| Import.ImportAll | app/src/main/java/com/kunfei/bookshelf/model/BookSourceManager.java:174-191 | the returned list has one entry per parsed candidate, whichever branch each took |
| Import.ImportAllKeepsFields | app/src/main/java/com/kunfei/bookshelf/model/BookSourceManager.java:174-191 | each returned entry keeps its candidate's name, group and weight, with the url raw or canonical |
| Import.ImportAllKeepsKeysMatch | app/src/main/java/com/kunfei/bookshelf/model/BookSourceManager.java:174-190 | a list import keeps every key equal to its row's url |
| Import.ImportJson | app/src/main/java/com/kunfei/bookshelf/model/BookSourceManager.java:167-210 | the result is a failure exactly when the payload is neither a list nor an object; an object is added and returned alone; a list returns one entry per candidate |
| Import.ImportSource | app/src/main/java/com/kunfei/bookshelf/model/BookSourceManager.java:151-165 | blank text gives no stream and no change; JSON text is imported after trimming; a url becomes a fetch and changes nothing; anything else fails with "not JSON or url" |
| Import.ReimportStoredRow | app/src/main/java/com/kunfei/bookshelf/model/BookSourceManager.java:180-183 | importing a row exactly as stored, when it is canonical, numbered and unmarked, changes nothing |
| Import.ReimportStoredRows | app/src/main/java/com/kunfei/bookshelf/model/BookSourceManager.java:174-190 | importing a list of such rows leaves the table and the rows unchanged |
| Import.ExportThenImportChangesNothing | app/src/main/java/com/kunfei/bookshelf/model/BookSourceManager.java:170-191 | importing a full listing of such a catalog gives the same table back, and reports the listing |
| Import.ReimportNegativeSerialMoves | app/src/main/java/com/kunfei/bookshelf/model/BookSourceManager.java:103-110 | the stable-row condition is needed: a stored, accepted, canonical, unmarked row with a negative serial number comes back from a re-import at `count + 1` |
| Import.ListImportNeverAppends | app/src/main/java/com/kunfei/bookshelf/model/BookSourceManager.java:182-183 | a new source in a list import lands at serial number 0, never at `count + 1` |
| Import.MarkerDeletesOnlyRawUrl | app/src/main/java/com/kunfei/bookshelf/model/BookSourceManager.java:175-178 | a marked candidate with a trailing `/` does not remove the row stored under the canonical url |
| Manager.BookSourceManager.constructor | app/src/main/java/com/kunfei/bookshelf/model/BookSourceManager.java:36-38 | the handle wraps the persistent table that already exists: the manager starts from the stored table, unchanged, and keeps its keys matching its rows |
| Manager.BookSourceManager.List | app/src/main/java/com/kunfei/bookshelf/model/BookSourceManager.java:40-66 | the shared query returns a listing of the table for the filter and order asked for |
| Manager.BookSourceManager.GetSelectedBookSource | app/src/main/java/com/kunfei/bookshelf/model/BookSourceManager.java:40-46 | exactly the enabled rows, each once, weight descending then serial ascending |
| Manager.BookSourceManager.GetAllBookSource | app/src/main/java/com/kunfei/bookshelf/model/BookSourceManager.java:48-53 | every row once, in the configured order, ties by serial ascending |
| Manager.BookSourceManager.GetSelectedBookSourceBySerialNumber | app/src/main/java/com/kunfei/bookshelf/model/BookSourceManager.java:55-60 | exactly the enabled rows, each once, serial ascending |
| Manager.BookSourceManager.GetAllBookSourceBySerialNumber | app/src/main/java/com/kunfei/bookshelf/model/BookSourceManager.java:62-66 | every row once, serial ascending |
| Manager.BookSourceManager.GetBookSourceByUrl | app/src/main/java/com/kunfei/bookshelf/model/BookSourceManager.java:68-71 | a row is found exactly when the url is a key, and it is the row stored with that url |
| Manager.BookSourceManager.RemoveBookSource | app/src/main/java/com/kunfei/bookshelf/model/BookSourceManager.java:73-76 | null changes nothing; otherwise exactly the bean's key is removed |
| Manager.BookSourceManager.SaveBookSource | app/src/main/java/com/kunfei/bookshelf/model/BookSourceManager.java:115-119 | null changes nothing; otherwise the bean is stored as it is under its url |
| Manager.BookSourceManager.AddBookSource | app/src/main/java/com/kunfei/bookshelf/model/BookSourceManager.java:95-113 | the step-by-step add leaves the table as `AddMerge.AddBookSource` and the bean as `AddMerge.Merged` |
| Manager.BookSourceManager.AddBookSources | app/src/main/java/com/kunfei/bookshelf/model/BookSourceManager.java:89-111 | the loop leaves the table as `AddMerge.AddBookSources`, and returns the caller's list as the in-place updates leave it: bean `i` merged with the table after beans `0..i - 1` |
| Manager.BookSourceManager.Renumber | app/src/main/java/com/kunfei/bookshelf/model/BookSourceManager.java:124-126 | the loop gives each row its 1-based position as serial number |
| Manager.BookSourceManager.ToTop | app/src/main/java/com/kunfei/bookshelf/model/BookSourceManager.java:121-132 | the table becomes the promotion of the serial listing it read: target at 0, others above 0, serial numbers distinct, previous order of the others kept |
| Manager.BookSourceManager.AppendNewNames | app/src/main/java/com/kunfei/bookshelf/model/BookSourceManager.java:142-145 | the inner loop appends exactly the non-empty items not yet listed, keeping the list duplicate-free |
| Manager.BookSourceManager.GetGroupList | app/src/main/java/com/kunfei/bookshelf/model/BookSourceManager.java:134-149 | the result is sorted, duplicate-free, holds no empty string, and holds exactly the group names of the table |
| Manager.BookSourceManager.ImportCandidate | app/src/main/java/com/kunfei/bookshelf/model/BookSourceManager.java:175-189 | one step of the list loop does what `Import.ImportOne` says |
| Manager.BookSourceManager.ImportBookSourceFromJson | app/src/main/java/com/kunfei/bookshelf/model/BookSourceManager.java:167-211 | the method leaves the table and the result as `Import.ImportJson` |
| Manager.BookSourceManager.ImportSource | app/src/main/java/com/kunfei/bookshelf/model/BookSourceManager.java:151-165 | the method leaves the table and the result as `Import.ImportSource` |

## Left out

- The network fetch of `importSource` (lines 157-163) is network I/O. The model stops at `Imported.Remote(url)` and does not import the fetched body.
- RxJava `Observable`/`Single` and `RxUtils::toSimpleSingle` schedule work on other threads. Only the synchronous effect inside each lambda is modelled.
- `StringUtils.isJsonType`, `isJsonArray`, `isJsonObject` and Gson parsing are outside this model. They are the `Env` parameters `isJsonType` and `parse`. A list that Gson fails to parse, and that is not also an object, is the `Unparsable` payload.
- `StringUtils.isTrimEmpty` is not part of this model. It is taken to mean that `trim` gives the empty string (`Strings.IsBlank`).
- `NetworkUtil.isUrl`, `java.net.URL` validation and `BookSourceBean.containsGroup` are not part of this model. They are uninterpreted `Env` parameters.
- greenDAO and SQLite are not modelled: the query builder, the cursor, identity scope, and the separate transactions of `insertOrReplaceInTx` and `insertOrReplace` (lines 128-129). The table is a map, and only the final state is stated.
- Manager.BookSourceManager.List: rows that tie under the query's order may come in any order, as in SQL. The method picks the keys in an unspecified order.
- BookSources.GetBookSourceSort: mode 2 orders names by character code (`Strings.StrLe`), not by the locale-dependent `COLLATE LOCALIZED` collation.
- Strings.StrLe compares whole characters, while `String.compareTo` compares UTF-16 code units. The two differ only for characters outside the Basic Multilingual Plane.
- Manager.BookSourceManager.AddBookSource: `count + 1` is an unbounded integer. The source narrows a `long` to `int`, so the model does not capture 32-bit wrap-around.
- Manager.BookSourceManager.Renumber: `i + 1` is an unbounded integer, so the model does not capture 32-bit overflow.
- Manager.BookSourceManager.ToTop: the source also sets the caller's bean to serial number 0, inside that object. The model states only the stored row. Beans returned by the queries are values, so the in-place update of the list the loop works on is modelled on a copy.
- Manager.BookSourceManager.ImportCandidate: an exception thrown by `addBookSource` inside the `try` (lines 180-188) would delete the row instead; this case is not modelled. Database errors and `null` entries in a parsed list are not modelled either.
- The `SourceSort` preference (line 79) is read from application settings. Here it is an argument.
- Java `null` strings are read as `""`. The model does not capture a `NullPointerException` on a `null` url or name.
