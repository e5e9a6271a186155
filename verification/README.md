# Rose e-book reader: a Dafny model of its core

Rose is a desktop EPUB reader. This project models two parts of it as pure
functions and proves properties about them.

- **The document-model extraction.** This covers:
  - the container file that names the package document (`findContentOPFPath`);
  - the marker-delimited string search `find`;
  - the Dublin Core metadata (`EpubMetadata.from` / `retrieve`);
  - the lazily loaded, cached metadata, manifest and spine of an `Epub` (`loadMetadata`, `loadManifest`, `loadSpine` and the getters);
  - spine indexing (`getSpineEntry`) and section lookup (`readSection`);
  - the book's data directory (`getDataDirectory`);
  - cover resolution (`readCover`): the id lookup first, then the `properties="cover-image"` fallback, then the path beside the package document.
- **The pagination engine.** This is the greedy page breaker `splitIntoPages` that runs as JavaScript inside `HeightHelper`. It is modelled twice:
  - as a reference function (`Pagination.Run`);
  - as the queue loop itself (`Pagination.SplitIntoPagesBy`), which is proved equal to the reference function.

  The model also covers the transport around the page breaker. The fragments travel joined with `%and%` and are split by JavaScript; the pages come back joined with `%page%` and are split by Java's `String.split`.

There are also two small pieces: `Result<T>` and the LEFT/RIGHT page-turn clamp of the reader window.

Modules and files:

| file | module | what it holds |
|---|---|---|
| lang.dfy | `Lang` | `Nullable` (Java null), `Outcome` (return or throw), first-match search |
| strings.dfy | `Strings` | Java `indexOf`, `contains`, `substring`, `lastIndexOf`, `String.join`; JavaScript `split`; Java `split` |
| archive.dfy | `Archive` | the book file as the walk-ordered list of its entries; `getFileName`, `getParent`, `Paths.get`; `read` |
| xml.dfy | `Xml` | the parsed document as a tree; `getElementsByTagName`, `item(0)`, `getTextContent`, attributes |
| metadata.dfy | `Metadata` | `EpubMetadata`, `retrieve`, `from`, and the sample book of the metadata test |
| epub.dfy | `Epub` | `find`, `findContentOPFPath`, `getDataDirectory`, cover resolution |
| book.dfy | `Book` | the `Epub` state, the loaders with their caches, the getters, `getSpineEntry`, `readSection`, the constructor |
| pagination.dfy | `Pagination` | `splitIntoPages`: reference function, loop, properties, and a variant that carries an overflowing fragment over |
| transport.dfy | `Transport` | the `%and%` / `%page%` encodings and the whole `calculatePages` pipeline |
| result.dfy | `Results` | `Result<T>` |
| navigation.dfy | `Navigation` | the LEFT/RIGHT key handler |

Modelling conventions:

- Java `null` is `Nullable.Null`.
- An exception that escapes is `Outcome.Throws` with its kind.
- An exception that the source catches is modelled by what its catch block leaves behind:
  - a loader keeps the entries added before the failure;
  - a failed metadata load keeps the old metadata.
- Each method that mutates an `Epub` field becomes a function from the old `Book` state to the new one.
- XML parsing is a parameter `parse: string -> Nullable<Node>`, where null stands for a parse failure.
- The measurement `getSize(copy) < height` of the page breaker is a parameter `fits: seq<string> -> bool`.

## Model

| member | source | states |
|---|---|---|
| Lang.FirstWhere | src/main/java/draylar/rose/api/Epub.java:425 | the position found is the first one satisfying the predicate; null exactly when no element does |
| Lang.FindFirst | src/main/java/draylar/rose/api/Epub.java:205 | `findFirst` after `filter`: null exactly when nothing matches, otherwise an element that matches with no match before it |
| Lang.FindFirstIs | src/main/java/draylar/rose/api/Epub.java:205 | an element that matches with no earlier match is the one `findFirst` returns |
| Strings.IndexOf | src/main/java/draylar/rose/api/Epub.java:269-270 | `indexOf(pat, from)`: -1 or a match at or after the clamped start, with no match between the start and the result, and none at all after the start when -1 |
| Strings.IndexOfFound | src/main/java/draylar/rose/api/Epub.java:270 | a non-negative `indexOf` is a match, and no match lies between the start and it |
| Strings.IndexOfIs | src/main/java/draylar/rose/api/Epub.java:269-270 | a match preceded by no match from the start on is what `indexOf` returns |
| Strings.Substring | src/main/java/draylar/rose/api/Epub.java:271 | `substring` returns exactly when `0 <= begin <= end <= length`, giving those characters; otherwise it throws `StringIndexOutOfBoundsException` |
| Strings.ContainsIff | src/main/java/draylar/rose/api/Epub.java:265 | `contains` holds exactly when the pattern occurs at some position |
| Strings.LastIndexOf | src/main/java/draylar/rose/api/Epub.java:153 | `lastIndexOf(c)`: -1 or a position holding `c`, with no `c` after it |
| Strings.DropTrailingEmpty | src/main/java/draylar/rose/api/HeightHelper.java:142 | a prefix of the input that ends in a non-empty string, and only empty strings were removed |
| Strings.Join | src/main/java/draylar/rose/api/HeightHelper.java:41 | `String.join` and `Array.join`; Strings.SplitJoin and JavaSplitJoin state when a split undoes it |
| Strings.Split | src/main/java/draylar/rose/api/HeightHelper.java:57 | JavaScript `split`: at least one piece; Strings.SplitJoin states its value on joined inputs |
| Strings.JavaSplit | src/main/java/draylar/rose/api/HeightHelper.java:142 | Java `split` with a plain separator, with no contract of its own; Strings.JavaSplitJoin states when it undoes a join |
| Strings.SplitJoin | src/main/java/draylar/rose/api/HeightHelper.java:57 | JavaScript `split` undoes `join` when no piece runs into the separator after it |
| Strings.JavaSplitJoin | src/main/java/draylar/rose/api/HeightHelper.java:142 | Java `split` undoes `join` when no piece runs into the separator and the last piece is not empty |
| Archive.FileName | src/main/java/draylar/rose/api/Epub.java:73 | `getFileName`: null exactly for a path ending in '/'; otherwise a non-empty, '/'-free suffix that follows a '/' or is the whole path |
| Archive.Parent | src/main/java/draylar/rose/api/Epub.java:225 | `getParent`: null exactly for the root or a path without '/'; otherwise a proper, non-empty prefix |
| Archive.PathsGet | src/main/java/draylar/rose/api/Epub.java:145 | `Paths.get(first, more)`: an empty part contributes nothing; otherwise `first`, then exactly one '/' (none added when `first` already ends in '/'), then `more` |
| Archive.Read | src/main/java/draylar/rose/api/Epub.java:82-94 | `read`: text only from the first accepted entry, which must be a file; null when no entry is accepted |
| Archive.ReadFirst | src/main/java/draylar/rose/api/Epub.java:82-94 | when the first accepted entry is a file, `read` returns its text |
| Archive.ReadContainerXml | src/main/java/draylar/rose/api/Epub.java:71-74 | `read` of the first entry whose file name contains `container.xml`, with no contract of its own; Archive.ReadFirst gives its value |
| Archive.ReadContentOpf | src/main/java/draylar/rose/api/Epub.java:76-79 | `read` of the first entry whose file name contains `content.opf`, with no contract of its own; Archive.ReadContentOpfFirst gives its value |
| Archive.ReadContentOpfFirst | src/main/java/draylar/rose/api/Epub.java:76-79 | `readContentOPF` reads the first entry whose file name contains `content.opf` |
| Archive.ParentAndName | src/main/java/draylar/rose/api/Epub.java:225 | `getParent` and `getFileName` take apart what `Paths.get(dir, name)` put together |
| Xml.ElementsOf | src/main/java/draylar/rose/api/EpubMetadata.java:41 | document order starts with the node itself and lists only elements |
| Xml.ByTag | src/main/java/draylar/rose/api/EpubMetadata.java:55 | `getElementsByTagName`: elements of the list with that tag; non-empty exactly when one exists; it starts with the first one |
| Xml.First | src/main/java/draylar/rose/api/EpubMetadata.java:55 | `item(0)`: null exactly for an empty list, otherwise its first node |
| Xml.Attribute | src/main/java/draylar/rose/api/Epub.java:331-333 | `getNamedItem(name).getTextContent()`: returns the value exactly when the node is an element with that attribute; otherwise a null dereference |
| Xml.ElementChildren | src/main/java/draylar/rose/api/Epub.java:327-330 | the loop keeps exactly the element children: every element child is kept and nothing else |
| Xml.ElementChildrenSingle | src/main/java/draylar/rose/api/Epub.java:328-330 | one child is kept exactly when it is an element |
| Xml.ElementChildrenAppend | src/main/java/draylar/rose/api/Epub.java:327-330 | the children are visited in document order: the kept children of two runs of siblings are those of the first followed by those of the second, so order and multiplicity are preserved |
| Xml.TextOfLeaf | src/main/java/draylar/rose/api/EpubMetadata.java:56 | an element with one text child has that text as its content |
| Xml.TextContent | src/main/java/draylar/rose/api/EpubMetadata.java:56 | `getTextContent`, with no contract of its own; Xml.TextOfLeaf and TextContentsAppend state its value |
| Xml.TextContentsAppend | src/main/java/draylar/rose/api/EpubMetadata.java:56 | the text content of concatenated siblings is the concatenation of theirs |
| Metadata.Retrieve | src/main/java/draylar/rose/api/EpubMetadata.java:54-57 | "" when no descendant has the tag; otherwise the text content of the first one in document order |
| Metadata.From | src/main/java/draylar/rose/api/EpubMetadata.java:40-52 | throws (null dereference) exactly when the document has no `metadata` element; otherwise each of the nine fields is retrieved from its own Dublin Core tag under the first `metadata` element |
| Metadata.RetrieveLeaf | src/main/java/draylar/rose/api/EpubMetadata.java:55-56 | among leaf elements, the first one with the tag gives its text |
| Metadata.RetrieveAbsent | src/main/java/draylar/rose/api/EpubMetadata.java:56 | a tag that no leaf carries gives "" |
| Metadata.SampleBookMetadata | src/test/java/draylar/rose/MetadataTest.java:21-25 | on the sample document, the title, language, creator, contributor and date come out as the test expects; the four fields the sample document does not carry are "" |
| Metadata.SampleUnrecorded | src/main/java/draylar/rose/api/EpubMetadata.java:56 | tags that the sample document does not carry come back as "" |
| Results.Fail | src/main/java/draylar/rose/api/Result.java:15-17 | `fail()` does not pass and carries null |
| Results.Pass | src/main/java/draylar/rose/api/Result.java:19-21 | `pass(v)` passes and `get()` returns `v` |
| Navigation.IndexOfPage | src/main/java/draylar/rose/Rose.java:227 | `pages.indexOf(center)`: the first position holding the centre, -1 exactly when it is absent |
| Navigation.TargetIndex | src/main/java/draylar/rose/Rose.java:227-229 | LEFT gives `max(0, i - 1)` and RIGHT gives `min(size - 1, i + 1)`; the result is never negative for LEFT, never past the end for RIGHT, and -1 for RIGHT on no pages |
| Navigation.OnKey | src/main/java/draylar/rose/Rose.java:225-231 | the press returns a page exactly when there are pages and otherwise throws `IndexOutOfBoundsException`; it stays put at either end; it moves by one inside; an unknown centre goes to page 0; other keys do nothing |
| Navigation.LeftThenRight | src/main/java/draylar/rose/Rose.java:227-229 | on distinct pages, RIGHT undoes LEFT |
| Pagination.Pick | src/main/java/draylar/rose/api/HeightHelper.java:86-88 | the fragments at the given positions, in order |
| Pagination.PagesOf | src/main/java/draylar/rose/api/HeightHelper.java:98 | each page is its fragments joined with no separator |
| Pagination.Decide | src/main/java/draylar/rose/api/HeightHelper.java:95-132 | which of the five branches the loop body takes; the effect of each is stated by Pagination.StepLast, StepImageAlone, StepImageFlush, StepKeep and StepOverflow |
| Pagination.Run | src/main/java/draylar/rose/api/HeightHelper.java:73-136 | the page breaker as a reference function, with no contract of its own; its properties are Pagination.RunBelow, RunAtLeast, RunOrdered, RunKeepsPending, RunEndsWithLast and RunIsolation, and Pagination.SplitIntoPagesBy proves the loop equal to it |
| Pagination.Paginate | src/main/java/draylar/rose/api/HeightHelper.java:73-136 | the page breaker over a whole input with the `includes("img")` test; its properties are Pagination.PaginateProperties and PaginateSingle |
| Pagination.RunBelow | src/main/java/draylar/rose/api/HeightHelper.java:82-133 | every page names input fragments only |
| Pagination.RunAtLeast | src/main/java/draylar/rose/api/HeightHelper.java:86-91 | no page names a fragment before the head of the queue or the current page |
| Pagination.RunOrdered | src/main/java/draylar/rose/api/HeightHelper.java:82-133 | the positions on all pages, read in page order, strictly increase, so no fragment is duplicated or reordered |
| Pagination.RunKeepsPending | src/main/java/draylar/rose/api/HeightHelper.java:95-132 | while fragments remain, the fragments already on the current page come first in the output, in the same order |
| Pagination.RunEndsWithLast | src/main/java/draylar/rose/api/HeightHelper.java:95-99 | the last fragment always ends the last page, whatever its size |
| Pagination.RunIsolation | src/main/java/draylar/rose/api/HeightHelper.java:106-121 | a fitting image fragment that is not last sits alone on its page |
| Pagination.PaginateProperties | src/main/java/draylar/rose/api/HeightHelper.java:82-133 | the pages of a whole input are an order-preserving, duplicate-free selection of the fragments, end with the last fragment, and isolate images |
| Pagination.StepLast | src/main/java/draylar/rose/api/HeightHelper.java:95-99 | the last fragment joins the current page, which is emitted |
| Pagination.StepImageAlone | src/main/java/draylar/rose/api/HeightHelper.java:110-114 | a fitting image on an empty page becomes a page of its own |
| Pagination.StepImageFlush | src/main/java/draylar/rose/api/HeightHelper.java:117-121 | a fitting image after other fragments flushes them and is offered again |
| Pagination.StepKeep | src/main/java/draylar/rose/api/HeightHelper.java:123-125 | a fitting non-image fragment stays on the page |
| Pagination.StepOverflow | src/main/java/draylar/rose/api/HeightHelper.java:129-132 | an overflowing fragment flushes the page and is not kept |
| Pagination.SplitIntoPagesBy | src/main/java/draylar/rose/api/HeightHelper.java:73-136 | the queue loop terminates and emits exactly the reference pages, each page its fragments joined |
| Pagination.SplitIntoPages | src/main/java/draylar/rose/api/HeightHelper.java:73-136 | with the "contains img" test, the loop emits an order-preserving selection that isolates images and ends with the last fragment; an empty input gives no page |
| Pagination.PaginateSingle | src/main/java/draylar/rose/api/HeightHelper.java:91-99 | a single fragment gives one page equal to it, whatever its measured size |
| Pagination.OverflowDropsFragment | src/main/java/draylar/rose/api/HeightHelper.java:128-132 | with three fragments and room for one per page, the middle fragment is on no page |
| Pagination.EmptyPagePossible | src/main/java/draylar/rose/api/HeightHelper.java:129-131 | a fragment that overflows an empty page emits an empty page |
| Pagination.LastImageNotIsolated | src/main/java/draylar/rose/api/HeightHelper.java:95-99 | an image that arrives last shares the page before it |
| Pagination.RunCarrying | src/main/java/draylar/rose/api/HeightHelper.java:128-132 | the page breaker with an overflowing fragment offered again, with no contract of its own; its properties are Pagination.RunCarryingConserves, RunCarryingNonEmpty and RunCarryingIsolation |
| Pagination.PaginateCarrying | src/main/java/draylar/rose/api/HeightHelper.java:128-132 | the corrected page breaker over a whole input; Pagination.PaginateCarryingConserves states its properties |
| Pagination.RunCarryingConserves | src/main/java/draylar/rose/api/HeightHelper.java:128-132 | if the overflowing fragment is carried over, the current page and every fragment still queued appear exactly once, in order |
| Pagination.RunCarryingNonEmpty | src/main/java/draylar/rose/api/HeightHelper.java:128-132 | if the overflowing fragment is carried over, no page is empty |
| Pagination.RunCarryingIsolation | src/main/java/draylar/rose/api/HeightHelper.java:106-121 | if the overflowing fragment is carried over, images stay isolated |
| Pagination.PaginateCarryingConserves | src/main/java/draylar/rose/api/HeightHelper.java:128-132 | if the overflowing fragment is carried over, the pages hold every fragment exactly once and in order, none is empty, and images are isolated |
| Transport.LoadData | src/main/java/draylar/rose/api/HeightHelper.java:56-58 | `allData.split("%and%")` gives at least one fragment, and the whole string when there is no separator |
| Transport.Encode | src/main/java/draylar/rose/api/HeightHelper.java:41 | `String.join("%and%", bodyElements)`; Transport.FragmentsRoundTrip and FragmentsMerge state when LoadData undoes it |
| Transport.CalculatePages | src/main/java/draylar/rose/api/HeightHelper.java:140-142 | the whole pipeline, with no contract of its own; Transport.CalculatePagesFaithful and EmptyBodyGivesOneEmptyPage state what Java receives |
| Transport.FragmentsRoundTrip | src/main/java/draylar/rose/api/HeightHelper.java:41 | the script gets back the body's fragments when none runs into the separator after it |
| Transport.PercentFreeFragmentsRoundTrip | src/main/java/draylar/rose/api/HeightHelper.java:41 | fragments without '%' always come back unchanged |
| Transport.FragmentsMerge | src/main/java/draylar/rose/api/HeightHelper.java:57 | fragments "x%and" and "y" contain no "%and%", yet come back as "x" and "and%y" |
| Transport.PagesPercentFree | src/main/java/draylar/rose/api/HeightHelper.java:98 | pages made of '%'-free fragments are '%'-free |
| Transport.CalculatePagesFaithful | src/main/java/draylar/rose/api/HeightHelper.java:140-142 | for non-empty '%'-free fragments, Java receives exactly the pages the page breaker made |
| Transport.EmptyBodyGivesOneEmptyPage | src/main/java/draylar/rose/api/HeightHelper.java:142 | an empty body reaches Java as one empty page |
| Epub.Find | src/main/java/draylar/rose/api/Epub.java:264-272 | null exactly when a marker is missing anywhere; a thrown exception is always an out-of-bounds `substring` |
| Epub.FindLocates | src/main/java/draylar/rose/api/Epub.java:269-271 | the text returned starts right after the first `start` and ends right before the first `end` after it |
| Epub.SubstringLocates | src/main/java/draylar/rose/api/Epub.java:269-271 | what the `substring` call takes sits between the first `start` and the next `end` |
| Epub.FindThrows | src/main/java/draylar/rose/api/Epub.java:270-271 | with both markers present, `find` throws exactly when no `end` follows the first `start` |
| Epub.FindResultHasNoEnd | src/main/java/draylar/rose/api/Epub.java:270-271 | the text returned never contains `end` |
| Epub.FindIs | src/main/java/draylar/rose/api/Epub.java:269-271 | the converse of Epub.FindLocates: text that starts right after the first `start` and ends right before the first `end` after it is what `find` returns |
| Epub.FindExtracts | src/main/java/draylar/rose/api/Epub.java:264-272 | `pre + start + mid + end + post` gives `mid`, when `pre` holds no `start` and `mid` holds no `end` |
| Epub.MarkerPositions | src/main/java/draylar/rose/api/Epub.java:269-270 | where both `indexOf` calls land in `pre + start + mid + end + post` |
| Epub.RootfilePath | src/main/java/draylar/rose/api/Epub.java:142-148 | no container gives null; a thrown exception is always an out-of-bounds `substring` |
| Epub.FindContentOpfPath | src/main/java/draylar/rose/api/Epub.java:139-149 | null when no container file can be read |
| Epub.RootfilePathAt | src/main/java/draylar/rose/api/Epub.java:143-145 | as written, a non-empty value followed by its closing quote is read as it stands |
| Epub.RootfilePathFound | src/main/java/draylar/rose/api/Epub.java:139-149 | a container whose first `rootfile` names a non-empty, quote-free P leads to the root joined with P |
| Epub.RootfilePathCorrected | src/main/java/draylar/rose/api/Epub.java:139-149 | with `find`: null when no container or no marker; a thrown exception is always an out-of-bounds `substring` |
| Epub.RootfilePathCorrectedFound | src/main/java/draylar/rose/api/Epub.java:139-149 | the corrected version reads any quote-free value, the empty one included |
| Epub.EmptyRootfilePathThrows | src/main/java/draylar/rose/api/Epub.java:144 | as written, `full-path=""` with nothing after the quote throws; corrected, it gives the root |
| Epub.MissingRootfileGivesPath | src/main/java/draylar/rose/api/Epub.java:143 | as written, a container without `rootfile` yields the root joined with the version number; corrected, it gives null |
| Epub.DataDirectory | src/main/java/draylar/rose/api/Epub.java:151-154 | throws exactly when the root has no file name (null dereference) or that name has no '.' (out of bounds); otherwise the library data path joined with the name before its last '.' |
| Epub.EpubName | src/main/java/draylar/rose/api/Epub.java:153 | the last '.' of `<stem>.epub` is the one before the extension |
| Epub.DataDirectoryOfBook | src/main/java/draylar/rose/api/Epub.java:151-154 | the book `<dir>/<stem>.epub` keeps its data in `<library>/<stem>` |
| Epub.HrefOf | src/main/java/draylar/rose/api/Epub.java:206-209 | no line gives null; a thrown exception is always an out-of-bounds `substring` |
| Epub.CoverHrefIn | src/main/java/draylar/rose/api/Epub.java:204-219 | the id line is tried first; the property line is tried only when the id line yields null |
| Epub.IdLine | src/main/java/draylar/rose/api/Epub.java:205 | the first line containing `id="ID"`, with no contract of its own; Epub.CoverHrefById uses it |
| Epub.PropertyLine | src/main/java/draylar/rose/api/Epub.java:214 | the first line containing `properties="cover-image"`; Epub.PropertyLineAt states which line it finds |
| Epub.CoverHref | src/main/java/draylar/rose/api/Epub.java:199-219 | nothing is attempted unless the cover `meta` marker yields an id; an id that is found is looked up, first as `id="ID"` and then as the cover-image property, among the document's lines as `split("\n")` gives them |
| Epub.CoverHrefOfDocument | src/main/java/draylar/rose/api/Epub.java:199-209 | a package document whose cover `meta` names ID and whose first line holding `id="ID"` carries an href gives that href |
| Epub.CoverHrefById | src/main/java/draylar/rose/api/Epub.java:205-209 | the first line holding `id="ID"` gives the href when it has one |
| Epub.CoverHrefByProperty | src/main/java/draylar/rose/api/Epub.java:213-219 | when the id yields nothing, the first line marked `properties="cover-image"` decides |
| Epub.PropertyLineAt | src/main/java/draylar/rose/api/Epub.java:214 | the first line holding the property marker is the one found |
| Epub.CoverPath | src/main/java/draylar/rose/api/Epub.java:225-226 | directory + "/" + href, without the extra '/' when the directory already ends in one |
| Epub.CoverPathBesidePackage | src/main/java/draylar/rose/api/Epub.java:225-226 | an href naming a file beside the package document resolves to that file |
| Epub.CoverOf | src/main/java/draylar/rose/api/Epub.java:221-242 | a directory as package document gives null; a cover found is the text of some file of the book |
| Epub.CoverOfPackage | src/main/java/draylar/rose/api/Epub.java:181-186 | a book without an entry named exactly `content.opf` gives null |
| Epub.ReadCover | src/main/java/draylar/rose/api/Epub.java:172-249 | a failing data directory fails first; an existing `cover.png` gives null; once the data directory is known and holds no `cover.png`, the cover is looked up through the first package document, so a book without one gives null |
| Epub.CoverOfFinds | src/main/java/draylar/rose/api/Epub.java:225-238 | the image is the first entry whose path equals the resolved location |
| Epub.ReadCoverFinds | src/main/java/draylar/rose/api/Epub.java:172-238 | every step traced: data directory, first package document, href, location, image file |
| Book.Fresh | src/main/java/draylar/rose/api/Epub.java:289-297 | metadata exactly when the package document is read, parses, and has a `metadata` element |
| Book.LoadMetadata | src/main/java/draylar/rose/api/Epub.java:283-305 | answers true exactly when metadata is cached and not forced, and then changes nothing; a failed load (no package document, a parse failure, no `metadata` element) changes nothing; otherwise only metadata changes, to the freshly loaded value; nothing else changes |
| Book.LoadMetadataCorrected | src/main/java/draylar/rose/api/Epub.java:275-282 | the same state change, answering true exactly when metadata was cached and not forced or has just been loaded; false leaves the book unchanged |
| Book.ForcedLoadAnswersFalse | src/main/java/draylar/rose/api/Epub.java:298-304 | a forced load answers false |
| Book.SuccessfulLoadReported | src/main/java/draylar/rose/api/Epub.java:297-304 | a load that finds metadata stores it; corrected it answers true, as written false |
| Book.LoadMetadataCached | src/main/java/draylar/rose/api/Epub.java:284-286 | once metadata is loaded, an unforced load changes nothing and answers true |
| Book.SamplePackageRead | src/main/java/draylar/rose/api/Epub.java:76-79 | the package document of a one-file book is found after the root directory |
| Book.SampleLoadAnswersFalse | src/main/java/draylar/rose/api/Epub.java:283-305 | the sample book's forced load stores the sample metadata yet answers false; corrected it answers true |
| Book.Collect | src/main/java/draylar/rose/api/Epub.java:327-336 | entries are built in order, and the list stops exactly at the first child missing an attribute |
| Book.ManifestEntryOf | src/main/java/draylar/rose/api/Epub.java:331-334 | an `item` gives an entry exactly when it has `id`, `href` and `media-type`, and the entry holds those values |
| Book.SpineEntryOf | src/main/java/draylar/rose/api/Epub.java:367-368 | an `itemref` gives an entry exactly when it has `idref` |
| Book.EntriesOf | src/main/java/draylar/rose/api/Epub.java:325-336 | no element with the tag gives nothing; otherwise the entries of the element children of the first one |
| Book.Reload | src/main/java/draylar/rose/api/Epub.java:312-340 | an unreadable or unparsable package document gives the empty list |
| Book.LoadManifest | src/main/java/draylar/rose/api/Epub.java:307-341 | a cached manifest is kept unless forced; otherwise it is rebuilt; nothing else changes |
| Book.LoadSpine | src/main/java/draylar/rose/api/Epub.java:343-375 | a cached spine is kept unless forced; otherwise it is rebuilt; nothing else changes |
| Book.CollectAll | src/main/java/draylar/rose/api/Epub.java:327-336 | when every child carries its attributes, every child becomes an entry, in document order |
| Book.CollectStops | src/main/java/draylar/rose/api/Epub.java:331-339 | a child missing an attribute ends the list at its position |
| Book.LoadManifestStable | src/main/java/draylar/rose/api/Epub.java:307-341 | an unforced reload keeps the manifest, and a forced reload rebuilds the same list |
| Book.LoadSpineStable | src/main/java/draylar/rose/api/Epub.java:343-375 | an unforced reload keeps the spine, and a forced reload rebuilds the same list |
| Book.GetMetadata | src/main/java/draylar/rose/api/Epub.java:377-384 | cached metadata is returned as is; otherwise the fresh load's value, null when it failed |
| Book.GetManifest | src/main/java/draylar/rose/api/Epub.java:386-393 | the cached manifest or a freshly built one, which is then cached |
| Book.GetSpine | src/main/java/draylar/rose/api/Epub.java:395-401 | the cached spine or a freshly built one, which is then cached |
| Book.GetSpineEntry | src/main/java/draylar/rose/api/Epub.java:412-422 | returns exactly when `0 <= index < size`, giving `spine[index]`; otherwise `IndexOutOfBoundsException`; a negative index touches nothing |
| Book.SpineEntriesReachable | src/main/java/draylar/rose/api/Epub.java:412-422 | every entry of a loaded spine is reachable by its index; -1 and the size both throw |
| Book.ReadSection | src/main/java/draylar/rose/api/Epub.java:424-433 | "" when no manifest id equals the idref; otherwise the read through the href of the first matching entry |
| Book.ReadSectionFinds | src/main/java/draylar/rose/api/Epub.java:424-433 | the section is the text of the first path containing the matching entry's href |
| Book.Open | src/main/java/draylar/rose/api/Epub.java:46-50 | a new book caches no manifest or spine and has the freshly loaded metadata |
| Book.OpenThenGetMetadata | src/main/java/draylar/rose/api/Epub.java:377-384 | `getMetadata` on a new book gives the freshly loaded metadata |

## Left out

- The zip file system. The book is the list of its entries in walk order, and reading an entry yields its text. `Files.walk`, `readString` and I/O errors other than reading a directory are not modelled.
- XML parsing. `DocumentBuilder` is the parameter `parse`, and `normalize()` is assumed to be done by it.
- The web view. `getSize`/`offsetHeight` and the floating-point `height`/`width` are the oracle `fits`. The load-state listener, the JavaScript bridge, `console.log` and the `CompletableFuture` are plumbing around the page breaker.
- Fragment extraction. `HTMLHelper` is not part of this model, so the page breaker takes the body's fragments as given.
- `extractImages`, `initializeDataDirectory`, `getImageDirectory` and the image threads. These copy files and make directories.
- The cover image.
  - ReadCover: returns the cover file's text instead of a decoded `BufferedImage`, because `ImageIO` decoding is a foreign library.
  - The `coverImage` cache and `getCoverImage` are not modelled.
  - The final "Failed to save cover image" message is not modelled.
  - The existence test for `cover.png` is the parameter `onDisk`.
- `toAbsolutePath` and path normalisation. Paths are taken as absolute strings as the zip file system gives them.
- Archive.PathsGet: does not model the normalisation `Paths.get` does on Unix: a `more` that begins with '/' is not collapsed into one separator, and a trailing '/' is not dropped. The program passes only relative `full-path` and `href` values, which have neither.
- `printStackTrace` and other logging.
- Metadata.From: "no field is null" holds trivially, because Dafny strings cannot be null.
- The UI of `Rose` other than the LEFT/RIGHT handler. Scene setup, the library scan and its threads are outside the core.
- Strings.Split: its contract states only that the result is non-empty. What it computes is stated by Strings.SplitJoin for joined inputs, and other inputs are not characterised.
- Archive.FileName: an empty path is taken to have no file name. Java gives the empty path itself, but the walk never yields one.

## Findings

| source | as written | input that shows it | evidently intended | confidence | as-written member | corrected member |
|---|---|---|---|---|---|---|
| src/main/java/draylar/rose/api/Epub.java:144 | the closing quote is searched from `start + 1`, skipping the value's first character | container text `<rootfile full-path=""/>`: the quote at `start` is skipped, no quote follows, and `substring(start, -1)` throws | search from `start`, reading an empty value as empty | not executed; high | Epub.EmptyRootfilePathThrows | Epub.RootfilePathCorrected |
| src/main/java/draylar/rose/api/Epub.java:143 | a missing `rootfile` marker is not noticed: -1 plus the marker length, 20, is used as the start | container text `<container version="1.0">` yields the path `root/1.0` | null when the container names no package document, as `find` does | not executed; high | Epub.MissingRootfileGivesPath | Epub.RootfilePathCorrected |
| src/main/java/draylar/rose/api/Epub.java:297-304 | after a successful parse the method falls through to `return false` | the sample book with `force` set: its metadata is stored, and the answer is false | true when the metadata could be loaded, as the method's documentation (line 281) says | not executed; high | Book.SampleLoadAnswersFalse | Book.LoadMetadataCorrected |
| src/main/java/draylar/rose/api/HeightHelper.java:128-132 | the overflowing fragment has already been removed from the queue and is not put back | fragments "a", "b", "c" with room for one per page give pages "a" and "c" | the fragment starts the next page, as the image branch re-queues its fragment | not executed; medium | Pagination.OverflowDropsFragment | Pagination.PaginateCarryingConserves |

The as-written members are the ones the rest of the model uses. They are what the program does, and every other property is stated about them. Book.SuccessfulLoadReported proves the corrected answer for every successful load. Pagination.RunCarrying is the corrected page breaker: on overflow, a non-empty page is flushed and the fragment is offered again; an overflowing fragment on an empty page gets a page of its own.

Places where the program's own comments and its code disagree. In each case the model follows the code.

- The Javadoc of `calculatePages` (HeightHelper.java:21-25) says that each element of the result is a single page of the given HTML content and that no page surpasses the screen height. The code does not meet this:
  - it drops a fragment that overflows (Pagination.OverflowDropsFragment);
  - it can emit an empty page (Pagination.EmptyPagePossible);
  - it puts the last fragment on the last page whatever its size (HeightHelper.java:95-99, Pagination.StepLast).
- The comment at HeightHelper.java:105 says images are always on a new page. The last-fragment branch at lines 95-99 is tested first, so an image that arrives last shares the page before it (Pagination.LastImageNotIsolated).
- An empty body is joined into the empty string (HeightHelper.java:41). The script splits that into one empty fragment, so Java receives one empty page rather than none (Transport.EmptyBodyGivesOneEmptyPage).
- Passing the body as one string joined with `%and%` (HeightHelper.java:41) returns the list only under a condition.
  - Strings.SeparatorFree is sufficient (Strings.SplitJoin). It is necessary for every piece but the last; the last piece need only not contain the separator.
  - A fragment without '%' always meets it.
  - It is not enough that no fragment contains `%and%` (Transport.FragmentsMerge).
