# FileParty Azure blob storage provider, modelled in Dafny

`AzureBlobStorageProvider` makes a flat Azure blob container look like a file
system. Storage pointers such as `myfile/thing.txt` are compared with blob
names. A pointer is looked up by its trimmed text: the container lists the
blobs whose names start with that text, exactly and case-sensitively, and
the first blob listed decides. Both that blob's name and the pointer are
trimmed and stripped of trailing separators. The pointer is a *file* when the
two results are equal ignoring case, and a *directory* when they differ. When
nothing is listed, the pointer does not exist. So a pointer can be a file
although no blob has exactly its name ("a" with only the blob "a/"), and a
pointer can be a directory although a blob has its name, when another name
under it is listed first.

This project models the provider on an abstract container,
`BlobStore.BlobContainer`. The container is a class with two fields:
- `names`: the blob names in listing order, with no duplicates;
- `blobs`: a map from each name to its bytes and its two timestamps.

A prefix listing is an order-preserving filter of `names` by an exact-case
prefix test. Asking whether a blob with a given exact name exists is map
membership.

The operations are modelled as follows:
- **TryGetStoredItemType** is `Resolution.ResolveType`. The first listed blob
  under the trimmed pointer decides. The verdict is File when that blob's
  normalized name equals the normalized pointer, ignoring case. Otherwise it
  is Directory. With no listed blob there is no item.
- **ExistsAsync**, the single and batch forms, are `Resolution.Exists` and
  `Resolution.ExistsBatch`.
- **GetInformationAsync** is `Information.GetInformation`, with its path
  split `Information.SplitPath`.
- **ReadAsync** is `Writing.Read`.
- **WriteAsync** is the method `AzureProvider.AzureBlobStorageProvider.Write`.
- **DeleteAsync**, both forms, are the methods `Delete` and `DeleteBatch` of
  the same class. Their loops delete blob after blob from the container.

The .NET string operations the provider relies on are written out in module
`Strings`:
- `Trim` and `TrimEnd(char)`;
- `Split`, which keeps empty pieces;
- `Join`;
- `IsNullOrWhiteSpace`;
- the case-insensitive comparison.

The directory separator is the configuration's `'/'`. Every definition takes
it as a parameter `sep`.

The provider class models the code as written, including the divergences
listed under "## Findings". Module `Intended` holds the corrected
definitions and proves the intended properties about them. They are:
- boundary-checked, case-insensitive resolution (`ResolveTypeIntended`);
- a boundary-checked delete (`DeleteBatchIntended`), which drives the same
  container through the provider's own per-blob delete loop;
- a path split that takes the directory from the segments before the name
  (`SplitPathIntended`).

Module `Scenario` replays the repository's end-to-end test on any container.
Every assertion of that test follows from the contracts above.

## Model

| member | source | states |
|---|---|---|
| Strings.Trim | src/FileParty.Providers.Azure.Storage/AzureBlobStorageProvider.cs:78 | `string.Trim()`: the result is no longer than the input and neither starts nor ends with white space |
| Strings.TrimIsSlice | src/FileParty.Providers.Azure.Storage/AzureBlobStorageProvider.cs:78 | `Trim()` cuts only white space, and only at the two ends: the result is a slice of the input |
| Strings.TrimEndChar | src/FileParty.Providers.Azure.Storage/AzureBlobStorageProvider.cs:85-86 | `TrimEnd(separator)`: the result is a prefix of the input that does not end with the character, and only that character was cut off |
| Strings.IsNullOrWhiteSpace | src/FileParty.Providers.Azure.Storage/AzureBlobStorageProvider.cs:114 | `string.IsNullOrWhiteSpace`: empty, or white space only. `NoPartsIffOnlySeparatorsAndBlanks` and `PathPartsSkipBlanks` show which segments it drops |
| Strings.StartsWith | src/FileParty.Providers.Azure.Storage/AzureBlobStorageProvider.cs:78 | The service's ordinal, case-sensitive prefix test. `Listing` lists exactly the names it accepts; `StartsWithTransitive` lets a longer prefix imply a shorter one |
| Strings.EqualsIgnoreCase | src/FileParty.Providers.Azure.Storage/AzureBlobStorageProvider.cs:68 | Equality of the case-folded forms. `FoldTrim` and `FoldTrimEndChar` let it compare trimmed names, and `KeyIgnoresCase` gives spellings that differ in case one comparison form |
| Strings.Join | src/FileParty.Providers.Azure.Storage/AzureBlobStorageProvider.cs:119 | `string.Join(separator, parts)`: `JoinSplit` and `SplitJoin` make it the inverse of `Split` for separator-free parts, and `JoinTwo` gives two parts joined by one separator |
| Strings.Split | src/FileParty.Providers.Azure.Storage/AzureBlobStorageProvider.cs:113 | `Split(separator)` gives at least one piece, and no piece contains the separator |
| Strings.JoinSplit | src/FileParty.Providers.Azure.Storage/AzureBlobStorageProvider.cs:113 | Joining the split pieces with the separator gives back the string |
| Strings.SplitJoin | src/FileParty.Providers.Azure.Storage/AzureBlobStorageProvider.cs:113-119 | Splitting the join of separator-free pieces gives back the pieces |
| Strings.FoldTrim | src/FileParty.Providers.Azure.Storage/AzureBlobStorageProvider.cs:85-87 | Trimming commutes with case folding, so the trimmed forms compared ignoring case are the folded forms trimmed |
| Strings.FoldTrimEndChar | src/FileParty.Providers.Azure.Storage/AzureBlobStorageProvider.cs:85-87 | Stripping a separator that is not a letter commutes with case folding |
| BlobStore.Listing | src/FileParty.Providers.Azure.Storage/AzureBlobStorageProvider.cs:78 | A prefix listing holds exactly the names that start with the prefix, and lists each name once |
| BlobStore.BlobContainer.Upload | src/FileParty.Providers.Azure.Storage/AzureBlobStorageProvider.cs:167-170 | An upload with overwrite maps the key to the new blob and keeps every other blob. An existing key keeps its place in the listing; a new key is inserted once, at a position left open, and the other names keep their order |
| BlobStore.UpsertMembers | src/FileParty.Providers.Azure.Storage/AzureBlobStorageProvider.cs:167-170 | After an upload the listing holds exactly the old names and the key, still without repeats |
| BlobStore.BlobContainer.DeleteBlob | src/FileParty.Providers.Azure.Storage/AzureBlobStorageProvider.cs:203-204 | Deleting a blob by its exact name removes that name and nothing else; the blob must exist |
| BlobStore.WithoutKeysIsWithoutPrefix | src/FileParty.Providers.Azure.Storage/AzureBlobStorageProvider.cs:196-205 | Deleting each listed name one by one leaves exactly the names that do not start with the prefix, in listing order |
| BlobStore.DeleteStep | src/FileParty.Providers.Azure.Storage/AzureBlobStorageProvider.cs:200-205 | One step of the delete loop: the next listed blob still exists, and deleting it extends the deleted part of the listing by one |
| Resolution.Normalized | src/FileParty.Providers.Azure.Storage/AzureBlobStorageProvider.cs:85-86 | The compared form, trimmed and then stripped of trailing separators, is no longer than the input and does not end with the separator |
| Resolution.ResolveType | src/FileParty.Providers.Azure.Storage/AzureBlobStorageProvider.cs:74-93 | No item exactly when no blob name starts with the trimmed pointer |
| Resolution.FirstMatchDecides | src/FileParty.Providers.Azure.Storage/AzureBlobStorageProvider.cs:78-90 | Only the earliest matching blob decides: File exactly when its normalized name equals the normalized pointer ignoring case, otherwise Directory |
| Resolution.ListingEmpty | src/FileParty.Providers.Azure.Storage/AzureBlobStorageProvider.cs:78-82 | The enumeration yields nothing exactly when no name starts with the prefix |
| Resolution.Exists | src/FileParty.Providers.Azure.Storage/AzureBlobStorageProvider.cs:59-63 | A pointer exists exactly when it resolves to a type, that is, when some blob name starts with the trimmed pointer |
| Resolution.DistinctIgnoreCase | src/FileParty.Providers.Azure.Storage/AzureBlobStorageProvider.cs:68 | The de-duplicated pointers come from the input, and no two of them are equal ignoring case |
| Resolution.DistinctIgnoreCaseKeepsFirstSpelling | src/FileParty.Providers.Azure.Storage/AzureBlobStorageProvider.cs:68 | A pointer with no earlier case-insensitive equal is kept, so the first spelling survives |
| Resolution.DistinctIgnoreCaseCount | src/FileParty.Providers.Azure.Storage/AzureBlobStorageProvider.cs:68 | The de-duplicated pointers fold to exactly the folded forms of the input |
| Resolution.ExistsBatch | src/FileParty.Providers.Azure.Storage/AzureBlobStorageProvider.cs:65-72 | One entry per de-duplicated pointer, each first spelling is a key, and each value is that pointer's single existence check |
| Resolution.ExistsBatchSize | src/FileParty.Providers.Azure.Storage/AzureBlobStorageProvider.cs:67-71 | The answer has as many entries as there are case-insensitively distinct pointers |
| Resolution.ExistsBatchWithRepeat | src/FileParty.Providers.Azure.Storage/AzureBlobStorageProvider.cs:67-71 | `[A, A', B]`, where A' spells A in another case, gives exactly the keys A and B, each with its own existence |
| Resolution.CreateUnderNewDirectory | test/FileParty.Providers.Azure.Storage.Tests/AzureStorageTests.cs:56-73 | After a file is inserted anywhere in the listing under a directory nothing else is in, the file resolves to File and the directory to Directory |
| Resolution.StoredPointerExists | src/FileParty.Providers.Azure.Storage/AzureBlobStorageProvider.cs:59-63 | A blob name that does not start with white space exists as a pointer |
| Resolution.SiblingMakesDirectory | src/FileParty.Providers.Azure.Storage/AzureBlobStorageProvider.cs:78-89 | As written: the sibling blob "myfile2.txt" makes "myfile" resolve to Directory |
| Resolution.TrailingSeparatorNotFound | src/FileParty.Providers.Azure.Storage/AzureBlobStorageProvider.cs:78-87 | As written: "a/" and "a" have the same normalized form, yet "a/" finds nothing where "a" finds the file "a" |
| Resolution.CaseChangesVerdict | src/FileParty.Providers.Azure.Storage/AzureBlobStorageProvider.cs:78-87 | As written: "MyFile" and "myfile" are equal ignoring case, yet only "MyFile" finds the blob "MyFile" |
| Information.NonBlank | src/FileParty.Providers.Azure.Storage/AzureBlobStorageProvider.cs:114 | As a set, the kept segments are exactly those that are not null or white space |
| Information.NonBlankAppend | src/FileParty.Providers.Azure.Storage/AzureBlobStorageProvider.cs:114 | Filtering a concatenation filters each half and keeps their order, so order and repeats survive |
| Information.NonBlankOne | src/FileParty.Providers.Azure.Storage/AzureBlobStorageProvider.cs:114 | One segment is kept exactly when it is not blank |
| Information.NonBlankCons | src/FileParty.Providers.Azure.Storage/AzureBlobStorageProvider.cs:114 | The filter keeps the head in front of the filtered rest exactly when the head is not blank |
| Information.PathParts | src/FileParty.Providers.Azure.Storage/AzureBlobStorageProvider.cs:111-115 | Every path part is a non-blank piece of the split, with no separator in it |
| Information.PathPartsOfSegments | src/FileParty.Providers.Azure.Storage/AzureBlobStorageProvider.cs:111-115 | The parts of a pointer joined from any separator-free segments are its non-blank segments, in order and with repeats |
| Information.PathPartsSkipBlanks | src/FileParty.Providers.Azure.Storage/AzureBlobStorageProvider.cs:111-115 | Blank segments drop out at the ends and in the middle: "/x//y/" has the parts x and y |
| Information.RemoveFirst | src/FileParty.Providers.Azure.Storage/AzureBlobStorageProvider.cs:118 | `List.Remove`: an absent element changes nothing; a present one shortens the list by one |
| Information.RemoveFirstCount | src/FileParty.Providers.Azure.Storage/AzureBlobStorageProvider.cs:118 | Removing a present element takes away exactly one copy of it and keeps every other element |
| Information.RemoveFirstAt | src/FileParty.Providers.Azure.Storage/AzureBlobStorageProvider.cs:118 | `List.Remove` drops the element at the first index holding the value and keeps the others in order |
| Information.SplitPath | src/FileParty.Providers.Azure.Storage/AzureBlobStorageProvider.cs:111-119 | Fails with InvalidOperation exactly when there is no non-blank segment; otherwise the name is a non-blank, separator-free piece of the pointer |
| Information.SplitPathAt | src/FileParty.Providers.Azure.Storage/AzureBlobStorageProvider.cs:111-119 | For every pointer with a part, as written: the name is the last part, and the directory path is the parts, less the one at the first index holding the name, joined with the separator |
| Information.NoPartsIffOnlySeparatorsAndBlanks | src/FileParty.Providers.Azure.Storage/AzureBlobStorageProvider.cs:111-117 | There are no path parts, so `Last()` throws, exactly when every character is the separator or white space |
| Information.SplitPathWithUniqueName | src/FileParty.Providers.Azure.Storage/AzureBlobStorageProvider.cs:111-119 | When the name occurs once among the parts, the directory path is the parts before it joined with the separator |
| Information.PathPartsOfJoin | src/FileParty.Providers.Azure.Storage/AzureBlobStorageProvider.cs:111-115 | The pointer joined from non-blank, separator-free segments has exactly those segments as its parts |
| Information.PartsOfThree | src/FileParty.Providers.Azure.Storage/AzureBlobStorageProvider.cs:111-115 | The pointer "x/y/z" joined from three segments has exactly the parts x, y, z |
| Information.SplitPathOfNestedFile | src/FileParty.Providers.Azure.Storage/AzureBlobStorageProvider.cs:111-119 | "x/y/z", where the name z differs from x and y, splits into the name z and the directory "x/y" (so "a/b/c" gives "c" in "a/b") |
| Information.SplitPathRemovesFirstMatch | src/FileParty.Providers.Azure.Storage/AzureBlobStorageProvider.cs:117-118 | As written: "x/y/x" splits into the name x and the directory "y/x" (so "a/b/a" gives "a" in "b/a") |
| Information.InformationFound | src/FileParty.Providers.Azure.Storage/AzureBlobStorageProvider.cs:98-130 | A pointer that resolves, that has a blob of its exact name when it is a file, and that has a path part gets a record carrying its resolved type |
| Information.GetInformation | src/FileParty.Providers.Azure.Storage/AzureBlobStorageProvider.cs:96-133 | FileNotFound exactly when the pointer does not resolve. BlobNotFound exactly when the verdict is File but no blob has the exact name. InvalidOperation exactly when there is no path part. Otherwise: the resolved type; the pointer as given; the split name and directory path; no size or times for a directory; the blob's byte length and times for a file |
| Writing.Read | src/FileParty.Providers.Azure.Storage/AzureBlobStorageProvider.cs:47-57 | The exact blob's bytes when a blob has the pointer as its name; FileNotFound otherwise |
| Writing.WriteCheck | src/FileParty.Providers.Azure.Storage/AzureBlobStorageProvider.cs:141-153 | Create on an existing blob gives FileAlreadyExists, and Replace on a missing one gives FileNotFound, each exactly then; every other case passes, so CreateOrReplace always passes |
| Information.UntrimmedPointerBlobNotFound | src/FileParty.Providers.Azure.Storage/AzureBlobStorageProvider.cs:98-108 | As written: "a " finds the file "a", so it exists, yet its information fails with BlobNotFound, because the properties are fetched under "a " |
| AzureProvider.LeadingSpaceWrittenButAbsent | src/FileParty.Providers.Azure.Storage/AzureBlobStorageProvider.cs:135-171 | As written: after " a" is written, reading it gives its bytes and a second Create is refused, yet " a" does not exist and its information is FileNotFound |
| AzureProvider.AzureBlobStorageProvider.constructor | src/FileParty.Providers.Azure.Storage/AzureBlobStorageProvider.cs:24-33 | The provider keeps the container and the configured separator |
| AzureProvider.AzureBlobStorageProvider.Write | src/FileParty.Providers.Azure.Storage/AzureBlobStorageProvider.cs:135-171 | The outcome is WriteCheck on exact-name presence. A refused write changes nothing. A write that passes maps the pointer to the new content, so Read gives it back, and every other blob reads as before. A new pointer joins the listing once, at a position left open |
| AzureProvider.AzureBlobStorageProvider.DeleteListed | src/FileParty.Providers.Azure.Storage/AzureBlobStorageProvider.cs:199-205 | Deleting each listed blob by name, in order, removes exactly those names; no blob is added or altered |
| AzureProvider.AzureBlobStorageProvider.DeleteUnder | src/FileParty.Providers.Azure.Storage/AzureBlobStorageProvider.cs:196-205 | One pointer's listing and delete loop leaves exactly the names that do not start with the prefix |
| AzureProvider.AzureBlobStorageProvider.DeleteBatch | src/FileParty.Providers.Azure.Storage/AzureBlobStorageProvider.cs:189-207 | Deletes under each pointer's trimmed, separator-stripped prefix in turn. No blob is added or altered. Afterwards none of the pointers exists |
| AzureProvider.AzureBlobStorageProvider.Delete | src/FileParty.Providers.Azure.Storage/AzureBlobStorageProvider.cs:184-187 | Deleting one pointer is the batch delete of that pointer alone, and afterwards it does not exist |
| Deletion.AfterDeletes | src/FileParty.Providers.Azure.Storage/AzureBlobStorageProvider.cs:189-206 | The listing after the pointers' delete prefixes have been removed one after another. `AfterDeletesIsSurvivors` makes it one order-preserving filter, and `DeletedPointersDoNotExist` shows no deleted pointer exists afterwards |
| Deletion.Survivors | src/FileParty.Providers.Azure.Storage/AzureBlobStorageProvider.cs:194-205 | The names kept are exactly those that no pointer's delete prefix starts |
| Deletion.AfterDeletesIsSurvivors | src/FileParty.Providers.Azure.Storage/AzureBlobStorageProvider.cs:194-206 | Deleting pointer after pointer is one order-preserving filter: a name survives exactly when no delete prefix starts it |
| Deletion.DeletedPointersDoNotExist | src/FileParty.Providers.Azure.Storage/AzureBlobStorageProvider.cs:189-207 | After the batch delete no deleted pointer resolves, since its delete prefix is a prefix of its resolve prefix |
| Deletion.UnmatchedDeleteIsNoOp | src/FileParty.Providers.Azure.Storage/AzureBlobStorageProvider.cs:196-205 | A pointer whose prefix starts no name deletes nothing and raises no error |
| Deletion.DeleteRemovesSibling | src/FileParty.Providers.Azure.Storage/AzureBlobStorageProvider.cs:196-197 | As written: deleting "myfile" also deletes the sibling "myfile2/x" |
| Intended.KeyIgnoresCase | src/FileParty.Providers.Azure.Storage/AzureBlobStorageProvider.cs:85-87 | Spellings equal ignoring case have one comparison form, as long as the separator is not a letter |
| Intended.ResolveFormMeaning | src/FileParty.Providers.Azure.Storage/AzureBlobStorageProvider.cs:82-91 | Resolving against the listed comparison forms gives File exactly when the pointer's form is among them. It gives nothing exactly when no form is the pointer's or lies beneath it |
| Intended.FormsMembers | src/FileParty.Providers.Azure.Storage/AzureBlobStorageProvider.cs:85-87 | A comparison form is listed exactly when some blob name has it |
| Intended.ResolveTypeIntended | src/FileParty.Providers.Azure.Storage/AzureBlobStorageProvider.cs:74-93 | Corrected resolution. File exactly when some blob has the pointer's comparison form. No item exactly when no blob is the item or lies beneath it at a separator boundary |
| Intended.IntendedResolveIgnoresCase | src/FileParty.Providers.Azure.Storage/AzureBlobStorageProvider.cs:78-87 | Corrected resolution gives pointers that differ only in case the same verdict |
| Intended.WrittenFileIsIntendedFile | src/FileParty.Providers.Azure.Storage/AzureBlobStorageProvider.cs:74-93 | Wherever the provider answers File, the corrected resolution also answers File |
| Intended.IntendedResolveKeepsSiblingOut | src/FileParty.Providers.Azure.Storage/AzureBlobStorageProvider.cs:78-89 | Corrected: the sibling "myfile2.txt" does not make "myfile" exist |
| Intended.IntendedResolveFindsTrailingSeparator | src/FileParty.Providers.Azure.Storage/AzureBlobStorageProvider.cs:78-87 | Corrected: "a/" finds the file "a" |
| Intended.StoredPointerIsIntendedFile | src/FileParty.Providers.Azure.Storage/AzureBlobStorageProvider.cs:78-89 | Corrected: every stored blob name resolves to File, whatever white space surrounds it |
| Intended.IntendedFindsLeadingSpace | src/FileParty.Providers.Azure.Storage/AzureBlobStorageProvider.cs:78-89 | Corrected: after " a" is written, " a" is a file |
| Intended.StoredKey | src/FileParty.Providers.Azure.Storage/AzureBlobStorageProvider.cs:85-89 | The stored name the corrected File verdict was reached through: a listed name with the pointer's comparison form; none exactly when no name has it |
| Intended.GetInformationIntended | src/FileParty.Providers.Azure.Storage/AzureBlobStorageProvider.cs:96-133 | Corrected GetInformationAsync: FileNotFound exactly when the corrected verdict finds nothing. A file's record names the stored blob with the pointer's comparison form and carries that blob's size and times. A directory's record names the pointer and has no size or times |
| Intended.InformationIntendedFound | src/FileParty.Providers.Azure.Storage/AzureBlobStorageProvider.cs:96-133 | In a well-formed container, every pointer with a path part that the corrected verdict makes a file gets a File record |
| Intended.InformationIntendedOfOne | src/FileParty.Providers.Azure.Storage/AzureBlobStorageProvider.cs:96-133 | In a one-blob container, a pointer that resolves to that blob as a file gets a record naming the blob, with its size |
| Intended.IntendedInformationOfUntrimmedPointer | src/FileParty.Providers.Azure.Storage/AzureBlobStorageProvider.cs:105-128 | Corrected: "a " gets the record of the stored file "a", with its size |
| Intended.IntendedResolveFindsOtherCase | src/FileParty.Providers.Azure.Storage/AzureBlobStorageProvider.cs:78-87 | Corrected: "myfile" finds the file "MyFile" |
| Intended.WithinListing | src/FileParty.Providers.Azure.Storage/AzureBlobStorageProvider.cs:196-198 | The corrected delete listing holds exactly the names within the pointer |
| Intended.WithinListingDistinct | src/FileParty.Providers.Azure.Storage/AzureBlobStorageProvider.cs:196-198 | The corrected delete listing names each blob once |
| Intended.WithoutKeysIsWithoutWithin | src/FileParty.Providers.Azure.Storage/AzureBlobStorageProvider.cs:199-205 | Deleting the listed names one by one leaves exactly the names not within the pointer |
| Intended.RemainingAfterDeleteMembers | src/FileParty.Providers.Azure.Storage/AzureBlobStorageProvider.cs:189-207 | After the corrected delete a name is kept exactly when it is within none of the pointers |
| Intended.IntendedDeletedDoNotExist | src/FileParty.Providers.Azure.Storage/AzureBlobStorageProvider.cs:189-207 | After the corrected delete no deleted pointer resolves under the corrected resolution |
| Intended.IntendedDeleteOfAbsentIsNoOp | src/FileParty.Providers.Azure.Storage/AzureBlobStorageProvider.cs:196-205 | The corrected delete of a pointer that does not exist changes nothing |
| Intended.IntendedDeleteKeepsSibling | src/FileParty.Providers.Azure.Storage/AzureBlobStorageProvider.cs:196-197 | Corrected: deleting "myfile" removes "myfile/thing.txt" and keeps "myfile2/x" |
| Intended.DeleteBatchIntended | src/FileParty.Providers.Azure.Storage/AzureBlobStorageProvider.cs:189-207 | The corrected DeleteAsync on the provider's container. The listing becomes the corrected remainder and no blob is added or altered. Each pointer then resolves to nothing. Every blob within none of the pointers is kept |
| Intended.SplitPathIntended | src/FileParty.Providers.Azure.Storage/AzureBlobStorageProvider.cs:111-119 | Corrected split. It fails with InvalidOperation exactly when there is no non-blank segment; otherwise the name is a piece of the pointer |
| Intended.SplitPathIntendedRejoins | src/FileParty.Providers.Azure.Storage/AzureBlobStorageProvider.cs:111-119 | The directory path, a separator and the name rejoin to the pointer's parts joined; with one part the name is that part and the directory path is empty |
| Intended.SplitPathIntendedOfJoin | src/FileParty.Providers.Azure.Storage/AzureBlobStorageProvider.cs:111-119 | Round trip: splitting a pointer joined from non-blank, separator-free segments gives back the last segment and the others joined |
| Intended.SplitPathAgreesWhenNameUnique | src/FileParty.Providers.Azure.Storage/AzureBlobStorageProvider.cs:117-118 | When the name occurs once among the parts, the provider's split equals the corrected one |
| Intended.SplitPathIntendedOfRepeatedName | src/FileParty.Providers.Azure.Storage/AzureBlobStorageProvider.cs:117-118 | Corrected: "x/y/x" splits into the name x and the directory "x/y" (so "a/b/a" gives "a" in "a/b") |
| Scenario.ClearedDirectory | test/FileParty.Providers.Azure.Storage.Tests/AzureStorageTests.cs:43-47 | Once "myfile" does not exist, nothing under it exists, so "myfile/thing.txt" does not exist either |
| Scenario.CreatedFile | test/FileParty.Providers.Azure.Storage.Tests/AzureStorageTests.cs:56-73 | After "myfile/thing.txt" is created in the cleared key space, the file and "myfile" exist, and their records say File and Directory |
| Scenario.DoAllTheThingsOnce | test/FileParty.Providers.Azure.Storage.Tests/AzureStorageTests.cs:43-106 | On any container with the '/' separator, every assertion of the end-to-end test holds: absent after the clearing delete; file and directory exist after Create; their types are File and Directory; a second Create fails with FileAlreadyExists; CreateOrReplace then Read gives the new bytes; absent after Delete |

## Left out

- Connection strings, clients and container lookup (AzureBlobStorageProvider.cs:20-45) are replaced by the abstract `BlobContainer`.
- Tasks, cancellation tokens and the blocking wrappers over `.Wait()` and `.Result` (lines 209-255) are left out. Each operation is modelled once, synchronously.
- The progress handler and `WriteProgressEvent` (lines 138-139, 156-165, 229) are left out. Their callback timing is a concurrency matter. Each event would carry the request id, the pointer and the stream length.
- Streams are modelled as their bytes. The `AllowModificationsDuringRead` flag of `OpenReadAsync` (line 53) is not modelled.
- Server timestamps are not modelled as a clock. Write takes the creation and modification times as parameters, and the information record reports what the container holds.
- BlobStore.BlobContainer.Upload: the service lists names in name order, so "a" written beside "a/b" is listed first. The model leaves a new name's position in the listing open. It does not model name order. Results that depend on which blob is listed first, such as whether "a" is then a file or a directory, are not determined by the model. Results proved after a write hold wherever the name lands.
- BlobStore.BlobContainer.DeleteBlob, BlobStore.BlobContainer.Upload, AzureProvider.AzureBlobStorageProvider.Write, AzureProvider.AzureBlobStorageProvider.DeleteListed, AzureProvider.AzureBlobStorageProvider.DeleteUnder and AzureProvider.AzureBlobStorageProvider.DeleteBatch: the container never fails, and no other writer changes it during an operation. In the service, any call can throw. Causes include a network error, throttling, a 404 from a blob deleted concurrently between the listing (lines 196-199) and its delete (lines 203-204), and a delete the service refuses, such as for a blob with snapshots. The exception propagates, and nothing is rolled back. A delete that throws part-way keeps what it already deleted, for that pointer and for earlier ones. The contracts describe only complete runs.
- The batch existence check runs its single checks one after another; the model does not address concurrent changes to the container.
- Strings.EqualsIgnoreCase and Strings.Fold: case-insensitive comparison folds ASCII letters only. `InvariantCultureIgnoreCase` is a linguistic comparison. Beyond mapping the case of non-ASCII letters, it treats strings as equal when they differ only by ignorable code points, or when they are canonically equivalent (a precomposed letter and the same letter with a combining mark). The model treats all of these as different strings, in the batch de-duplication and in the File/Directory verdict.
- Strings.IsWhiteSpace: the white-space set is the one of .NET `char.IsWhiteSpace`, with UTF-16 code units modelled as Dafny characters. Surrogate pairs are not treated specially.
- The configuration class (Configs/AzureBlobBaseConfiguration.cs) is not modelled beyond its separator, `'/'` (line 10). `Scenario.DoAllTheThingsOnce` requires it.

## Findings

| source | as written | input that shows it | evidently intended | confidence | as-written member | corrected member |
|---|---|---|---|---|---|---|
| src/FileParty.Providers.Azure.Storage/AzureBlobStorageProvider.cs:196-205 | Delete removes every blob whose name starts with the pointer's text, with no separator-boundary check | deleting "myfile" from {"myfile/thing.txt", "myfile2/x"} | only the item and what lies beneath it at a separator are deleted, so "myfile2/x" is kept | not executed | Deletion.DeleteRemovesSibling | Intended.IntendedDeleteKeepsSibling |
| src/FileParty.Providers.Azure.Storage/AzureBlobStorageProvider.cs:78-89 | Resolution lists by the raw trimmed pointer, so a sibling that shares its text decides the verdict | "myfile" against the single blob "myfile2.txt" resolves to Directory | a pointer exists only when a blob is it or lies beneath it at a separator | not executed | Resolution.SiblingMakesDirectory | Intended.IntendedResolveKeepsSiblingOut |
| src/FileParty.Providers.Azure.Storage/AzureBlobStorageProvider.cs:78 | The listing prefix keeps a trailing separator, although the comparison strips it | "a/" against the single blob "a" resolves to nothing | "a/" names the same item as "a" | not executed | Resolution.TrailingSeparatorNotFound | Intended.IntendedResolveFindsTrailingSeparator |
| src/FileParty.Providers.Azure.Storage/AzureBlobStorageProvider.cs:78-87 | The listing is case-sensitive, although the File/Directory comparison ignores case | "myfile" against the single blob "MyFile" resolves to nothing | spellings that differ only in case resolve alike | not executed | Resolution.CaseChangesVerdict | Intended.IntendedResolveIgnoresCase |
| src/FileParty.Providers.Azure.Storage/AzureBlobStorageProvider.cs:78 | Lookups list by the trimmed pointer, but a write stores the exact pointer as its key (AzureBlobStorageProvider.cs:137, :167) | after " a" is written, reading " a" gives its bytes and a second Create fails, yet " a" does not exist and GetInformation fails with FileNotFound | a written file exists and has information | not executed | AzureProvider.LeadingSpaceWrittenButAbsent | Intended.StoredPointerIsIntendedFile |
| src/FileParty.Providers.Azure.Storage/AzureBlobStorageProvider.cs:105-108 | The verdict trims the pointer and ignores case, but a file's properties are fetched, and the record's pointer reported, under the pointer exactly as given (also line 127) | "a " against the single blob "a": Exists is true, yet GetInformation fails with BlobNotFound | a file's properties and reported pointer come from the stored blob the verdict found | not executed | Information.UntrimmedPointerBlobNotFound | Intended.GetInformationIntended |
| src/FileParty.Providers.Azure.Storage/AzureBlobStorageProvider.cs:117-118 | The directory path drops the first segment equal to the name | "a/b/a" (any "x/y/x") gives the directory "b/a" | the directory is the segments before the last one, "a/b" | not executed | Information.SplitPathRemovesFirstMatch | Intended.SplitPathIntendedOfRepeatedName |
