/** The provider's end-to-end test sequence (AzureStorageTests,
    DoAllTheThingsOnce), run against any container with the default '/'
    separator: every answer the test expects follows from the contracts of
    the operations. */
module Scenario {
  import opened Strings
  import opened Outcomes
  import opened BlobStore
  import opened Resolution
  import opened Information
  import opened Writing
  import opened AzureProvider

  /** The facts about the two pointers of the test that the sequence needs. */
  lemma TestPointers()
    ensures Trim("myfile/thing.txt") == "myfile/thing.txt" && Trim("myfile") == "myfile"
    ensures StartsWith("myfile/thing.txt", "myfile")
    ensures !EqualsIgnoreCase(Normalized("myfile/thing.txt", '/'), Normalized("myfile", '/'))
    ensures PathParts("myfile/thing.txt", '/') != [] && PathParts("myfile", '/') != []
  {
    TrimOfTrimmed("myfile/thing.txt");
    TrimOfTrimmed("myfile");
    assert TrimEndChar("myfile/thing.txt", '/') == "myfile/thing.txt";
    assert |Normalized("myfile", '/')| <= 6;
    NoPartsIffOnlySeparatorsAndBlanks("myfile/thing.txt", '/');
    NoPartsIffOnlySeparatorsAndBlanks("myfile", '/');
    assert !IsWhiteSpace('m') && 'm' != '/';
  }

  /** Once "myfile" does not exist, nothing under it does, and no blob has
      the file's name. */
  lemma ClearedDirectory(names: seq<String>)
    requires !Exists(names, "myfile", '/')
    ensures forall k :: k in names ==> !StartsWith(k, "myfile")
    ensures !Exists(names, "myfile/thing.txt", '/')
    ensures "myfile/thing.txt" !in names
  {
    TestPointers();
    forall k | k in names
      ensures !StartsWith(k, "myfile/thing.txt")
    {
      StartsWithAvoided(k, "myfile/thing.txt", "myfile");
    }
    assert StartsWith("myfile/thing.txt", "myfile/thing.txt");
  }

  /** After the file is created in the cleared key space, the file and its
      directory exist, and their information records say File and
      Directory. */
  lemma CreatedFile(cleared: seq<String>, names: seq<String>, blobs: map<String, Blob>, i: nat)
    requires forall k :: k in cleared ==> !StartsWith(k, "myfile")
    requires InsertedAt(cleared, names, "myfile/thing.txt", i)
    requires "myfile/thing.txt" in blobs
    ensures
      && Exists(names, "myfile/thing.txt", '/') && Exists(names, "myfile", '/')
      && GetInformation(names, blobs, "myfile/thing.txt", '/').Ok?
      && GetInformation(names, blobs, "myfile/thing.txt", '/').value.storedType == File
      && GetInformation(names, blobs, "myfile", '/').Ok?
      && GetInformation(names, blobs, "myfile", '/').value.storedType == Directory
  {
    TestPointers();
    CreateUnderNewDirectory(cleared, names, "myfile/thing.txt", "myfile", '/', i);
    InformationFound(names, blobs, "myfile/thing.txt", '/', File);
    InformationFound(names, blobs, "myfile", '/', Directory);
  }

  /** Clears "myfile", checks the file is absent, creates it, checks that the
      file and its directory exist and what their information says, fails to
      create it again, replaces it, reads it back, deletes it and checks that
      it is gone. */
  method DoAllTheThingsOnce(provider: AzureBlobStorageProvider, first: Bytes, second: Bytes, third: Bytes, now: Timestamp)
    returns (existedBefore: bool, existedAfterCreate: bool, directoryExists: bool,
             fileInfo: Result<StoredItemInformation>, directoryInfo: Result<StoredItemInformation>,
             secondCreate: Outcome, readBack: Result<Bytes>, existsAfterDelete: bool)
    requires provider.container.Valid() && provider.separator == '/'
    modifies provider.container
    ensures !existedBefore
    ensures existedAfterCreate && directoryExists
    ensures fileInfo.Ok? && fileInfo.value.storedType == File
    ensures directoryInfo.Ok? && directoryInfo.value.storedType == Directory
    ensures secondCreate == Fail(FileAlreadyExists)
    ensures readBack == Ok(third)
    ensures !existsAfterDelete
  {
    var container := provider.container;
    var pointer := "myfile/thing.txt";

    provider.Delete("myfile");
    ClearedDirectory(container.names);
    existedBefore := Exists(container.names, pointer, '/');
    ghost var cleared := container.names;

    var create := provider.Write(WriteRequest("request", pointer, first, Create), now, now);
    ghost var i :| InsertedAt(cleared, container.names, pointer, i);
    CreatedFile(cleared, container.names, container.blobs, i);
    existedAfterCreate := Exists(container.names, pointer, '/');
    directoryExists := Exists(container.names, "myfile", '/');
    fileInfo := GetInformation(container.names, container.blobs, pointer, '/');
    directoryInfo := GetInformation(container.names, container.blobs, "myfile", '/');

    secondCreate := provider.Write(WriteRequest("request", pointer, second, Create), now, now);
    var replaced := provider.Write(WriteRequest("request", pointer, third, CreateOrReplace), now, now);
    readBack := Read(container.blobs, pointer);

    provider.Delete(pointer);
    existsAfterDelete := Exists(container.names, pointer, '/');
  }
}
