/** The provider's state-changing operations on a blob container: WriteAsync
    and both DeleteAsync overloads. Its queries (ReadAsync, ExistsAsync,
    TryGetStoredItemTypeAsync, GetInformationAsync) are the functions of the
    Writing, Resolution and Information modules applied to the container's
    `names` and `blobs`. */
module AzureProvider {
  import opened Strings
  import opened Outcomes
  import opened BlobStore
  import opened Resolution
  import opened Writing
  import opened Deletion
  import opened Information

  /** Divergence: a Create write stores the pointer as the exact key, but
      ExistsAsync and GetInformationAsync look it up by its trimmed text.
      After " a" is written, reading " a" gives its bytes and a second Create
      of " a" is refused, yet " a" does not exist and has no information. */
  lemma LeadingSpaceWrittenButAbsent(b: Blob)
    ensures Read(map[" a" := b], " a") == Ok(b.content)
    ensures WriteCheck(Create, " a" in map[" a" := b]) == Fail(FileAlreadyExists)
    ensures !Exists([" a"], " a", '/')
    ensures GetInformation([" a"], map[" a" := b], " a", '/') == Err(FileNotFound)
  {
    assert Trim(" a") == "a" by {
      assert TrimEnd(" a") == " a";
      assert TrimStart(" a") == TrimStart("a");
    }
    assert !StartsWith(" a", "a");
  }

  class AzureBlobStorageProvider {
    /** The directory separator of the configuration. */
    const separator: char
    const container: BlobContainer

    constructor (container: BlobContainer, separator: char)
      ensures this.container == container && this.separator == separator
    {
      this.container := container;
      this.separator := separator;
    }

    /** WriteAsync: unless the mode is CreateOrReplace, checks whether a blob
        has exactly the target name and refuses as WriteCheck says; otherwise
        uploads the content with overwrite, after which reading the pointer
        gives the new bytes and every other blob is as it was. */
    method Write(request: WriteRequest, createdOn: Timestamp, lastModified: Timestamp) returns (outcome: Outcome)
      requires container.Valid()
      modifies container
      ensures container.Valid()
      ensures outcome == WriteCheck(request.writeMode, request.storagePointer in old(container.blobs))
      ensures outcome.Fail? ==> container.names == old(container.names) && container.blobs == old(container.blobs)
      ensures outcome.Pass? ==>
        && Upserts(old(container.names), container.names, request.storagePointer)
        && container.blobs == old(container.blobs)[request.storagePointer := Blob(request.content, createdOn, lastModified)]
      ensures outcome.Pass? ==> Read(container.blobs, request.storagePointer) == Ok(request.content)
      ensures outcome.Pass? ==>
        forall k :: k != request.storagePointer ==> Read(container.blobs, k) == Read(old(container.blobs), k)
    {
      var pointer := request.storagePointer;
      if request.writeMode != CreateOrReplace {
        var present := pointer in container.blobs;
        if request.writeMode == Create && present {
          return Fail(FileAlreadyExists);
        }
        if request.writeMode == Replace && !present {
          return Fail(FileNotFound);
        }
      }
      container.Upload(pointer, Blob(request.content, createdOn, lastModified));
      outcome := Pass;
    }

    /** Deletes each listed blob by name, in order. */
    method DeleteListed(listed: seq<String>)
      requires container.Valid()
      requires Distinct(listed) && forall i :: 0 <= i < |listed| ==> listed[i] in container.names
      modifies container
      ensures container.Valid()
      ensures container.names == WithoutKeys(old(container.names), listed)
      ensures SubMap(container.blobs, old(container.blobs))
    {
      ghost var before := container.names;
      WithoutNoKeys(before);
      var j := 0;
      while j < |listed|
        invariant 0 <= j <= |listed|
        invariant forall i :: j <= i < |listed| ==> listed[i] in container.names
        invariant container.Valid()
        invariant container.names == WithoutKeys(before, listed[..j])
        invariant SubMap(container.blobs, old(container.blobs))
      {
        DeleteStep(before, listed, j, container.names);
        ghost var blobsBefore := container.blobs;
        container.DeleteBlob(listed[j]);
        SubMapRemoval(container.blobs, blobsBefore, old(container.blobs), listed[j]);
        j := j + 1;
      }
      assert listed[..j] == listed;
    }

    /** The body of the delete loop for one pointer: lists the blobs under
        `prefix` and deletes each listed blob by name. */
    method DeleteUnder(prefix: String)
      requires container.Valid()
      modifies container
      ensures container.Valid()
      ensures container.names == WithoutPrefix(old(container.names), prefix)
      ensures SubMap(container.blobs, old(container.blobs))
    {
      var listed := Listing(container.names, prefix);
      WithoutKeysIsWithoutPrefix(container.names, listed, prefix);
      DeleteListed(listed);
    }

    /** DeleteAsync(pointers): for each pointer in turn, lists the blobs whose
        names start with its delete prefix and deletes each of them. The
        result is AfterDeletes; no blob is added or altered, and afterwards
        none of the pointers exists. */
    method DeleteBatch(pointers: seq<String>)
      requires container.Valid()
      modifies container
      ensures container.Valid()
      ensures container.names == AfterDeletes(old(container.names), pointers, separator)
      ensures SubMap(container.blobs, old(container.blobs))
      ensures forall i :: 0 <= i < |pointers| ==> !Exists(container.names, pointers[i], separator)
    {
      for i := 0 to |pointers|
        invariant container.Valid()
        invariant container.names == AfterDeletes(old(container.names), pointers[..i], separator)
        invariant SubMap(container.blobs, old(container.blobs))
      {
        DeleteUnder(Normalized(pointers[i], separator));
        assert pointers[..i + 1][..i] == pointers[..i];
      }
      assert pointers[..|pointers|] == pointers;
      DeletedPointersDoNotExist(old(container.names), pointers, separator);
    }

    /** DeleteAsync(pointer): the batch delete of the one pointer. */
    method Delete(pointer: String)
      requires container.Valid()
      modifies container
      ensures container.Valid()
      ensures container.names == AfterDeletes(old(container.names), [pointer], separator)
      ensures SubMap(container.blobs, old(container.blobs))
      ensures !Exists(container.names, pointer, separator)
    {
      DeleteBatch([pointer]);
    }
  }
}
