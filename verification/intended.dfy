/** The corrected definitions behind the findings: resolution and deletion
    that compare normalized, case-folded names and respect the separator
    boundary, and a path split that takes the directory as the segments
    before the name. */
module Intended {
  import opened Strings
  import opened Outcomes
  import opened BlobStore
  import opened Resolution
  import opened Information
  import opened AzureProvider

  /** The form in which names and pointers are compared: trimmed, stripped of
      trailing separators, case-folded. */
  function Key(s: String, sep: char): String
  {
    Fold(Normalized(s, sep))
  }

  /** Spellings that differ only in case have one comparison form, provided
      the separator is not itself a letter. */
  lemma KeyIgnoresCase(a: String, b: String, sep: char)
    requires !IsAsciiLetter(sep) && EqualsIgnoreCase(a, b)
    ensures Key(a, sep) == Key(b, sep)
  {
    FoldTrimEndChar(Trim(a), sep);
    FoldTrimEndChar(Trim(b), sep);
    FoldTrim(a);
    FoldTrim(b);
  }

  /** A name whose comparison form is `f` is the item whose comparison form
      is `q` or lies beneath it: the forms are equal, or `f` continues `q`
      with a separator. The empty form is the root and holds every name. */
  predicate Beneath(f: String, q: String, sep: char)
  {
    q == [] || f == q || StartsWith(f, q + [ToLower(sep)])
  }

  /** The name `k` is the item `p` names or lies beneath it. */
  predicate Within(k: String, p: String, sep: char)
  {
    Beneath(Key(k, sep), Key(p, sep), sep)
  }

  /** The comparison forms of the listed names, in listing order. */
  function Forms(names: seq<String>, sep: char): (r: seq<String>)
    ensures |r| == |names|
  {
    if names == [] then []
    else [Key(names[0], sep)] + Forms(names[1..], sep)
  }

  /** The form at a place is the comparison form of the name there. */
  lemma {:induction false} FormAt(names: seq<String>, sep: char, i: nat)
    requires i < |names|
    ensures Forms(names, sep)[i] == Key(names[i], sep)
    decreases i
  {
    if i > 0 {
      FormAt(names[1..], sep, i - 1);
      assert names[1..][i - 1] == names[i];
    }
  }

  /** Resolution of a comparison form against the listed forms, one at a
      time: File when some form is `q`, else Directory when some form lies
      beneath it, else nothing. */
  function ResolveForm(forms: seq<String>, q: String, sep: char): Option<StoredItemType>
  {
    if forms == [] then None
    else
      var rest := ResolveForm(forms[1..], q, sep);
      if forms[0] == q || rest == Some(File) then Some(File)
      else if Beneath(forms[0], q, sep) || rest == Some(Directory) then Some(Directory)
      else None
  }

  /** ResolveForm answers File exactly when `q` is among the forms, and
      nothing exactly when no form is `q` or lies beneath it. */
  lemma {:induction false} ResolveFormMeaning(forms: seq<String>, q: String, sep: char)
    ensures ResolveForm(forms, q, sep) == Some(File) <==> q in forms
    ensures ResolveForm(forms, q, sep).None? <==> forall f :: f in forms ==> !Beneath(f, q, sep)
    decreases |forms|
  {
    if forms != [] {
      var rest := forms[1..];
      HeadTail(forms);
      ResolveFormMeaning(rest, q, sep);
      MembersOfCons(forms[0], rest);
    }
  }

  /** Resolution with a boundary check, on the pointer's comparison form. */
  function ResolveTypeIntended(names: seq<String>, p: String, sep: char): (r: Option<StoredItemType>)
    ensures r == Some(File) <==> exists k :: k in names && Key(k, sep) == Key(p, sep)
    ensures r.None? <==> forall k :: k in names ==> !Within(k, p, sep)
  {
    var forms := Forms(names, sep);
    ResolveFormMeaning(forms, Key(p, sep), sep);
    FormsMembers(names, sep);
    ResolveForm(forms, Key(p, sep), sep)
  }

  /** A form is listed exactly when some listed name has it. */
  lemma FormsMembers(names: seq<String>, sep: char)
    ensures forall f :: f in Forms(names, sep) <==> exists k :: k in names && Key(k, sep) == f
  {
    var forms := Forms(names, sep);
    forall f | f in forms
      ensures exists k :: k in names && Key(k, sep) == f
    {
      var i :| 0 <= i < |forms| && forms[i] == f;
      FormAt(names, sep, i);
      assert names[i] in names;
    }
    forall k | k in names
      ensures Key(k, sep) in forms
    {
      var i :| 0 <= i < |names| && names[i] == k;
      FormAt(names, sep, i);
      assert forms[i] == Key(k, sep);
    }
  }

  /** Two pointers that differ only in case resolve identically. */
  lemma IntendedResolveIgnoresCase(names: seq<String>, a: String, b: String, sep: char)
    requires !IsAsciiLetter(sep) && EqualsIgnoreCase(a, b)
    ensures ResolveTypeIntended(names, a, sep) == ResolveTypeIntended(names, b, sep)
  {
    KeyIgnoresCase(a, b, sep);
  }

  /** Wherever the provider answers File, the corrected resolution does too. */
  lemma WrittenFileIsIntendedFile(names: seq<String>, p: String, sep: char)
    requires ResolveType(names, p, sep) == Some(File)
    ensures ResolveTypeIntended(names, p, sep) == Some(File)
  {
    var listed := Listing(names, Trim(p));
    assert listed != [] && listed[0] in listed;
    assert listed[0] in names && Key(listed[0], sep) == Key(p, sep);
  }

  /** Corrected: every stored blob name resolves to a file, whatever white
      space surrounds it, since both sides are compared by their trimmed
      form. */
  lemma StoredPointerIsIntendedFile(names: seq<String>, p: String, sep: char)
    requires p in names
    ensures ResolveTypeIntended(names, p, sep) == Some(File)
  {
    assert Key(p, sep) == Key(p, sep);
  }

  /** Corrected: after " a" is written, " a" is a file. */
  lemma IntendedFindsLeadingSpace()
    ensures ResolveTypeIntended([" a"], " a", '/') == Some(File)
  {
    StoredPointerIsIntendedFile([" a"], " a", '/');
  }

  /** A name with no surrounding white space, no trailing separator and no
      upper-case letter is its own comparison form. */
  lemma KeyOfPlain(s: String, sep: char)
    requires s == [] || (!IsWhiteSpace(s[0]) && !IsWhiteSpace(s[|s| - 1]) && s[|s| - 1] != sep)
    requires forall i :: 0 <= i < |s| ==> !('A' <= s[i] <= 'Z')
    ensures Key(s, sep) == s
  {
    TrimOfTrimmed(s);
    assert TrimEndChar(s, sep) == s;
    FoldAt(s);
    assert Fold(s) == s;
  }

  /** Resolution against a single form. */
  lemma ResolveFormOfOne(f: String, q: String, sep: char)
    ensures ResolveForm([f], q, sep)
         == if f == q then Some(File) else if Beneath(f, q, sep) then Some(Directory) else None
  {
    assert [f][1..] == [];
  }

  /** Resolution against a single name is resolution against its form. */
  lemma ResolveOfOne(k: String, p: String, sep: char)
    ensures ResolveTypeIntended([k], p, sep) == ResolveForm([Key(k, sep)], Key(p, sep), sep)
  {
    assert Forms([k], sep) == [Key(k, sep)];
  }

  lemma KeyOfMyfile()
    ensures Key("myfile", '/') == "myfile"
  {
    KeyOfPlain("myfile", '/');
  }

  lemma KeyOfSiblingFile()
    ensures Key("myfile2.txt", '/') == "myfile2.txt"
  {
    KeyOfPlain("myfile2.txt", '/');
  }

  lemma KeyOfChild()
    ensures Key("myfile/thing.txt", '/') == "myfile/thing.txt"
  {
    KeyOfPlain("myfile/thing.txt", '/');
  }

  lemma KeyOfSibling()
    ensures Key("myfile2/x", '/') == "myfile2/x"
  {
    KeyOfPlain("myfile2/x", '/');
  }

  lemma SiblingNotBeneath()
    ensures !Beneath("myfile2.txt", "myfile", '/')
  {
    assert "myfile2.txt"[6] != '/';
    assert ("myfile" + [ToLower('/')])[6] == '/';
  }

  /** A sibling that merely shares the pointer's text is not beneath it. */
  lemma IntendedResolveKeepsSiblingOut()
    ensures ResolveTypeIntended(["myfile2.txt"], "myfile", '/') == None
  {
    KeyOfMyfile();
    KeyOfSiblingFile();
    SiblingNotBeneath();
    ResolveOfOne("myfile2.txt", "myfile", '/');
    ResolveFormOfOne("myfile2.txt", "myfile", '/');
  }

  /** A trailing separator on the pointer does not hide the file. */
  lemma IntendedResolveFindsTrailingSeparator()
    ensures ResolveTypeIntended(["a"], "a/", '/') == Some(File)
  {
    TrimOfTrimmed("a/");
    assert Normalized("a/", '/') == "a";
    KeyOfPlain("a", '/');
  }

  lemma OtherCaseSameKey()
    ensures Key("MyFile", '/') == Key("myfile", '/')
  {
    FoldAt("MyFile");
    FoldAt("myfile");
    assert Fold("MyFile") == "myfile";
    assert Fold("myfile") == "myfile";
    KeyIgnoresCase("MyFile", "myfile", '/');
  }

  /** Another spelling of the name finds the file. */
  lemma IntendedResolveFindsOtherCase()
    ensures ResolveTypeIntended(["MyFile"], "myfile", '/') == Some(File)
  {
    OtherCaseSameKey();
    assert "MyFile" in ["MyFile"];
  }

  /** The listing without the names within `p`. */
  function WithoutWithin(names: seq<String>, p: String, sep: char): (r: seq<String>)
    ensures forall k :: k in r <==> k in names && !Within(k, p, sep)
  {
    if names == [] then []
    else if Within(names[0], p, sep) then WithoutWithin(names[1..], p, sep)
    else [names[0]] + WithoutWithin(names[1..], p, sep)
  }

  /** The names within `p`, in listing order: what a corrected delete of `p`
      deletes. */
  function WithinListing(names: seq<String>, p: String, sep: char): (r: seq<String>)
    ensures forall k :: k in r <==> k in names && Within(k, p, sep)
  {
    if names == [] then []
    else if Within(names[0], p, sep) then [names[0]] + WithinListing(names[1..], p, sep)
    else WithinListing(names[1..], p, sep)
  }

  /** The names within `p` are listed once each. */
  lemma {:induction false} WithinListingDistinct(names: seq<String>, p: String, sep: char)
    requires Distinct(names)
    ensures Distinct(WithinListing(names, p, sep))
    decreases |names|
  {
    if names != [] {
      var rest := WithinListing(names[1..], p, sep);
      DistinctTail(names);
      WithinListingDistinct(names[1..], p, sep);
      if Within(names[0], p, sep) {
        assert names[0] !in rest by {
          assert names[0] !in names[1..];
        }
        DistinctCons(names[0], rest);
      }
    }
  }

  /** Removing exactly the names within `p` is the filter by `Within`. */
  lemma {:induction false} WithoutKeysIsWithoutWithin(names: seq<String>, keys: seq<String>, p: String, sep: char)
    requires forall k :: k in names ==> (k in keys <==> Within(k, p, sep))
    ensures WithoutKeys(names, keys) == WithoutWithin(names, p, sep)
    decreases |names|
  {
    if names != [] {
      assert names[0] in names;
      WithoutKeysIsWithoutWithin(names[1..], keys, p, sep);
    }
  }

  /** The names a corrected delete of the pointers, one after another, leaves. */
  function RemainingAfterDelete(names: seq<String>, ps: seq<String>, sep: char): seq<String>
    decreases |ps|
  {
    if ps == [] then names
    else WithoutWithin(RemainingAfterDelete(names, ps[..|ps| - 1], sep), ps[|ps| - 1], sep)
  }

  /** The name is within one of the pointers. */
  predicate WithinAny(k: String, ps: seq<String>, sep: char)
    decreases |ps|
  {
    ps != [] && (WithinAny(k, ps[..|ps| - 1], sep) || Within(k, ps[|ps| - 1], sep))
  }

  /** A name within any one pointer of a list is within the list. */
  lemma {:induction false} WithinOneOfThem(k: String, ps: seq<String>, i: nat, sep: char)
    requires i < |ps| && Within(k, ps[i], sep)
    ensures WithinAny(k, ps, sep)
    decreases |ps|
  {
    if i < |ps| - 1 {
      WithinOneOfThem(k, ps[..|ps| - 1], i, sep);
    }
  }

  /** The corrected delete leaves exactly the names within none of the
      pointers, whatever the order of the pointers. */
  lemma {:induction false} RemainingAfterDeleteMembers(names: seq<String>, ps: seq<String>, sep: char)
    ensures forall k :: k in RemainingAfterDelete(names, ps, sep) <==> k in names && !WithinAny(k, ps, sep)
    decreases |ps|
  {
    if ps != [] {
      RemainingAfterDeleteMembers(names, ps[..|ps| - 1], sep);
    }
  }

  /** After the corrected delete none of the deleted pointers exists. */
  lemma IntendedDeletedDoNotExist(names: seq<String>, ps: seq<String>, sep: char)
    ensures forall i :: 0 <= i < |ps| ==> ResolveTypeIntended(RemainingAfterDelete(names, ps, sep), ps[i], sep).None?
  {
    RemainingAfterDeleteMembers(names, ps, sep);
    forall i, k | 0 <= i < |ps| && k in RemainingAfterDelete(names, ps, sep)
      ensures !Within(k, ps[i], sep)
    {
      if Within(k, ps[i], sep) {
        WithinOneOfThem(k, ps, i, sep);
      }
    }
  }

  /** Deleting a pointer that does not exist changes nothing. */
  lemma {:induction false} IntendedDeleteOfAbsentIsNoOp(names: seq<String>, p: String, sep: char)
    requires ResolveTypeIntended(names, p, sep).None?
    ensures RemainingAfterDelete(names, [p], sep) == names
  {
    assert [p][..0] == [];
    WithoutNothingWithin(names, p, sep);
  }

  lemma {:induction false} WithoutNothingWithin(names: seq<String>, p: String, sep: char)
    requires forall k :: k in names ==> !Within(k, p, sep)
    ensures WithoutWithin(names, p, sep) == names
    decreases |names|
  {
    if names != [] {
      var rest := names[1..];
      HeadTail(names);
      assert names[0] in names;
      assert forall k :: k in rest ==> k in names;
      WithoutNothingWithin(rest, p, sep);
    }
  }

  /** The corrected delete of one pointer from a listing of two names. */
  lemma RemainingOfTwo(a: String, b: String, p: String, sep: char)
    ensures RemainingAfterDelete([a, b], [p], sep)
         == (if Within(a, p, sep) then [] else [a]) + (if Within(b, p, sep) then [] else [b])
  {
    RemainingOfOne([a, b], p, sep);
    WithoutWithinOfTwo(a, b, p, sep);
  }

  lemma RemainingOfOne(names: seq<String>, p: String, sep: char)
    ensures RemainingAfterDelete(names, [p], sep) == WithoutWithin(names, p, sep)
  {
    assert [p][..0] == [];
  }

  lemma WithoutWithinOfTwo(a: String, b: String, p: String, sep: char)
    ensures WithoutWithin([a, b], p, sep)
         == (if Within(a, p, sep) then [] else [a]) + (if Within(b, p, sep) then [] else [b])
  {
    assert [a, b][1..] == [b];
    WithoutWithinOfOne(b, p, sep);
  }

  lemma WithoutWithinOfOne(b: String, p: String, sep: char)
    ensures WithoutWithin([b], p, sep) == if Within(b, p, sep) then [] else [b]
  {
    assert [b][1..] == [];
  }

  lemma ChildBeneathSiblingNot()
    ensures Beneath("myfile/thing.txt", "myfile", '/')
    ensures !Beneath("myfile2/x", "myfile", '/')
  {
    assert "myfile2/x"[6] != '/';
    assert ("myfile" + [ToLower('/')])[6] == '/';
    assert "myfile/thing.txt"[..7] == "myfile" + [ToLower('/')];
  }

  lemma ChildWithin()
    ensures Within("myfile/thing.txt", "myfile", '/')
  {
    KeyOfMyfile();
    KeyOfChild();
    ChildBeneathSiblingNot();
  }

  lemma SiblingNotWithin()
    ensures !Within("myfile2/x", "myfile", '/')
  {
    KeyOfMyfile();
    KeyOfSibling();
    ChildBeneathSiblingNot();
  }

  /** Deleting "myfile" removes "myfile/thing.txt" and keeps "myfile2/x". */
  lemma IntendedDeleteKeepsSibling()
    ensures RemainingAfterDelete(["myfile/thing.txt", "myfile2/x"], ["myfile"], '/') == ["myfile2/x"]
  {
    ChildWithin();
    SiblingNotWithin();
    RemainingOfTwo("myfile/thing.txt", "myfile2/x", "myfile", '/');
  }

  /** The corrected split: the last non-blank segment is the name and the
      segments before it, joined with the separator, are the directory path. */
  function SplitPathIntended(pointer: String, sep: char): (r: Result<PathSplit>)
    ensures r.Err? <==> PathParts(pointer, sep) == []
    ensures r.Err? ==> r.error == InvalidOperation
    ensures r.Ok? ==> r.value.name in Split(pointer, sep)
  {
    var parts := PathParts(pointer, sep);
    if parts == [] then Err(InvalidOperation)
    else Ok(PathSplit(parts[|parts| - 1], Join(parts[..|parts| - 1], sep)))
  }

  /** Joining one more part adds a separator and the part. */
  lemma {:induction false} JoinSnoc(parts: seq<String>, x: String, sep: char)
    requires |parts| >= 1
    ensures Join(parts + [x], sep) == Join(parts, sep) + [sep] + x
    decreases |parts|
  {
    if |parts| > 1 {
      JoinSnoc(parts[1..], x, sep);
      assert (parts + [x])[1..] == parts[1..] + [x];
    }
  }

  /** Joining the directory path and the name gives back the pointer's
      non-blank segments joined with the separator. */
  lemma SplitPathIntendedRejoins(pointer: String, sep: char)
    requires SplitPathIntended(pointer, sep).Ok?
    ensures var parts := PathParts(pointer, sep);
      var s := SplitPathIntended(pointer, sep).value;
      Join(parts, sep) == if |parts| == 1 then s.name else s.directoryPath + [sep] + s.name
    ensures var parts := PathParts(pointer, sep);
      |parts| == 1 ==> SplitPathIntended(pointer, sep).value.directoryPath == []
  {
    var parts := PathParts(pointer, sep);
    if |parts| > 1 {
      JoinSnoc(parts[..|parts| - 1], parts[|parts| - 1], sep);
      assert parts[..|parts| - 1] + [parts[|parts| - 1]] == parts;
    }
  }

  /** Splitting the pointer made of separator-free, non-blank segments gives
      the last segment and the others joined. */
  lemma SplitPathIntendedOfJoin(segments: seq<String>, sep: char)
    requires |segments| >= 1
    requires forall i :: 0 <= i < |segments| ==> sep !in segments[i] && !IsNullOrWhiteSpace(segments[i])
    ensures SplitPathIntended(Join(segments, sep), sep)
         == Ok(PathSplit(segments[|segments| - 1], Join(segments[..|segments| - 1], sep)))
  {
    PathPartsOfJoin(segments, sep);
  }

  /** Where the name occurs once among the segments, the provider's split is
      the corrected one. */
  lemma SplitPathAgreesWhenNameUnique(pointer: String, sep: char)
    requires var parts := PathParts(pointer, sep);
      parts != [] && parts[|parts| - 1] !in parts[..|parts| - 1]
    ensures SplitPath(pointer, sep) == SplitPathIntended(pointer, sep)
  {
    SplitPathWithUniqueName(pointer, sep);
  }

  /** Corrected: "x/y/x" gives the name x in the directory "x/y" (for
      example "a/b/a" gives "a/b"). */
  lemma SplitPathIntendedOfRepeatedName(x: String, y: String, sep: char)
    requires IsSegment(x, sep) && IsSegment(y, sep)
    ensures SplitPathIntended(Join([x, y, x], sep), sep) == Ok(PathSplit(x, x + [sep] + y))
  {
    PartsOfThree(x, y, x, sep);
    assert [x, y, x][..2] == [x, y];
    JoinTwo(x, y, sep);
  }

  /** The first stored name with the pointer's comparison form: the blob a
      File verdict was reached through. */
  function StoredKey(names: seq<String>, p: String, sep: char): (r: Option<String>)
    ensures r.Some? ==> r.value in names && Key(r.value, sep) == Key(p, sep)
    ensures r.None? <==> forall k :: k in names ==> Key(k, sep) != Key(p, sep)
  {
    if names == [] then None
    else if Key(names[0], sep) == Key(p, sep) then Some(names[0])
    else StoredKey(names[1..], p, sep)
  }

  /** The corrected GetInformationAsync: the type is the corrected verdict,
      and for a file the properties are read from, and the record names, the
      stored blob the verdict found, whatever its case or surrounding white
      space. The name and directory path come from the corrected split of the
      pointer. */
  function GetInformationIntended(names: seq<String>, blobs: map<String, Blob>, pointer: String, sep: char)
    : (r: Result<StoredItemInformation>)
    ensures r == Err(FileNotFound) <==> ResolveTypeIntended(names, pointer, sep).None?
    ensures r.Ok? ==> ResolveTypeIntended(names, pointer, sep) == Some(r.value.storedType)
    ensures r.Ok? ==> SplitPathIntended(pointer, sep) == Ok(PathSplit(r.value.name, r.value.directoryPath))
    ensures r.Ok? && r.value.storedType == File ==>
      var k := r.value.storagePointer;
      && k in names && Key(k, sep) == Key(pointer, sep) && k in blobs
      && r.value.size == Some(|blobs[k].content|)
      && r.value.createdTimestamp == Some(blobs[k].createdOn)
      && r.value.lastModifiedTimestamp == Some(blobs[k].lastModified)
    ensures r.Ok? && r.value.storedType == Directory ==>
      && r.value.storagePointer == pointer
      && r.value.size.None? && r.value.createdTimestamp.None? && r.value.lastModifiedTimestamp.None?
  {
    match ResolveTypeIntended(names, pointer, sep)
    case None => Err(FileNotFound)
    case Some(t) =>
      var key := StoredKey(names, pointer, sep);
      if t == File && (key.None? || key.value !in blobs) then Err(BlobNotFound)
      else
        match SplitPathIntended(pointer, sep)
        case Err(e) => Err(e)
        case Ok(path) =>
          if t == File then
            var blob := blobs[key.value];
            Ok(StoredItemInformation(path.name, path.directoryPath, key.value, File,
              Some(|blob.content|), Some(blob.createdOn), Some(blob.lastModified)))
          else
            Ok(StoredItemInformation(path.name, path.directoryPath, pointer, t, None, None, None))
  }

  /** In a well-formed container every pointer with a path part that the
      corrected verdict makes a file gets its record, read from the stored
      blob of its comparison form. */
  lemma InformationIntendedFound(names: seq<String>, blobs: map<String, Blob>, pointer: String, sep: char)
    requires WellFormed(names, blobs)
    requires ResolveTypeIntended(names, pointer, sep) == Some(File)
    requires PathParts(pointer, sep) != []
    ensures GetInformationIntended(names, blobs, pointer, sep).Ok?
    ensures GetInformationIntended(names, blobs, pointer, sep).value.storedType == File
  {
    var key := StoredKey(names, pointer, sep);
    assert key.Some? && key.value in blobs;
  }

  /** Corrected: "a " finds the file "a", and its record names "a" and
      carries that blob's size. */
  lemma IntendedInformationOfUntrimmedPointer(b: Blob)
    ensures GetInformationIntended(["a"], map["a" := b], "a ", '/').Ok?
    ensures GetInformationIntended(["a"], map["a" := b], "a ", '/').value.storagePointer == "a"
    ensures GetInformationIntended(["a"], map["a" := b], "a ", '/').value.size == Some(|b.content|)
  {
    UntrimmedIsIntendedFile();
    UntrimmedHasParts();
    InformationIntendedOfOne("a", b, "a ", '/');
  }

  /** A one-blob container gives the blob's record to every pointer that
      resolves to it as a file. */
  lemma InformationIntendedOfOne(k: String, b: Blob, p: String, sep: char)
    requires ResolveTypeIntended([k], p, sep) == Some(File) && PathParts(p, sep) != []
    ensures GetInformationIntended([k], map[k := b], p, sep).Ok?
    ensures GetInformationIntended([k], map[k := b], p, sep).value.storagePointer == k
    ensures GetInformationIntended([k], map[k := b], p, sep).value.size == Some(|b.content|)
  {
    assert WellFormed([k], map[k := b]);
    InformationIntendedFound([k], map[k := b], p, sep);
  }

  lemma UntrimmedIsIntendedFile()
    ensures ResolveTypeIntended(["a"], "a ", '/') == Some(File)
  {
    assert Trim("a ") == "a" by {
      assert TrimEnd("a ") == "a";
    }
    TrimOfTrimmed("a");
    assert Key("a ", '/') == Key("a", '/');
    assert "a" in ["a"];
  }

  lemma UntrimmedHasParts()
    ensures PathParts("a ", '/') != []
  {
    NoPartsIffOnlySeparatorsAndBlanks("a ", '/');
    assert !IsWhiteSpace("a "[0]);
  }

  /** The corrected DeleteAsync(pointers) on a provider: for each pointer in
      turn, deletes exactly the blobs within it (the blob it names and those
      beneath it at a separator boundary, ignoring case), using the
      provider's own delete loop. Afterwards none of the pointers exists
      under the corrected resolution, and blobs within none of them are kept. */
  method DeleteBatchIntended(provider: AzureBlobStorageProvider, pointers: seq<String>)
    requires provider.container.Valid()
    modifies provider.container
    ensures provider.container.Valid()
    ensures provider.container.names == RemainingAfterDelete(old(provider.container.names), pointers, provider.separator)
    ensures SubMap(provider.container.blobs, old(provider.container.blobs))
    ensures forall i :: 0 <= i < |pointers| ==>
      ResolveTypeIntended(provider.container.names, pointers[i], provider.separator).None?
    ensures forall k :: k in old(provider.container.names) && !WithinAny(k, pointers, provider.separator) ==>
      k in provider.container.names
  {
    var sep := provider.separator;
    for i := 0 to |pointers|
      invariant provider.container.Valid()
      invariant provider.container.names == RemainingAfterDelete(old(provider.container.names), pointers[..i], sep)
      invariant SubMap(provider.container.blobs, old(provider.container.blobs))
    {
      var listed := WithinListing(provider.container.names, pointers[i], sep);
      WithinListingDistinct(provider.container.names, pointers[i], sep);
      WithoutKeysIsWithoutWithin(provider.container.names, listed, pointers[i], sep);
      provider.DeleteListed(listed);
      assert pointers[..i + 1][..i] == pointers[..i];
    }
    assert pointers[..|pointers|] == pointers;
    IntendedDeletedDoNotExist(old(provider.container.names), pointers, sep);
    RemainingAfterDeleteMembers(old(provider.container.names), pointers, sep);
  }
}
