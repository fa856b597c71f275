/** The information record GetInformationAsync builds for a pointer: the
    resolved type, the name and directory path split out of the pointer, and
    for a file the blob's size and times. */
module Information {
  import opened Strings
  import opened Outcomes
  import opened BlobStore
  import opened Resolution

  datatype StoredItemInformation = StoredItemInformation(
    name: String,
    directoryPath: String,
    storagePointer: String,
    storedType: StoredItemType,
    size: Option<nat>,
    createdTimestamp: Option<Timestamp>,
    lastModifiedTimestamp: Option<Timestamp>)

  /** The name and directory path split out of a pointer. */
  datatype PathSplit = PathSplit(name: String, directoryPath: String)

  /** `.Where(w => !string.IsNullOrWhiteSpace(w))`: the non-blank segments, in order. */
  function NonBlank(segments: seq<String>): (r: seq<String>)
    ensures forall x :: x in r <==> x in segments && !IsNullOrWhiteSpace(x)
  {
    if segments == [] then []
    else if IsNullOrWhiteSpace(segments[0]) then NonBlank(segments[1..])
    else [segments[0]] + NonBlank(segments[1..])
  }

  /** Filtering a concatenation filters each half, in order. */
  lemma {:induction false} NonBlankAppend(a: seq<String>, b: seq<String>)
    ensures NonBlank(a + b) == NonBlank(a) + NonBlank(b)
    decreases |a|
  {
    if a == [] {
      assert a + b == b;
    } else {
      assert (a + b)[0] == a[0] && (a + b)[1..] == a[1..] + b;
      NonBlankAppend(a[1..], b);
      if !IsNullOrWhiteSpace(a[0]) {
        assert NonBlank(a + b) == [a[0]] + (NonBlank(a[1..]) + NonBlank(b));
      }
    }
  }

  /** One segment is kept exactly when it is not blank. */
  lemma NonBlankOne(x: String)
    ensures NonBlank([x]) == if IsNullOrWhiteSpace(x) then [] else [x]
  {
    assert [x][1..] == [];
  }

  /** One step of the filter: the head is kept exactly when it is not blank. */
  lemma NonBlankCons(x: String, rest: seq<String>)
    ensures NonBlank([x] + rest) == if IsNullOrWhiteSpace(x) then NonBlank(rest) else [x] + NonBlank(rest)
  {
    assert ([x] + rest)[1..] == rest;
  }

  /** The non-blank segments of a pointer split on the separator. */
  function PathParts(pointer: String, sep: char): (r: seq<String>)
    ensures forall i :: 0 <= i < |r| ==> r[i] in Split(pointer, sep)
    ensures forall i :: 0 <= i < |r| ==> sep !in r[i] && !IsNullOrWhiteSpace(r[i])
  {
    var r := NonBlank(Split(pointer, sep));
    assert forall i :: 0 <= i < |r| ==> r[i] in r;
    r
  }

  /** `List.Remove(x)`: the list without the first element equal to `x`. */
  function RemoveFirst(xs: seq<String>, x: String): (r: seq<String>)
    ensures x !in xs ==> r == xs
    ensures x in xs ==> |r| == |xs| - 1
  {
    if xs == [] then []
    else if xs[0] == x then xs[1..]
    else [xs[0]] + RemoveFirst(xs[1..], x)
  }

  /** `List.Remove` of a present element takes away one copy of it and keeps
      every other element. */
  lemma {:induction false} RemoveFirstCount(xs: seq<String>, x: String)
    requires x in xs
    ensures multiset(RemoveFirst(xs, x)) == multiset(xs) - multiset{x}
  {
    assert xs == [xs[0]] + xs[1..];
    if xs[0] != x {
      RemoveFirstCount(xs[1..], x);
    }
  }

  /** The split of lines 111-119: the last non-blank segment is the name, the
      other segments, less the first one equal to the name, joined with the
      separator are the directory path. With no non-blank segment `Last()`
      throws. */
  function SplitPath(pointer: String, sep: char): (r: Result<PathSplit>)
    ensures r.Err? <==> PathParts(pointer, sep) == []
    ensures r.Err? ==> r.error == InvalidOperation
    ensures r.Ok? ==> r.value.name in Split(pointer, sep)
    ensures r.Ok? ==> sep !in r.value.name && !IsNullOrWhiteSpace(r.value.name)
  {
    var parts := PathParts(pointer, sep);
    if parts == [] then Err(InvalidOperation)
    else
      var name := parts[|parts| - 1];
      Ok(PathSplit(name, Join(RemoveFirst(parts, name), sep)))
  }

  /** A pointer has no non-blank segment exactly when every character of it
      is the separator or white space; that is when the split fails. */
  lemma NoPartsIffOnlySeparatorsAndBlanks(pointer: String, sep: char)
    ensures PathParts(pointer, sep) == [] <==>
      forall i :: 0 <= i < |pointer| ==> pointer[i] == sep || IsWhiteSpace(pointer[i])
  {
    var parts := Split(pointer, sep);
    JoinSplit(pointer, sep);
    if PathParts(pointer, sep) == [] {
      assert forall x :: x in parts ==> IsNullOrWhiteSpace(x);
      forall i | 0 <= i < |pointer|
        ensures pointer[i] == sep || IsWhiteSpace(pointer[i])
      {
        var c := pointer[i];
        JoinCharsFrom(parts, sep, c);
        if c != sep {
          var x :| x in parts && c in x;
          var j :| 0 <= j < |x| && x[j] == c;
        }
      }
    } else {
      var x := PathParts(pointer, sep)[0];
      assert x in parts && !IsNullOrWhiteSpace(x);
      var j :| 0 <= j < |x| && !IsWhiteSpace(x[j]);
      assert sep !in x by {
        var k :| 0 <= k < |parts| && parts[k] == x;
      }
      JoinCharsOf(parts, sep, x, x[j]);
      var i :| 0 <= i < |pointer| && pointer[i] == x[j];
    }
  }

  /** `List.Remove` drops the element at the first index holding `x` and
      keeps every other element in order. */
  lemma {:induction false} RemoveFirstAt(xs: seq<String>, x: String, i: nat)
    requires i < |xs| && xs[i] == x && x !in xs[..i]
    ensures RemoveFirst(xs, x) == xs[..i] + xs[i + 1..]
    decreases i
  {
    if i > 0 {
      assert xs[0] == xs[..i][0];
      assert xs[1..][..i - 1] == xs[..i][1..];
      RemoveFirstAt(xs[1..], x, i - 1);
      assert xs[..i] == [xs[0]] + xs[1..][..i - 1];
      assert xs[i + 1..] == xs[1..][i..];
    }
  }

  /** The split as written, for every pointer with a path part: the name is
      the last part, and the directory path is the parts without the one at
      `i`, the first index holding the name, joined with the separator. */
  lemma SplitPathAt(pointer: String, sep: char, i: nat)
    requires var parts := PathParts(pointer, sep);
      parts != [] && i < |parts| && parts[i] == parts[|parts| - 1] && parts[|parts| - 1] !in parts[..i]
    ensures var parts := PathParts(pointer, sep);
      SplitPath(pointer, sep) == Ok(PathSplit(parts[|parts| - 1], Join(parts[..i] + parts[i + 1..], sep)))
  {
    var parts := PathParts(pointer, sep);
    RemoveFirstAt(parts, parts[|parts| - 1], i);
  }

  /** Removing the one occurrence of the last element leaves the rest. */
  lemma {:induction false} RemoveFirstOfLast(xs: seq<String>, x: String)
    requires x !in xs
    ensures RemoveFirst(xs + [x], x) == xs
  {
    if xs != [] {
      assert (xs + [x])[1..] == xs[1..] + [x];
      RemoveFirstOfLast(xs[1..], x);
      assert xs == [xs[0]] + xs[1..];
    }
  }

  /** When the name occurs once among the segments, the directory path is
      the segments before it joined with the separator, so joining the
      directory path and the name gives back the pointer's segments. */
  lemma SplitPathWithUniqueName(pointer: String, sep: char)
    requires var parts := PathParts(pointer, sep);
      parts != [] && parts[|parts| - 1] !in parts[..|parts| - 1]
    ensures var parts := PathParts(pointer, sep);
      SplitPath(pointer, sep) == Ok(PathSplit(parts[|parts| - 1], Join(parts[..|parts| - 1], sep)))
  {
    var parts := PathParts(pointer, sep);
    assert parts == parts[..|parts| - 1] + [parts[|parts| - 1]];
    RemoveFirstOfLast(parts[..|parts| - 1], parts[|parts| - 1]);
  }

  /** The pointer made of the given separator-free, non-blank segments has
      exactly those segments as its path parts. */
  lemma PathPartsOfJoin(parts: seq<String>, sep: char)
    requires |parts| >= 1
    requires forall i :: 0 <= i < |parts| ==> sep !in parts[i] && !IsNullOrWhiteSpace(parts[i])
    ensures PathParts(Join(parts, sep), sep) == parts
  {
    SplitJoin(parts, sep);
    NonBlankOfNonBlank(parts);
  }

  /** The parts of a pointer joined from separator-free segments are its
      non-blank segments, in order and with repeats: "/a//b/" has the parts
      "a" and "b". */
  lemma PathPartsOfSegments(segments: seq<String>, sep: char)
    requires |segments| >= 1
    requires forall i :: 0 <= i < |segments| ==> sep !in segments[i]
    ensures PathParts(Join(segments, sep), sep) == NonBlank(segments)
  {
    SplitJoin(segments, sep);
  }

  /** Blank segments drop out anywhere: "/x//y/" has the parts x and y. */
  lemma PathPartsSkipBlanks(x: String, y: String, sep: char)
    requires IsSegment(x, sep) && IsSegment(y, sep)
    ensures PathParts([sep] + x + [sep, sep] + y + [sep], sep) == [x, y]
  {
    JoinWithBlanks(x, y, sep);
    PathPartsOfSegments([[], x, [], y, []], sep);
    NonBlankWithBlanks(x, y);
  }

  lemma JoinWithBlanks(x: String, y: String, sep: char)
    ensures Join([[], x, [], y, []], sep) == [sep] + x + [sep, sep] + y + [sep]
  {
    var segments: seq<String> := [[], x, [], y, []];
    assert Join(segments[3..], sep) == y + [sep];
    assert Join(segments[1..], sep) == x + [sep, sep] + y + [sep];
  }

  lemma NonBlankWithBlanks(x: String, y: String)
    requires !IsNullOrWhiteSpace(x) && !IsNullOrWhiteSpace(y)
    ensures NonBlank([[], x, [], y, []]) == [x, y]
  {
    var blank: String := [];
    assert IsNullOrWhiteSpace(blank);
    var t1: seq<String> := [blank];
    var t2 := [y] + t1;
    var t3 := [blank] + t2;
    var t4 := [x] + t3;
    NonBlankCons(blank, []);
    assert [blank] + [] == t1;
    NonBlankCons(y, t1);
    NonBlankCons(blank, t2);
    NonBlankCons(x, t3);
    NonBlankCons(blank, t4);
    assert [blank] + t4 == [[], x, [], y, []];
  }

  lemma {:induction false} NonBlankOfNonBlank(parts: seq<String>)
    requires forall i :: 0 <= i < |parts| ==> !IsNullOrWhiteSpace(parts[i])
    ensures NonBlank(parts) == parts
  {
    if parts != [] {
      NonBlankOfNonBlank(parts[1..]);
      assert parts == [parts[0]] + parts[1..];
    }
  }

  /** A segment a pointer can be built from: no separator, not blank. */
  predicate IsSegment(x: String, sep: char)
  {
    sep !in x && !IsNullOrWhiteSpace(x)
  }

  /** The pointer joined from three segments has exactly those as its parts. */
  lemma PartsOfThree(x: String, y: String, z: String, sep: char)
    requires IsSegment(x, sep) && IsSegment(y, sep) && IsSegment(z, sep)
    ensures PathParts(Join([x, y, z], sep), sep) == [x, y, z]
  {
    assert forall i :: 0 <= i < 3 ==> IsSegment([x, y, z][i], sep);
    PathPartsOfJoin([x, y, z], sep);
  }

  /** A pointer "x/y/z" whose name z differs from x and y splits into the
      name z and the directory "x/y". */
  lemma SplitPathOfNestedFile(x: String, y: String, z: String, sep: char)
    requires IsSegment(x, sep) && IsSegment(y, sep) && IsSegment(z, sep)
    requires z != x && z != y
    ensures SplitPath(Join([x, y, z], sep), sep) == Ok(PathSplit(z, x + [sep] + y))
  {
    PartsOfThree(x, y, z, sep);
    assert [x, y, z][1..] == [y, z] && [y, z][1..] == [z];
    assert RemoveFirst([x, y, z], z) == [x, y];
    JoinTwo(x, y, sep);
  }

  /** Divergence: the directory path drops the FIRST segment equal to the
      name, so "x/y/x" gets the directory "y/x" instead of "x/y" (for
      example "a/b/a" gives "b/a"). */
  lemma SplitPathRemovesFirstMatch(x: String, y: String, sep: char)
    requires IsSegment(x, sep) && IsSegment(y, sep)
    ensures SplitPath(Join([x, y, x], sep), sep) == Ok(PathSplit(x, y + [sep] + x))
  {
    PartsOfThree(x, y, x, sep);
    assert RemoveFirst([x, y, x], x) == [y, x];
    JoinTwo(y, x, sep);
  }

  /** A pointer that resolves, has a blob of its exact name when it is a
      file, and has a path part, gets an information record of its type. */
  lemma InformationFound(names: seq<String>, blobs: map<String, Blob>, pointer: String, sep: char, t: StoredItemType)
    requires ResolveType(names, pointer, sep) == Some(t)
    requires t == File ==> pointer in blobs
    requires PathParts(pointer, sep) != []
    ensures GetInformation(names, blobs, pointer, sep).Ok?
    ensures GetInformation(names, blobs, pointer, sep).value.storedType == t
  {
  }

  /** GetInformationAsync: FileNotFound when the pointer resolves to nothing;
      for a file the blob's properties are fetched by the pointer as given,
      which the service refuses when no blob has exactly that name; then the
      path is split. The record names the pointer as given, carries the
      resolved type, and for a directory has no size and no times. */
  function GetInformation(names: seq<String>, blobs: map<String, Blob>, pointer: String, sep: char)
    : (r: Result<StoredItemInformation>)
    ensures r == Err(FileNotFound) <==> ResolveType(names, pointer, sep).None?
    ensures r == Err(BlobNotFound) <==> ResolveType(names, pointer, sep) == Some(File) && pointer !in blobs
    ensures r == Err(InvalidOperation) <==>
      && ResolveType(names, pointer, sep).Some?
      && !(ResolveType(names, pointer, sep) == Some(File) && pointer !in blobs)
      && PathParts(pointer, sep) == []
    ensures r.Ok? ==> ResolveType(names, pointer, sep) == Some(r.value.storedType)
    ensures r.Ok? ==> r.value.storagePointer == pointer
    ensures r.Ok? ==> SplitPath(pointer, sep) == Ok(PathSplit(r.value.name, r.value.directoryPath))
    ensures r.Ok? && r.value.storedType == Directory ==>
      r.value.size.None? && r.value.createdTimestamp.None? && r.value.lastModifiedTimestamp.None?
    ensures r.Ok? && r.value.storedType == File ==>
      && pointer in blobs
      && r.value.size == Some(|blobs[pointer].content|)
      && r.value.createdTimestamp == Some(blobs[pointer].createdOn)
      && r.value.lastModifiedTimestamp == Some(blobs[pointer].lastModified)
  {
    match ResolveType(names, pointer, sep)
    case None => Err(FileNotFound)
    case Some(t) =>
      if t == File && pointer !in blobs then Err(BlobNotFound)
      else
        match SplitPath(pointer, sep)
        case Err(e) => Err(e)
        case Ok(path) =>
          var props := if t == File then Some(blobs[pointer]) else None;
          Ok(StoredItemInformation(
            path.name,
            path.directoryPath,
            pointer,
            t,
            if props.Some? then Some(|props.value.content|) else None,
            if props.Some? then Some(props.value.createdOn) else None,
            if props.Some? then Some(props.value.lastModified) else None))
  }

  /** Divergence: the verdict trims the pointer, but the properties are
      fetched under the pointer as given. "a " finds the file "a", so it
      exists, yet its information fails with the service's BlobNotFound. */
  lemma UntrimmedPointerBlobNotFound(b: Blob)
    ensures ResolveType(["a"], "a ", '/') == Some(File) && Exists(["a"], "a ", '/')
    ensures GetInformation(["a"], map["a" := b], "a ", '/') == Err(BlobNotFound)
  {
    UntrimmedResolvesFile();
    assert "a " !in map["a" := b];
  }

  lemma UntrimmedResolvesFile()
    ensures ResolveType(["a"], "a ", '/') == Some(File)
  {
    assert Trim("a ") == "a" by {
      assert TrimEnd("a ") == "a";
    }
    TrimOfTrimmed("a");
    assert StartsWith("a", "a");
    assert Normalized("a ", '/') == "a" && Normalized("a", '/') == "a";
  }
}
