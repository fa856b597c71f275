/** Deciding whether a storage pointer names a file, a directory or nothing,
    from a prefix listing of the flat key space (TryGetStoredItemTypeAsync),
    and the single and batch existence checks built on it (both ExistsAsync
    overloads). */
module Resolution {
  import opened Strings
  import opened Outcomes
  import opened BlobStore

  datatype StoredItemType = File | Directory

  /** A name or pointer as the provider compares them: trimmed, then stripped
      of trailing separators. This is also the prefix a delete lists by. */
  function Normalized(s: String, sep: char): (r: String)
    ensures |r| <= |s|
    ensures r == [] || r[|r| - 1] != sep
  {
    TrimEndChar(Trim(s), sep)
  }

  /** TryGetStoredItemType: list the blobs whose names start with the trimmed
      pointer; no blob means no item; otherwise the first listed blob alone
      decides: File when its normalized name equals the normalized pointer
      ignoring case, Directory when it does not. */
  function ResolveType(names: seq<String>, pointer: String, sep: char): (r: Option<StoredItemType>)
    ensures r.None? <==> forall k :: k in names ==> !StartsWith(k, Trim(pointer))
  {
    var listed := Listing(names, Trim(pointer));
    ListingEmpty(names, Trim(pointer));
    if listed == [] then None
    else if EqualsIgnoreCase(Normalized(listed[0], sep), Normalized(pointer, sep)) then Some(File)
    else Some(Directory)
  }

  /** A blob name that does not start with white space exists as a pointer:
      it starts with its own trimmed text. */
  lemma StoredPointerExists(names: seq<String>, p: String, sep: char)
    requires p in names && (p == [] || !IsWhiteSpace(p[0]))
    ensures Exists(names, p, sep)
  {
    TrimIsSlice(p);
    var k :| CutAt(p, Trim(p), k);
    assert k == 0;
    assert StartsWith(p, Trim(p));
  }

  /** A listing is empty exactly when no name starts with the prefix. */
  lemma ListingEmpty(names: seq<String>, prefix: String)
    ensures Listing(names, prefix) == [] <==> forall k :: k in names ==> !StartsWith(k, prefix)
  {
    var listed := Listing(names, prefix);
    if listed != [] {
      assert listed[0] in listed;
    }
  }

  /** The first blob a prefix listing returns is the earliest matching blob of
      the key space. */
  lemma {:induction false} ListingStartsWithFirstMatch(names: seq<String>, prefix: String, i: nat)
    requires i < |names| && StartsWith(names[i], prefix)
    requires forall j :: 0 <= j < i ==> !StartsWith(names[j], prefix)
    ensures Listing(names, prefix) != [] && Listing(names, prefix)[0] == names[i]
    decreases i
  {
    if i > 0 {
      assert !StartsWith(names[0], prefix);
      ListingStartsWithFirstMatch(names[1..], prefix, i - 1);
    }
  }

  /** The verdict is decided by the earliest blob (in listing order) whose name
      starts with the trimmed pointer, and by nothing else. */
  lemma FirstMatchDecides(names: seq<String>, pointer: String, sep: char, i: nat)
    requires i < |names| && StartsWith(names[i], Trim(pointer))
    requires forall j :: 0 <= j < i ==> !StartsWith(names[j], Trim(pointer))
    ensures ResolveType(names, pointer, sep)
         == Some(if EqualsIgnoreCase(Normalized(names[i], sep), Normalized(pointer, sep)) then File else Directory)
  {
    ListingStartsWithFirstMatch(names, Trim(pointer), i);
  }

  /** A blob added anywhere in a key space with nothing under `dir` makes
      its own name a file and `dir` a directory, when its name starts with
      `dir` and differs from it after normalizing, ignoring case. */
  lemma CreateUnderNewDirectory(names: seq<String>, after: seq<String>, key: String, dir: String, sep: char, i: nat)
    requires InsertedAt(names, after, key, i)
    requires Trim(key) == key && Trim(dir) == dir && StartsWith(key, dir)
    requires forall k :: k in names ==> !StartsWith(k, dir)
    requires !EqualsIgnoreCase(Normalized(key, sep), Normalized(dir, sep))
    ensures ResolveType(after, key, sep) == Some(File)
    ensures ResolveType(after, dir, sep) == Some(Directory)
  {
    assert after[i] == key;
    forall j | 0 <= j < i
      ensures !StartsWith(after[j], key) && !StartsWith(after[j], dir)
    {
      assert after[j] == names[j];
      assert names[j] in names;
      if StartsWith(after[j], key) {
        StartsWithTransitive(after[j], key, dir);
      }
    }
    FirstMatchDecides(after, key, sep, i);
    FirstMatchDecides(after, dir, sep, i);
  }

  /** ExistsAsync(pointer): the pointer resolves to a file or a directory, that
      is, some blob name starts with the trimmed pointer. */
  function Exists(names: seq<String>, pointer: String, sep: char): (r: bool)
    ensures r <==> exists k :: k in names && StartsWith(k, Trim(pointer))
  {
    ResolveType(names, pointer, sep).Some?
  }

  /** The case-folded forms of a list of pointers. */
  function Folds(ps: seq<String>): set<String>
  {
    set p | p in ps :: Fold(p)
  }

  /** No pointer before position `i` equals `ps[i]` ignoring case. */
  predicate FirstSpelling(ps: seq<String>, i: nat)
    requires i < |ps|
  {
    forall j :: 0 <= j < i ==> Fold(ps[j]) != Fold(ps[i])
  }

  /** Appending a pointer adds its folded form. */
  lemma FoldsSnoc(ps: seq<String>, x: String)
    ensures Folds(ps + [x]) == Folds(ps) + {Fold(x)}
  {
    assert forall p :: p in ps + [x] <==> p in ps || p == x;
  }

  /** `Distinct(StringComparer.InvariantCultureIgnoreCase)`: the pointers with
      later case-insensitive repeats dropped. What is kept comes from the
      input and no two kept pointers are equal ignoring case. */
  function DistinctIgnoreCase(ps: seq<String>): (r: seq<String>)
    ensures forall x :: x in r ==> x in ps
    ensures forall i, j :: 0 <= i < j < |r| ==> Fold(r[i]) != Fold(r[j])
  {
    if ps == [] then []
    else
      var init := ps[..|ps| - 1];
      var d := DistinctIgnoreCase(init);
      var x := ps[|ps| - 1];
      if exists y :: y in d && Fold(y) == Fold(x) then d
      else d + [x]
  }

  /** Every case-insensitive class of the input keeps exactly one member. */
  lemma {:induction false} DistinctIgnoreCaseCount(ps: seq<String>)
    ensures Folds(DistinctIgnoreCase(ps)) == Folds(ps)
    ensures |DistinctIgnoreCase(ps)| == |Folds(ps)|
    decreases |ps|
  {
    if ps != [] {
      var init := ps[..|ps| - 1];
      var d := DistinctIgnoreCase(init);
      var x := ps[|ps| - 1];
      DistinctIgnoreCaseCount(init);
      assert ps == init + [x];
      FoldsSnoc(init, x);
      FoldInFolds(d, x);
      if Fold(x) in Folds(d) {
        assert DistinctIgnoreCase(ps) == d;
      } else {
        assert DistinctIgnoreCase(ps) == d + [x];
        FoldsSnoc(d, x);
      }
    }
  }

  /** Some listed pointer spells `x` ignoring case exactly when `x`'s
      folded form is among the folded forms. */
  lemma FoldInFolds(d: seq<String>, x: String)
    ensures (exists y :: y in d && Fold(y) == Fold(x)) <==> Fold(x) in Folds(d)
  {
  }

  /** The spelling kept for each class is the first one in the input. */
  lemma {:induction false} DistinctIgnoreCaseKeepsFirstSpelling(ps: seq<String>, i: nat)
    requires i < |ps| && FirstSpelling(ps, i)
    ensures ps[i] in DistinctIgnoreCase(ps)
    decreases |ps|
  {
    var init := ps[..|ps| - 1];
    var d := DistinctIgnoreCase(init);
    var x := ps[|ps| - 1];
    if i < |ps| - 1 {
      assert FirstSpelling(init, i);
      DistinctIgnoreCaseKeepsFirstSpelling(init, i);
    } else {
      forall y | y in d
        ensures Fold(y) != Fold(x)
      {
        assert y in init;
        var j :| 0 <= j < |init| && init[j] == y;
        assert Fold(ps[j]) != Fold(ps[i]);
      }
    }
  }

  /** A list without repeats has as many members as elements. */
  lemma {:induction false} DistinctCardinality(r: seq<String>)
    requires Distinct(r)
    ensures |set x | x in r| == |r|
  {
    if r != [] {
      var tail := r[1..];
      DistinctCardinality(tail);
      assert r[0] !in tail;
      assert (set x | x in r) == (set x | x in tail) + {r[0]};
    }
  }

  /** ExistsAsync(pointers): one entry per case-insensitively distinct pointer,
      keyed by its first spelling, whose value is that pointer's single
      existence check. */
  function ExistsBatch(names: seq<String>, ps: seq<String>, sep: char): (r: map<String, bool>)
    ensures forall x :: x in r <==> x in DistinctIgnoreCase(ps)
    ensures forall x :: x in r ==> r[x] == Exists(names, x, sep)
    ensures forall i :: 0 <= i < |ps| && FirstSpelling(ps, i) ==> ps[i] in r
  {
    var d := DistinctIgnoreCase(ps);
    forall i | 0 <= i < |ps| && FirstSpelling(ps, i)
      ensures ps[i] in d
    {
      DistinctIgnoreCaseKeepsFirstSpelling(ps, i);
    }
    map x | x in d :: Exists(names, x, sep)
  }

  /** The batch answer has one entry per case-insensitively distinct pointer. */
  lemma ExistsBatchSize(names: seq<String>, ps: seq<String>, sep: char)
    ensures |ExistsBatch(names, ps, sep)| == |Folds(ps)|
  {
    var d := DistinctIgnoreCase(ps);
    DistinctIgnoreCaseCount(ps);
    DistinctCardinality(d);
    assert ExistsBatch(names, ps, sep).Keys == set x | x in d;
  }

  /** De-duplicating `[A, A', B]` where A' spells A in another case keeps A and B. */
  lemma DistinctWithRepeat(a: String, a': String, b: String)
    requires EqualsIgnoreCase(a, a') && !EqualsIgnoreCase(a, b)
    ensures DistinctIgnoreCase([a, a', b]) == [a, b]
  {
    assert [a, a', b][..2] == [a, a'];
    assert [a, a'][..1] == [a];
    assert [a][..0] == [];
    assert DistinctIgnoreCase([a]) == [a];
    assert DistinctIgnoreCase([a, a']) == [a];
  }

  /** The batch check on `[A, A', B]` where A' spells A in another case and B
      differs from A: exactly two entries, A and B, each with its own answer. */
  lemma ExistsBatchWithRepeat(names: seq<String>, a: String, a': String, b: String, sep: char)
    requires EqualsIgnoreCase(a, a') && !EqualsIgnoreCase(a, b)
    ensures ExistsBatch(names, [a, a', b], sep).Keys == {a, b}
    ensures ExistsBatch(names, [a, a', b], sep)[a] == Exists(names, a, sep)
    ensures ExistsBatch(names, [a, a', b], sep)[b] == Exists(names, b, sep)
  {
    var m := ExistsBatch(names, [a, a', b], sep);
    DistinctWithRepeat(a, a', b);
    KeysOfTwo(m, a, b);
  }

  /** A map whose keys are the elements of `[a, b]` has the key set `{a, b}`. */
  lemma KeysOfTwo(m: map<String, bool>, a: String, b: String)
    requires forall x :: x in m <==> x in [a, b]
    ensures m.Keys == {a, b}
  {
  }

  /** Divergence: the listing is by the trimmed pointer, so a sibling whose
      name merely starts with the pointer's text makes the pointer a
      directory. */
  lemma SiblingMakesDirectory()
    ensures ResolveType(["myfile2.txt"], "myfile", '/') == Some(Directory)
  {
    assert StartsWith("myfile2.txt", "myfile");
    TrimOfTrimmed("myfile");
    TrimOfTrimmed("myfile2.txt");
    FirstMatchDecides(["myfile2.txt"], "myfile", '/', 0);
    assert |Normalized("myfile2.txt", '/')| == 11;
    assert |Normalized("myfile", '/')| <= 6;
  }

  /** Divergence: the listing prefix keeps a trailing separator although the
      comparison strips it, so "a/" does not find the file "a". */
  lemma TrailingSeparatorNotFound()
    ensures Normalized("a/", '/') == Normalized("a", '/')
    ensures ResolveType(["a"], "a/", '/') == None
    ensures ResolveType(["a"], "a", '/') == Some(File)
  {
    TrimOfTrimmed("a/");
    TrimOfTrimmed("a");
    assert !StartsWith("a", "a/");
    FirstMatchDecides(["a"], "a", '/', 0);
  }

  /** Divergence: the listing is case-sensitive, so two spellings of one name
      that differ only in case get different verdicts. */
  lemma CaseChangesVerdict()
    ensures EqualsIgnoreCase("MyFile", "myfile")
    ensures ResolveType(["MyFile"], "MyFile", '/') == Some(File)
    ensures ResolveType(["MyFile"], "myfile", '/') == None
  {
    TrimOfTrimmed("MyFile");
    TrimOfTrimmed("myfile");
    assert !StartsWith("MyFile", "myfile") by {
      assert "MyFile"[0] != "myfile"[0];
    }
    FirstMatchDecides(["MyFile"], "MyFile", '/', 0);
  }
}
