/** What DeleteAsync does to the key space: for each pointer in turn, every
    blob whose name starts with the pointer trimmed and stripped of trailing
    separators is deleted. There is no separator-boundary check. */
module Deletion {
  import opened Strings
  import opened BlobStore
  import opened Resolution

  /** The listing after the pointers have been deleted one after another. */
  function AfterDeletes(names: seq<String>, ps: seq<String>, sep: char): seq<String>
    decreases |ps|
  {
    if ps == [] then names
    else WithoutPrefix(AfterDeletes(names, ps[..|ps| - 1], sep), Normalized(ps[|ps| - 1], sep))
  }

  /** Some pointer's delete prefix starts the name. */
  predicate MatchedByAny(k: String, ps: seq<String>, sep: char)
  {
    exists i :: 0 <= i < |ps| && StartsWith(k, Normalized(ps[i], sep))
  }

  /** The names no pointer's delete prefix starts, in listing order. */
  function Survivors(names: seq<String>, ps: seq<String>, sep: char): (r: seq<String>)
    ensures forall k :: k in r <==> k in names && !MatchedByAny(k, ps, sep)
  {
    if names == [] then []
    else if MatchedByAny(names[0], ps, sep) then Survivors(names[1..], ps, sep)
    else [names[0]] + Survivors(names[1..], ps, sep)
  }

  /** One more pointer matches a name exactly when an earlier one or the new one does. */
  lemma MatchedByOneMore(k: String, ps: seq<String>, p: String, sep: char)
    ensures MatchedByAny(k, ps + [p], sep) <==> MatchedByAny(k, ps, sep) || StartsWith(k, Normalized(p, sep))
  {
    if MatchedByAny(k, ps, sep) {
      var i :| 0 <= i < |ps| && StartsWith(k, Normalized(ps[i], sep));
      assert (ps + [p])[i] == ps[i];
    }
    if StartsWith(k, Normalized(p, sep)) {
      assert (ps + [p])[|ps|] == p;
    }
    if MatchedByAny(k, ps + [p], sep) {
      var i :| 0 <= i < |ps + [p]| && StartsWith(k, Normalized((ps + [p])[i], sep));
      if i < |ps| {
        assert (ps + [p])[i] == ps[i];
      }
    }
  }

  lemma {:induction false} SurvivorsOneMore(names: seq<String>, ps: seq<String>, p: String, sep: char)
    ensures WithoutPrefix(Survivors(names, ps, sep), Normalized(p, sep)) == Survivors(names, ps + [p], sep)
    decreases |names|
  {
    if names != [] {
      var k := names[0];
      var q := Normalized(p, sep);
      var rest := Survivors(names[1..], ps, sep);
      SurvivorsOneMore(names[1..], ps, p, sep);
      MatchedByOneMore(k, ps, p, sep);
      if !MatchedByAny(k, ps, sep) {
        assert Survivors(names, ps, sep) == [k] + rest;
        assert ([k] + rest)[1..] == rest;
      }
    }
  }

  /** Deleting pointer after pointer is one order-preserving filter: the
      blobs that survive are exactly those no pointer's delete prefix starts,
      still in listing order. */
  lemma {:induction false} AfterDeletesIsSurvivors(names: seq<String>, ps: seq<String>, sep: char)
    ensures AfterDeletes(names, ps, sep) == Survivors(names, ps, sep)
    decreases |ps|
  {
    if ps == [] {
      SurvivorsOfNone(names, sep);
    } else {
      var init := ps[..|ps| - 1];
      var last := ps[|ps| - 1];
      assert AfterDeletes(names, ps, sep) == WithoutPrefix(AfterDeletes(names, init, sep), Normalized(last, sep));
      AfterDeletesIsSurvivors(names, init, sep);
      SurvivorsOneMore(names, init, last, sep);
      assert init + [last] == ps;
    }
  }

  lemma {:induction false} SurvivorsOfNone(names: seq<String>, sep: char)
    ensures Survivors(names, [], sep) == names
    decreases |names|
  {
    if names != [] {
      SurvivorsOfNone(names[1..], sep);
      assert names == [names[0]] + names[1..];
    }
  }

  /** A name that starts with the trimmed pointer starts with its delete prefix. */
  lemma DeletePrefixOfResolvePrefix(k: String, p: String, sep: char)
    requires StartsWith(k, Trim(p))
    ensures StartsWith(k, Normalized(p, sep))
  {
    StartsWithTransitive(k, Trim(p), Normalized(p, sep));
  }

  /** After the delete no deleted pointer exists any more: every name the
      pointer would resolve by also starts with its delete prefix. */
  lemma DeletedPointersDoNotExist(names: seq<String>, ps: seq<String>, sep: char)
    ensures forall i :: 0 <= i < |ps| ==> !Exists(AfterDeletes(names, ps, sep), ps[i], sep)
  {
    AfterDeletesIsSurvivors(names, ps, sep);
    var after := AfterDeletes(names, ps, sep);
    forall i, k | 0 <= i < |ps| && k in after
      ensures !StartsWith(k, Trim(ps[i]))
    {
      if StartsWith(k, Trim(ps[i])) {
        DeletePrefixOfResolvePrefix(k, ps[i], sep);
        assert MatchedByAny(k, ps, sep);
      }
    }
  }

  /** Deleting a pointer nothing is listed under changes nothing and is no error. */
  lemma UnmatchedDeleteIsNoOp(names: seq<String>, p: String, sep: char)
    requires forall k :: k in names ==> !StartsWith(k, Normalized(p, sep))
    ensures AfterDeletes(names, [p], sep) == names
  {
    WithoutUnmatchedPrefix(names, Normalized(p, sep));
  }

  /** Divergence: with no boundary check, deleting "myfile" also deletes the
      sibling "myfile2/x". */
  lemma DeleteRemovesSibling()
    ensures AfterDeletes(["myfile/thing.txt", "myfile2/x"], ["myfile"], '/') == []
  {
    TrimOfTrimmed("myfile");
    assert Normalized("myfile", '/') == "myfile";
    assert StartsWith("myfile/thing.txt", "myfile");
    assert StartsWith("myfile2/x", "myfile");
    assert ["myfile"][..0] == [];
  }
}
