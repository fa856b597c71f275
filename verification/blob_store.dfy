/** The flat key space of a blob container: an ordered listing of distinct
    blob names and a map from each name to its blob. Listing by prefix is an
    order-preserving filter with an exact-case prefix test. */
module BlobStore {
  import opened Strings

  type Bytes = seq<bv8>

  /** A point in time reported by the blob service; its value is opaque here. */
  type Timestamp = int

  /** A stored blob: its content and the two times the service reports for it. */
  datatype Blob = Blob(content: Bytes, createdOn: Timestamp, lastModified: Timestamp)

  predicate Distinct(names: seq<String>)
  {
    forall i, j :: 0 <= i < j < |names| ==> names[i] != names[j]
  }

  /** The listing holds exactly the keys of the map, each once. */
  ghost predicate WellFormed(names: seq<String>, blobs: map<String, Blob>)
  {
    Distinct(names) && forall k :: k in blobs <==> k in names
  }

  /** The blobs listed for `prefix`, in listing order. */
  function Listing(names: seq<String>, prefix: String): (r: seq<String>)
    ensures forall k :: k in r <==> k in names && StartsWith(k, prefix)
    ensures Distinct(names) ==> Distinct(r)
  {
    if names == [] then []
    else if StartsWith(names[0], prefix) then [names[0]] + Listing(names[1..], prefix)
    else Listing(names[1..], prefix)
  }

  /** Every blob of `small` is in `big`, unchanged. */
  predicate SubMap(small: map<String, Blob>, big: map<String, Blob>)
  {
    forall k :: k in small ==> k in big && small[k] == big[k]
  }

  /** Removing a key keeps the rest; keeping the rest is transitive. */
  lemma SubMapRemoval(a: map<String, Blob>, b: map<String, Blob>, c: map<String, Blob>, key: String)
    requires a == b - {key} && SubMap(b, c)
    ensures SubMap(a, c)
  {
  }

  /** The listing without `key`. */
  function WithoutKey(names: seq<String>, key: String): (r: seq<String>)
    ensures forall k :: k in r <==> k in names && k != key
  {
    if names == [] then []
    else if names[0] == key then WithoutKey(names[1..], key)
    else [names[0]] + WithoutKey(names[1..], key)
  }

  /** A non-empty listing is its first name followed by the rest. */
  lemma HeadTail(names: seq<String>)
    requires names != []
    ensures names == [names[0]] + names[1..]
  {
  }

  /** The names of a listing are its first name and the names of the rest. */
  lemma MembersOfCons(x: String, rest: seq<String>)
    ensures forall k :: k in [x] + rest <==> k == x || k in rest
  {
  }

  /** The tail of a repeat-free listing is repeat-free and lacks the head. */
  lemma DistinctTail(names: seq<String>)
    requires Distinct(names) && names != []
    ensures Distinct(names[1..]) && names[0] !in names[1..]
  {
    forall i, j | 0 <= i < j < |names[1..]|
      ensures names[1..][i] != names[1..][j]
    {
      assert names[1..][i] == names[i + 1] && names[1..][j] == names[j + 1];
    }
  }

  /** A name not in a repeat-free listing can go in front of it. */
  lemma DistinctCons(x: String, rest: seq<String>)
    requires Distinct(rest) && x !in rest
    ensures Distinct([x] + rest)
  {
    forall i, j | 0 <= i < j < |[x] + rest|
      ensures ([x] + rest)[i] != ([x] + rest)[j]
    {
      if i > 0 {
        assert rest[i - 1] != rest[j - 1];
      }
    }
  }

  /** Removing a key keeps the listing free of repeats. */
  lemma {:induction false} WithoutKeyDistinct(names: seq<String>, key: String)
    requires Distinct(names)
    ensures Distinct(WithoutKey(names, key))
    decreases |names|
  {
    if names != [] {
      var rest := WithoutKey(names[1..], key);
      WithoutKeyDistinct(names[1..], key);
      if names[0] != key {
        assert names[0] !in rest;
        DistinctCons(names[0], rest);
      }
    }
  }

  /** The listing without any of `keys`. */
  function WithoutKeys(names: seq<String>, keys: seq<String>): seq<String>
  {
    if names == [] then []
    else if names[0] in keys then WithoutKeys(names[1..], keys)
    else [names[0]] + WithoutKeys(names[1..], keys)
  }

  /** The listing without the blobs whose names start with `prefix`. */
  function WithoutPrefix(names: seq<String>, prefix: String): (r: seq<String>)
    ensures forall k :: k in r <==> k in names && !StartsWith(k, prefix)
  {
    if names == [] then []
    else if StartsWith(names[0], prefix) then WithoutPrefix(names[1..], prefix)
    else [names[0]] + WithoutPrefix(names[1..], prefix)
  }

  /** `r` is `names` with `key` inserted at position `i`. */
  predicate InsertedAt(names: seq<String>, r: seq<String>, key: String, i: nat)
  {
    i <= |names| && r == names[..i] + [key] + names[i..]
  }

  /** The listing after an upload of `key`: an existing key keeps its place;
      a new key is listed once, at the place the service gives it in its
      name order, and the other names keep their order. */
  predicate Upserts(names: seq<String>, r: seq<String>, key: String)
  {
    if key in names then r == names else exists i :: 0 <= i <= |names| && InsertedAt(names, r, key, i)
  }

  /** After an upsert the listing holds the old names and the key, each once. */
  lemma UpsertMembers(names: seq<String>, r: seq<String>, key: String)
    requires Upserts(names, r, key)
    ensures forall k :: k in r <==> k in names || k == key
    ensures Distinct(names) ==> Distinct(r)
  {
    if key !in names {
      var i :| 0 <= i <= |names| && InsertedAt(names, r, key, i);
      var a, b := names[..i], names[i..];
      assert names == a + b;
      if Distinct(names) {
        InsertedDistinct(a, b, key);
      }
    }
  }

  /** Inserting a new key into a listing without repeats keeps it without repeats. */
  lemma InsertedDistinct(a: seq<String>, b: seq<String>, key: String)
    requires Distinct(a + b) && key !in a + b
    ensures Distinct(a + [key] + b)
  {
    var r := a + [key] + b;
    forall p, q | 0 <= p < q < |r|
      ensures r[p] != r[q]
    {
      if q < |a| {
        assert r[p] == (a + b)[p] && r[q] == (a + b)[q];
      } else if q == |a| {
        assert r[p] == (a + b)[p];
      } else if p < |a| {
        assert r[p] == (a + b)[p] && r[q] == (a + b)[q - 1];
      } else if p == |a| {
        assert r[q] == (a + b)[q - 1];
      } else {
        assert r[p] == (a + b)[p - 1] && r[q] == (a + b)[q - 1];
      }
    }
  }

  /** Removing no keys changes nothing. */
  lemma {:induction false} WithoutNoKeys(names: seq<String>)
    ensures WithoutKeys(names, []) == names
    decreases |names|
  {
    if names != [] {
      WithoutNoKeys(names[1..]);
      assert names == [names[0]] + names[1..];
    }
  }

  /** One step of deleting a repeat-free list of listed keys in order: the
      keys still to come stay listed, and the listing is the original one
      without the keys deleted so far. */
  lemma DeleteStep(before: seq<String>, keys: seq<String>, j: nat, names: seq<String>)
    requires Distinct(keys) && j < |keys|
    requires forall i :: j <= i < |keys| ==> keys[i] in names
    requires names == WithoutKeys(before, keys[..j])
    ensures forall i :: j + 1 <= i < |keys| ==> keys[i] in WithoutKey(names, keys[j])
    ensures WithoutKey(names, keys[j]) == WithoutKeys(before, keys[..j + 1])
  {
    WithoutKeysStep(before, keys[..j], keys[j]);
    assert keys[..j + 1] == keys[..j] + [keys[j]];
  }

  /** Removing the keys one at a time, in order. */
  lemma {:induction false} WithoutKeysStep(names: seq<String>, keys: seq<String>, key: String)
    ensures WithoutKey(WithoutKeys(names, keys), key) == WithoutKeys(names, keys + [key])
    decreases |names|
  {
    if names != [] {
      WithoutKeysStep(names[1..], keys, key);
    }
  }

  /** Removing a set of keys that are exactly the ones under `prefix` is the
      same as removing by prefix. */
  lemma {:induction false} WithoutKeysIsWithoutPrefix(names: seq<String>, keys: seq<String>, prefix: String)
    requires forall k :: k in names ==> (k in keys <==> StartsWith(k, prefix))
    ensures WithoutKeys(names, keys) == WithoutPrefix(names, prefix)
    decreases |names|
  {
    if names != [] {
      WithoutKeysIsWithoutPrefix(names[1..], keys, prefix);
    }
  }

  /** Removing by a prefix nothing starts with changes nothing. */
  lemma {:induction false} WithoutUnmatchedPrefix(names: seq<String>, prefix: String)
    requires forall k :: k in names ==> !StartsWith(k, prefix)
    ensures WithoutPrefix(names, prefix) == names
    decreases |names|
  {
    if names != [] {
      WithoutUnmatchedPrefix(names[1..], prefix);
      assert names == [names[0]] + names[1..];
    }
  }

  /** A blob container. `names` is the order in which the service lists the
      blobs; `blobs` gives each blob by its exact name. */
  class BlobContainer {
    var names: seq<String>
    var blobs: map<String, Blob>

    ghost predicate Valid()
      reads this
    {
      WellFormed(names, blobs)
    }

    constructor ()
      ensures Valid() && names == [] && blobs == map[]
    {
      names := [];
      blobs := map[];
    }

    /** Stores `blob` under `key`, replacing any blob already there. */
    method Upload(key: String, blob: Blob)
      requires Valid()
      modifies this
      ensures Valid()
      ensures Upserts(old(names), names, key)
      ensures blobs == old(blobs)[key := blob]
    {
      if key !in names {
        assert InsertedAt(names, names + [key], key, |names|);
        names := names + [key];
      }
      UpsertMembers(old(names), names, key);
      blobs := blobs[key := blob];
    }

    /** Deletes the blob named `key`; the service refuses a key it does not hold. */
    method DeleteBlob(key: String)
      requires Valid() && key in blobs
      modifies this
      ensures Valid()
      ensures names == WithoutKey(old(names), key)
      ensures blobs == old(blobs) - {key}
    {
      WithoutKeyDistinct(names, key);
      names := WithoutKey(names, key);
      blobs := blobs - {key};
    }
  }
}
