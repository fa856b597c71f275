/** The string operations the provider applies to storage pointers and blob
    names, with the semantics of the .NET members it calls: `Trim()`,
    `TrimEnd(char)`, `string.IsNullOrWhiteSpace`, `Split(char)`,
    `string.Join(string, list)`, an ordinal `StartsWith` (the prefix test the
    blob service applies when it lists by prefix) and a case-insensitive
    equality. */
module Strings {

  type String = seq<char>

  /** The characters .NET's `char.IsWhiteSpace` accepts. */
  predicate IsWhiteSpace(c: char)
  {
    || c == ' '
    || ('\t' <= c <= '\r')
    || c == '\U{85}' || c == '\U{A0}' || c == '\U{1680}'
    || ('\U{2000}' <= c <= '\U{200A}')
    || c == '\U{2028}' || c == '\U{2029}' || c == '\U{202F}' || c == '\U{205F}' || c == '\U{3000}'
  }

  /** `string.IsNullOrWhiteSpace`: empty or made of white space only. */
  predicate IsNullOrWhiteSpace(s: String)
  {
    forall i :: 0 <= i < |s| ==> IsWhiteSpace(s[i])
  }

  /** `TrimStart()`: the longest suffix that does not start with white space. */
  function TrimStart(s: String): (r: String)
    ensures |r| <= |s|
    ensures r == [] || !IsWhiteSpace(r[0])
    ensures forall i :: 0 <= i < |s| - |r| ==> IsWhiteSpace(s[i])
  {
    if s != [] && IsWhiteSpace(s[0]) then TrimStart(s[1..]) else s
  }

  /** `TrimEnd()`: the longest prefix that does not end with white space. */
  function TrimEnd(s: String): (r: String)
    ensures |r| <= |s| && r == s[..|r|]
    ensures r == [] || !IsWhiteSpace(r[|r| - 1])
    ensures forall i :: |r| <= i < |s| ==> IsWhiteSpace(s[i])
  {
    if s != [] && IsWhiteSpace(s[|s| - 1]) then TrimEnd(s[..|s| - 1]) else s
  }

  /** `Trim()`: white space removed at both ends. */
  function Trim(s: String): (r: String)
    ensures |r| <= |s|
    ensures r == [] || (!IsWhiteSpace(r[0]) && !IsWhiteSpace(r[|r| - 1]))
  {
    TrimStartIsSuffix(TrimEnd(s));
    TrimStart(TrimEnd(s))
  }

  /** `TrimStart()` keeps a suffix of its input. */
  lemma {:induction false} TrimStartIsSuffix(s: String)
    ensures TrimStart(s) == s[|s| - |TrimStart(s)|..]
    decreases |s|
  {
    if s != [] && IsWhiteSpace(s[0]) {
      TrimStartIsSuffix(s[1..]);
    }
  }

  /** `r` is `s` with `k` white-space characters cut at the front and only
      white space cut at the back. */
  predicate CutAt(s: String, r: String, k: nat)
  {
    && k + |r| <= |s| && r == s[k..k + |r|]
    && (forall i :: 0 <= i < k ==> IsWhiteSpace(s[i]))
    && (forall i :: k + |r| <= i < |s| ==> IsWhiteSpace(s[i]))
  }

  /** `Trim()` cuts white space only, and only at the two ends: its result
      is a slice of the input. */
  lemma TrimIsSlice(s: String)
    ensures exists k :: CutAt(s, Trim(s), k)
  {
    var e := TrimEnd(s);
    TrimStartIsSuffix(e);
    var k := |e| - |Trim(s)|;
    assert forall i :: 0 <= i < k ==> IsWhiteSpace(e[i]);
    assert CutAt(s, Trim(s), k);
  }

  /** `TrimEnd(c)`: every trailing occurrence of `c` removed. */
  function TrimEndChar(s: String, c: char): (r: String)
    ensures |r| <= |s| && r == s[..|r|]
    ensures r == [] || r[|r| - 1] != c
    ensures forall i :: |r| <= i < |s| ==> s[i] == c
  {
    if s != [] && s[|s| - 1] == c then TrimEndChar(s[..|s| - 1], c) else s
  }

  /** Ordinal, case-sensitive prefix test. */
  predicate StartsWith(s: String, prefix: String)
  {
    |prefix| <= |s| && s[..|prefix|] == prefix
  }

  /** ASCII lower-casing of one character; every other character is kept. */
  function ToLower(c: char): char
  {
    if 'A' <= c <= 'Z' then (c as int + 32) as char else c
  }

  predicate IsAsciiLetter(c: char)
  {
    ('A' <= c <= 'Z') || ('a' <= c <= 'z')
  }

  /** Case folding of a whole string: each character lower-cased. */
  function Fold(s: String): (r: String)
    ensures |r| == |s|
  {
    if s == [] then [] else [ToLower(s[0])] + Fold(s[1..])
  }

  /** The case-insensitive equality the provider uses to compare names. */
  predicate EqualsIgnoreCase(a: String, b: String)
  {
    Fold(a) == Fold(b)
  }

  /** `string.Join(sep, parts)`: the parts with one separator between neighbours. */
  function Join(parts: seq<String>, sep: char): String
  {
    if |parts| == 0 then []
    else if |parts| == 1 then parts[0]
    else parts[0] + [sep] + Join(parts[1..], sep)
  }

  /** `s.Split(sep)`: the maximal separator-free pieces, empty ones included;
      there is always at least one piece. */
  function Split(s: String, sep: char): (parts: seq<String>)
    ensures |parts| >= 1
    ensures forall i :: 0 <= i < |parts| ==> sep !in parts[i]
    decreases |s|
  {
    if s == [] then [[]]
    else if s[0] == sep then [[]] + Split(s[1..], sep)
    else
      var rest := Split(s[1..], sep);
      [[s[0]] + rest[0]] + rest[1..]
  }

  /** Joining the pieces of a split gives the string back. */
  lemma {:induction false} JoinSplit(s: String, sep: char)
    ensures Join(Split(s, sep), sep) == s
    decreases |s|
  {
    if s == [] {
    } else if s[0] == sep {
      var rest := Split(s[1..], sep);
      JoinSplit(s[1..], sep);
      assert ([[]] + rest)[1..] == rest;
    } else {
      var rest := Split(s[1..], sep);
      JoinSplit(s[1..], sep);
      var parts := [[s[0]] + rest[0]] + rest[1..];
      if |rest| == 1 {
        assert Join(parts, sep) == [s[0]] + rest[0];
      } else {
        assert parts[1..] == rest[1..];
        assert Join(parts, sep) == [s[0]] + rest[0] + [sep] + Join(rest[1..], sep);
      }
      assert s == [s[0]] + s[1..];
    }
  }

  /** Every character of a join is the separator or comes from a part. */
  lemma {:induction false} JoinCharsFrom(parts: seq<String>, sep: char, c: char)
    requires c in Join(parts, sep)
    ensures c == sep || exists x :: x in parts && c in x
    decreases |parts|
  {
    if |parts| > 1 {
      if c !in parts[0] && c != sep {
        assert c in Join(parts[1..], sep);
        JoinCharsFrom(parts[1..], sep, c);
        var x :| x in parts[1..] && c in x;
        assert x in parts;
      }
    }
  }

  /** Every character of every part occurs in the join. */
  lemma {:induction false} JoinCharsOf(parts: seq<String>, sep: char, x: String, c: char)
    requires x in parts && c in x
    ensures c in Join(parts, sep)
    decreases |parts|
  {
    if |parts| > 1 && x != parts[0] {
      JoinCharsOf(parts[1..], sep, x, c);
      assert Join(parts, sep) == (parts[0] + [sep]) + Join(parts[1..], sep);
    } else if |parts| > 1 {
      assert Join(parts, sep) == parts[0] + ([sep] + Join(parts[1..], sep));
    }
  }

  /** Splitting a string that starts with separator-free text extends the first piece. */
  lemma {:induction false} SplitAfterPiece(a: String, rest: String, sep: char)
    requires sep !in a
    ensures Split(a + rest, sep) == [a + Split(rest, sep)[0]] + Split(rest, sep)[1..]
    decreases |a|
  {
    if a != [] {
      SplitAfterPiece(a[1..], rest, sep);
      assert (a + rest)[1..] == a[1..] + rest;
      assert [a[0]] + (a[1..] + Split(rest, sep)[0]) == a + Split(rest, sep)[0];
    } else {
      var parts := Split(rest, sep);
      assert a + rest == rest;
      assert a + parts[0] == parts[0];
      assert parts == [parts[0]] + parts[1..];
    }
  }

  /** Splitting a join of separator-free pieces gives the pieces back. */
  lemma {:induction false} SplitJoin(parts: seq<String>, sep: char)
    requires |parts| >= 1
    requires forall i :: 0 <= i < |parts| ==> sep !in parts[i]
    ensures Split(Join(parts, sep), sep) == parts
    decreases |parts|
  {
    if |parts| == 1 {
      SplitAfterPiece(parts[0], [], sep);
      assert parts[0] + [] == parts[0];
    } else {
      var tail := Join(parts[1..], sep);
      SplitJoin(parts[1..], sep);
      assert Join(parts, sep) == parts[0] + ([sep] + tail);
      SplitAfterPiece(parts[0], [sep] + tail, sep);
      assert ([sep] + tail)[1..] == tail;
      assert Split([sep] + tail, sep) == [[]] + Split(tail, sep);
      assert parts[0] + [] == parts[0];
      assert parts == [parts[0]] + parts[1..];
    }
  }

  /** Folding lower-cases each character in place. */
  lemma {:induction false} FoldAt(s: String)
    ensures forall i :: 0 <= i < |s| ==> Fold(s)[i] == ToLower(s[i])
    decreases |s|
  {
    if s != [] {
      FoldAt(s[1..]);
      assert forall i :: 1 <= i < |s| ==> s[1..][i - 1] == s[i];
    }
  }

  /** Folding a prefix gives the prefix of the folding. */
  lemma FoldPrefix(s: String, n: nat)
    requires n <= |s|
    ensures Fold(s)[..n] == Fold(s[..n])
  {
    FoldAt(s);
    FoldAt(s[..n]);
  }

  /** Lower-casing keeps white space and produces white space only from white space. */
  lemma ToLowerWhiteSpace(c: char)
    ensures IsWhiteSpace(ToLower(c)) == IsWhiteSpace(c)
    ensures IsWhiteSpace(c) ==> ToLower(c) == c
  {
  }

  /** Case folding commutes with `TrimStart()`. */
  lemma {:induction false} FoldTrimStart(s: String)
    ensures Fold(TrimStart(s)) == TrimStart(Fold(s))
    decreases |s|
  {
    if s != [] {
      var t := s[1..];
      var f := Fold(s);
      ToLowerWhiteSpace(s[0]);
      assert f == [ToLower(s[0])] + Fold(t);
      assert f[0] == ToLower(s[0]) && f[1..] == Fold(t);
      if IsWhiteSpace(s[0]) {
        FoldTrimStart(t);
        assert TrimStart(s) == TrimStart(t);
        assert TrimStart(f) == TrimStart(f[1..]);
      } else {
        assert TrimStart(s) == s;
        assert TrimStart(f) == f;
      }
    }
  }

  /** Case folding commutes with `TrimEnd()`. */
  lemma {:induction false} FoldTrimEnd(s: String)
    ensures Fold(TrimEnd(s)) == TrimEnd(Fold(s))
    decreases |s|
  {
    if s != [] {
      var n := |s| - 1;
      ToLowerWhiteSpace(s[n]);
      FoldAt(s);
      FoldPrefix(s, n);
      if IsWhiteSpace(s[n]) {
        FoldTrimEnd(s[..n]);
      }
    }
  }

  /** Case folding commutes with `Trim()`. */
  lemma FoldTrim(s: String)
    ensures Fold(Trim(s)) == Trim(Fold(s))
  {
    FoldTrimEnd(s);
    FoldTrimStart(TrimEnd(s));
  }

  /** Case folding commutes with `TrimEnd(c)` when `c` is not a letter. */
  lemma {:induction false} FoldTrimEndChar(s: String, c: char)
    requires !IsAsciiLetter(c)
    ensures Fold(TrimEndChar(s, c)) == TrimEndChar(Fold(s), c)
    decreases |s|
  {
    if s != [] {
      var n := |s| - 1;
      assert (ToLower(s[n]) == c) == (s[n] == c);
      FoldAt(s);
      FoldPrefix(s, n);
      if s[n] == c {
        FoldTrimEndChar(s[..n], c);
      }
    }
  }

  /** A string with no white space at either end is its own trim. */
  lemma TrimOfTrimmed(s: String)
    requires s == [] || (!IsWhiteSpace(s[0]) && !IsWhiteSpace(s[|s| - 1]))
    ensures Trim(s) == s
  {
  }

  /** Joining two parts puts one separator between them. */
  lemma JoinTwo(a: String, b: String, sep: char)
    ensures Join([a, b], sep) == a + [sep] + b
  {
    assert [a, b][1..] == [b];
  }

  /** A string that does not start with `b` does not start with any
      extension `a` of `b` either. */
  lemma StartsWithAvoided(s: String, a: String, b: String)
    requires StartsWith(a, b) && !StartsWith(s, b)
    ensures !StartsWith(s, a)
  {
  }

  /** A prefix of a prefix is a prefix. */
  lemma StartsWithTransitive(s: String, a: String, b: String)
    requires StartsWith(s, a) && StartsWith(a, b)
    ensures StartsWith(s, b)
  {
    assert s[..|b|] == s[..|a|][..|b|];
  }
}
