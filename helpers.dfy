/**
 * String helpers of the engine package (helpers.go): case-insensitive search
 * and splitting, a slice filled with one element, and the default index name.
 * Case-insensitivity is ASCII lower-casing.
 */
module Helpers {
  import opened Text

  /** `sep` occurs in `s` at `i` when both are lower-cased. */
  predicate OccursNoCase(s: string, sep: string, i: int)
  {
    OccursAt(Lower(s), Lower(sep), i)
  }

  /** `indexNoCase`: the first position where `sep` occurs in `s` ignoring ASCII case,
      or -1 when it occurs nowhere. */
  function IndexNoCase(s: string, sep: string): (r: int)
    ensures r == -1 <==> forall i :: 0 <= i <= |s| - |sep| ==> !OccursNoCase(s, sep, i)
    ensures r >= 0 ==> OccursNoCase(s, sep, r) && r + |sep| <= |s|
                       && forall i :: 0 <= i < r ==> !OccursNoCase(s, sep, i)
    ensures r >= -1
  {
    var r := Index(Lower(s), Lower(sep));
    assert r == -1 <==> forall i :: 0 <= i <= |s| - |sep| ==> !OccursNoCase(s, sep, i) by {
      if r != -1 {
        assert OccursNoCase(s, sep, r);
      }
    }
    r
  }

  /** An occurrence with the same case is also one ignoring case. */
  lemma OccursLower(s: string, sep: string, i: int)
    requires OccursAt(s, sep, i)
    ensures OccursNoCase(s, sep, i)
  {
    assert Lower(s)[i..i + |sep|] == Lower(sep) by {
      forall k | 0 <= k < |sep|
        ensures Lower(s)[i..i + |sep|][k] == Lower(sep)[k]
      {
        assert s[i..i + |sep|][k] == sep[k];
      }
    }
  }

  /** `indexNoCase` finds a match no later than the exact-case `strings.Index` does. */
  lemma IndexNoCaseNoLater(s: string, sep: string)
    requires Index(s, sep) >= 0
    ensures 0 <= IndexNoCase(s, sep) <= Index(s, sep)
  {
    OccursLower(s, sep, Index(s, sep));
  }

  /** The text of `s` that matched `sep`: `s[idx:idx+len(sep)]`. */
  function Matched(s: string, sep: string): (m: string)
    requires IndexNoCase(s, sep) >= 0
    ensures |m| == |sep| && Lower(m) == Lower(sep)
  {
    var idx := IndexNoCase(s, sep);
    var m := s[idx..idx + |sep|];
    assert Lower(m) == Lower(s)[idx..idx + |sep|] by {
      forall k | 0 <= k < |sep|
        ensures Lower(m)[k] == Lower(s)[idx..idx + |sep|][k]
      {
      }
    }
    m
  }

  /** `splitNoCase`: `[s]` when `sep` does not occur; otherwise `s` split at every exact
      occurrence of the text found at the first case-insensitive match. */
  function SplitNoCase(s: string, sep: string): (r: seq<string>)
    ensures IndexNoCase(s, sep) < 0 ==> r == [s]
  {
    if IndexNoCase(s, sep) < 0 then [s] else Split(s, Matched(s, sep))
  }

  /** `splitNNoCase`: as `splitNoCase`, with `strings.SplitN`'s limit `n`. */
  function SplitNNoCase(s: string, sep: string, n: int): (r: seq<string>)
    ensures IndexNoCase(s, sep) < 0 ==> r == [s]
  {
    if IndexNoCase(s, sep) < 0 then [s] else SplitN(s, Matched(s, sep), n)
  }

  /** Joining the pieces with the matched text gives `s` back, and no piece holds the
      matched text again: only occurrences spelled as the first match are split on. */
  lemma SplitNoCaseJoin(s: string, sep: string)
    requires IndexNoCase(s, sep) >= 0
    ensures Join(SplitNoCase(s, sep), Matched(s, sep)) == s
    ensures Matched(s, sep) != [] ==>
              forall p :: p in SplitNoCase(s, sep) ==> Index(p, Matched(s, sep)) == -1
  {
    var m := Matched(s, sep);
    if s == [] && m == [] {
      assert Split(s, m) == [];
    } else {
      SplitJoin(s, m);
    }
    if m != [] {
      SplitCutsPiecesFree(s, m);
    }
  }

  /** With a positive limit, `splitNNoCase` makes at most `n` pieces, which join back to `s`. */
  lemma SplitNNoCaseJoin(s: string, sep: string, n: int)
    requires IndexNoCase(s, sep) >= 0 && n > 0
    ensures |SplitNNoCase(s, sep, n)| <= n
    ensures Join(SplitNNoCase(s, sep, n), Matched(s, sep)) == s
  {
    var m := Matched(s, sep);
    if s == [] && m == [] {
      assert SplitN(s, m, n) == Explode(s, 0) == [];
    } else {
      SplitNJoin(s, m, n);
    }
  }

  /** `makeArray`: a slice of `count` elements, every one `elem`. */
  method MakeArray(elem: string, count: int) returns (r: seq<string>)
    requires count >= 0
    ensures |r| == count
    ensures forall i :: 0 <= i < |r| ==> r[i] == elem
  {
    var res := new string[count];
    for i := 0 to count
      invariant forall k :: 0 <= k < i ==> res[k] == elem
    {
      res[i] := elem;
    }
    r := res[..];
  }

  /** `indexName`: the default name of index `idxName` on table `tableName`. */
  function IndexName(tableName: string, idxName: string): (r: string)
    ensures |r| == |tableName| + |idxName| + 5
    ensures r[..4] == "IDX_" && r[4..4 + |tableName|] == tableName
    ensures r[4 + |tableName|] == '_' && r[5 + |tableName|..] == idxName
  {
    "IDX_" + tableName + "_" + idxName
  }

  /** On one table, distinct index names give distinct default names. */
  lemma IndexNameInjective(tableName: string, a: string, b: string)
    requires IndexName(tableName, a) == IndexName(tableName, b)
    ensures a == b
  {
    var n := |tableName| + 5;
    assert a == IndexName(tableName, a)[n..];
  }
}
