/**
 * The part of Go's `strings` package that the SQL-text layer relies on:
 * ASCII lower-casing, `TrimSpace`, `Index`, `Join`, `Split` and `SplitN`.
 * A `string` here is a sequence of characters; the code under model indexes
 * bytes, and every character it treats specially is ASCII, so one character
 * stands for one byte.
 */
module Text {

  /** ASCII `unicode.ToLower` on one character. */
  function LowerChar(c: char): (r: char)
    ensures 'A' <= c <= 'Z' ==> r as int == c as int + 32
    ensures !('A' <= c <= 'Z') ==> r == c
  {
    if 'A' <= c <= 'Z' then (c as int + 32) as char else c
  }

  /** `strings.ToLower`, restricted to ASCII case mapping. */
  function Lower(s: string): (r: string)
    ensures |r| == |s|
    ensures forall i :: 0 <= i < |s| ==> r[i] == LowerChar(s[i])
  {
    if s == [] then [] else [LowerChar(s[0])] + Lower(s[1..])
  }

  /** The ASCII white space that `strings.TrimSpace` removes. */
  predicate IsSpace(c: char)
  {
    c == ' ' || c == '\t' || c == '\n' || c == '\r' || c == '\U{B}' || c == '\U{C}'
  }

  /** `strings.TrimLeft` of white space. */
  function TrimLeftSpace(s: string): (r: string)
    ensures |r| <= |s|
    ensures r != [] ==> !IsSpace(r[0])
  {
    if s != [] && IsSpace(s[0]) then TrimLeftSpace(s[1..]) else s
  }

  /** `strings.TrimRight` of white space. */
  function TrimRightSpace(s: string): (r: string)
    ensures |r| <= |s|
    ensures r != [] ==> !IsSpace(r[|r| - 1])
  {
    if s != [] && IsSpace(s[|s| - 1]) then TrimRightSpace(s[..|s| - 1]) else s
  }

  /** `TrimLeftSpace` removes a prefix of white space and nothing else. */
  lemma {:induction false} TrimLeftSpaceSuffix(s: string)
    ensures TrimLeftSpace(s) == s[|s| - |TrimLeftSpace(s)|..]
    ensures forall i :: 0 <= i < |s| - |TrimLeftSpace(s)| ==> IsSpace(s[i])
  {
    if s != [] && IsSpace(s[0]) {
      TrimLeftSpaceSuffix(s[1..]);
    }
  }

  /** `TrimRightSpace` removes a suffix of white space and nothing else. */
  lemma {:induction false} TrimRightSpacePrefix(s: string)
    ensures TrimRightSpace(s) == s[..|TrimRightSpace(s)|]
    ensures forall i :: |TrimRightSpace(s)| <= i < |s| ==> IsSpace(s[i])
  {
    if s != [] && IsSpace(s[|s| - 1]) {
      TrimRightSpacePrefix(s[..|s| - 1]);
    }
  }

  /** Trimming the end of `a + t` never reaches into `a` when `t` starts with a
      character that is not white space. */
  lemma {:induction false} TrimRightSpaceAppend(a: string, t: string)
    requires t != [] && !IsSpace(t[0])
    ensures TrimRightSpace(a + t) == a + TrimRightSpace(t)
    decreases |t|
  {
    var at := a + t;
    assert at[|at| - 1] == t[|t| - 1];
    if IsSpace(t[|t| - 1]) {
      var t' := t[..|t| - 1];
      assert at[..|at| - 1] == a + t';
      TrimRightSpaceAppend(a, t');
    }
  }

  /** `strings.TrimSpace`: `s` without its leading and trailing white space. */
  function TrimSpace(s: string): (r: string)
    ensures |r| <= |s|
    ensures r != [] ==> !IsSpace(r[0]) && !IsSpace(r[|r| - 1])
  {
    var l := TrimLeftSpace(s);
    TrimRightSpacePrefix(l);
    TrimRightSpace(l)
  }

  /** Trimming a string whose first character is not white space only trims its end. */
  lemma TrimSpaceOfUnspacedStart(s: string)
    requires s != [] && !IsSpace(s[0])
    ensures TrimSpace(s) == TrimRightSpace(s)
  {
  }

  /** `sep` occurs in `s` at position `i`. */
  predicate OccursAt(s: string, sep: string, i: int)
  {
    0 <= i && i + |sep| <= |s| && s[i..i + |sep|] == sep
  }

  /** `strings.Index`: the first position where `sep` occurs in `s`, or -1. */
  function Index(s: string, sep: string): (r: int)
    ensures r >= -1
    ensures r == -1 <==> forall i :: 0 <= i <= |s| - |sep| ==> !OccursAt(s, sep, i)
    ensures r >= 0 ==> OccursAt(s, sep, r) && (forall i :: 0 <= i < r ==> !OccursAt(s, sep, i))
  {
    IndexFrom(s, sep, 0)
  }

  function IndexFrom(s: string, sep: string, from: nat): (r: int)
    requires from <= |s| + 1
    ensures r >= -1
    ensures r == -1 <==> forall i :: from <= i <= |s| - |sep| ==> !OccursAt(s, sep, i)
    ensures r >= 0 ==> (from <= r && OccursAt(s, sep, r)
                        && forall i :: from <= i < r ==> !OccursAt(s, sep, i))
    decreases |s| + 1 - from
  {
    if from + |sep| > |s| then -1
    else if s[from..from + |sep|] == sep then assert OccursAt(s, sep, from); from
    else IndexFrom(s, sep, from + 1)
  }

  /** A slice of a slice is a slice of the original. */
  lemma SliceOfSlice<T>(v: seq<T>, a: nat, b: nat, c: nat, d: nat)
    requires a <= b <= |v| && c <= d <= b - a
    ensures v[a..b][c..d] == v[a + c..a + d]
  {
    forall k | 0 <= k < d - c
      ensures v[a..b][c..d][k] == v[a + c..a + d][k]
    {
      assert v[a..b][c..d][k] == v[a..b][c + k] == v[a + c + k];
    }
  }

  /** `strings.Join`. */
  function Join(parts: seq<string>, sep: string): string
  {
    if parts == [] then []
    else if |parts| == 1 then parts[0]
    else parts[0] + sep + Join(parts[1..], sep)
  }

  lemma JoinCons(head: string, tail: seq<string>, sep: string)
    requires tail != []
    ensures Join([head] + tail, sep) == head + sep + Join(tail, sep)
  {
    assert ([head] + tail)[1..] == tail;
  }

  /** Appending one more part to a join appends the separator and the part. */
  lemma {:induction false} JoinSnoc(parts: seq<string>, last: string, sep: string)
    requires parts != []
    ensures Join(parts + [last], sep) == Join(parts, sep) + sep + last
    decreases |parts|
  {
    if |parts| > 1 {
      assert (parts + [last])[1..] == parts[1..] + [last];
      JoinSnoc(parts[1..], last, sep);
    } else {
      assert parts + [last] == [parts[0], last];
    }
  }

  /** A string without white space is its own `TrimSpace`. */
  lemma TrimSpaceNoSpace(s: string)
    requires forall i :: 0 <= i < |s| ==> !IsSpace(s[i])
    ensures TrimSpace(s) == s
  {
    if s != [] {
      assert TrimLeftSpace(s) == s;
      assert TrimRightSpace(s) == s;
    }
  }

  /** Go's `explode(s, k)` for `0 <= k <= |s|`: `k - 1` one-character pieces, then the rest. */
  function Explode(s: string, k: nat): (r: seq<string>)
    requires k <= |s|
    ensures |r| == k
  {
    if k == 0 then []
    else if k == 1 then [s]
    else [s[..1]] + Explode(s[1..], k - 1)
  }

  /** Go's `genSplit` loop for a non-empty separator: cut at most `cuts` times, any number when negative. */
  function SplitCuts(s: string, sep: string, cuts: int): (r: seq<string>)
    requires sep != []
    ensures |r| >= 1
    decreases |s|
  {
    if cuts == 0 || Index(s, sep) < 0 then [s]
    else [s[..Index(s, sep)]] + SplitCuts(s[Index(s, sep) + |sep|..], sep, NextCuts(cuts))
  }

  /** The cut budget after one cut; a negative budget never runs out. */
  function NextCuts(cuts: int): int
  {
    if cuts > 0 then cuts - 1 else cuts
  }

  /** `strings.SplitN`. */
  function SplitN(s: string, sep: string, n: int): seq<string>
  {
    if n == 0 then []
    else if sep == [] then Explode(s, if n < 0 || n > |s| then |s| else n)
    else SplitCuts(s, sep, if n < 0 then -1 else n - 1)
  }

  /** `strings.Split`. */
  function Split(s: string, sep: string): seq<string>
  {
    SplitN(s, sep, -1)
  }

  lemma {:induction false} ExplodeJoin(s: string, k: nat)
    requires 1 <= k <= |s|
    ensures Join(Explode(s, k), []) == s
    decreases k
  {
    if k > 1 {
      ExplodeJoin(s[1..], k - 1);
      assert s == s[..1] + s[1..];
    }
  }

  lemma {:induction false} SplitCutsJoin(s: string, sep: string, cuts: int)
    requires sep != []
    ensures Join(SplitCuts(s, sep, cuts), sep) == s
    ensures cuts >= 0 ==> |SplitCuts(s, sep, cuts)| <= cuts + 1
    decreases |s|
  {
    var i := Index(s, sep);
    if cuts != 0 && i >= 0 {
      var head, rest := s[..i], s[i + |sep|..];
      var next := NextCuts(cuts);
      var tail := SplitCuts(rest, sep, next);
      SplitCutsJoin(rest, sep, next);
      assert SplitCuts(s, sep, cuts) == [head] + tail;
      JoinCons(head, tail, sep);
      assert s[i..i + |sep|] == sep by { assert OccursAt(s, sep, i); }
      assert s == head + s[i..i + |sep|] + rest;
    } else {
      assert SplitCuts(s, sep, cuts) == [s];
    }
  }

  /** The text before the first occurrence of `sep` does not contain `sep`. */
  lemma BeforeFirstFree(s: string, sep: string)
    requires sep != [] && Index(s, sep) >= 0
    ensures Index(s[..Index(s, sep)], sep) == -1
  {
    var i := Index(s, sep);
    var head := s[..i];
    forall j | 0 <= j <= |head| - |sep|
      ensures !OccursAt(head, sep, j)
    {
      assert !OccursAt(s, sep, j);
      assert head[j..j + |sep|] == s[j..j + |sep|];
    }
  }

  /** Splitting with no limit leaves no occurrence of the separator inside any piece. */
  lemma {:induction false} SplitCutsPiecesFree(s: string, sep: string)
    requires sep != []
    ensures forall p :: p in SplitCuts(s, sep, -1) ==> Index(p, sep) == -1
    decreases |s|
  {
    var i := Index(s, sep);
    if i >= 0 {
      var rest := SplitCuts(s[i + |sep|..], sep, -1);
      SplitCutsPiecesFree(s[i + |sep|..], sep);
      BeforeFirstFree(s, sep);
      assert SplitCuts(s, sep, -1) == [s[..i]] + rest;
      forall p | p in SplitCuts(s, sep, -1)
        ensures Index(p, sep) == -1
      {
        if p != s[..i] {
          assert p in rest;
        }
      }
    }
  }

  /** Joining the pieces of `Split(s, sep)` with `sep` gives back `s`. */
  lemma SplitJoin(s: string, sep: string)
    requires s != [] || sep != []
    ensures Join(Split(s, sep), sep) == s
  {
    if sep == [] {
      ExplodeJoin(s, |s|);
    } else {
      SplitCutsJoin(s, sep, -1);
    }
  }

  /** `SplitN` with a positive limit yields at most that many pieces, and they join back to `s`. */
  lemma SplitNJoin(s: string, sep: string, n: int)
    requires n != 0 && (s != [] || sep != [])
    ensures Join(SplitN(s, sep, n), sep) == s
    ensures n > 0 ==> |SplitN(s, sep, n)| <= n
  {
    if sep == [] {
      ExplodeJoin(s, if n < 0 || n > |s| then |s| else n);
    } else {
      SplitCutsJoin(s, sep, if n < 0 then -1 else n - 1);
    }
  }
}
