/**
 * Identifier quoting (schemas/quote.go). A `Quoter` is a pair of quote
 * strings; the scanner uses the first byte of each. Builders
 * (`strings.Builder`) are modelled as the string written so far: a method
 * that writes into one takes it and returns it extended.
 */
module Quoting {
  import opened Text

  /** A dialect's identifier quotes, such as `[` and `]`. */
  datatype Quoter = Quoter(prefix: string, suffix: string)
  {
    /** Both quotes are empty: the dialect does not quote at all. */
    predicate IsEmpty()
      ensures IsEmpty() <==> prefix + suffix == []
    {
      prefix == [] && suffix == []
    }

    /** The scanners read `prefix[0]` and `suffix[0]`; a quoter with exactly
        one empty side makes them index out of range. */
    predicate Usable()
    {
      IsEmpty() || (prefix != [] && suffix != [])
    }
  }

  /** The quoter whose prefix is this one's suffix and the other way round. */
  function Reversed(q: Quoter): (r: Quoter)
    ensures r.prefix == q.suffix && r.suffix == q.prefix
  {
    Quoter(q.suffix, q.prefix)
  }

  /** What the scanner wrote last: `lastCh` 0, 1 and 2 in the source. */
  datatype Last = Opened | Copied | Closed

  /** The AS keyword test of the alias loop: a two-byte `strings.EqualFold(_, "AS")`. */
  predicate IsAs(a: char, b: char)
  {
    (a == 'a' || a == 'A') && (b == 's' || b == 'S')
  }

  /** First position at or after `k` that holds `close` or a space, or `|v|`:
      where the content of an already quoted segment ends. */
  function QuotedEnd(v: string, close: char, k: nat): (j: nat)
    requires k <= |v|
    ensures k <= j <= |v|
    decreases |v| - k
  {
    if k == |v| || v[k] == close || v[k] == ' ' then k else QuotedEnd(v, close, k + 1)
  }

  /** First position at or after `k` that holds `.` or a space, or `|v|`:
      where a bare identifier segment ends. */
  function BareEnd(v: string, k: nat): (j: nat)
    requires k <= |v|
    ensures k <= j <= |v|
    decreases |v| - k
  {
    if k == |v| || v[k] == '.' || v[k] == ' ' then k else BareEnd(v, k + 1)
  }

  /** The alias loop stops at `k`: a non-space after a space, followed by
      at least one more byte, and the two bytes there are not `AS`. */
  predicate AliasBreak(v: string, k: nat)
    requires 1 <= k < |v|
  {
    v[k] != ' ' && v[k - 1] == ' ' && |v| > k + 1 && !IsAs(v[k], v[k + 1])
  }

  /** First position at or after `k` where the alias loop stops, or `|v|`.
      The loop starts on a space, where it never stops, so `k` is past it. */
  function AliasEnd(v: string, k: nat): (j: nat)
    requires 1 <= k <= |v|
    ensures k <= j <= |v|
    decreases |v| - k
  {
    if k == |v| || AliasBreak(v, k) then k else AliasEnd(v, k + 1)
  }

  /** One pass of the scanner's outer loop: what it writes, where it goes on, and its new state. */
  datatype Step = Step(out: string, next: nat, last: Last)

  /**
   * The token of `v` at `i` as the scanner of `QuoteTo` handles it, with
   * prefix byte `p`, suffix byte `s`, and `last` the state it is in. After
   * a quoted segment that runs to the end, `next` is one past the end.
   */
  function Token(p: char, s: char, v: string, i: nat, last: Last): (t: Step)
    requires i < |v|
    ensures i < t.next <= |v| + 1
  {
    if v[i] == '.' then
      Step(".", i + 1, Copied)
    else if v[i] == p || v[i] == '`' then
      // an already quoted segment: re-emit its content between p and s
      var j := QuotedEnd(v, if v[i] == p then s else '`', i + 1);
      Step([p] + v[i + 1..j] + [s], j + 1, Closed)
    else if v[i] == ' ' then
      // `a AS b` or `a b`: close the segment, copy up to the alias
      var j := AliasEnd(v, i + 1);
      Step((if last != Closed then [s] else []) + v[i..j], j, Copied)
    else
      // a bare segment
      var j := BareEnd(v, i);
      Step([p] + v[i..j] + [s], j, Closed)
  }

  /** What the scanner writes for `v` from position `i` on. */
  function Scan(p: char, s: char, v: string, i: nat, last: Last): string
    decreases |v| + 1 - i, 1
  {
    if i >= |v| then [] else ScanFrom(p, s, v, i, last)
  }

  /** What the scanner writes for `v` from a position `i` inside it: the token there, then the rest. */
  function ScanFrom(p: char, s: char, v: string, i: nat, last: Last): string
    requires i < |v|
    decreases |v| + 1 - i, 0
  {
    var t := Token(p, s, v, i, last);
    t.out + Scan(p, s, v, t.next, t.last)
  }

  /** One step of the scanner. */
  lemma ScanStep(p: char, s: char, v: string, i: nat, last: Last)
    requires i < |v|
    ensures Scan(p, s, v, i, last)
            == Token(p, s, v, i, last).out + Scan(p, s, v, Token(p, s, v, i, last).next, Token(p, s, v, i, last).last)
  {
  }

  /** One step of the scanner, for a token already known. */
  lemma ScanStepAs(p: char, s: char, v: string, i: nat, last: Last, out: string, next: nat, last': Last)
    requires i < |v| && Token(p, s, v, i, last) == Step(out, next, last')
    ensures Scan(p, s, v, i, last) == out + Scan(p, s, v, next, last')
  {
  }

  /** `Quote`: the identifier expression `v` as the quoter renders it. */
  function Quoted(q: Quoter, v: string): string
    requires q.Usable()
  {
    if q.IsEmpty() then v else Scan(q.prefix[0], q.suffix[0], v, 0, Opened)
  }

  /** The copy loop of an already quoted segment: from `i`, every byte up to `ch` or a space. */
  method CopyQuoted(value: string, i: nat, ch: char, out: string) returns (out': string, j: nat)
    requires i <= |value|
    ensures j == QuotedEnd(value, ch, i)
    ensures out' == out + value[i..j]
  {
    out', j := out, i;
    while j < |value| && value[j] != ch && value[j] != ' '
      invariant i <= j <= |value|
      invariant out' == out + value[i..j]
      invariant QuotedEnd(value, ch, j) == QuotedEnd(value, ch, i)
    {
      assert QuotedEnd(value, ch, j) == QuotedEnd(value, ch, j + 1);
      CopyStep(out, value, i, j);
      out' := out' + [value[j]];
      j := j + 1;
    }
  }

  /** The copy loop of a bare segment: from `i`, every byte up to `.` or a space. */
  method CopyBare(value: string, i: nat, out: string) returns (out': string, j: nat)
    requires i <= |value|
    ensures j == BareEnd(value, i)
    ensures out' == out + value[i..j]
  {
    out', j := out, i;
    while j < |value| && value[j] != '.' && value[j] != ' '
      invariant i <= j <= |value|
      invariant out' == out + value[i..j]
      invariant BareEnd(value, j) == BareEnd(value, i)
    {
      assert BareEnd(value, j) == BareEnd(value, j + 1);
      CopyStep(out, value, i, j);
      out' := out' + [value[j]];
      j := j + 1;
    }
  }

  /** The copy loop after a space: every byte up to the alias that is to be quoted. */
  method CopyAlias(value: string, i: nat, out: string) returns (out': string, j: nat)
    requires i < |value| && value[i] == ' '
    ensures j == AliasEnd(value, i + 1)
    ensures out' == out + value[i..j]
  {
    out', j := out, i;
    while j < |value|
      invariant i <= j <= |value|
      invariant out' == out + value[i..j]
      invariant j > i ==> AliasEnd(value, j) == AliasEnd(value, i + 1)
    {
      if value[j] != ' ' && value[j - 1] == ' ' && (|value| > j + 1 && !IsAs(value[j], value[j + 1])) {
        break;
      }
      CopyStep(out, value, i, j);
      out' := out' + [value[j]];
      j := j + 1;
    }
  }

  /** The scanner on an already quoted segment at `i`: writes the prefix, the
      content up to the closing quote (or a space), and the suffix, and steps
      over the closing quote. */
  method QuoteQuotedSegment(prefix: char, suffix: char, value: string, i: nat, last: Last, out: string)
    returns (i': nat, last': Last, out': string)
    requires i < |value| && value[i] != '.' && (value[i] == prefix || value[i] == '`')
    ensures out' == out + Token(prefix, suffix, value, i, last).out
    ensures i' == Token(prefix, suffix, value, i, last).next && last' == Token(prefix, suffix, value, i, last).last
  {
    var ch := if value[i] == prefix then suffix else '`';
    out' := out + [prefix];
    out', i' := CopyQuoted(value, i + 1, ch, out');
    out' := out' + [suffix];
    assert out' == out + ([prefix] + value[i + 1..i'] + [suffix]);
    last' := Closed;
    i' := i' + 1;
  }

  /** The scanner on a space at `i`: closes the segment unless that was just
      done, then copies up to the alias. */
  method CopySpaces(prefix: char, suffix: char, value: string, i: nat, last: Last, out: string)
    returns (i': nat, last': Last, out': string)
    requires i < |value| && value[i] == ' ' && prefix != ' '
    ensures out' == out + Token(prefix, suffix, value, i, last).out
    ensures i' == Token(prefix, suffix, value, i, last).next && last' == Token(prefix, suffix, value, i, last).last
  {
    out', last' := out, last;
    if last' != Closed {
      out' := out' + [suffix];
      last' := Closed;
    }
    ghost var closing := if last != Closed then [suffix] else [];
    assert out' == out + closing;
    out', i' := CopyAlias(value, i, out');
    last' := Copied;
    assert out' == out + (closing + value[i..i']);
  }

  /** The scanner on a bare segment at `i`: wraps it in the quotes. */
  method QuoteBareSegment(prefix: char, suffix: char, value: string, i: nat, last: Last, out: string)
    returns (i': nat, last': Last, out': string)
    requires i < |value| && value[i] != '.' && value[i] != prefix && value[i] != '`' && value[i] != ' '
    ensures out' == out + Token(prefix, suffix, value, i, last).out
    ensures i' == Token(prefix, suffix, value, i, last).next && last' == Token(prefix, suffix, value, i, last).last
  {
    out' := out + [prefix];
    out', i' := CopyBare(value, i, out');
    out' := out' + [suffix];
    assert out' == out + ([prefix] + value[i..i'] + [suffix]);
    last' := Closed;
  }

  /** Copying one more byte of `value` extends the copied slice by that byte. */
  lemma CopyStep(out: string, value: string, i: nat, j: nat)
    requires i <= j < |value|
    ensures out + value[i..j] + [value[j]] == out + value[i..j + 1]
  {
    assert value[i..j + 1] == value[i..j] + [value[j]];
  }

  /** Concatenation regrouped: a proof step only. */
  lemma Assoc(a: string, b: string, c: string)
    ensures (a + b) + c == a + (b + c)
  {
  }

  /** A segment, a dot and what follows, regrouped as the wrapped segments and the rest: a proof step only. */
  lemma DotChain(x: string, w0: string, y: string, dt: string, rest: string, dw: string)
    requires x == w0 + ("." + y) && y == dt + rest && dw == w0 + "." + dt
    ensures x == dw + rest
  {
  }

  /** `QuoteTo`: appends the quoted form of `value` to the builder `buf`. */
  method QuoteTo(q: Quoter, buf: string, value: string) returns (out: string)
    requires q.Usable()
    ensures out == buf + Quoted(q, value)
  {
    if q.IsEmpty() {
      return buf + value;
    }
    var prefix, suffix := q.prefix[0], q.suffix[0];
    out := buf;
    var last := Opened;
    var i := 0;
    while i < |value|
      invariant 0 <= i <= |value| + 1
      invariant out + Scan(prefix, suffix, value, i, last) == buf + Quoted(q, value)
      decreases |value| + 1 - i
    {
      var before, at, state := out, i, last;
      if value[i] == '.' {
        out := out + ['.'];
        last := Copied;
        i := i + 1;
      } else if value[i] == prefix || value[i] == '`' {
        i, last, out := QuoteQuotedSegment(prefix, suffix, value, i, last, out);
      } else if value[i] == ' ' {
        i, last, out := CopySpaces(prefix, suffix, value, i, last, out);
      } else {
        i, last, out := QuoteBareSegment(prefix, suffix, value, i, last, out);
      }
      ghost var t := Token(prefix, suffix, value, at, state);
      ScanStep(prefix, suffix, value, at, state);
      Assoc(before, t.out, Scan(prefix, suffix, value, i, last));
    }
  }

  /** `Quote`: the quoted form of `s`; an empty quoter leaves `s` as it is. */
  method Quote(q: Quoter, s: string) returns (r: string)
    requires q.Usable()
    ensures r == Quoted(q, s)
    ensures q.IsEmpty() ==> r == s
  {
    r := QuoteTo(q, [], s);
  }

  // ---------------------------------------------------------------------
  // What the scanner does to identifier expressions built from segments

  /** The scanner needs a prefix byte that does not start a `.` or an alias,
      and a backtick prefix (MySQL) must be closed by a backtick. */
  predicate Scannable(p: char, s: char)
  {
    p != '.' && p != ' ' && (p == '`' ==> s == '`')
  }

  /** One `.`-separated segment of an identifier as a caller writes it:
      bare, wrapped in backticks, or wrapped in the dialect's own quotes. */
  datatype Segment = Bare(name: string) | Backticked(name: string) | Native(name: string)

  /** A segment whose name the scanner reads back whole. */
  predicate SegmentOk(p: char, s: char, seg: Segment)
  {
    match seg
    case Bare(n) => n != [] && forall c :: c in n ==> c != '.' && c != ' ' && c != '`' && c != p
    case Backticked(n) => forall c :: c in n ==> c != '`' && c != ' '
    case Native(n) => forall c :: c in n ==> c != s && c != ' '
  }

  /** How the caller writes the segment. */
  function Render(p: char, s: char, seg: Segment): (r: string)
    ensures |r| >= |seg.name|
  {
    match seg
    case Bare(n) => n
    case Backticked(n) => ['`'] + n + ['`']
    case Native(n) => [p] + n + [s]
  }

  /** How the dialect writes the segment: its name between the quote bytes. */
  function Wrap(p: char, s: char, seg: Segment): (r: string)
    ensures |r| == |seg.name| + 2 && r[0] == p && r[|r| - 1] == s
  {
    [p] + seg.name + [s]
  }

  function Renders(p: char, s: char, segs: seq<Segment>): (r: seq<string>)
    ensures |r| == |segs|
  {
    if segs == [] then [] else [Render(p, s, segs[0])] + Renders(p, s, segs[1..])
  }

  function Wraps(p: char, s: char, segs: seq<Segment>): (r: seq<string>)
    ensures |r| == |segs|
  {
    if segs == [] then [] else [Wrap(p, s, segs[0])] + Wraps(p, s, segs[1..])
  }

  predicate AllOk(p: char, s: char, segs: seq<Segment>)
  {
    forall k :: 0 <= k < |segs| ==> SegmentOk(p, s, segs[k])
  }

  /** `v` holds the rendered segment at `i`. */
  predicate SegmentAt(p: char, s: char, v: string, i: nat, seg: Segment)
  {
    i + |Render(p, s, seg)| <= |v| && v[i..i + |Render(p, s, seg)|] == Render(p, s, seg)
  }

  /** Position `e` of `v` ends a segment: the end of `v`, a `.` or a space follows. */
  predicate SegmentEnds(v: string, e: nat)
  {
    e == |v| || (e < |v| && (v[e] == '.' || v[e] == ' '))
  }

  /** `BareEnd` is the first stop at or after `k`. */
  lemma {:induction false} BareEndAt(v: string, k: nat, e: nat)
    requires k <= e && SegmentEnds(v, e)
    requires forall m :: k <= m < e ==> v[m] != '.' && v[m] != ' '
    ensures BareEnd(v, k) == e
    decreases e - k
  {
    if k < e {
      BareEndAt(v, k + 1, e);
    }
  }

  /** `QuotedEnd` is the first stop at or after `k`. */
  lemma {:induction false} QuotedEndAt(v: string, close: char, k: nat, e: nat)
    requires k <= e < |v| && v[e] == close
    requires forall m :: k <= m < e ==> v[m] != close && v[m] != ' '
    ensures QuotedEnd(v, close, k) == e
    decreases e - k
  {
    if k < e {
      QuotedEndAt(v, close, k + 1, e);
    }
  }

  /** The scanner on a bare name at `i` writes it between the quote bytes. */
  lemma BareSegmentStep(p: char, s: char, v: string, i: nat, last: Last, n: string)
    requires SegmentOk(p, s, Bare(n))
    requires i + |n| <= |v| && v[i..i + |n|] == n && SegmentEnds(v, i + |n|)
    ensures Scan(p, s, v, i, last) == [p] + n + [s] + Scan(p, s, v, i + |n|, Closed)
  {
    BareToken(p, s, v, i, last, n);
    ScanStepAs(p, s, v, i, last, [p] + n + [s], i + |n|, Closed);
  }

  /** The token at a bare name is the name between the quote bytes. */
  lemma BareToken(p: char, s: char, v: string, i: nat, last: Last, n: string)
    requires SegmentOk(p, s, Bare(n))
    requires i + |n| <= |v| && v[i..i + |n|] == n && SegmentEnds(v, i + |n|)
    ensures i < |v| && Token(p, s, v, i, last) == Step([p] + n + [s], i + |n|, Closed)
  {
    assert v[i] == v[i..i + |n|][0] == n[0] && n[0] in n;
    forall m | i <= m < i + |n|
      ensures v[m] != '.' && v[m] != ' '
    {
      assert v[m] == v[i..i + |n|][m - i] == n[m - i] && n[m - i] in n;
    }
    BareEndAt(v, i, i + |n|);
  }

  /** The scanner on a name between `v[i]` and the matching `close` byte
      writes the name between the quote bytes and steps past `close`. */
  lemma QuotedSegmentStep(p: char, s: char, v: string, i: nat, last: Last, n: string, close: char)
    requires i < |v| && v[i] != '.' && (v[i] == p || v[i] == '`')
    requires close == if v[i] == p then s else '`'
    requires forall c :: c in n ==> c != close && c != ' '
    requires i + 1 + |n| < |v| && v[i + 1..i + 1 + |n|] == n && v[i + 1 + |n|] == close
    ensures Scan(p, s, v, i, last) == [p] + n + [s] + Scan(p, s, v, i + 2 + |n|, Closed)
  {
    QuotedToken(p, s, v, i, last, n, close);
    ScanStepAs(p, s, v, i, last, [p] + n + [s], i + 2 + |n|, Closed);
  }

  /** The token at a quoted name is the name between the quote bytes, past `close`. */
  lemma QuotedToken(p: char, s: char, v: string, i: nat, last: Last, n: string, close: char)
    requires i < |v| && v[i] != '.' && (v[i] == p || v[i] == '`')
    requires close == if v[i] == p then s else '`'
    requires forall c :: c in n ==> c != close && c != ' '
    requires i + 1 + |n| < |v| && v[i + 1..i + 1 + |n|] == n && v[i + 1 + |n|] == close
    ensures Token(p, s, v, i, last) == Step([p] + n + [s], i + 2 + |n|, Closed)
  {
    forall m | i + 1 <= m < i + 1 + |n|
      ensures v[m] != close && v[m] != ' '
    {
      assert v[m] == v[i + 1..i + 1 + |n|][m - i - 1] == n[m - i - 1] && n[m - i - 1] in n;
    }
    QuotedEndAt(v, close, i + 1, i + 1 + |n|);
  }

  /** Where `[o] + n + [c]` sits in `v` at `i`, its three parts sit at `i`, after it, and after `n`. */
  lemma Enclosed(v: string, i: nat, o: char, n: string, c: char)
    requires i + |n| + 2 <= |v| && v[i..i + |n| + 2] == [o] + n + [c]
    ensures v[i] == o && v[i + 1..i + 1 + |n|] == n && v[i + 1 + |n|] == c
  {
    var w := v[i..i + |n| + 2];
    assert v[i] == w[0];
    SliceOfSlice(v, i, i + |n| + 2, 1, |n| + 1);
    assert w[1..|n| + 1] == n;
    assert v[i + 1 + |n|] == w[|n| + 1];
  }

  /** The scanner on one rendered segment at `i` writes it wrapped and ends in state `Closed`. */
  lemma SegmentStep(p: char, s: char, v: string, i: nat, last: Last, seg: Segment)
    requires Scannable(p, s) && SegmentOk(p, s, seg)
    requires SegmentAt(p, s, v, i, seg)
    requires SegmentEnds(v, i + |Render(p, s, seg)|)
    ensures Scan(p, s, v, i, last) == Wrap(p, s, seg) + Scan(p, s, v, i + |Render(p, s, seg)|, Closed)
  {
    var r := Render(p, s, seg);
    var n := seg.name;
    match seg
    case Bare(_) =>
      BareSegmentStep(p, s, v, i, last, n);
    case Backticked(_) =>
      Enclosed(v, i, '`', n, '`');
      QuotedSegmentStep(p, s, v, i, last, n, '`');
    case Native(_) =>
      Enclosed(v, i, p, n, s);
      QuotedSegmentStep(p, s, v, i, last, n, s);
  }

  /** A segment followed by a dot: both are written and the scanner goes on in state `Copied`. */
  lemma SegmentDotStep(p: char, s: char, v: string, i: nat, last: Last, seg: Segment)
    requires Scannable(p, s) && SegmentOk(p, s, seg)
    requires SegmentAt(p, s, v, i, seg) && i + |Render(p, s, seg)| < |v| && v[i + |Render(p, s, seg)|] == '.'
    ensures Scan(p, s, v, i, last)
            == Wrap(p, s, seg) + ("." + Scan(p, s, v, i + |Render(p, s, seg)| + 1, Copied))
  {
    SegmentStep(p, s, v, i, last, seg);
  }

  /** Where `a + "." + b` sits in `v` at `i`, `a` sits at `i` and `b` after the dot. */
  lemma DotSplit(v: string, i: nat, a: string, b: string)
    requires i + |a| + 1 + |b| <= |v| && v[i..i + |a| + 1 + |b|] == a + "." + b
    ensures v[i..i + |a|] == a && v[i + |a|] == '.'
    ensures v[i + |a| + 1..i + |a| + 1 + |b|] == b
  {
    var w := v[i..i + |a| + 1 + |b|];
    assert v[i..i + |a|] == w[..|a|];
    assert v[i + |a|] == w[|a|];
    assert v[i + |a| + 1..i + |a| + 1 + |b|] == w[|a| + 1..];
  }

  /** `v` holds the rendered segments from `i` on, separated by single dots. */
  predicate DottedAt(p: char, s: char, v: string, i: nat, segs: seq<Segment>)
    decreases |segs|
  {
    segs != [] && SegmentAt(p, s, v, i, segs[0])
    && (|segs| > 1 ==>
          i + |Render(p, s, segs[0])| < |v| && v[i + |Render(p, s, segs[0])|] == '.'
          && DottedAt(p, s, v, i + |Render(p, s, segs[0])| + 1, segs[1..]))
  }

  /** Where the rendered segments that start at `i` end. */
  function DottedEnd(p: char, s: char, i: nat, segs: seq<Segment>): (e: nat)
    requires segs != []
    ensures e >= i
    decreases |segs|
  {
    if |segs| == 1 then i + |Render(p, s, segs[0])|
    else DottedEnd(p, s, i + |Render(p, s, segs[0])| + 1, segs[1..])
  }

  /** The segments as the caller writes them, joined by dots. */
  function Dotted(p: char, s: char, segs: seq<Segment>): string
    requires segs != []
    decreases |segs|
  {
    if |segs| == 1 then Render(p, s, segs[0])
    else Render(p, s, segs[0]) + "." + Dotted(p, s, segs[1..])
  }

  /** The segments as the dialect writes them: each wrapped, joined by dots. */
  function DottedWrap(p: char, s: char, segs: seq<Segment>): string
    requires segs != []
    decreases |segs|
  {
    if |segs| == 1 then Wrap(p, s, segs[0])
    else Wrap(p, s, segs[0]) + "." + DottedWrap(p, s, segs[1..])
  }

  /** Where the dotted rendering of `segs` sits in `v` at `i`, `DottedAt` finds it there. */
  lemma DottedAtRendered(p: char, s: char, v: string, i: nat, segs: seq<Segment>)
    requires segs != []
    requires i + |Dotted(p, s, segs)| <= |v| && v[i..i + |Dotted(p, s, segs)|] == Dotted(p, s, segs)
    ensures DottedAt(p, s, v, i, segs)
    ensures DottedEnd(p, s, i, segs) == i + |Dotted(p, s, segs)|
  {
    DottedAtFound(p, s, v, i, segs);
    DottedEndLength(p, s, i, segs);
  }

  /** The segments are found where their dotted rendering sits. */
  lemma {:induction false} DottedAtFound(p: char, s: char, v: string, i: nat, segs: seq<Segment>)
    requires segs != []
    requires i + |Dotted(p, s, segs)| <= |v| && v[i..i + |Dotted(p, s, segs)|] == Dotted(p, s, segs)
    ensures DottedAt(p, s, v, i, segs)
    decreases |segs|
  {
    if |segs| > 1 {
      DottedSplit(p, s, v, i, segs);
      DottedAtFound(p, s, v, i + |Render(p, s, segs[0])| + 1, segs[1..]);
    }
  }

  /** Where the segments end is where their dotted rendering ends. */
  lemma {:induction false} DottedEndLength(p: char, s: char, i: nat, segs: seq<Segment>)
    requires segs != []
    ensures DottedEnd(p, s, i, segs) == i + |Dotted(p, s, segs)|
    decreases |segs|
  {
    if |segs| > 1 {
      DottedEndLength(p, s, i + |Render(p, s, segs[0])| + 1, segs[1..]);
    }
  }

  /** Where the dotted rendering of two or more segments sits in `v` at `i`, the first segment sits
      at `i`, a dot after it, and the rendering of the others after the dot. */
  lemma DottedSplit(p: char, s: char, v: string, i: nat, segs: seq<Segment>)
    requires |segs| > 1
    requires i + |Dotted(p, s, segs)| <= |v| && v[i..i + |Dotted(p, s, segs)|] == Dotted(p, s, segs)
    ensures SegmentAt(p, s, v, i, segs[0])
    ensures i + |Render(p, s, segs[0])| < |v| && v[i + |Render(p, s, segs[0])|] == '.'
    ensures var j := i + |Render(p, s, segs[0])| + 1;
            j + |Dotted(p, s, segs[1..])| <= |v| && v[j..j + |Dotted(p, s, segs[1..])|] == Dotted(p, s, segs[1..])
  {
    DotSplit(v, i, Render(p, s, segs[0]), Dotted(p, s, segs[1..]));
  }

  /** The scanner on rendered dotted segments at `i` writes each segment
      wrapped, with the dots between them copied, and ends in state `Closed`. */
  lemma {:induction false} DottedScan(p: char, s: char, v: string, i: nat, last: Last, segs: seq<Segment>)
    requires Scannable(p, s) && AllOk(p, s, segs)
    requires DottedAt(p, s, v, i, segs) && SegmentEnds(v, DottedEnd(p, s, i, segs))
    ensures Scan(p, s, v, i, last) == DottedWrap(p, s, segs) + Scan(p, s, v, DottedEnd(p, s, i, segs), Closed)
    decreases |segs|, 3
  {
    if |segs| == 1 {
      DottedOne(p, s, v, i, segs);
      SegmentStep(p, s, v, i, last, segs[0]);
    } else {
      DottedScanCons(p, s, v, i, last, segs);
    }
  }

  /** A single segment: it sits at `i`, and the dotted forms are its own. */
  lemma DottedOne(p: char, s: char, v: string, i: nat, segs: seq<Segment>)
    requires AllOk(p, s, segs) && |segs| == 1 && DottedAt(p, s, v, i, segs)
    ensures SegmentOk(p, s, segs[0]) && SegmentAt(p, s, v, i, segs[0])
    ensures DottedEnd(p, s, i, segs) == i + |Render(p, s, segs[0])|
    ensures DottedWrap(p, s, segs) == Wrap(p, s, segs[0])
  {
  }

  /** The first segment of several and the rest after its dot. */
  lemma DottedCons(p: char, s: char, v: string, i: nat, segs: seq<Segment>)
    requires AllOk(p, s, segs) && |segs| > 1 && DottedAt(p, s, v, i, segs)
    ensures SegmentOk(p, s, segs[0]) && AllOk(p, s, segs[1..])
    ensures SegmentAt(p, s, v, i, segs[0])
    ensures i + |Render(p, s, segs[0])| < |v| && v[i + |Render(p, s, segs[0])|] == '.'
    ensures DottedAt(p, s, v, i + |Render(p, s, segs[0])| + 1, segs[1..])
    ensures DottedEnd(p, s, i, segs) == DottedEnd(p, s, i + |Render(p, s, segs[0])| + 1, segs[1..])
    ensures DottedWrap(p, s, segs) == Wrap(p, s, segs[0]) + "." + DottedWrap(p, s, segs[1..])
  {
    assert SegmentOk(p, s, segs[0]);
    var tail := segs[1..];
    forall k | 0 <= k < |tail|
      ensures SegmentOk(p, s, tail[k])
    {
      assert tail[k] == segs[k + 1];
    }
  }

  lemma {:induction false} DottedScanCons(p: char, s: char, v: string, i: nat, last: Last, segs: seq<Segment>)
    requires Scannable(p, s) && AllOk(p, s, segs) && |segs| > 1
    requires DottedAt(p, s, v, i, segs) && SegmentEnds(v, DottedEnd(p, s, i, segs))
    ensures Scanned(p, s, v, i, last) == DottedWrap(p, s, segs) + Scanned(p, s, v, DottedEnd(p, s, i, segs), Closed)
    decreases |segs|, 2
  {
    var next := i + |Render(p, s, segs[0])| + 1;
    DottedScanParts(p, s, v, i, last, segs);
    DotChain(Scanned(p, s, v, i, last), Wrap(p, s, segs[0]), Scanned(p, s, v, next, Copied),
             DottedWrap(p, s, segs[1..]), Scanned(p, s, v, DottedEnd(p, s, i, segs), Closed), DottedWrap(p, s, segs));
  }

  /** What the scanner writes from `i` on: `Scan` under a name whose uses in the chaining
      lemmas below do not unfold the scanner. */
  function Scanned(p: char, s: char, v: string, i: nat, last: Last): string
  {
    Scan(p, s, v, i, last)
  }

  /** The first segment with its dot, and the segments after the dot, as the scanner writes them. */
  lemma DottedScanParts(p: char, s: char, v: string, i: nat, last: Last, segs: seq<Segment>)
    requires Scannable(p, s) && AllOk(p, s, segs) && |segs| > 1
    requires DottedAt(p, s, v, i, segs) && SegmentEnds(v, DottedEnd(p, s, i, segs))
    ensures Scanned(p, s, v, i, last)
            == Wrap(p, s, segs[0]) + ("." + Scanned(p, s, v, i + |Render(p, s, segs[0])| + 1, Copied))
    ensures DottedWrap(p, s, segs) == Wrap(p, s, segs[0]) + "." + DottedWrap(p, s, segs[1..])
    ensures Scanned(p, s, v, i + |Render(p, s, segs[0])| + 1, Copied)
            == DottedWrap(p, s, segs[1..]) + Scanned(p, s, v, DottedEnd(p, s, i, segs), Closed)
    decreases |segs|, 1
  {
    DottedScanHead(p, s, v, i, last, segs);
    DottedScanTail(p, s, v, i, segs);
  }

  /** The scanner writes the first segment wrapped and copies its dot. */
  lemma DottedScanHead(p: char, s: char, v: string, i: nat, last: Last, segs: seq<Segment>)
    requires Scannable(p, s) && AllOk(p, s, segs) && |segs| > 1 && DottedAt(p, s, v, i, segs)
    ensures Scanned(p, s, v, i, last)
            == Wrap(p, s, segs[0]) + ("." + Scanned(p, s, v, i + |Render(p, s, segs[0])| + 1, Copied))
    ensures DottedWrap(p, s, segs) == Wrap(p, s, segs[0]) + "." + DottedWrap(p, s, segs[1..])
  {
    DottedCons(p, s, v, i, segs);
    SegmentDotStep(p, s, v, i, last, segs[0]);
  }

  /** After the first segment and its dot, the scanner writes the remaining segments wrapped. */
  lemma {:induction false} DottedScanTail(p: char, s: char, v: string, i: nat, segs: seq<Segment>)
    requires Scannable(p, s) && AllOk(p, s, segs) && |segs| > 1
    requires DottedAt(p, s, v, i, segs) && SegmentEnds(v, DottedEnd(p, s, i, segs))
    ensures Scanned(p, s, v, i + |Render(p, s, segs[0])| + 1, Copied)
            == DottedWrap(p, s, segs[1..]) + Scanned(p, s, v, DottedEnd(p, s, i, segs), Closed)
    decreases |segs|, 0
  {
    DottedCons(p, s, v, i, segs);
    DottedScan(p, s, v, i + |Render(p, s, segs[0])| + 1, Copied, segs[1..]);
  }

  /** `AliasEnd` is the first stop at or after `k`. */
  lemma {:induction false} AliasEndAt(v: string, k: nat, e: nat)
    requires 1 <= k <= e <= |v|
    requires forall m :: k <= m < e ==> !AliasBreak(v, m)
    requires e == |v| || AliasBreak(v, e)
    ensures AliasEnd(v, k) == e
    decreases e - k
  {
    if k < e {
      AliasEndAt(v, k + 1, e);
    }
  }

  /** What may stand between an expression and its alias: one space, or `AS` in any case between single spaces. */
  predicate AliasGap(gap: string)
  {
    gap == " " || (|gap| == 4 && gap[0] == ' ' && IsAs(gap[1], gap[2]) && gap[3] == ' ')
  }

  /** A rendered segment never starts with a space. */
  lemma RenderStart(p: char, s: char, seg: Segment)
    requires Scannable(p, s) && SegmentOk(p, s, seg)
    ensures |Render(p, s, seg)| >= 1 && Render(p, s, seg)[0] != ' '
  {
    if seg.Bare? {
      assert seg.name[0] in seg.name;
    }
  }

  /** The alias loop run from the gap stops right after it. */
  lemma GapEnd(p: char, s: char, v: string, e: nat, gap: string, alias: Segment)
    requires Scannable(p, s) && SegmentOk(p, s, alias) && AliasGap(gap)
    requires e + |gap| <= |v| && v[e..e + |gap|] == gap && SegmentAt(p, s, v, e + |gap|, alias)
    requires e + |gap| + 1 < |v| && !IsAs(v[e + |gap|], v[e + |gap| + 1])
    ensures v[e] == ' ' && AliasEnd(v, e + 1) == e + |gap|
  {
    var k := e + |gap|;
    assert v[e] == gap[0];
    RenderStart(p, s, alias);
    assert v[k] == v[k..k + |Render(p, s, alias)|][0];
    forall m | e + 1 <= m < k
      ensures !AliasBreak(v, m)
    {
      assert v[m] == gap[m - e];
    }
    AliasEndAt(v, e + 1, k);
  }

  /** The scanner on a space. */
  lemma SpaceToken(p: char, s: char, v: string, e: nat, last: Last)
    requires e < |v| && v[e] == ' ' && p != ' '
    ensures Token(p, s, v, e, last)
            == Step((if last != Closed then [s] else []) + v[e..AliasEnd(v, e + 1)], AliasEnd(v, e + 1), Copied)
  {
  }

  /** The token at the gap is the gap itself, and the scanner resumes at the alias in state `Copied`. */
  lemma GapToken(p: char, s: char, v: string, e: nat, gap: string, alias: Segment)
    requires Scannable(p, s) && SegmentOk(p, s, alias) && AliasGap(gap)
    requires e + |gap| <= |v| && v[e..e + |gap|] == gap && SegmentAt(p, s, v, e + |gap|, alias)
    requires e + |gap| + 1 < |v| && !IsAs(v[e + |gap|], v[e + |gap| + 1])
    ensures e < |v| && Token(p, s, v, e, Closed) == Step(gap, e + |gap|, Copied)
  {
    GapEnd(p, s, v, e, gap, alias);
    SpaceToken(p, s, v, e, Closed);
  }

  /** `Quote` on a bare identifier wraps it in the quote bytes, once. */
  lemma QuoteBareName(q: Quoter, name: string)
    requires q.prefix != [] && q.suffix != [] && SegmentOk(q.prefix[0], q.suffix[0], Bare(name))
    ensures Quoted(q, name) == [q.prefix[0]] + name + [q.suffix[0]]
  {
    assert name[0..|name|] == name;
    BareSegmentStep(q.prefix[0], q.suffix[0], name, 0, Opened, name);
  }

  /** `Quote` on `.`-separated segments, each bare or already quoted in backticks or in
      the dialect's quotes, quotes each segment on its own and copies the dots. */
  lemma QuoteDotted(q: Quoter, segs: seq<Segment>, v: string)
    requires q.prefix != [] && q.suffix != [] && Scannable(q.prefix[0], q.suffix[0])
    requires AllOk(q.prefix[0], q.suffix[0], segs)
    requires DottedAt(q.prefix[0], q.suffix[0], v, 0, segs) && DottedEnd(q.prefix[0], q.suffix[0], 0, segs) == |v|
    ensures Quoted(q, v) == DottedWrap(q.prefix[0], q.suffix[0], segs)
  {
    DottedScan(q.prefix[0], q.suffix[0], v, 0, Opened, segs);
  }

  /** `Quote` on `expr alias` or `expr AS alias`: both sides are quoted, the gap and the
      keyword are copied as they are. */
  lemma QuoteAliased(q: Quoter, segs: seq<Segment>, gap: string, alias: seq<Segment>, v: string, e: nat, k: nat)
    requires q.prefix != [] && q.suffix != [] && Scannable(q.prefix[0], q.suffix[0])
    requires AllOk(q.prefix[0], q.suffix[0], segs) && AllOk(q.prefix[0], q.suffix[0], alias) && AliasGap(gap)
    requires DottedAt(q.prefix[0], q.suffix[0], v, 0, segs) && e == DottedEnd(q.prefix[0], q.suffix[0], 0, segs)
    requires k == e + |gap| && k + 1 < |v| && v[e..k] == gap && !IsAs(v[k], v[k + 1])
    requires DottedAt(q.prefix[0], q.suffix[0], v, k, alias) && DottedEnd(q.prefix[0], q.suffix[0], k, alias) == |v|
    ensures Quoted(q, v) == DottedWrap(q.prefix[0], q.suffix[0], segs) + gap + DottedWrap(q.prefix[0], q.suffix[0], alias)
  {
    var p, s := q.prefix[0], q.suffix[0];
    AliasedExpr(p, s, v, segs, e, gap);
    GapStep(p, s, v, e, gap, alias[0]);
    AliasedName(p, s, v, k, alias);
    AliasChain(Scanned(p, s, v, 0, Opened), DottedWrap(p, s, segs), Scanned(p, s, v, e, Closed), gap,
               Scanned(p, s, v, k, Copied), DottedWrap(p, s, alias));
  }

  /** The expression before the gap comes out wrapped, and the scanner stops at the gap in state `Closed`. */
  lemma AliasedExpr(p: char, s: char, v: string, segs: seq<Segment>, e: nat, gap: string)
    requires Scannable(p, s) && AllOk(p, s, segs) && AliasGap(gap)
    requires DottedAt(p, s, v, 0, segs) && e == DottedEnd(p, s, 0, segs)
    requires e + |gap| <= |v| && v[e..e + |gap|] == gap
    ensures Scanned(p, s, v, 0, Opened) == DottedWrap(p, s, segs) + Scanned(p, s, v, e, Closed)
  {
    assert v[e] == gap[0];
    DottedScan(p, s, v, 0, Opened, segs);
  }

  /** After the expression, the scanner copies the gap to the alias and goes on in state `Copied`,
      provided the alias is at least two bytes long and does not itself begin with `as`. */
  lemma GapStep(p: char, s: char, v: string, e: nat, gap: string, alias: Segment)
    requires Scannable(p, s) && SegmentOk(p, s, alias) && AliasGap(gap)
    requires e + |gap| <= |v| && v[e..e + |gap|] == gap && SegmentAt(p, s, v, e + |gap|, alias)
    requires e + |gap| + 1 < |v| && !IsAs(v[e + |gap|], v[e + |gap| + 1])
    ensures Scanned(p, s, v, e, Closed) == gap + Scanned(p, s, v, e + |gap|, Copied)
  {
    GapToken(p, s, v, e, gap, alias);
    ScanStepAs(p, s, v, e, Closed, gap, e + |gap|, Copied);
  }

  /** The alias after the gap, to the end of the text, comes out wrapped. */
  lemma AliasedName(p: char, s: char, v: string, k: nat, alias: seq<Segment>)
    requires Scannable(p, s) && AllOk(p, s, alias)
    requires DottedAt(p, s, v, k, alias) && DottedEnd(p, s, k, alias) == |v|
    ensures Scanned(p, s, v, k, Copied) == DottedWrap(p, s, alias)
  {
    DottedScan(p, s, v, k, Copied, alias);
    assert Scan(p, s, v, |v|, Closed) == [];
  }

  /** The three pieces of an aliased expression, written one after the other: a proof step only. */
  lemma AliasChain(x0: string, w: string, x1: string, gap: string, x2: string, x: string)
    requires x0 == w + x1 && x1 == gap + x2 && x2 == x
    ensures x0 == w + gap + x
  {
  }

  /** `QuoteDotted` on the text written by the caller. */
  lemma QuoteDottedText(q: Quoter, segs: seq<Segment>)
    requires q.prefix != [] && q.suffix != [] && Scannable(q.prefix[0], q.suffix[0])
    requires segs != [] && AllOk(q.prefix[0], q.suffix[0], segs)
    ensures Quoted(q, Dotted(q.prefix[0], q.suffix[0], segs)) == DottedWrap(q.prefix[0], q.suffix[0], segs)
  {
    var v := Dotted(q.prefix[0], q.suffix[0], segs);
    assert v[0..|v|] == v;
    DottedAtRendered(q.prefix[0], q.suffix[0], v, 0, segs);
    QuoteDotted(q, segs, v);
  }

  /** Where the three parts of `a + g + b` sit, and the first two bytes of `b`: a proof step only. */
  lemma Parts(a: string, g: string, b: string)
    requires |b| >= 2
    ensures (a + g + b)[0..|a|] == a && (a + g + b)[|a|..|a| + |g|] == g
    ensures (a + g + b)[|a| + |g|..|a| + |g| + |b|] == b
    ensures (a + g + b)[|a| + |g|] == b[0] && (a + g + b)[|a| + |g| + 1] == b[1]
  {
  }

  /** `QuoteAliased` on the text written by the caller: `expr alias` or `expr AS alias`,
      where the alias is at least two bytes long and does not begin with `as`. */
  lemma QuoteAliasedText(q: Quoter, segs: seq<Segment>, gap: string, alias: seq<Segment>)
    requires q.prefix != [] && q.suffix != [] && Scannable(q.prefix[0], q.suffix[0])
    requires segs != [] && AllOk(q.prefix[0], q.suffix[0], segs)
    requires alias != [] && AllOk(q.prefix[0], q.suffix[0], alias) && AliasGap(gap)
    requires |Dotted(q.prefix[0], q.suffix[0], alias)| >= 2
    requires !IsAs(Dotted(q.prefix[0], q.suffix[0], alias)[0], Dotted(q.prefix[0], q.suffix[0], alias)[1])
    ensures Quoted(q, Dotted(q.prefix[0], q.suffix[0], segs) + gap + Dotted(q.prefix[0], q.suffix[0], alias))
            == DottedWrap(q.prefix[0], q.suffix[0], segs) + gap + DottedWrap(q.prefix[0], q.suffix[0], alias)
  {
    var p, s := q.prefix[0], q.suffix[0];
    var a, b := Dotted(p, s, segs), Dotted(p, s, alias);
    var v := a + gap + b;
    var e, k := |a|, |a| + |gap|;
    Parts(a, gap, b);
    DottedAtRendered(p, s, v, 0, segs);
    DottedAtRendered(p, s, v, k, alias);
    QuoteAliased(q, segs, gap, alias, v, e, k);
  }

  /** The scanner on a closing space and one last byte copies both. */
  lemma ShortAliasStep(p: char, s: char, v: string, e: nat)
    requires e + 2 == |v| && v[e] == ' ' && v[e + 1] != ' ' && p != ' '
    ensures Scan(p, s, v, e, Closed) == v[e..]
  {
    AliasEndAt(v, e + 1, |v|);
    SpaceToken(p, s, v, e, Closed);
    ScanStepAs(p, s, v, e, Closed, v[e..], |v|, Copied);
    assert v[e..] + [] == v[e..];
  }

  /** A one-byte alias stays unquoted: the alias loop only stops on a byte that has
      another one after it, so `a b` becomes `[a] b`. */
  lemma QuoteShortAlias(q: Quoter, segs: seq<Segment>, c: char)
    requires q.prefix != [] && q.suffix != [] && Scannable(q.prefix[0], q.suffix[0])
    requires segs != [] && AllOk(q.prefix[0], q.suffix[0], segs) && c != ' '
    ensures Quoted(q, Dotted(q.prefix[0], q.suffix[0], segs) + " " + [c])
            == DottedWrap(q.prefix[0], q.suffix[0], segs) + " " + [c]
  {
    var p, s := q.prefix[0], q.suffix[0];
    var a := Dotted(p, s, segs);
    var v := a + " " + [c];
    ShortAliasText(a, c);
    DottedAtRendered(p, s, v, 0, segs);
    DottedScan(p, s, v, 0, Opened, segs);
    ShortAliasStep(p, s, v, |a|);
    TailChain(Scan(p, s, v, 0, Opened), DottedWrap(p, s, segs), Scan(p, s, v, |a|, Closed), " ", [c]);
  }

  /** Where the expression `a` is followed by a space and a one-byte alias `c`. */
  lemma ShortAliasText(a: string, c: char)
    ensures (a + " " + [c])[0..|a|] == a && (a + " " + [c])[|a|] == ' '
    ensures (a + " " + [c])[|a| + 1] == c && (a + " " + [c])[|a|..] == " " + [c]
  {
    var v := a + " " + [c];
    assert v[0..|a|] == a;
    assert v[|a|..] == " " + [c];
  }

  /** What is written before a tail and the tail itself, regrouped: a proof step only. */
  lemma TailChain(x0: string, w: string, x1: string, t1: string, t2: string)
    ensures x0 == w + x1 && x1 == t1 + t2 ==> x0 == w + t1 + t2
  {
  }

  /** `TestQuoteTo`: a bare name. */
  lemma QuoteToBareVector()
    ensures Quoted(Quoter("[", "]"), "mytable") == "[mytable]"
  {
    QuoteBareName(Quoter("[", "]"), "mytable");
  }

  /** `TestQuoteTo`: a name in backticks. */
  lemma QuoteToBacktickVector()
    ensures Quoted(Quoter("[", "]"), "`mytable`") == "[mytable]"
  {
    var segs := [Backticked("mytable")];
    assert Dotted('[', ']', segs) == "`mytable`";
    assert DottedWrap('[', ']', segs) == "[mytable]";
    QuoteDottedText(Quoter("[", "]"), segs);
  }

  /** `TestQuoteTo`: a name already in the dialect's brackets. */
  lemma QuoteToNativeVector()
    ensures Quoted(Quoter("[", "]"), "[mytable]") == "[mytable]"
  {
    var segs := [Native("mytable")];
    assert Dotted('[', ']', segs) == "[mytable]";
    assert DottedWrap('[', ']', segs) == "[mytable]";
    QuoteDottedText(Quoter("[", "]"), segs);
  }

  /** `TestQuoteTo`: double quotes are not the dialect's, so a name in them is bare and
      is wrapped whole. */
  lemma QuoteToDoubleQuotedVector()
    ensures Quoted(Quoter("[", "]"), "\"mytable\"") == "[\"mytable\"]"
  {
    QuoteBareName(Quoter("[", "]"), "\"mytable\"");
  }

  /** `TestQuoteTo`: inside double quotes the `.` still separates two bare segments. */
  lemma QuoteToDoubleQuotedDottedVector()
    ensures Quoted(Quoter("[", "]"), "\"myschema.mytable\"") == "[\"myschema].[mytable\"]"
  {
    var segs := [Bare("\"myschema"), Bare("mytable\"")];
    DoubleQuotedOk(segs);
    DoubleQuotedText(segs);
    DoubleQuotedWrap(segs);
    QuoteDottedText(Quoter("[", "]"), segs);
  }

  lemma DoubleQuotedOk(segs: seq<Segment>)
    requires segs == [Bare("\"myschema"), Bare("mytable\"")]
    ensures Scannable('[', ']') && AllOk('[', ']', segs)
  {
    assert SegmentOk('[', ']', segs[0]) && SegmentOk('[', ']', segs[1]);
  }

  lemma DoubleQuotedText(segs: seq<Segment>)
    requires segs == [Bare("\"myschema"), Bare("mytable\"")]
    ensures Dotted('[', ']', segs) == "\"myschema.mytable\""
  {
    assert segs[1..] == [Bare("mytable\"")];
  }

  lemma DoubleQuotedWrap(segs: seq<Segment>)
    requires segs == [Bare("\"myschema"), Bare("mytable\"")]
    ensures DottedWrap('[', ']', segs) == "[\"myschema].[mytable\"]"
  {
    assert segs[1..] == [Bare("mytable\"")];
  }

  /** `TestQuoteTo`: a table and its alias, both in backticks. */
  lemma QuoteToAliasVector()
    ensures Quoted(Quoter("[", "]"), "`message_user` AS `sender`") == "[message_user] AS [sender]"
  {
    var segs, alias := [Backticked("message_user")], [Backticked("sender")];
    AliasVectorText();
    AliasVectorWrap();
    AliasVectorOk(segs, alias);
    QuoteAliasedText(Quoter("[", "]"), segs, " AS ", alias);
  }

  lemma AliasVectorOk(segs: seq<Segment>, alias: seq<Segment>)
    requires segs == [Backticked("message_user")] && alias == [Backticked("sender")]
    ensures Scannable('[', ']') && AliasGap(" AS ")
    ensures AllOk('[', ']', segs) && AllOk('[', ']', alias)
  {
    assert SegmentOk('[', ']', segs[0]);
    assert SegmentOk('[', ']', alias[0]);
  }

  lemma AliasVectorText()
    ensures Dotted('[', ']', [Backticked("message_user")]) + " AS " + Dotted('[', ']', [Backticked("sender")])
            == "`message_user` AS `sender`"
    ensures |Dotted('[', ']', [Backticked("sender")])| >= 2 && Dotted('[', ']', [Backticked("sender")])[0] == '`'
  {
    var a, b := "`message_user`", "`sender`";
    assert Dotted('[', ']', [Backticked("message_user")]) == a;
    assert Dotted('[', ']', [Backticked("sender")]) == b;
  }

  lemma AliasVectorWrap()
    ensures DottedWrap('[', ']', [Backticked("message_user")]) + " AS " + DottedWrap('[', ']', [Backticked("sender")])
            == "[message_user] AS [sender]"
  {
    var c, d := "[message_user]", "[sender]";
    assert DottedWrap('[', ']', [Backticked("message_user")]) == c;
    assert DottedWrap('[', ']', [Backticked("sender")]) == d;
  }


  // ---------------------------------------------------------------------
  // Replace: switching SQL text from one dialect's quotes to another's

  /** `v` without the bytes `a` and `b`: what `Replace` writes when the new quoter is empty. */
  function Unquoted(v: string, a: char, b: char): (r: string)
    ensures |r| <= |v|
    ensures forall k :: 0 <= k < |r| ==> r[k] != a && r[k] != b
    decreases |v|
  {
    if v == [] then []
    else
      var c := v[|v| - 1];
      Unquoted(v[..|v| - 1], a, b) + (if c == a || c == b then [] else [c])
  }

  /** Whether, after reading `v`, the swap loop of `Replace` is inside a quoted name
      (`cnt == 1` in the source): an opening `a` enters, a closing `b` leaves. */
  function Inside(v: string, a: char, b: char): bool
    decreases |v|
  {
    if v == [] then false
    else
      var o, c := Inside(v[..|v| - 1], a, b), v[|v| - 1];
      if !o && c == a then true else if o && c == b then false else o
  }

  /** What the swap loop writes for `c` in state `o`. */
  function Swap(o: bool, c: char, a: char, b: char, p: char, s: char): char
  {
    if !o && c == a then p else if o && c == b then s else c
  }

  /** `v` with each opening `a` turned into `p` and each closing `b` into `s`. */
  function Requoted(v: string, a: char, b: char, p: char, s: char): (r: string)
    ensures |r| == |v|
    decreases |v|
  {
    if v == [] then []
    else
      var c := v[|v| - 1];
      Requoted(v[..|v| - 1], a, b, p, s) + [Swap(Inside(v[..|v| - 1], a, b), c, a, b, p, s)]
  }

  /** The bytes `Replace` reads: none of the old quoter when it is empty, the first byte of
      each old quote as soon as `sql` has a byte, and the first bytes of the new quoter
      unless it is empty. */
  predicate ReplaceDefined(q: Quoter, sql: string, nq: Quoter)
  {
    q.IsEmpty() || ((nq.IsEmpty() || nq.Usable()) && (sql == [] || (q.prefix != [] && q.suffix != [])))
  }

  /** `Replace`: `sql` with the quotes of `q` replaced by those of `nq`. */
  function Replaced(q: Quoter, sql: string, nq: Quoter): string
    requires ReplaceDefined(q, sql, nq)
  {
    if q.IsEmpty() || sql == [] then sql
    else if nq.IsEmpty() then Unquoted(sql, q.prefix[0], q.suffix[0])
    else Requoted(sql, q.prefix[0], q.suffix[0], nq.prefix[0], nq.suffix[0])
  }

  /** `Replace`: an empty old quoter leaves `sql` as it is; an empty new one deletes the old
      quote bytes; otherwise the old quotes are swapped for the new. */
  method Replace(q: Quoter, sql: string, nq: Quoter) returns (r: string)
    requires ReplaceDefined(q, sql, nq)
    ensures r == Replaced(q, sql, nq)
  {
    if q.IsEmpty() {
      return sql;
    }
    if sql == [] {
      // both loops run zero times; only the swap reads the new quoter's bytes first
      return [];
    }
    if nq.IsEmpty() {
      r := DeleteQuotes(sql, q.prefix[0], q.suffix[0]);
    } else {
      r := SwapQuotes(sql, q.prefix[0], q.suffix[0], nq.prefix[0], nq.suffix[0]);
    }
  }

  /** The delete loop of `Replace`. */
  method DeleteQuotes(sql: string, a: char, b: char) returns (r: string)
    ensures r == Unquoted(sql, a, b)
  {
    r := [];
    var i := 0;
    while i < |sql|
      invariant 0 <= i <= |sql|
      invariant r == Unquoted(sql[..i], a, b)
    {
      if sql[i] != a && sql[i] != b {
        r := r + [sql[i]];
      }
      assert sql[..i + 1][..i] == sql[..i];
      i := i + 1;
    }
    assert sql[..i] == sql;
  }

  /** The swap loop of `Replace`. */
  method SwapQuotes(sql: string, a: char, b: char, prefix: char, suffix: char) returns (r: string)
    ensures r == Requoted(sql, a, b, prefix, suffix)
  {
    r := [];
    var i, cnt := 0, 0;
    while i < |sql|
      invariant 0 <= i <= |sql| && (cnt == 0 || cnt == 1)
      invariant cnt == 1 <==> Inside(sql[..i], a, b)
      invariant r == Requoted(sql[..i], a, b, prefix, suffix)
    {
      if cnt == 0 && sql[i] == a {
        r := r + [prefix];
        cnt := 1;
      } else if cnt == 1 && sql[i] == b {
        r := r + [suffix];
        cnt := 0;
      } else {
        r := r + [sql[i]];
      }
      assert sql[..i + 1][..i] == sql[..i];
      i := i + 1;
    }
    assert sql[..i] == sql;
  }

  /** Deleting quotes leaves text without quote bytes as it is, so it is idempotent. */
  lemma {:induction false} UnquotedFree(v: string, a: char, b: char)
    requires forall k :: 0 <= k < |v| ==> v[k] != a && v[k] != b
    ensures Unquoted(v, a, b) == v
    decreases |v|
  {
    if v != [] {
      UnquotedFree(v[..|v| - 1], a, b);
    }
  }

  /** Deleting quotes from a concatenation deletes them from each part. */
  lemma {:induction false} UnquotedAppend(x: string, y: string, a: char, b: char)
    ensures Unquoted(x + y, a, b) == Unquoted(x, a, b) + Unquoted(y, a, b)
    decreases |y|
  {
    if y != [] {
      var y', c := y[..|y| - 1], y[|y| - 1];
      assert (x + y)[..|x + y| - 1] == x + y' && (x + y)[|x + y| - 1] == c;
      UnquotedAppend(x, y', a, b);
      var d := if c == a || c == b then [] else [c];
      assert Unquoted(x + y, a, b) == Unquoted(x + y', a, b) + d;
      assert Unquoted(y, a, b) == Unquoted(y', a, b) + d;
    } else {
      assert x + y == x;
    }
  }

  /** Swapping quotes changes only quote bytes: each byte stays, or an `a` becomes `p`
      exactly when it opens a name, or a `b` becomes `s` exactly when it closes one. */
  lemma {:induction false} RequotedAt(v: string, a: char, b: char, p: char, s: char, k: nat)
    requires k < |v|
    ensures Requoted(v, a, b, p, s)[k] == Swap(Inside(v[..k], a, b), v[k], a, b, p, s)
    decreases |v|
  {
    if k < |v| - 1 {
      assert v[..|v| - 1][..k] == v[..k];
      RequotedAt(v[..|v| - 1], a, b, p, s, k);
    } else {
      assert v[..|v| - 1] == v[..k];
    }
  }

  /** With the same byte opening and closing names (MySQL's backtick), the byte is
      inside a name after an odd number of them. */
  lemma {:induction false} InsideCount(v: string, a: char)
    ensures Inside(v, a, a) <==> multiset(v)[a] % 2 == 1
    decreases |v|
  {
    if v != [] {
      InsideCount(v[..|v| - 1], a);
      assert v == v[..|v| - 1] + [v[|v| - 1]];
    }
  }

  /** Text without an opening quote byte is left as it is. */
  lemma {:induction false} RequotedFree(v: string, a: char, b: char, p: char, s: char)
    requires forall k :: 0 <= k < |v| ==> v[k] != a
    ensures Requoted(v, a, b, p, s) == v && !Inside(v, a, b)
    decreases |v|
  {
    if v != [] {
      RequotedFree(v[..|v| - 1], a, b, p, s);
    }
  }

  /** `Replace` keeps the length unless the new quoter is empty, and changes at most quote bytes. */
  lemma ReplaceShape(q: Quoter, sql: string, nq: Quoter, k: nat)
    requires ReplaceDefined(q, sql, nq) && !q.IsEmpty() && !nq.IsEmpty() && k < |sql|
    ensures |Replaced(q, sql, nq)| == |sql|
    ensures Replaced(q, sql, nq)[k] == sql[k]
            || (sql[k] == q.prefix[0] && Replaced(q, sql, nq)[k] == nq.prefix[0])
            || (sql[k] == q.suffix[0] && Replaced(q, sql, nq)[k] == nq.suffix[0])
  {
    RequotedAt(sql, q.prefix[0], q.suffix[0], nq.prefix[0], nq.suffix[0], k);
  }

  /** With one byte for both quotes, as MySQL's backtick, an occurrence becomes the new
      prefix after an even number of them and the new suffix after an odd number. */
  lemma RequotedAlternates(v: string, a: char, p: char, s: char, k: nat)
    requires k < |v| && v[k] == a
    ensures Requoted(v, a, a, p, s)[k] == if multiset(v[..k])[a] % 2 == 0 then p else s
  {
    RequotedAt(v, a, a, p, s, k);
    InsideCount(v[..k], a);
  }

  /** `Replace` from backticks to brackets on the quoted names of a query. */
  lemma ReplaceBacktickVector()
    ensures Replaced(Quoter("`", "`"), "`a`.`b`", Quoter("[", "]")) == "[a].[b]"
  {
    var v := "`a`.`b`";
    var ins := [false, true, true, false, false, true, true, false];
    var out := "[a].[b]";
    for k := 0 to 7
      invariant Inside(v[..k], '`', '`') == ins[k]
      invariant Requoted(v[..k], '`', '`', '[', ']') == out[..k]
    {
      PrefixStep(v, k, '`', '`', '[', ']');
      assert out[..k + 1] == out[..k] + [out[k]];
    }
    assert v[..7] == v;
  }

  /** The swap loop of `Replace` reading one more byte of `v`. */
  lemma PrefixStep(v: string, k: nat, a: char, b: char, p: char, s: char)
    requires k < |v|
    ensures Inside(v[..k + 1], a, b) == (var o := Inside(v[..k], a, b); if !o && v[k] == a then true else if o && v[k] == b then false else o)
    ensures Requoted(v[..k + 1], a, b, p, s) == Requoted(v[..k], a, b, p, s) + [Swap(Inside(v[..k], a, b), v[k], a, b, p, s)]
  {
    assert v[..k + 1][..k] == v[..k];
  }

  /** `ReverseQuote`: quoting with the two quotes exchanged. */
  method ReverseQuote(q: Quoter, s: string) returns (r: string)
    requires q.Usable()
    ensures r == Quoted(Reversed(q), s)
  {
    r := Quote(Reversed(q), s);
  }

  /** `ReverseQuote` on a bare identifier wraps it in the suffix, then the prefix. */
  lemma ReverseQuoteBareName(q: Quoter, name: string)
    requires q.prefix != [] && q.suffix != [] && SegmentOk(q.suffix[0], q.prefix[0], Bare(name))
    ensures Quoted(Reversed(q), name) == [q.suffix[0]] + name + [q.prefix[0]]
  {
    QuoteBareName(Reversed(q), name);
  }

  // ---------------------------------------------------------------------
  // Trim: removing the quotes around an identifier and its dotted parts

  /** Whether `Trim` drops byte `i` of `s`: a leading prefix, a trailing suffix, a suffix
      before a dot or a prefix after one. The source compares the one-byte slice
      `s[i:i+1]` with the whole quote string, so a longer quote never matches. */
  predicate TrimDrops(q: Quoter, s: string, i: nat)
    requires i < |s|
  {
    (i == 0 && q.prefix == [s[i]])
    || (i == |s| - 1 && q.suffix == [s[i]])
    || (q.suffix == [s[i]] && i + 1 < |s| && s[i + 1] == '.')
    || (q.prefix == [s[i]] && i >= 1 && s[i - 1] == '.')
  }

  /** The bytes of `s[..n]` that `Trim` keeps. */
  function Kept(q: Quoter, s: string, n: nat): (r: string)
    requires n <= |s|
    ensures |r| <= n
  {
    if n == 0 then [] else Kept(q, s, n - 1) + (if TrimDrops(q, s, n - 1) then [] else [s[n - 1]])
  }

  /** `Trim`: strings shorter than two bytes are left as they are. */
  function Trimmed(q: Quoter, s: string): (r: string)
    ensures |r| <= |s|
  {
    if |s| < 2 then s else Kept(q, s, |s|)
  }

  /** `Trim`, with its loop over the bytes of `s`. */
  method Trim(q: Quoter, s: string) returns (r: string)
    ensures r == Trimmed(q, s)
  {
    if |s| < 2 {
      return s;
    }
    r := [];
    var i := 0;
    while i < |s|
      invariant 0 <= i <= |s|
      invariant r == Kept(q, s, i)
    {
      if i == 0 && q.prefix == s[i..i + 1] {
      } else if i == |s| - 1 && q.suffix == s[i..i + 1] {
      } else if q.suffix == s[i..i + 1] && s[i + 1] == '.' {
      } else if q.prefix == s[i..i + 1] && s[i - 1] == '.' {
      } else {
        r := r + [s[i]];
      }
      i := i + 1;
    }
  }

  /** Where every quote byte of `w` sits: each prefix at the start or after a dot, each
      suffix at the end or before a dot. Quoted dotted names have this shape. */
  predicate QuoteShaped(w: string, p: char, s: char)
  {
    forall i :: 0 <= i < |w| && (w[i] == p || w[i] == s) ==>
      (w[i] == p && Opens(w, i)) || (w[i] == s && Closes(w, i))
  }

  /** Position `i` of `w` starts a dotted part. */
  predicate Opens(w: string, i: nat)
    requires i < |w|
  {
    i == 0 || w[i - 1] == '.'
  }

  /** Position `i` of `w` ends a dotted part. */
  predicate Closes(w: string, i: nat)
    requires i < |w|
  {
    i == |w| - 1 || w[i + 1] == '.'
  }

  /** On a quote-shaped string, `Trim` drops exactly the quote bytes. */
  lemma {:induction false} KeptShaped(q: Quoter, w: string, n: nat)
    requires |q.prefix| == 1 && |q.suffix| == 1 && n <= |w|
    requires QuoteShaped(w, q.prefix[0], q.suffix[0])
    ensures Kept(q, w, n) == Unquoted(w[..n], q.prefix[0], q.suffix[0])
  {
    if n > 0 {
      KeptShaped(q, w, n - 1);
      assert w[..n][..n - 1] == w[..n - 1];
      var c := w[n - 1];
      assert TrimDrops(q, w, n - 1) <==> c == q.prefix[0] || c == q.suffix[0];
    }
  }

  /** Names that `Trim` gives back whole: non-empty, without a dot or a quote byte. */
  predicate PlainNames(p: char, s: char, segs: seq<Segment>)
  {
    forall k :: 0 <= k < |segs| ==>
      segs[k].Bare? && segs[k].name != []
      && forall c :: c in segs[k].name ==> c != '.' && c != p && c != s
  }

  /** A quoted name has the quote shape. */
  lemma WrapShaped(p: char, s: char, n: string)
    requires p != '.' && s != '.' && forall c :: c in n ==> c != p && c != s
    ensures QuoteShaped([p] + n + [s], p, s)
  {
    var w := [p] + n + [s];
    forall i | 0 < i < |w| - 1
      ensures w[i] != p && w[i] != s
    {
      assert w[i] == n[i - 1] && n[i - 1] in n;
    }
    assert w[0] == p && w[|w| - 1] == s;
  }

  /** Two quote-shaped strings joined by a dot are quote-shaped. */
  lemma DotShaped(x: string, y: string, p: char, s: char)
    requires p != '.' && s != '.' && QuoteShaped(x, p, s) && QuoteShaped(y, p, s)
    ensures QuoteShaped(x + "." + y, p, s)
  {
    var w := x + "." + y;
    assert w[|x|] == '.';
    forall i | 0 <= i < |w| && (w[i] == p || w[i] == s)
      ensures (w[i] == p && Opens(w, i)) || (w[i] == s && Closes(w, i))
    {
      if i < |x| {
        assert w[i] == x[i] && w[i + 1] == if i < |x| - 1 then x[i + 1] else '.';
        assert (x[i] == p && Opens(x, i)) || (x[i] == s && Closes(x, i));
        if i > 0 { assert w[i - 1] == x[i - 1]; }
      } else {
        assert i > |x|;
        var j := i - |x| - 1;
        assert w[i] == y[j] && w[i - 1] == if j > 0 then y[j - 1] else '.';
        assert (y[j] == p && Opens(y, j)) || (y[j] == s && Closes(y, j));
        if j < |y| - 1 { assert w[i + 1] == y[j + 1]; }
      }
    }
  }

  /** A quoted name without its quote bytes is the name. */
  lemma WrapUnquoted(p: char, s: char, n: string)
    requires forall c :: c in n ==> c != p && c != s
    ensures Unquoted([p] + n + [s], p, s) == n
  {
    forall k | 0 <= k < |n|
      ensures n[k] != p && n[k] != s
    {
      assert n[k] in n;
    }
    UnquotedFree(n, p, s);
    UnquotedAppend([p], n, p, s);
    UnquotedAppend([p] + n, [s], p, s);
    assert Unquoted([p], p, s) == [] && Unquoted([s], p, s) == [];
  }

  /** The wrapped plain names are quote-shaped. */
  lemma {:induction false} PlainWrapShaped(p: char, s: char, segs: seq<Segment>)
    requires p != '.' && s != '.' && segs != [] && PlainNames(p, s, segs)
    ensures QuoteShaped(DottedWrap(p, s, segs), p, s)
    decreases |segs|
  {
    WrapShaped(p, s, segs[0].name);
    if |segs| > 1 {
      PlainWrapShaped(p, s, segs[1..]);
      DotShaped(Wrap(p, s, segs[0]), DottedWrap(p, s, segs[1..]), p, s);
    }
  }

  /** The wrapped plain names without their quote bytes are the names joined by dots. */
  lemma {:induction false} PlainWrapUnquoted(p: char, s: char, segs: seq<Segment>)
    requires p != '.' && s != '.' && segs != [] && PlainNames(p, s, segs)
    ensures Unquoted(DottedWrap(p, s, segs), p, s) == Dotted(p, s, segs)
    decreases |segs|
  {
    var w := Wrap(p, s, segs[0]);
    WrapUnquoted(p, s, segs[0].name);
    if |segs| > 1 {
      var rest := DottedWrap(p, s, segs[1..]);
      PlainWrapUnquoted(p, s, segs[1..]);
      UnquotedAppend(w, ".", p, s);
      UnquotedAppend(w + ".", rest, p, s);
      assert Unquoted(".", p, s) == ".";
    }
  }

  /** `Trim` undoes the quoting of plain dotted names by a quoter of single bytes. */
  lemma TrimWrapped(q: Quoter, segs: seq<Segment>)
    requires |q.prefix| == 1 && |q.suffix| == 1 && q.prefix[0] != '.' && q.suffix[0] != '.'
    requires segs != [] && PlainNames(q.prefix[0], q.suffix[0], segs)
    ensures Trimmed(q, DottedWrap(q.prefix[0], q.suffix[0], segs)) == Dotted(q.prefix[0], q.suffix[0], segs)
  {
    var p, s := q.prefix[0], q.suffix[0];
    var w := DottedWrap(p, s, segs);
    PlainWrapShaped(p, s, segs);
    PlainWrapUnquoted(p, s, segs);
    assert |w| >= 2 by {
      assert |segs| == 1 ==> |w| == |segs[0].name| + 2;
    }
    KeptShaped(q, w, |w|);
    assert w[..|w|] == w;
  }

  /** `Trim(Quote(name)) == name` for plain dotted names and a quoter of single bytes. */
  lemma TrimQuoteRoundTrip(q: Quoter, segs: seq<Segment>)
    requires |q.prefix| == 1 && |q.suffix| == 1 && Scannable(q.prefix[0], q.suffix[0]) && q.suffix[0] != '.'
    requires segs != [] && AllOk(q.prefix[0], q.suffix[0], segs) && PlainNames(q.prefix[0], q.suffix[0], segs)
    ensures Trimmed(q, Quoted(q, Dotted(q.prefix[0], q.suffix[0], segs))) == Dotted(q.prefix[0], q.suffix[0], segs)
  {
    QuoteDottedText(q, segs);
    TrimWrapped(q, segs);
  }

  // ---------------------------------------------------------------------
  // Join, JoinWrite and Strings: lists of names

  /** How `Join` writes one element: without surrounding white space, between the whole
      quote strings unless the element is `*`. */
  function JoinItem(q: Quoter, x: string): string
  {
    (if q.prefix != [] && x != "*" then q.prefix else [])
    + TrimSpace(x)
    + (if q.suffix != [] && x != "*" then q.suffix else [])
  }

  function JoinItems(q: Quoter, a: seq<string>): (r: seq<string>)
    ensures |r| == |a| && forall i :: 0 <= i < |a| ==> r[i] == JoinItem(q, a[i])
  {
    if a == [] then [] else JoinItems(q, a[..|a| - 1]) + [JoinItem(q, a[|a| - 1])]
  }

  /** `Join`: no element gives the empty string, one element is returned as it is,
      more are written by `JoinItem` and separated by `sep`. */
  function Joined(q: Quoter, a: seq<string>, sep: string): string
  {
    if |a| == 0 then [] else if |a| == 1 then a[0] else Join(JoinItems(q, a), sep)
  }

  /** `Join`, with its loop over the elements. */
  method JoinNames(q: Quoter, a: seq<string>, sep: string) returns (r: string)
    ensures r == Joined(q, a, sep)
  {
    if |a| == 0 {
      return [];
    } else if |a| == 1 {
      return a[0];
    }
    r := [];
    for i := 0 to |a|
      invariant r == if i == 0 then [] else Join(JoinItems(q, a[..i]), sep)
    {
      if i > 0 {
        r := r + sep;
      }
      r := WriteJoinItem(q, a[i], r);
      JoinItemsStep(q, a, i, sep);
    }
    assert a[..|a|] == a;
  }

  /** The body of `Join`'s loop after the separator: one element, quoted unless it is `*`. */
  method WriteJoinItem(q: Quoter, x: string, b: string) returns (r: string)
    ensures r == b + JoinItem(q, x)
  {
    r := b;
    if q.prefix != [] && x != "*" {
      r := r + q.prefix;
    }
    r := r + TrimSpace(x);
    if q.suffix != [] && x != "*" {
      r := r + q.suffix;
    }
  }

  /** One more element in `Join`'s loop. */
  lemma JoinItemsStep(q: Quoter, a: seq<string>, i: nat, sep: string)
    requires i < |a|
    ensures i == 0 ==> Join(JoinItems(q, a[..i + 1]), sep) == JoinItem(q, a[i])
    ensures i > 0 ==> Join(JoinItems(q, a[..i + 1]), sep) == Join(JoinItems(q, a[..i]), sep) + sep + JoinItem(q, a[i])
  {
    assert a[..i + 1][..i] == a[..i];
    if i > 0 {
      JoinSnoc(JoinItems(q, a[..i]), JoinItem(q, a[i]), sep);
    }
  }

  /** With several elements, each is trimmed and wrapped whole in the quote strings,
      except `*`, which is only trimmed. */
  lemma JoinedWraps(q: Quoter, a: seq<string>, sep: string)
    requires |a| >= 2
    ensures Joined(q, a, sep) == Join(JoinItems(q, a), sep)
    ensures forall i :: 0 <= i < |a| && a[i] != "*" ==> JoinItems(q, a)[i] == q.prefix + TrimSpace(a[i]) + q.suffix
    ensures forall i :: 0 <= i < |a| && a[i] == "*" ==> JoinItems(q, a)[i] == "*"
  {
    forall i | 0 <= i < |a| && a[i] == "*"
      ensures JoinItems(q, a)[i] == "*"
    {
      assert TrimLeftSpace("*") == "*" && TrimRightSpace("*") == "*";
    }
  }

  /** For plain names without white space and a quoter of single bytes, `Join` writes each
      element as `Quote` would. */
  lemma JoinedAsQuoted(q: Quoter, a: seq<string>)
    requires |q.prefix| == 1 && |q.suffix| == 1
    requires forall i :: 0 <= i < |a| ==> a[i] != "*" && SegmentOk(q.prefix[0], q.suffix[0], Bare(a[i]))
    requires forall i, k :: 0 <= i < |a| && 0 <= k < |a[i]| ==> !IsSpace(a[i][k])
    ensures forall i :: 0 <= i < |a| ==> JoinItems(q, a)[i] == Quoted(q, a[i])
  {
    forall i | 0 <= i < |a|
      ensures JoinItems(q, a)[i] == Quoted(q, a[i])
    {
      JoinItemAsQuoted(q, a[i]);
    }
  }

  /** One element of `JoinedAsQuoted`. */
  lemma JoinItemAsQuoted(q: Quoter, x: string)
    requires |q.prefix| == 1 && |q.suffix| == 1
    requires x != "*" && SegmentOk(q.prefix[0], q.suffix[0], Bare(x))
    requires forall k :: 0 <= k < |x| ==> !IsSpace(x[k])
    ensures JoinItem(q, x) == Quoted(q, x)
  {
    TrimSpaceNoSpace(x);
    QuoteBareName(q, x);
    assert q.prefix == [q.prefix[0]] && q.suffix == [q.suffix[0]];
  }

  /** `TestQuoteTo`: joining `a` and ` b` with a comma. */
  lemma JoinVector()
    ensures Joined(Quoter("[", "]"), ["a", " b"], ",") == "[a],[b]"
  {
    var q := Quoter("[", "]");
    assert TrimSpace("a") == "a" by {
      assert TrimLeftSpace("a") == "a" && TrimRightSpace("a") == "a";
    }
    assert TrimSpace(" b") == "b" by {
      assert " b"[1..] == "b";
      assert TrimLeftSpace(" b") == "b" && TrimRightSpace("b") == "b";
    }
    assert JoinItem(q, "a") == "[a]" && JoinItem(q, " b") == "[b]";
    assert ["a", " b"][..1] == ["a"];
    assert JoinItems(q, ["a", " b"]) == ["[a]", "[b]"];
    assert Join(["[a]", "[b]"], ",") == "[a],[b]";
  }

  /** `JoinWrite` reads the first byte of every element it would quote: an empty element
      other than `*` makes it index out of range when either quote is non-empty. */
  predicate JoinWriteDefined(q: Quoter, a: seq<string>)
  {
    forall i :: 0 <= i < |a| ==> a[i] == [] ==> q.prefix == [] && q.suffix == []
  }

  /** How `JoinWrite` writes one element: like `Join`, but an element that starts with a
      backtick is not quoted again. */
  function WriteItem(q: Quoter, x: string): string
    requires x == [] ==> q.prefix == [] && q.suffix == []
  {
    (if q.prefix != [] && x != "*" && x[0] != '`' then q.prefix else [])
    + TrimSpace(x)
    + (if q.suffix != [] && x != "*" && x[0] != '`' then q.suffix else [])
  }

  function WriteItems(q: Quoter, a: seq<string>): (r: seq<string>)
    requires JoinWriteDefined(q, a)
    ensures |r| == |a| && forall i :: 0 <= i < |a| ==> r[i] == WriteItem(q, a[i])
  {
    if a == [] then [] else WriteItems(q, a[..|a| - 1]) + [WriteItem(q, a[|a| - 1])]
  }

  /** `JoinWrite`: appends the elements to the builder `buf`, separated by `sep`. Writing
      to a `strings.Builder` never fails, so the error it returns is always nil. */
  method JoinWrite(q: Quoter, buf: string, a: seq<string>, sep: string) returns (out: string)
    requires JoinWriteDefined(q, a)
    ensures out == buf + Join(WriteItems(q, a), sep)
  {
    out := buf;
    if |a| == 0 {
      return;
    }
    for i := 0 to |a|
      invariant out == buf + WrittenPrefix(q, a, sep, i)
    {
      if i > 0 {
        out := out + sep;
      }
      out := WriteQuotedItem(q, a[i], out);
      WriteItemsStep(q, a, i, sep);
    }
    assert a[..|a|] == a;
  }

  /** What `JoinWrite` has appended after `i` elements. */
  function WrittenPrefix(q: Quoter, a: seq<string>, sep: string, i: nat): string
    requires JoinWriteDefined(q, a) && i <= |a|
  {
    if i == 0 then [] else Join(WriteItems(q, a[..i]), sep)
  }

  /** The body of `JoinWrite`'s loop after the separator. */
  method WriteQuotedItem(q: Quoter, x: string, b: string) returns (r: string)
    requires x == [] ==> q.prefix == [] && q.suffix == []
    ensures r == b + WriteItem(q, x)
  {
    r := b;
    if q.prefix != [] && x != "*" && x[0] != '`' {
      r := r + q.prefix;
    }
    r := r + TrimSpace(x);
    if q.suffix != [] && x != "*" && x[0] != '`' {
      r := r + q.suffix;
    }
  }

  /** One more element in `JoinWrite`'s loop. */
  lemma WriteItemsStep(q: Quoter, a: seq<string>, i: nat, sep: string)
    requires JoinWriteDefined(q, a) && i < |a|
    ensures WrittenPrefix(q, a, sep, i + 1) == WrittenPrefix(q, a, sep, i) + (if i > 0 then sep else []) + WriteItem(q, a[i])
  {
    assert a[..i + 1][..i] == a[..i];
    if i > 0 {
      JoinSnoc(WriteItems(q, a[..i]), WriteItem(q, a[i]), sep);
    }
  }

  /** With at least two elements, none starting with a backtick, `JoinWrite` writes what
      `Join` returns; unlike `Join` it also quotes a single element. */
  lemma JoinWriteAgrees(q: Quoter, a: seq<string>, sep: string)
    requires forall i :: 0 <= i < |a| ==> a[i] != [] && a[i][0] != '`'
    ensures JoinWriteDefined(q, a)
    ensures |a| >= 2 ==> Join(WriteItems(q, a), sep) == Joined(q, a, sep)
    ensures |a| == 1 ==> Join(WriteItems(q, a), sep) == JoinItem(q, a[0])
  {
    assert WriteItems(q, a) == JoinItems(q, a);
  }

  /** An element already in backticks is written trimmed, without quotes. */
  lemma WriteItemBacktick(q: Quoter, x: string)
    requires x != [] && x[0] == '`'
    ensures WriteItem(q, x) == TrimSpace(x)
  {
  }

  /** `Strings`: every element quoted, in order. */
  method Strings(q: Quoter, s: seq<string>) returns (res: seq<string>)
    requires q.Usable()
    ensures |res| == |s| && forall i :: 0 <= i < |s| ==> res[i] == Quoted(q, s[i])
  {
    res := [];
    for i := 0 to |s|
      invariant |res| == i && forall k :: 0 <= k < i ==> res[k] == Quoted(q, s[k])
    {
      var a := Quote(q, s[i]);
      res := res + [a];
    }
  }
}
