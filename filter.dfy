/**
 * SQL filters (dialects/filter.go): the text rewrites a dialect applies to
 * every statement before it is sent. `QuoteFilter` turns MySQL backticks
 * into the dialect's own quotes; `SeqFilter` numbers the `?` placeholders
 * for dialects that write them as `$1`, `:1` or `@p1`.
 */
module Filters {
  import opened Text
  import opened Quoting

  // ---------------------------------------------------------------------
  // QuoteFilter

  /** What `QuoteFilter.Do` returns: an empty quoter leaves the text alone; otherwise
      backticks are replaced, in turn, by the quoter's prefix and suffix bytes. */
  function FilterQuotes(q: Quoter, sql: string): string
    requires q.Usable()
  {
    if q.IsEmpty() then sql else Requoted(sql, '`', '`', q.prefix[0], q.suffix[0])
  }

  /** The filter that rewrites backtick quotes into a dialect's quotes. */
  datatype QuoteFilter = QuoteFilter(quoter: Quoter)
  {
    /** `QuoteFilter.Do`: copies `sql` into a byte buffer and rewrites the backticks in place. */
    method Do(sql: string) returns (r: string)
      requires quoter.Usable()
      ensures r == FilterQuotes(quoter, sql)
    {
      if quoter.IsEmpty() {
        return sql;
      }
      var prefix, suffix := quoter.prefix[0], quoter.suffix[0];
      var raw := new char[|sql|](k requires 0 <= k < |sql| => sql[k]);
      var i, cnt := 0, 0;
      while i < raw.Length
        invariant 0 <= i <= raw.Length == |sql| && cnt >= 0
        invariant (cnt % 2 == 1) == Inside(sql[..i], '`', '`')
        invariant raw[..i] == Requoted(sql[..i], '`', '`', prefix, suffix)
        invariant forall k :: i <= k < |sql| ==> raw[k] == sql[k]
      {
        ghost var o, before := Inside(sql[..i], '`', '`'), raw[..];
        assert raw[i] == sql[i];
        if raw[i] == '`' {
          if cnt % 2 == 0 {
            raw[i] := prefix;
          } else {
            raw[i] := suffix;
          }
          cnt := cnt + 1;
        }
        assert raw[..] == before[i := Swap(o, sql[i], '`', '`', prefix, suffix)];
        FilterStep(sql, i, prefix, suffix, before, raw[..]);
        i := i + 1;
      }
      assert sql[..i] == sql;
      r := raw[..];
    }
  }

  /** The filter's buffer after byte `i` is swapped: one more byte is requoted and the
      rest still holds `sql`. */
  lemma FilterStep(sql: string, i: nat, p: char, s: char, before: string, after: string)
    requires i < |sql| == |before|
    requires before[..i] == Requoted(sql[..i], '`', '`', p, s)
    requires forall k :: i <= k < |sql| ==> before[k] == sql[k]
    requires after == before[i := Swap(Inside(sql[..i], '`', '`'), sql[i], '`', '`', p, s)]
    ensures Inside(sql[..i + 1], '`', '`') == !Inside(sql[..i], '`', '`') <==> sql[i] == '`'
    ensures after[..i + 1] == Requoted(sql[..i + 1], '`', '`', p, s)
    ensures forall k :: i + 1 <= k < |sql| ==> after[k] == sql[k]
  {
    RequotedSnoc(sql, i, p, s);
    assert after[..i + 1] == before[..i] + [after[i]];
  }

  /** One more byte through the filter's loop. */
  lemma RequotedSnoc(sql: string, i: nat, p: char, s: char)
    requires i < |sql|
    ensures Inside(sql[..i + 1], '`', '`') == !Inside(sql[..i], '`', '`') <==> sql[i] == '`'
    ensures Requoted(sql[..i + 1], '`', '`', p, s)
            == Requoted(sql[..i], '`', '`', p, s) + [Swap(Inside(sql[..i], '`', '`'), sql[i], '`', '`', p, s)]
  {
    assert sql[..i + 1][..i] == sql[..i];
  }

  /** The filter keeps the length and every byte that is not a backtick; the backticks
      become the prefix and the suffix in turn, starting with the prefix. */
  lemma QuoteFilterAlternates(q: Quoter, sql: string, k: nat)
    requires q.Usable() && !q.IsEmpty() && k < |sql|
    ensures |FilterQuotes(q, sql)| == |sql|
    ensures sql[k] != '`' ==> FilterQuotes(q, sql)[k] == sql[k]
    ensures sql[k] == '`' ==>
              FilterQuotes(q, sql)[k] == if multiset(sql[..k])['`'] % 2 == 0 then q.prefix[0] else q.suffix[0]
  {
    RequotedAt(sql, '`', '`', q.prefix[0], q.suffix[0], k);
    if sql[k] == '`' {
      RequotedAlternates(sql, '`', q.prefix[0], q.suffix[0], k);
    }
  }

  /** The filter does what `Quoter.Replace` does from MySQL's backticks to a non-empty quoter. */
  lemma QuoteFilterIsReplace(q: Quoter, sql: string)
    requires q.Usable() && !q.IsEmpty()
    ensures ReplaceDefined(Quoter("`", "`"), sql, q)
    ensures FilterQuotes(q, sql) == Replaced(Quoter("`", "`"), sql, q)
  {
  }

  // ---------------------------------------------------------------------
  // Decimal numbers, as `fmt.Sprintf("%v", n)` writes an int

  function DigitChar(d: nat): (c: char)
    requires d < 10
    ensures '0' <= c <= '9' && c as int - '0' as int == d
  {
    ('0' as int + d) as char
  }

  /** The decimal digits of `n`, most significant first, without leading zeros. */
  function Digits(n: nat): (r: string)
    ensures r != []
    decreases n
  {
    if n < 10 then [DigitChar(n)] else Digits(n / 10) + [DigitChar(n % 10)]
  }

  /** Every character of `s` is a decimal digit. */
  predicate AllDigits(s: string)
  {
    forall k :: 0 <= k < |s| ==> '0' <= s[k] <= '9'
  }

  /** `Digits` writes decimal digits only. */
  lemma {:induction false} DigitsAllDigits(n: nat)
    ensures AllDigits(Digits(n))
    decreases n
  {
    if n >= 10 {
      DigitsAllDigits(n / 10);
    }
  }

  /** `%v` of an int: a minus sign before the digits of a negative number. */
  function Decimal(n: int): string
  {
    if n < 0 then "-" + Digits(-n) else Digits(n)
  }

  /** The number a string of decimal digits stands for. */
  function DigitsValue(s: string): nat
    requires AllDigits(s)
  {
    if s == [] then 0 else DigitsValue(s[..|s| - 1]) * 10 + (s[|s| - 1] as int - '0' as int)
  }

  /** Reading the digits back gives the number. */
  lemma {:induction false} DigitsRoundTrip(n: nat)
    ensures AllDigits(Digits(n)) && DigitsValue(Digits(n)) == n
    decreases n
  {
    DigitsAllDigits(n);
    if n >= 10 {
      DigitsRoundTrip(n / 10);
      var r := Digits(n);
      assert r[..|r| - 1] == Digits(n / 10);
    }
  }

  /** Digits carry no leading zero, so distinct numbers are written differently. */
  lemma DigitsNoLeadingZero(n: nat)
    ensures |Digits(n)| > 1 ==> Digits(n)[0] != '0'
    ensures n == 0 <==> Digits(n) == "0"
  {
    if n >= 10 {
      DigitsNoLeadingZero(n / 10);
    }
  }

  // ---------------------------------------------------------------------
  // convertQuestionMark and SeqFilter

  /** How `convertQuestionMark` writes placeholder number `i`: the prefix, then `i` in decimal. */
  function Numbering(prefix: string): int -> string
  {
    i => prefix + Decimal(i)
  }

  /** What `convertQuestionMark` writes for the character `c`: a placeholder outside a
      literal is written as `placeholder(index)`, anything else is copied. */
  function Piece(c: char, placeholder: int -> string, index: int, inQuote: bool): string
  {
    if !inQuote && c == '?' then placeholder(index) else [c]
  }

  /** The number the next placeholder gets after `c`. */
  function NextIndex(c: char, index: int, inQuote: bool): int
  {
    if !inQuote && c == '?' then index + 1 else index
  }

  /** Whether a literal is open after `c`: a `'` that is copied toggles it. */
  function NextQuote(c: char, inQuote: bool): bool
  {
    if (inQuote || c != '?') && c == '\'' then !inQuote else inQuote
  }

  /** What `convertQuestionMark` writes for `v` when the next placeholder gets number
      `index`, placeholder number `i` is written as `placeholder(i)`, and `inQuote` says whether
      a single-quoted literal is open. */
  function Converted(v: string, placeholder: int -> string, index: int, inQuote: bool): string
    decreases |v|
  {
    if v == [] then []
    else Piece(v[0], placeholder, index, inQuote) + Converted(v[1..], placeholder, NextIndex(v[0], index, inQuote), NextQuote(v[0], inQuote))
  }

  /** How many placeholders `v` holds outside single-quoted literals. */
  function Marks(v: string, inQuote: bool): nat
    decreases |v|
  {
    if v == [] then 0
    else NextIndex(v[0], 0, inQuote) + Marks(v[1..], NextQuote(v[0], inQuote))
  }

  /** Whether a single-quoted literal is open after `v`. */
  function QuoteAfter(v: string, inQuote: bool): bool
    decreases |v|
  {
    if v == [] then inQuote else QuoteAfter(v[1..], NextQuote(v[0], inQuote))
  }

  /** One step of the conversion. */
  lemma ConvertedStep(v: string, i: nat, placeholder: int -> string, index: int, inQuote: bool)
    requires i < |v|
    ensures Converted(v[i..], placeholder, index, inQuote)
            == Piece(v[i], placeholder, index, inQuote)
               + Converted(v[i + 1..], placeholder, NextIndex(v[i], index, inQuote), NextQuote(v[i], inQuote))
  {
    assert v[i..][1..] == v[i + 1..];
  }

  /** `convertQuestionMark`: numbers the placeholders from `start`. */
  method ConvertQuestionMark(sql: string, prefix: string, start: int) returns (r: string)
    ensures r == Converted(sql, Numbering(prefix), start, false)
  {
    ghost var placeholder := Numbering(prefix);
    r := [];
    var beginSingleQuote := false;
    var index := start;
    var i := 0;
    while i < |sql|
      invariant 0 <= i <= |sql|
      invariant r + Converted(sql[i..], placeholder, index, beginSingleQuote) == Converted(sql, placeholder, start, false)
    {
      var c := sql[i];
      ghost var before, piece := r, Piece(c, placeholder, index, beginSingleQuote);
      ConvertedStep(sql, i, placeholder, index, beginSingleQuote);
      if !beginSingleQuote && c == '?' {
        r := r + (prefix + Decimal(index));
        index := index + 1;
      } else {
        if c == '\'' {
          beginSingleQuote := !beginSingleQuote;
        }
        r := r + [c];
      }
      assert r == before + piece;
      Assoc(before, piece, Converted(sql[i + 1..], placeholder, index, beginSingleQuote));
      i := i + 1;
    }
  }

  /** The filter that numbers placeholders, with the dialect's prefix and first number. */
  datatype SeqFilter = SeqFilter(prefix: string, start: int)
  {
    /** `SeqFilter.Do`. */
    method Do(sql: string) returns (r: string)
      ensures r == Converted(sql, Numbering(prefix), start, false)
    {
      r := ConvertQuestionMark(sql, prefix, start);
    }
  }

  /** A text with no placeholder outside its single-quoted literals comes back unchanged;
      a `?` inside a literal does not count. */
  lemma {:induction false} ConvertedNoMarks(v: string, placeholder: int -> string, index: int, inQuote: bool)
    requires Marks(v, inQuote) == 0
    ensures Converted(v, placeholder, index, inQuote) == v
    decreases |v|
  {
    if v != [] {
      ConvertedNoMarks(v[1..], placeholder, index, NextQuote(v[0], inQuote));
    }
  }

  /** Inside a literal that does not end, placeholders are copied as they are. */
  lemma {:induction false} ConvertedInQuote(v: string, placeholder: int -> string, index: int)
    requires forall k :: 0 <= k < |v| ==> v[k] != '\''
    ensures Converted(v, placeholder, index, true) == v
    decreases |v|
  {
    if v != [] {
      ConvertedInQuote(v[1..], placeholder, index);
    }
  }

  /** Converting a concatenation converts the first part, then the second, numbered on
      from the marks of the first and in the quote state the first leaves. */
  lemma {:induction false} ConvertedAppend(a: string, b: string, placeholder: int -> string, index: int, inQuote: bool)
    ensures Converted(a + b, placeholder, index, inQuote)
            == Converted(a, placeholder, index, inQuote) + Converted(b, placeholder, index + Marks(a, inQuote), QuoteAfter(a, inQuote))
    decreases |a|
  {
    if a == [] {
      assert a + b == b;
    } else {
      var c, a' := a[0], a[1..];
      var n, o := NextIndex(c, index, inQuote), NextQuote(c, inQuote);
      var piece := Piece(c, placeholder, index, inQuote);
      assert a == [c] + a' && a + b == [c] + (a' + b);
      ConvertedCons(c, a' + b, placeholder, index, inQuote);
      ConvertedCons(c, a', placeholder, index, inQuote);
      assert Marks(a, inQuote) == NextIndex(c, 0, inQuote) + Marks(a', o);
      assert QuoteAfter(a, inQuote) == QuoteAfter(a', o);
      ConvertedAppend(a', b, placeholder, n, o);
      var rest := Converted(b, placeholder, index + Marks(a, inQuote), QuoteAfter(a, inQuote));
      assert Converted(a' + b, placeholder, n, o) == Converted(a', placeholder, n, o) + rest;
      Assoc(piece, Converted(a', placeholder, n, o), rest);
    }
  }

  /** No placeholder and no quote: `v` is plain text. */
  predicate Plain(v: string)
  {
    forall k :: 0 <= k < |v| ==> v[k] != '?' && v[k] != '\''
  }

  /** Plain text numbers nothing and leaves no literal open. */
  lemma {:induction false} PlainState(x: string)
    requires Plain(x)
    ensures Marks(x, false) == 0 && !QuoteAfter(x, false)
    decreases |x|
  {
    if x != [] {
      PlainState(x[1..]);
    }
  }

  /** Inside a literal, text without a quote numbers nothing and leaves the literal open. */
  lemma {:induction false} InQuoteState(w: string)
    requires forall k :: 0 <= k < |w| ==> w[k] != '\''
    ensures Marks(w, true) == 0 && QuoteAfter(w, true)
    decreases |w|
  {
    if w != [] {
      InQuoteState(w[1..]);
    }
  }

  /** The conversion of a text that starts with `c`. */
  lemma ConvertedCons(c: char, rest: string, placeholder: int -> string, index: int, inQuote: bool)
    ensures Converted([c] + rest, placeholder, index, inQuote)
            == Piece(c, placeholder, index, inQuote)
               + Converted(rest, placeholder, NextIndex(c, index, inQuote), NextQuote(c, inQuote))
  {
    assert ([c] + rest)[0] == c && ([c] + rest)[1..] == rest;
  }

  /** Plain text at the front is copied, and the state after it is the state before. */
  lemma ConvertedPlainFront(x: string, rest: string, placeholder: int -> string, index: int)
    requires Plain(x)
    ensures Converted(x + rest, placeholder, index, false) == x + Converted(rest, placeholder, index, false)
  {
    PlainState(x);
    ConvertedNoMarks(x, placeholder, index, false);
    ConvertedAppend(x, rest, placeholder, index, false);
    var m, o := Marks(x, false), QuoteAfter(x, false);
    assert index + m == index && o == false;
  }

  /** Plain text followed by a placeholder: the text is copied and the placeholder gets
      the current number. */
  lemma ConvertedMark(x: string, rest: string, placeholder: int -> string, index: int)
    requires Plain(x)
    ensures Converted(x + ['?'] + rest, placeholder, index, false)
            == x + placeholder(index) + Converted(rest, placeholder, index + 1, false)
  {
    var t := ['?'] + rest;
    assert x + ['?'] + rest == x + t;
    ConvertedPlainFront(x, t, placeholder, index);
    ConvertedCons('?', rest, placeholder, index, false);
    Assoc(x, placeholder(index), Converted(rest, placeholder, index + 1, false));
  }

  /** A single-quoted literal is copied whole, placeholders and all, and numbering goes on
      after it with the same number. */
  lemma ConvertedLiteral(w: string, rest: string, placeholder: int -> string, index: int)
    requires forall k :: 0 <= k < |w| ==> w[k] != '\''
    ensures Converted(['\''] + (w + (['\''] + rest)), placeholder, index, false)
            == ['\''] + (w + (['\''] + Converted(rest, placeholder, index, false)))
  {
    var tail := ['\''] + rest;
    ConvertedCons('\'', w + tail, placeholder, index, false);
    InQuoteState(w);
    ConvertedInQuote(w, placeholder, index);
    ConvertedAppend(w, tail, placeholder, index, true);
    ConvertedCons('\'', rest, placeholder, index, true);
  }

  /** Two placeholders in plain text get consecutive numbers from the filter's first
      number on. */
  lemma SeqFilterNumbers(x: string, y: string, z: string, prefix: string, index: int)
    requires Plain(x) && Plain(y) && Plain(z)
    ensures Converted(x + ['?'] + (y + ['?'] + z), Numbering(prefix), index, false)
            == x + (prefix + Decimal(index)) + (y + (prefix + Decimal(index + 1)) + z)
  {
    var placeholder := Numbering(prefix);
    ConvertedMark(x, y + ['?'] + z, placeholder, index);
    ConvertedMark(y, z, placeholder, index + 1);
    PlainState(z);
    ConvertedNoMarks(z, placeholder, index + 2, false);
    assert placeholder(index) == prefix + Decimal(index) && placeholder(index + 1) == prefix + Decimal(index + 1);
  }

  /** Placeholders inside single-quoted literals are left alone, also when two literals
      meet (`'1''?'`) or a backslash precedes the closing quote (`'1\''?'`), and the
      first placeholder after them gets the filter's first number. */
  lemma SeqFilterSkipsLiterals(x: string, w1: string, w2: string, y: string, z: string, prefix: string, index: int)
    requires Plain(x) && Plain(y) && Plain(z)
    requires forall k :: 0 <= k < |w1| ==> w1[k] != '\''
    requires forall k :: 0 <= k < |w2| ==> w2[k] != '\''
    ensures var lits := ['\''] + (w1 + (['\''] + (['\''] + (w2 + ['\'']))));
            Converted(x + (lits + (y + ['?'] + z)), Numbering(prefix), index, false)
            == x + (lits + (y + (prefix + Decimal(index)) + z))
  {
    var placeholder := Numbering(prefix);
    var after := y + ['?'] + z;
    var lit2 := ['\''] + (w2 + (['\''] + after));
    ConvertedPlainFront(x, ['\''] + (w1 + (['\''] + lit2)), placeholder, index);
    ConvertedLiteral(w1, lit2, placeholder, index);
    ConvertedLiteral(w2, after, placeholder, index);
    ConvertedMark(y, z, placeholder, index);
    PlainState(z);
    ConvertedNoMarks(z, placeholder, index + 1, false);
    assert placeholder(index) == prefix + Decimal(index);
    LiteralsShape(w1, w2, after);
    LiteralsShape(w1, w2, y + (prefix + Decimal(index)) + z);
  }

  /** A text whose only placeholders sit inside one literal comes back unchanged. */
  lemma OneLiteralUnchanged(x: string, w: string, z: string, placeholder: int -> string, index: int)
    requires Plain(x) && Plain(z)
    requires forall k :: 0 <= k < |w| ==> w[k] != '\''
    ensures Converted(x + (['\''] + (w + (['\''] + z))), placeholder, index, false)
            == x + (['\''] + (w + (['\''] + z)))
  {
    ConvertedPlainFront(x, ['\''] + (w + (['\''] + z)), placeholder, index);
    ConvertedLiteral(w, z, placeholder, index);
    PlainState(z);
    ConvertedNoMarks(z, placeholder, index, false);
  }

  /** A text whose only placeholders sit inside two literals that meet comes back
      unchanged. */
  lemma TwoLiteralsUnchanged(x: string, w1: string, w2: string, z: string, placeholder: int -> string, index: int)
    requires Plain(x) && Plain(z)
    requires forall k :: 0 <= k < |w1| ==> w1[k] != '\''
    requires forall k :: 0 <= k < |w2| ==> w2[k] != '\''
    ensures var lits := ['\''] + (w1 + (['\''] + (['\''] + (w2 + ['\'']))));
            Converted(x + (lits + z), placeholder, index, false) == x + (lits + z)
  {
    var lit2 := ['\''] + (w2 + (['\''] + z));
    LiteralsShape(w1, w2, z);
    ConvertedPlainFront(x, ['\''] + (w1 + (['\''] + lit2)), placeholder, index);
    ConvertedLiteral(w1, lit2, placeholder, index);
    ConvertedLiteral(w2, z, placeholder, index);
    PlainState(z);
    ConvertedNoMarks(z, placeholder, index, false);
  }

  /** `select '1''?' from issue` comes back unchanged: the `?` sits in the second of two
      literals that meet. */
  lemma DoubledQuoteVector()
    ensures Converted("select '1''?' from issue", Numbering("$"), 1, false) == "select '1''?' from issue"
  {
    PlainWords();
    TwoLiteralsUnchanged("select ", "1", "?", " from issue", Numbering("$"), 1);
    DoubledQuoteText("'1''?'");
  }

  /** The text of the doubled-quote case, cut at its literals. */
  lemma DoubledQuoteText(lits: string)
    requires lits == "'1''?'"
    ensures lits == ['\''] + ("1" + (['\''] + (['\''] + ("?" + ['\'']))))
    ensures "select '1''?' from issue" == "select " + (lits + " from issue")
  {
  }

  /** The plain words around the literals of the filter's test texts. */
  lemma PlainWords()
    ensures Plain("select ") && Plain(",") && Plain(" from issue")
  {
  }

  /** `select '1\??' from issue` comes back unchanged: both marks sit in one literal. */
  lemma BackslashLiteralVector()
    ensures Converted("select '1\\??' from issue", Numbering("$"), 1, false) == "select '1\\??' from issue"
  {
    PlainWords();
    OneLiteralUnchanged("select ", "1\\??", " from issue", Numbering("$"), 1);
    BackslashLiteralText("1\\??");
  }

  /** The text of the backslash case, cut at its literal. */
  lemma BackslashLiteralText(w: string)
    requires w == "1\\??"
    ensures "select '1\\??' from issue" == "select " + (['\''] + (w + (['\''] + " from issue")))
  {
  }

  /** A placeholder after one literal gets the first number: the literal, whatever it
      holds before its closing quote, is copied as it is. */
  lemma LiteralThenMark(x: string, w: string, y: string, z: string, prefix: string, index: int)
    requires Plain(x) && Plain(y) && Plain(z)
    requires forall k :: 0 <= k < |w| ==> w[k] != '\''
    ensures Converted(x + (['\''] + (w + (['\''] + (y + ['?'] + z)))), Numbering(prefix), index, false)
            == x + (['\''] + (w + (['\''] + (y + (prefix + Decimal(index)) + z))))
  {
    var placeholder := Numbering(prefix);
    ConvertedPlainFront(x, ['\''] + (w + (['\''] + (y + ['?'] + z))), placeholder, index);
    ConvertedLiteral(w, y + ['?'] + z, placeholder, index);
    ConvertedMark(y, z, placeholder, index);
    PlainState(z);
    ConvertedNoMarks(z, placeholder, index + 1, false);
    assert placeholder(index) == prefix + Decimal(index);
  }

  /** `select '1\\',? from issue` becomes `select '1\\',$1 from issue`: a backslash does
      not escape the closing quote, so the mark after the literal is the first placeholder. */
  lemma BackslashEndVector()
    ensures Converted("select '1\\\\',? from issue", Numbering("$"), 1, false)
            == "select '1\\\\',$1 from issue"
  {
    PlainWords();
    LiteralThenMark("select ", "1\\\\", ",", " from issue", "$", 1);
    DollarNumbers();
    BackslashEndText("1\\\\");
  }

  /** The two texts of the backslash-ended case, cut at the literal. */
  lemma BackslashEndText(w: string)
    requires w == "1\\\\"
    ensures "select '1\\\\',? from issue" == "select " + (['\''] + (w + (['\''] + ("," + ['?'] + " from issue"))))
    ensures "select '1\\\\',$1 from issue" == "select " + (['\''] + (w + (['\''] + ("," + "$1" + " from issue"))))
  {
    var after := "," + ['?'] + " from issue";
    var written := "," + "$1" + " from issue";
    assert after == ",? from issue";
    assert written == ",$1 from issue";
  }

  /** `select '1\''?',? from issue` becomes `select '1\''?',$1 from issue`: the literals
      `'1\'` and `'?'` are copied and the mark after them is the first placeholder. */
  lemma EscapedQuoteVector()
    ensures Converted("select '1\\''?',? from issue", Numbering("$"), 1, false)
            == "select '1\\''?',$1 from issue"
  {
    var lits := "'1\\''?'";
    PlainWords();
    SeqFilterSkipsLiterals("select ", "1\\", "?", ",", " from issue", "$", 1);
    DollarNumbers();
    assert lits == ['\''] + ("1\\" + (['\''] + (['\''] + ("?" + ['\'']))));
    EscapedQuoteText(lits);
  }

  /** The two texts of the escaped-quote case, cut at the literals. */
  lemma EscapedQuoteText(lits: string)
    requires lits == "'1\\''?'"
    ensures "select '1\\''?',? from issue" == "select " + (lits + ("," + ['?'] + " from issue"))
    ensures "select '1\\''?',$1 from issue" == "select " + (lits + ("," + "$1" + " from issue"))
  {
    var after := "," + ['?'] + " from issue";
    var written := "," + "$1" + " from issue";
    assert after == ",? from issue";
    assert written == ",$1 from issue";
  }

  /** Two literals that meet, before a text `t`, regrouped: a proof step only. */
  lemma LiteralsShape(w1: string, w2: string, t: string)
    ensures (['\''] + (w1 + (['\''] + (['\''] + (w2 + ['\'']))))) + t
            == ['\''] + (w1 + (['\''] + (['\''] + (w2 + (['\''] + t)))))
  {
  }

  /** With the `$` prefix and first number 1 of the filter's tests, the first two
      placeholders become `$1` and `$2`. */
  lemma DollarNumbers()
    ensures "$" + Decimal(1) == "$1" && "$" + Decimal(2) == "$2"
  {
  }
}
