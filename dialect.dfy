/**
 * The base dialect's DDL text (dialects/dialect.go): the clause for one
 * column, `CREATE TABLE`, the index and table statements every dialect
 * inherits from `Base`, and the registry that maps a database type to its
 * dialect. The dialect's own callbacks (`Quote`, `SQLType`, `AutoIncrStr`,
 * `ShowCreateNull`, `SupportEngine`, `SupportCharset`, `URI().Charset`) are
 * fields of `Dialect`, so every statement here holds for every dialect.
 */
module Dialects {
  import opened Text

  datatype Option<T> = None | Some(value: T)

  /** The driver name for which `CREATE TABLE` writes column comments. */
  const MYSQL: string := "mysql"

  /** The parts of `schemas.Column` the DDL text reads. */
  datatype Column = Column(
    name: string,
    isPrimaryKey: bool,
    isAutoIncrement: bool,
    defaultValue: string,
    nullable: bool,
    comment: string)

  datatype IndexKind = IndexType | UniqueType

  /** The parts of `schemas.Index` the DDL text reads; `xName` is `Index.XName`. */
  datatype Index = Index(
    name: string,
    kind: IndexKind,
    isRegular: bool,
    cols: seq<string>,
    xName: string -> string)

  /** The parts of `schemas.Table` the DDL text reads: `columnsSeq` is `ColumnsSeq()`,
      `columns` answers `GetColumn`. */
  datatype Table = Table(
    name: string,
    columnsSeq: seq<string>,
    columns: map<string, Column>,
    primaryKeys: seq<string>)

  /** The callbacks of the `Dialect` interface the DDL text uses. */
  datatype Dialect = Dialect(
    quote: string -> string,
    sqlType: Column -> string,
    autoIncrStr: string,
    showCreateNull: bool,
    supportEngine: bool,
    supportCharset: bool,
    uriCharset: string)

  // ---------------------------------------------------------------------
  // The clause for one column

  /** The quoted name and the SQL type, each followed by a space. */
  function ColumnHead(d: Dialect, col: Column): string
  {
    d.quote(col.name) + " " + d.sqlType(col) + " "
  }

  /** `PRIMARY KEY `, and the auto-increment keyword after it, for a key column. */
  function KeyClause(d: Dialect, col: Column): string
  {
    if col.isPrimaryKey then "PRIMARY KEY " + (if col.isAutoIncrement then d.autoIncrStr + " " else "")
    else ""
  }

  function DefaultClause(col: Column): string
  {
    if col.defaultValue != "" then "DEFAULT " + col.defaultValue + " " else ""
  }

  function NullClause(d: Dialect, col: Column): string
  {
    if !d.showCreateNull then "" else if col.nullable then "NULL " else "NOT NULL "
  }

  /** The column clause `String` writes (`withKey`) or `StringNoPk` writes. */
  function ColumnDef(d: Dialect, col: Column, withKey: bool): string
  {
    ColumnHead(d, col) + (KeyPart(d, col, withKey) + ColumnTail(d, col))
  }

  function KeyPart(d: Dialect, col: Column, withKey: bool): string
  {
    if withKey then KeyClause(d, col) else ""
  }

  /** The default and null clauses: what follows the key part. */
  function ColumnTail(d: Dialect, col: Column): string
  {
    DefaultClause(col) + NullClause(d, col)
  }

  /** `String`: the column clause with its primary-key part. */
  method String(d: Dialect, col: Column) returns (sql: string)
    ensures sql == ColumnDef(d, col, true)
  {
    sql := d.quote(col.name) + " ";
    sql := sql + d.sqlType(col) + " ";
    ghost var head := sql;
    if col.isPrimaryKey {
      sql := sql + "PRIMARY KEY ";
      if col.isAutoIncrement {
        sql := sql + d.autoIncrStr + " ";
      }
    }
    ghost var keyed := sql;
    assert keyed == head + KeyClause(d, col) by {
      if col.isPrimaryKey && col.isAutoIncrement {
        Concat4(head, "PRIMARY KEY ", d.autoIncrStr, " ");
      }
    }
    sql := WriteTail(d, col, sql);
    Concat3(head, KeyClause(d, col), ColumnTail(d, col));
  }

  /** `StringNoPk`: the column clause without its primary-key part. */
  method StringNoPk(d: Dialect, col: Column) returns (sql: string)
    ensures sql == ColumnDef(d, col, false)
  {
    sql := d.quote(col.name) + " ";
    sql := sql + d.sqlType(col) + " ";
    sql := WriteTail(d, col, sql);
    assert "" + ColumnTail(d, col) == ColumnTail(d, col);
  }

  /** The default and null clauses, written after `sql`. */
  method WriteTail(d: Dialect, col: Column, sql0: string) returns (sql: string)
    ensures sql == sql0 + ColumnTail(d, col)
  {
    sql := sql0;
    if col.defaultValue != "" {
      sql := sql + "DEFAULT " + col.defaultValue + " ";
      Concat4(sql0, "DEFAULT ", col.defaultValue, " ");
    }
    if d.showCreateNull {
      if col.nullable {
        sql := sql + "NULL ";
      } else {
        sql := sql + "NOT NULL ";
      }
    }
  }

  /** Four strings regrouped: a proof step only. */
  lemma Concat4(a: string, b: string, c: string, e: string)
    ensures a + b + c + e == a + (b + c + e)
  {
  }

  /** The composite key clause appended with its `, `, regrouped: a proof step only. */
  lemma CompositeKeyText(a: string, q: string)
    ensures a + "PRIMARY KEY ( " + q + " ), " == a + (("PRIMARY KEY ( " + q + " )") + ", ")
  {
    assert " ), " == " )" + ", ";
  }

  /** Three strings regrouped: a proof step only. */
  lemma Concat3(a: string, b: string, c: string)
    ensures a + b + c == a + (b + c)
  {
  }

  /** `StringNoPk` is `String` with the primary-key part left out, and the two agree on
      a column that is not a key; the auto-increment keyword is only ever written after
      `PRIMARY KEY`. */
  lemma StringNoPkOmitsKey(d: Dialect, col: Column)
    ensures ColumnDef(d, col, true)
            == ColumnHead(d, col) + KeyClause(d, col) + ColumnDef(d, col, false)[|ColumnHead(d, col)|..]
    ensures !col.isPrimaryKey ==> ColumnDef(d, col, true) == ColumnDef(d, col, false)
  {
    var h, k, t := ColumnHead(d, col), KeyClause(d, col), ColumnTail(d, col);
    assert ColumnDef(d, col, false) == h + t by {
      assert "" + t == t;
    }
    assert (h + t)[|h|..] == t;
    Concat3(h, k, t);
  }

  /** `w` follows a head of length `|h|` exactly when the text after the head starts with `w`. */
  lemma OccursAfter(h: string, t: string, w: string)
    ensures OccursAt(h + t, w, |h|) <==> |t| >= |w| && t[..|w|] == w
  {
    if |t| >= |w| {
      assert (h + t)[|h|..|h| + |w|] == t[..|w|];
    }
  }

  /** The default and null clauses never start with `PRIMARY KEY `. */
  lemma TailIsNoKey(d: Dialect, col: Column)
    ensures var t := ColumnTail(d, col);
            !(|t| >= 12 && t[..12] == "PRIMARY KEY ")
  {
    var t := ColumnTail(d, col);
    if col.defaultValue == "" {
      assert t == NullClause(d, col);
    } else if |t| >= 12 {
      assert t[0] == 'D';
      assert t[..12][0] != "PRIMARY KEY "[0];
    }
  }

  /** Right after the name and type, `String` writes `PRIMARY KEY ` exactly when the
      column is a primary key, and `StringNoPk` never does. */
  lemma KeyClauseIff(d: Dialect, col: Column)
    ensures OccursAt(ColumnDef(d, col, true), "PRIMARY KEY ", |ColumnHead(d, col)|) <==> col.isPrimaryKey
    ensures !OccursAt(ColumnDef(d, col, false), "PRIMARY KEY ", |ColumnHead(d, col)|)
  {
    var h, t := ColumnHead(d, col), ColumnTail(d, col);
    TailIsNoKey(d, col);
    assert "" + t == t;
    OccursAfter(h, t, "PRIMARY KEY ");
    if col.isPrimaryKey {
      var k := KeyClause(d, col);
      OccursAfter(h, k + t, "PRIMARY KEY ");
      assert (k + t)[..12] == k[..12] == "PRIMARY KEY ";
    }
  }

  /** After the key part, `DEFAULT ` is written exactly when the column has a default. */
  lemma DefaultClauseIff(d: Dialect, col: Column, withKey: bool)
    ensures var at := |ColumnHead(d, col)| + |KeyPart(d, col, withKey)|;
            OccursAt(ColumnDef(d, col, withKey), "DEFAULT ", at) <==> col.defaultValue != ""
  {
    var h, k, t := ColumnHead(d, col), KeyPart(d, col, withKey), ColumnTail(d, col);
    Concat3(h, k, t);
    OccursAfter(h + k, t, "DEFAULT ");
    if col.defaultValue != "" {
      assert t[..8] == DefaultClause(col)[..8] == "DEFAULT ";
    } else if |t| >= 8 {
      assert t == NullClause(d, col) && t[0] == 'N';
      assert t[..8][0] != "DEFAULT "[0];
    }
  }

  /** The column clause ends with `NULL ` or `NOT NULL ` as the column is nullable or not
      when the dialect shows nullability, and with the default clause otherwise. */
  lemma NullClauseEnd(d: Dialect, col: Column, withKey: bool)
    ensures var w := ColumnDef(d, col, withKey);
            var rest := |ColumnHead(d, col)| + |KeyPart(d, col, withKey)| + |DefaultClause(col)|;
            rest <= |w|
            && (!d.showCreateNull ==> rest == |w|)
            && (d.showCreateNull && col.nullable ==> w[rest..] == "NULL ")
            && (d.showCreateNull && !col.nullable ==> w[rest..] == "NOT NULL ")
  {
    var h, k, f, n := ColumnHead(d, col), KeyPart(d, col, withKey), DefaultClause(col), NullClause(d, col);
    assert ColumnDef(d, col, withKey) == h + k + f + n;
    assert (h + k + f + n)[|h + k + f|..] == n;
  }

  // ---------------------------------------------------------------------
  // CREATE TABLE

  /** Every column `ColumnsSeq` names can be fetched (`GetColumn` does not return nil). */
  predicate HasColumns(t: Table)
  {
    forall k :: 0 <= k < |t.columnsSeq| ==> t.columnsSeq[k] in t.columns
  }

  /** `GetColumn` of every name in `ColumnsSeq()`, in that order. */
  function TableColumns(t: Table): (r: seq<Column>)
    requires HasColumns(t)
    ensures |r| == |t.columnsSeq|
    ensures forall k :: 0 <= k < |r| ==> r[k] == t.columns[t.columnsSeq[k]]
  {
    seq(|t.columnsSeq|, k requires 0 <= k < |t.columnsSeq| => t.columns[t.columnsSeq[k]])
  }

  /** A column carries its own `PRIMARY KEY` only when it is the table's only key. */
  function InlineKey(t: Table, col: Column): bool
  {
    col.isPrimaryKey && |t.primaryKeys| == 1
  }

  /** `%c,%c` of the closing and opening quote: what separates the names in a list. */
  function KeySeparator(quotes: string): string
    requires |quotes| >= 2
  {
    [quotes[1]] + "," + [quotes[0]]
  }

  /** The table name written: `tableName`, or the table's own name when it is empty. */
  function TableName(t: Table, tableName: string): string
  {
    if tableName == "" then t.name else tableName
  }

  /** `CreateTableSQL` applies when every column can be fetched and, for a composite key,
      the dialect's quotes have two characters. */
  predicate CreateTableDefined(d: Dialect, t: Table)
  {
    HasColumns(t) && (|t.columnsSeq| > 0 && |t.primaryKeys| > 1 ==> |d.quote("")| >= 2)
  }

  /** A string that starts with a character that is not white space. */
  predicate StartsSolid(s: string)
  {
    s != [] && !IsSpace(s[0])
  }

  /** Every part followed by `, `. */
  function Listed(parts: seq<string>): string
  {
    if parts == [] then [] else Listed(parts[..|parts| - 1]) + parts[|parts| - 1] + ", "
  }

  lemma ListedSnoc(parts: seq<string>, x: string)
    ensures Listed(parts + [x]) == Listed(parts) + x + ", "
  {
    assert (parts + [x])[..|parts|] == parts;
  }

  /** Parts each followed by `, ` are the parts joined by `, ` and one more `, `. */
  lemma {:induction false} ListedJoin(parts: seq<string>)
    requires parts != []
    ensures Listed(parts) == Join(parts, ", ") + ", "
    decreases |parts|
  {
    var init, last := parts[..|parts| - 1], parts[|parts| - 1];
    assert parts == init + [last];
    if init == [] {
      assert Listed(parts) == Listed(init) + last + ", ";
      assert Join(parts, ", ") == last;
    } else {
      ListedJoin(init);
      JoinSnoc(init, last, ", ");
    }
  }

  /** `f` applied to every element of `xs`, in order. */
  function MapSeq<A, B>(f: A -> B, xs: seq<A>): (r: seq<B>)
    ensures |r| == |xs|
  {
    if xs == [] then [] else MapSeq(f, xs[..|xs| - 1]) + [f(xs[|xs| - 1])]
  }

  /** The `k`-th element of the mapped sequence is `f` of the `k`-th element. */
  lemma {:induction false} MapSeqAt<A, B>(f: A -> B, xs: seq<A>, k: nat)
    requires k < |xs|
    ensures MapSeq(f, xs)[k] == f(xs[k])
    decreases |xs|
  {
    var init := xs[..|xs| - 1];
    if k < |init| {
      MapSeqAt(f, init, k);
      assert init[k] == xs[k];
    }
  }

  /** The base dialect: its dialect's callbacks and the driver name. */
  datatype Base = Base(dialect: Dialect, driverName: string)
  {
    /** ` COMMENT '…'` for a column with a comment, under the MySQL driver only. */
    function CommentClause(col: Column): string
    {
      if driverName == MYSQL && |col.comment| > 0 then " COMMENT '" + col.comment + "'" else ""
    }

    /** What one turn of the column loop makes of `sql`. */
    function ColumnStep(t: Table, sql: string, col: Column): (r: string)
      ensures |r| >= 2
    {
      TrimSpace(sql + ColumnDef(dialect, col, InlineKey(t, col))) + CommentClause(col) + ", "
    }

    /** `sql` after the column loop has run over `cs`, starting from `start`. */
    function ColumnsText(t: Table, start: string, cs: seq<Column>): (r: string)
      ensures cs != [] ==> |r| >= 2
      decreases |cs|
    {
      if cs == [] then start
      else ColumnStep(t, ColumnsText(t, start, cs[..|cs| - 1]), cs[|cs| - 1])
    }

    lemma ColumnsTextStep(t: Table, start: string, cs: seq<Column>, i: nat)
      requires i < |cs|
      ensures ColumnsText(t, start, cs[..i + 1]) == ColumnStep(t, ColumnsText(t, start, cs[..i]), cs[i])
    {
      assert cs[..i + 1][..i] == cs[..i];
    }

    /** The composite key, `PRIMARY KEY ( [a],[b] )`. */
    function CompositeKey(t: Table): string
      requires |dialect.quote("")| >= 2
    {
      "PRIMARY KEY ( " + dialect.quote(Join(t.primaryKeys, KeySeparator(dialect.quote("")))) + " )"
    }

    function CreateHead(t: Table, tableName: string): string
    {
      "CREATE TABLE IF NOT EXISTS " + dialect.quote(TableName(t, tableName)) + " ("
    }

    /** ` ENGINE=…` when the dialect supports engines and one is given. */
    function EngineClause(storeEngine: string): string
    {
      if dialect.supportEngine && storeEngine != "" then " ENGINE=" + storeEngine else ""
    }

    /** The charset used: the one given, or the connection's when none is. */
    function EffectiveCharset(charset: string): string
    {
      if |charset| == 0 then dialect.uriCharset else charset
    }

    /** ` DEFAULT CHARSET …` when the dialect supports charsets and there is one. */
    function CharsetClause(charset: string): string
    {
      if dialect.supportCharset && |EffectiveCharset(charset)| > 0 then " DEFAULT CHARSET " + EffectiveCharset(charset)
      else ""
    }

    /** The engine and charset options after the closing parenthesis. */
    function TableOptions(storeEngine: string, charset: string): string
    {
      EngineClause(storeEngine) + CharsetClause(charset)
    }

    /** The columns and the composite key after `head`, each followed by `, `, with the
        last `, ` cut off. */
    function ColumnsBody(t: Table, head: string): string
      requires CreateTableDefined(dialect, t) && t.columnsSeq != []
    {
      var s := ColumnsText(t, head, TableColumns(t)) + (if |t.primaryKeys| > 1 then CompositeKey(t) + ", " else "");
      s[..|s| - 2]
    }

    /** The text before the closing parenthesis. */
    function CreateBody(t: Table, tableName: string): string
      requires CreateTableDefined(dialect, t)
    {
      var head := CreateHead(t, tableName);
      if t.columnsSeq == [] then head else ColumnsBody(t, head)
    }

    /** What `CreateTableSQL` returns. */
    function CreateTable(t: Table, tableName: string, storeEngine: string, charset: string): string
      requires CreateTableDefined(dialect, t)
    {
      CreateBody(t, tableName) + ")" + TableOptions(storeEngine, charset)
    }

    /** A column's entry in the list: its clause with the trailing white space trimmed,
        then its comment. */
    function ColumnItem(t: Table, col: Column): string
    {
      TrimRightSpace(ColumnDef(dialect, col, InlineKey(t, col))) + CommentClause(col)
    }

    /** The entries of the columns `cols`, in their order. */
    function Items(t: Table, cols: seq<Column>): (r: seq<string>)
      ensures |r| == |cols|
    {
      MapSeq(c => ColumnItem(t, c), cols)
    }

    /** The `k`-th entry is the `k`-th column's. */
    lemma ItemsAt(t: Table, cols: seq<Column>, k: nat)
      requires k < |cols|
      ensures Items(t, cols)[k] == ColumnItem(t, cols[k])
    {
      MapSeqAt(c => ColumnItem(t, c), cols, k);
    }

    /** Every column's quoted name starts with a character that is not white space. */
    predicate NamedColumns(cols: seq<Column>)
    {
      forall k :: 0 <= k < |cols| ==> StartsSolid(dialect.quote(cols[k].name))
    }

    /** The entries of `CREATE TABLE`'s list: the columns in `ColumnsSeq()` order, then the
        composite key when there is more than one key; none without columns. */
    function Entries(t: Table): seq<string>
      requires CreateTableDefined(dialect, t)
    {
      if t.columnsSeq == [] then []
      else Items(t, TableColumns(t)) + (if |t.primaryKeys| > 1 then [CompositeKey(t)] else [])
    }

    /** The column loop appends every entry and `, ` to its start text, as long as the
        trimming of white space cannot reach back past a column's name. */
    lemma {:induction false} ColumnsTextLayout(t: Table, head: string, cols: seq<Column>)
      requires StartsSolid(head) && NamedColumns(cols)
      ensures ColumnsText(t, head, cols) == head + Listed(Items(t, cols))
      decreases |cols|
    {
      if cols == [] {
        assert Items(t, cols) == [];
      } else {
        var init, c := cols[..|cols| - 1], cols[|cols| - 1];
        assert NamedColumns(init) by {
          forall k | 0 <= k < |init|
            ensures StartsSolid(dialect.quote(init[k].name))
          {
            assert init[k] == cols[k];
          }
        }
        ColumnsTextLayout(t, head, init);
        var pre := head + Listed(Items(t, init));
        assert pre[0] == head[0];
        ColumnStepLayout(t, pre, c);
        ListedSnoc(Items(t, init), ColumnItem(t, c));
        Concat3(head, Listed(Items(t, init)) + ColumnItem(t, c), ", ");
        Concat3(head, Listed(Items(t, init)), ColumnItem(t, c));
      }
    }

    /** One turn of the column loop after a text that starts solid appends the column's
        entry and `, `. */
    lemma ColumnStepLayout(t: Table, pre: string, c: Column)
      requires StartsSolid(pre) && StartsSolid(dialect.quote(c.name))
      ensures ColumnStep(t, pre, c) == pre + ColumnItem(t, c) + ", "
    {
      var def := ColumnDef(dialect, c, InlineKey(t, c));
      assert def[0] == dialect.quote(c.name)[0];
      TrimSpaceOfUnspacedStart(pre + def);
      TrimRightSpaceAppend(pre, def);
      Concat3(pre, TrimRightSpace(def), CommentClause(c));
    }

    /** `CREATE TABLE IF NOT EXISTS` and the quoted name, then the entries joined by `, `
        in parentheses, then the options. */
    lemma CreateTableLayout(t: Table, tableName: string, storeEngine: string, charset: string)
      requires CreateTableDefined(dialect, t) && NamedColumns(TableColumns(t))
      ensures CreateTable(t, tableName, storeEngine, charset)
              == CreateHead(t, tableName) + Join(Entries(t), ", ") + ")" + TableOptions(storeEngine, charset)
    {
      var head := CreateHead(t, tableName);
      if t.columnsSeq != [] {
        assert head[0] == 'C';
        BodyLayout(t, head);
      }
    }

    /** The text before the closing parenthesis, for a table with columns. */
    lemma BodyLayout(t: Table, head: string)
      requires CreateTableDefined(dialect, t) && NamedColumns(TableColumns(t))
      requires t.columnsSeq != [] && StartsSolid(head)
      ensures ColumnsBody(t, head) == head + Join(Entries(t), ", ")
    {
      var items := Items(t, TableColumns(t));
      var entries := Entries(t);
      ColumnsTextLayout(t, head, TableColumns(t));
      var s := ColumnsText(t, head, TableColumns(t)) + (if |t.primaryKeys| > 1 then CompositeKey(t) + ", " else "");
      if |t.primaryKeys| > 1 {
        var ck := CompositeKey(t);
        assert entries == items + [ck];
        ListedSnoc(items, ck);
        Concat3(head + Listed(items), ck, ", ");
        Concat3(head, Listed(items), ck);
        Concat3(head, Listed(items) + ck, ", ");
      } else {
        assert entries == items;
        assert s == head + Listed(items) + "";
      }
      assert s == head + Listed(entries);
      ListedJoin(entries);
      var j := Join(entries, ", ");
      Concat3(head, j, ", ");
      assert (head + j + ", ")[..|head + j|] == head + j;
    }

    /** ` ENGINE=` opens the options exactly when the dialect supports engines and one is
        given. */
    lemma EngineIff(storeEngine: string, charset: string)
      ensures OccursAt(TableOptions(storeEngine, charset), " ENGINE=", 0)
              <==> dialect.supportEngine && storeEngine != ""
    {
      var o := TableOptions(storeEngine, charset);
      OccursAfter("", o, " ENGINE=");
      assert "" + o == o;
      if dialect.supportEngine && storeEngine != "" {
        assert o[..8] == " ENGINE=";
      } else if |o| >= 8 {
        assert o == CharsetClause(charset) && o[1] == 'D';
        assert o[..8][1] != " ENGINE="[1];
      }
    }

    /** The charset clause names the charset given or, failing that, the connection's, and
        is left out when both are empty or the dialect has no charsets. */
    lemma CharsetFallback(storeEngine: string, charset: string)
      ensures dialect.supportCharset && (charset != "" || dialect.uriCharset != "") ==>
                TableOptions(storeEngine, charset)
                == EngineClause(storeEngine) + " DEFAULT CHARSET " + (if charset != "" then charset else dialect.uriCharset)
      ensures !(dialect.supportCharset && (charset != "" || dialect.uriCharset != "")) ==>
                TableOptions(storeEngine, charset) == EngineClause(storeEngine)
    {
      assert EngineClause(storeEngine) + "" == EngineClause(storeEngine);
      Concat3(EngineClause(storeEngine), " DEFAULT CHARSET ", EffectiveCharset(charset));
    }

    /** `Base.CreateTableSQL`. */
    method CreateTableSQL(table: Table, tableName: string, storeEngine: string, charset: string) returns (sql: string)
      requires CreateTableDefined(dialect, table)
      ensures sql == CreateTable(table, tableName, storeEngine, charset)
    {
      sql := "CREATE TABLE IF NOT EXISTS ";
      var name := tableName;
      if name == "" {
        name := table.name;
      }
      sql := sql + dialect.quote(name);
      sql := sql + " (";
      assert sql == CreateHead(table, tableName);
      if |table.columnsSeq| > 0 {
        sql := WriteColumns(table, sql);
      }
      sql := sql + ")";
      sql := WriteOptions(sql, storeEngine, charset);
    }

    /** The column loop, the composite key and the cut of the last `, `. */
    method WriteColumns(table: Table, head: string) returns (sql: string)
      requires CreateTableDefined(dialect, table) && table.columnsSeq != []
      ensures sql == ColumnsBody(table, head)
    {
      sql := ColumnLoop(table, head);
      ghost var listed := sql;
      var quotes := dialect.quote("");
      var pkList := table.primaryKeys;
      if |pkList| > 1 {
        sql := sql + "PRIMARY KEY ( ";
        sql := sql + dialect.quote(Join(pkList, [quotes[1]] + "," + [quotes[0]]));
        sql := sql + " ), ";
        CompositeKeyText(listed, dialect.quote(Join(pkList, KeySeparator(quotes))));
        assert sql == listed + (CompositeKey(table) + ", ");
      } else {
        assert sql == listed + "";
      }
      assert sql == ColumnsText(table, head, TableColumns(table))
                    + (if |table.primaryKeys| > 1 then CompositeKey(table) + ", " else "");
      sql := sql[..|sql| - 2];
    }

    /** The loop over `ColumnsSeq()`. */
    method ColumnLoop(table: Table, head: string) returns (sql: string)
      requires HasColumns(table)
      ensures sql == ColumnsText(table, head, TableColumns(table))
    {
      sql := head;
      ghost var cols := TableColumns(table);
      for i := 0 to |table.columnsSeq|
        invariant sql == ColumnsText(table, head, cols[..i])
      {
        var col := table.columns[table.columnsSeq[i]];
        sql := WriteColumn(table, sql, col);
        ColumnsTextStep(table, head, cols, i);
      }
      assert cols[..|cols|] == cols;
    }

    /** One turn of the column loop: the column's clause, with its own primary key
        only when it is the table's only key, trimmed, its comment, and `, `. */
    method WriteColumn(table: Table, sql0: string, col: Column) returns (sql: string)
      ensures sql == ColumnStep(table, sql0, col)
    {
      var def;
      if col.isPrimaryKey && |table.primaryKeys| == 1 {
        def := String(dialect, col);
      } else {
        def := StringNoPk(dialect, col);
      }
      assert def == ColumnDef(dialect, col, InlineKey(table, col));
      sql := TrimSpace(sql0 + def);
      ghost var trimmed := sql;
      if driverName == MYSQL && |col.comment| > 0 {
        sql := sql + " COMMENT '" + col.comment + "'";
        Concat4(trimmed, " COMMENT '", col.comment, "'");
      }
      assert sql == trimmed + CommentClause(col);
      sql := sql + ", ";
    }

    /** The engine and charset options, written after `sql`. */
    method WriteOptions(sql0: string, storeEngine: string, charset: string) returns (sql: string)
      ensures sql == sql0 + TableOptions(storeEngine, charset)
    {
      sql := sql0;
      if dialect.supportEngine && storeEngine != "" {
        sql := sql + " ENGINE=" + storeEngine;
      }
      ghost var engined := sql;
      assert engined == sql0 + EngineClause(storeEngine);
      if dialect.supportCharset {
        var cs := charset;
        if |cs| == 0 {
          cs := dialect.uriCharset;
        }
        assert cs == EffectiveCharset(charset);
        if |cs| > 0 {
          sql := sql + " DEFAULT CHARSET " + cs;
        }
      }
      assert sql == engined + CharsetClause(charset);
      Concat3(sql0, EngineClause(storeEngine), CharsetClause(charset));
    }

    // -------------------------------------------------------------------
    // Index, table and column statements

    /** `Base.CreateIndexSQL`: `CREATE`, then ` UNIQUE` exactly for a unique index, and
        the statement closes the column list. */
    function CreateIndexSQL(tableName: string, index: Index): (r: string)
      requires |dialect.quote("")| >= 2
      ensures |r| > 6 && r[..6] == "CREATE" && r[|r| - 1] == ')'
      ensures OccursAt(r, " UNIQUE", 6) <==> index.kind == UniqueType
    {
      var unique := if index.kind == UniqueType then " UNIQUE" else "";
      var rest := IndexTarget(tableName, index) + IndexColumns(index);
      UniqueAfterCreate(unique, rest);
      "CREATE" + unique + rest
    }

    /** ` INDEX `, the quoted index name, ` ON ` and the quoted table name. */
    function IndexTarget(tableName: string, index: Index): (r: string)
      ensures |r| >= 7 && r[..7] == " INDEX "
    {
      " INDEX " + dialect.quote(index.xName(tableName)) + " ON " + dialect.quote(tableName)
    }

    /** The column list: the names joined by `%c,%c` of the closing and opening quote,
        quoted once as a whole, in parentheses. */
    function IndexColumns(index: Index): (r: string)
      requires |dialect.quote("")| >= 2
    {
      var quotes := dialect.quote("");
      " (" + dialect.quote(Join(index.cols, [quotes[1]] + "," + [quotes[0]])) + ")"
    }

    /** `Base.DropIndexSQL`: a regular index is dropped by its `XName`, any other by its name. */
    function DropIndexSQL(tableName: string, index: Index): (r: string)
      ensures index.isRegular ==> r == "DROP INDEX " + dialect.quote(index.xName(tableName)) + " ON " + dialect.quote(tableName)
      ensures !index.isRegular ==> r == "DROP INDEX " + dialect.quote(index.name) + " ON " + dialect.quote(tableName)
    {
      var name := if index.isRegular then index.xName(tableName) else index.name;
      "DROP INDEX " + dialect.quote(name) + " ON " + dialect.quote(tableName)
    }

    /** `Base.DropTableSQL`. */
    function DropTableSQL(tableName: string): (r: string)
      ensures |r| >= 21 && r[..21] == "DROP TABLE IF EXISTS " && r[21..] == dialect.quote(tableName)
    {
      "DROP TABLE IF EXISTS " + dialect.quote(tableName)
    }

    /** `Base.ModifyColumnSQL`: the table name is written as given, the column without
        its primary-key part. */
    function ModifyColumnSQL(tableName: string, col: Column): (r: string)
      ensures var lead := "alter table " + tableName + " MODIFY COLUMN ";
              |r| >= |lead| && r[..|lead|] == lead && r[|lead|..] == ColumnDef(dialect, col, false)
    {
      "alter table " + tableName + " MODIFY COLUMN " + ColumnDef(dialect, col, false)
    }

    /** `Base.ForUpdateSQL`. */
    function ForUpdateSQL(query: string): (r: string)
      ensures |r| == |query| + 11 && r[..|query|] == query && r[|query|..] == " FOR UPDATE"
    {
      query + " FOR UPDATE"
    }
  }

  /** ` UNIQUE` follows `CREATE` exactly when it is written there, because the rest of
      the statement starts with ` INDEX `. */
  lemma UniqueAfterCreate(unique: string, rest: string)
    requires unique == "" || unique == " UNIQUE"
    requires |rest| >= 7 && rest[..7] == " INDEX "
    ensures var r := "CREATE" + unique + rest;
            |r| > 6 && r[..6] == "CREATE" && r[|r| - 1] == rest[|rest| - 1]
            && (OccursAt(r, " UNIQUE", 6) <==> unique == " UNIQUE")
  {
    var t := unique + rest;
    assert "CREATE" + unique + rest == "CREATE" + t;
    OccursAfter("CREATE", t, " UNIQUE");
    if unique == "" {
      assert t[1] == rest[1] == 'I';
      assert t[..7][1] != " UNIQUE"[1];
    } else {
      assert t[..7] == " UNIQUE";
    }
  }

  /** The `%c,%c` separator between the names, inside one call of a quote that wraps its
      argument in `p` and `s`, quotes every name on its own: `[a],[b]` for `a` and `b`. */
  lemma {:induction false} WrappedList(p: char, s: char, cols: seq<string>, ws: seq<string>)
    requires cols != [] && |ws| == |cols|
    requires forall i :: 0 <= i < |cols| ==> ws[i] == [p] + cols[i] + [s]
    ensures [p] + Join(cols, [s] + "," + [p]) + [s] == Join(ws, ",")
    decreases |cols|
  {
    var n := |cols|;
    if n > 1 {
      var init, winit := cols[..n - 1], ws[..n - 1];
      WrappedList(p, s, init, winit);
      assert cols == init + [cols[n - 1]] && ws == winit + [ws[n - 1]];
      JoinSnoc(init, cols[n - 1], [s] + "," + [p]);
      JoinSnoc(winit, ws[n - 1], ",");
      WrapRegroup(p, s, Join(init, [s] + "," + [p]), cols[n - 1]);
    } else {
      assert cols == [cols[0]] && ws == [ws[0]];
    }
  }

  /** Wrapping a list joined by `s,p` and one more item is wrapping the list, a comma, and the item wrapped. */
  lemma WrapRegroup(p: char, s: char, j: string, c: string)
    ensures [p] + (j + ([s] + "," + [p]) + c) + [s] == ([p] + j + [s]) + "," + ([p] + c + [s])
  {
  }

  /** With a dialect that quotes by wrapping in `p` and `s`, `CreateIndexSQL` ends with the
      index's columns, each quoted on its own, separated by `,`, in parentheses. */
  lemma CreateIndexColumns(b: Base, tableName: string, index: Index, p: char, s: char, ws: seq<string>)
    requires forall x :: b.dialect.quote(x) == [p] + x + [s]
    requires index.cols != [] && |ws| == |index.cols|
    requires forall i :: 0 <= i < |index.cols| ==> ws[i] == [p] + index.cols[i] + [s]
    ensures |b.dialect.quote("")| >= 2
    ensures var r, tail := b.CreateIndexSQL(tableName, index), " (" + Join(ws, ",") + ")";
            |r| >= |tail| && r[|r| - |tail|..] == tail
  {
    var q := b.dialect.quote;
    assert q("") == [p] + "" + [s];
    var sep := [q("")[1]] + "," + [q("")[0]];
    assert sep == [s] + "," + [p];
    WrappedList(p, s, index.cols, ws);
    assert q(Join(index.cols, sep)) == Join(ws, ",");
    var tail := " (" + Join(ws, ",") + ")";
    assert b.IndexColumns(index) == tail;
    var unique := if index.kind == UniqueType then " UNIQUE" else "";
    var head := "CREATE" + unique + b.IndexTarget(tableName, index);
    Concat3("CREATE" + unique, b.IndexTarget(tableName, index), tail);
    assert b.CreateIndexSQL(tableName, index) == head + tail;
  }

  /** `ModifyColumnSQL` never writes `PRIMARY KEY` after the column's name and type, key
      column or not. */
  lemma ModifyColumnHasNoKey(b: Base, tableName: string, col: Column)
    ensures var lead := "alter table " + tableName + " MODIFY COLUMN ";
            !OccursAt(b.ModifyColumnSQL(tableName, col), "PRIMARY KEY ", |lead| + |ColumnHead(b.dialect, col)|)
  {
    var lead := "alter table " + tableName + " MODIFY COLUMN ";
    var h, t := ColumnHead(b.dialect, col), ColumnTail(b.dialect, col);
    assert b.ModifyColumnSQL(tableName, col) == (lead + h) + t by {
      assert "" + t == t;
    }
    OccursAfter(lead + h, t, "PRIMARY KEY ");
    TailIsNoKey(b.dialect, col);
  }

  // ---------------------------------------------------------------------
  // The dialect registry

  /** The registry after `RegisterDialect(dbName, f)`: a nil factory is refused and
      changes nothing; otherwise the factory is stored under the lower-cased name,
      replacing any earlier one. */
  function Registered(m: map<string, () -> Dialect>, dbName: string, f: Option<() -> Dialect>): map<string, () -> Dialect>
  {
    if f.None? then m else m[Lower(dbName) := f.value]
  }

  /** What `QueryDialect(dbName)` returns: a dialect from the factory stored under the
      lower-cased name, or nil. */
  function Queried(m: map<string, () -> Dialect>, dbName: string): Option<Dialect>
  {
    if Lower(dbName) in m then Some(m[Lower(dbName)]()) else None
  }

  /** The global `dialects` map of database types to dialect factories. */
  class Registry {
    var dialects: map<string, () -> Dialect>

    constructor()
      ensures dialects == map[]
    {
      dialects := map[];
    }

    /** `RegisterDialect`; `ok` is false where the source panics on a nil factory. */
    method RegisterDialect(dbName: string, dialectFunc: Option<() -> Dialect>) returns (ok: bool)
      modifies this
      ensures ok <==> dialectFunc.Some?
      ensures dialects == Registered(old(dialects), dbName, dialectFunc)
    {
      if dialectFunc.None? {
        return false;
      }
      dialects := dialects[Lower(dbName) := dialectFunc.value];
      ok := true;
    }

    /** `QueryDialect`. */
    method QueryDialect(dbName: string) returns (d: Option<Dialect>)
      ensures d == Queried(dialects, dbName)
    {
      var key := Lower(dbName);
      if key in dialects {
        var f := dialects[key];
        return Some(f());
      }
      return None;
    }
  }

  /** Lower-casing twice is lower-casing once. */
  lemma LowerTwice(s: string)
    ensures Lower(Lower(s)) == Lower(s)
  {
    forall i | 0 <= i < |s|
      ensures Lower(Lower(s))[i] == Lower(s)[i]
    {
      assert LowerChar(LowerChar(s[i])) == LowerChar(s[i]);
    }
  }

  /** Names that differ only in ASCII case find the same dialect; in particular a name and
      its lower-case form. */
  lemma QueryIgnoresCase(m: map<string, () -> Dialect>, a: string, b: string)
    requires Lower(a) == Lower(b)
    ensures Queried(m, a) == Queried(m, b)
    ensures Queried(m, a) == Queried(m, Lower(a))
  {
    LowerTwice(a);
  }

  /** After registering `f` under `name`, querying any spelling of `name` makes a dialect
      with `f`, whatever was registered before, and every other name answers as before. */
  lemma RegisterThenQuery(m: map<string, () -> Dialect>, name: string, f: () -> Dialect, other: string)
    ensures Lower(other) == Lower(name) ==> Queried(Registered(m, name, Some(f)), other) == Some(f())
    ensures Lower(other) != Lower(name) ==> Queried(Registered(m, name, Some(f)), other) == Queried(m, other)
  {
  }

  /** A refused registration leaves every answer as it was, and an empty registry knows
      no dialect. */
  lemma RefusedAndEmpty(m: map<string, () -> Dialect>, name: string, other: string)
    ensures Registered(m, name, None) == m
    ensures Queried(map[], other) == None
  {
  }
}
