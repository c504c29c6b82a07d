/** The SQL text the database gateway composes before it hands a statement to
    PDO: the `f=:f, g=NULL` field list of INSERT ... SET and UPDATE ... SET,
    the three statements built around it, the `Arg: k Value: v<br>` dump
    written to the error log, and the column lengths read from DESCRIBE. */
module MySQLAccess {
  import opened Wrappers
  import opened Php

  /** The named parameters of a statement, keyed by parameter name; None is PHP's null. */
  type Params = map<string, Option<string>>

  /** isset($data[$f]) && !is_null($data[$f]). */
  predicate IsSet(data: Params, f: string)
  {
    f in data && data[f].Some?
  }

  /** One element of a SET list: `f=:f` when the field has a value, `f=NULL` otherwise. */
  function Assignment(f: string, data: Params): string
  {
    f + "=" + (if IsSet(data, f) then ":" + f else "NULL")
  }

  /** The SET list elements, one per field, in field order. */
  function Assignments(fields: seq<string>, data: Params): seq<string>
  {
    seq(|fields|, i requires 0 <= i < |fields| => Assignment(fields[i], data))
  }

  /** The parts separated by ", ", with no separator before the first. */
  function Join(parts: seq<string>): string
  {
    if |parts| == 0 then ""
    else if |parts| == 1 then parts[0]
    else parts[0] + ", " + Join(parts[1..])
  }

  /** The SET list of an INSERT or UPDATE statement. */
  function UpdateVars(fields: seq<string>, data: Params): string
  {
    Join(Assignments(fields, data))
  }

  /** What the loop of _buildUpdateString accumulates: every part preceded by ", ". */
  function Prefixed(parts: seq<string>): string
  {
    if parts == [] then "" else Prefixed(parts[..|parts| - 1]) + ", " + parts[|parts| - 1]
  }

  lemma {:induction false} JoinSnoc(parts: seq<string>, last: string)
    requires parts != []
    ensures Join(parts + [last]) == Join(parts) + ", " + last
  {
    if |parts| > 1 {
      assert (parts + [last])[1..] == parts[1..] + [last];
      JoinSnoc(parts[1..], last);
    }
  }

  /** Dropping the first two characters of the accumulated text leaves the
      parts joined by ", ": no separator leads, and no parts give "". */
  lemma {:induction false} PrefixedIsSeparatedJoin(parts: seq<string>)
    ensures SubstrFrom(Prefixed(parts), 2) == Join(parts)
    ensures parts != [] ==> Prefixed(parts) == ", " + Join(parts)
  {
    if |parts| == 1 {
      assert parts[..0] == [];
    } else if |parts| > 1 {
      var init := parts[..|parts| - 1];
      PrefixedIsSeparatedJoin(init);
      JoinSnoc(init, parts[|parts| - 1]);
      assert init + [parts[|parts| - 1]] == parts;
    }
  }

  /** _buildUpdateString: appends ", f=v" per field, then removes the leading ", ". */
  method BuildUpdateString(fields: seq<string>, data: Params) returns (updateVars: string)
    ensures updateVars == UpdateVars(fields, data)
    ensures fields == [] ==> updateVars == ""
  {
    var upd := "";
    ghost var parts := Assignments(fields, data);
    for i := 0 to |fields|
      invariant upd == Prefixed(parts[..i])
    {
      var f := fields[i];
      var v;
      if !(f in data) || data[f].None? {
        v := "NULL";
      } else {
        v := ":" + f;
      }
      upd := upd + ", " + f + "=" + v;
      assert parts[..i + 1][..i] == parts[..i];
    }
    updateVars := SubstrFrom(upd, 2);
    assert parts[..|fields|] == parts;
    PrefixedIsSeparatedJoin(parts);
  }

  // ---------------------------------------------------------------------------
  // Reading a SET list back: it determines the fields and which of them are bound.

  /** The index of the first occurrence of ch in s, or |s| when there is none. */
  function IndexOf(s: string, ch: char): (i: nat)
    ensures i <= |s|
    ensures i < |s| ==> s[i] == ch
    ensures forall k :: 0 <= k < i ==> s[k] != ch
  {
    if s == [] then 0 else if s[0] == ch then 0 else 1 + IndexOf(s[1..], ch)
  }

  /** Splits s at each ", " (found by its comma). */
  function Split(s: string): seq<string>
    decreases |s|
  {
    var i := IndexOf(s, ',');
    if i + 2 <= |s| then [s[..i]] + Split(s[i + 2..]) else [s[..i]]
  }

  /** Reads one SET element back as its field name and whether it is `f=:f`. */
  function ParseAssignment(element: string): (string, bool)
  {
    var i := IndexOf(element, '=');
    (element[..i], i < |element| && element[i + 1..] == ":" + element[..i])
  }

  predicate NoComma(s: string)
  {
    forall k :: 0 <= k < |s| ==> s[k] != ','
  }

  lemma {:induction false} SplitJoin(parts: seq<string>)
    requires parts != []
    requires forall i :: 0 <= i < |parts| ==> NoComma(parts[i])
    ensures Split(Join(parts)) == parts
  {
    if |parts| == 1 {
      var a := parts[0];
      assert Join(parts) == a;
      assert IndexOf(a, ',') == |a|;
      assert a[..|a|] == a;
    } else {
      var a, tail := parts[0], Join(parts[1..]);
      var s := a + ", " + tail;
      assert s[|a|] == ',';
      assert IndexOf(s, ',') == |a|;
      assert s[..|a|] == a;
      assert s[|a| + 2..] == tail;
      SplitJoin(parts[1..]);
    }
  }

  lemma ParseAssignmentInverse(f: string, data: Params)
    requires forall k :: 0 <= k < |f| ==> f[k] != '='
    ensures ParseAssignment(Assignment(f, data)) == (f, IsSet(data, f))
  {
    var rhs := if IsSet(data, f) then ":" + f else "NULL";
    var e := Assignment(f, data);
    assert e == f + "=" + rhs;
    assert e[|f|] == '=';
    assert IndexOf(e, '=') == |f|;
    assert e[..|f|] == f;
    assert e[|f| + 1..] == rhs;
    if !IsSet(data, f) {
      assert rhs[0] != (":" + f)[0];
    }
  }

  /** A field name that cannot be mistaken for SQL punctuation in a SET list. */
  predicate PlainName(f: string)
  {
    forall k :: 0 <= k < |f| ==> f[k] != ',' && f[k] != '='
  }

  /** The SET list has exactly one element per field, in field order, and each
      element reads back as its field and whether that field has a value. */
  lemma UpdateVarsReadsBack(fields: seq<string>, data: Params)
    requires fields != []
    requires forall i :: 0 <= i < |fields| ==> PlainName(fields[i])
    ensures |Split(UpdateVars(fields, data))| == |fields|
    ensures forall i :: 0 <= i < |fields| ==>
              ParseAssignment(Split(UpdateVars(fields, data))[i]) == (fields[i], IsSet(data, fields[i]))
  {
    var parts := Assignments(fields, data);
    forall i | 0 <= i < |parts| ensures NoComma(parts[i]) {
      var e := parts[i];
      assert e == fields[i] + "=" + (if IsSet(data, fields[i]) then ":" + fields[i] else "NULL");
    }
    SplitJoin(parts);
    forall i | 0 <= i < |fields|
      ensures ParseAssignment(parts[i]) == (fields[i], IsSet(data, fields[i]))
    {
      ParseAssignmentInverse(fields[i], data);
    }
  }

  // ---------------------------------------------------------------------------
  // The statements insert, update and delete send to PDO.

  /** insert: INSERT INTO t SET vars. */
  function InsertSql(table: string, fields: seq<string>, data: Params): string
  {
    "INSERT INTO " + table + " SET " + UpdateVars(fields, data)
  }

  /** update: UPDATE t SET vars WHERE pk=:pk. */
  function UpdateSql(table: string, pkField: string, fields: seq<string>, data: Params): string
  {
    "UPDATE " + table + " SET " + UpdateVars(fields, data) + " WHERE " + pkField + "=:" + pkField
  }

  /** delete: DELETE FROM t WHERE k=:k, with the parameters [k => value]. */
  function DeleteSql(table: string, key: string): string
  {
    "DELETE FROM " + table + " WHERE " + key + "=:" + key
  }

  /** The UPDATE statement as its head, its SET list and its WHERE clause. */
  lemma UpdateSqlParts(table: string, pkField: string, fields: seq<string>, data: Params)
    ensures UpdateSql(table, pkField, fields, data)
            == ("UPDATE " + table + " SET ") + UpdateVars(fields, data) + (" WHERE " + pkField + "=:" + pkField)
  {
  }

  /** The text of an INSERT statement after "INSERT INTO t SET " reads back, element
      by element, as the fields in order, each with whether it is bound. */
  lemma InsertSqlReadsBack(table: string, fields: seq<string>, data: Params)
    requires fields != []
    requires forall i :: 0 <= i < |fields| ==> PlainName(fields[i])
    ensures var s, head := InsertSql(table, fields, data), "INSERT INTO " + table + " SET ";
            && |head| <= |s| && s[..|head|] == head
            && |Split(s[|head|..])| == |fields|
            && forall i :: 0 <= i < |fields| ==>
                 ParseAssignment(Split(s[|head|..])[i]) == (fields[i], IsSet(data, fields[i]))
  {
    var s, head, vars := InsertSql(table, fields, data), "INSERT INTO " + table + " SET ", UpdateVars(fields, data);
    assert s == head + vars;
    assert s[..|head|] == head;
    assert s[|head|..] == vars;
    UpdateVarsReadsBack(fields, data);
  }

  /** The text of an UPDATE statement between "UPDATE t SET " and " WHERE pk=:pk"
      reads back, element by element, as the fields in order, each with whether
      it is bound. */
  lemma UpdateSqlReadsBack(table: string, pkField: string, fields: seq<string>, data: Params)
    requires fields != []
    requires forall i :: 0 <= i < |fields| ==> PlainName(fields[i])
    ensures var s, head, tail := UpdateSql(table, pkField, fields, data), "UPDATE " + table + " SET ",
                                 " WHERE " + pkField + "=:" + pkField;
            && |head| + |tail| <= |s| && s[..|head|] == head && s[|s| - |tail|..] == tail
            && |Split(s[|head|..|s| - |tail|])| == |fields|
            && forall i :: 0 <= i < |fields| ==>
                 ParseAssignment(Split(s[|head|..|s| - |tail|])[i]) == (fields[i], IsSet(data, fields[i]))
  {
    var s, head, vars, tail := UpdateSql(table, pkField, fields, data), "UPDATE " + table + " SET ",
                               UpdateVars(fields, data), " WHERE " + pkField + "=:" + pkField;
    UpdateSqlParts(table, pkField, fields, data);
    assert s == head + vars + tail;
    assert s[..|head|] == head;
    assert s[|head|..|s| - |tail|] == vars;
    assert s[|s| - |tail|..] == tail;
    UpdateVarsReadsBack(fields, data);
  }

  predicate NoSpace(s: string)
  {
    forall k :: 0 <= k < |s| ==> s[k] != ' '
  }

  /** The first space of a + b is the first character of b when a has none. */
  lemma IndexOfAfter(a: string, b: string)
    requires NoSpace(a) && b != [] && b[0] == ' '
    ensures IndexOf(a + b, ' ') == |a|
  {
    var s := a + b;
    assert s[|a|] == ' ';
    assert forall k :: 0 <= k < |a| ==> s[k] == a[k];
  }

  /** A word without spaces followed by text that starts with one is split
      back at that space. */
  lemma WordThenSpace(a: string, b: string, a': string, b': string)
    requires NoSpace(a) && b != [] && b[0] == ' '
    requires NoSpace(a') && b' != [] && b'[0] == ' '
    requires a + b == a' + b'
    ensures a == a' && b == b'
  {
    IndexOfAfter(a, b);
    IndexOfAfter(a', b');
    assert a == (a + b)[..|a|];
    assert a' == (a' + b')[..|a'|];
    assert b == (a + b)[|a|..];
    assert b' == (a' + b')[|a'|..];
  }

  lemma DropCommonHead(head: string, x: string, y: string)
    requires head + x == head + y
    ensures x == y
  {
    assert x == (head + x)[|head|..];
    assert y == (head + y)[|head|..];
  }

  /** The WHERE clause k=:k names k. */
  lemma WhereKeyInjective(key: string, key': string)
    requires " WHERE " + key + "=:" + key == " WHERE " + key' + "=:" + key'
    ensures key == key'
  {
    var w, w' := " WHERE " + key + "=:" + key, " WHERE " + key' + "=:" + key';
    assert |w| == 9 + 2 * |key| && |w'| == 9 + 2 * |key'|;
    assert key == w[7..7 + |key|];
    assert key' == w'[7..7 + |key'|];
  }

  lemma DeleteSqlParts(table: string, key: string)
    ensures DeleteSql(table, key) == "DELETE FROM " + (table + (" WHERE " + key + "=:" + key))
  {
  }

  /** A DELETE statement names its table and its key: two statements on tables
      without spaces are equal only for the same table and the same key. */
  lemma DeleteSqlInjective(table: string, key: string, table': string, key': string)
    requires NoSpace(table) && NoSpace(table')
    requires DeleteSql(table, key) == DeleteSql(table', key')
    ensures table == table' && key == key'
  {
    var rest, rest' := " WHERE " + key + "=:" + key, " WHERE " + key' + "=:" + key';
    DeleteSqlParts(table, key);
    DeleteSqlParts(table', key');
    DropCommonHead("DELETE FROM ", table + rest, table' + rest');
    WordThenSpace(table, rest, table', rest');
    WhereKeyInjective(key, key');
  }

  // ---------------------------------------------------------------------------
  // _createErrorStr

  /** "$value" interpolation: null renders as the empty string. */
  function Render(v: Option<string>): string
  {
    if v.Some? then v.value else ""
  }

  function ErrorEntry(p: (string, Option<string>)): string
  {
    "Arg: " + p.0 + " Value: " + Render(p.1) + "<br>"
  }

  /** The error-log dump of an ordered parameter array. */
  function ErrorDump(params: seq<(string, Option<string>)>): string
  {
    if params == [] then "" else ErrorDump(params[..|params| - 1]) + ErrorEntry(params[|params| - 1])
  }

  /** The dump of two parameter lists is the dump of the first followed by the
      dump of the second. */
  lemma {:induction false} ErrorDumpAppend(a: seq<(string, Option<string>)>, b: seq<(string, Option<string>)>)
    ensures ErrorDump(a + b) == ErrorDump(a) + ErrorDump(b)
  {
    if b == [] {
      assert a + b == a;
    } else {
      var init, last := b[..|b| - 1], b[|b| - 1];
      var ab := a + b;
      assert ab != [];
      assert ab[..|ab| - 1] == a + init;
      assert ab[|ab| - 1] == last;
      assert ErrorDump(ab) == ErrorDump(a + init) + ErrorEntry(last);
      ErrorDumpAppend(a, init);
      assert ErrorDump(b) == ErrorDump(init) + ErrorEntry(last);
    }
  }

  /** The dump starts with the entry of the first parameter. */
  lemma ErrorDumpFirst(p: (string, Option<string>), rest: seq<(string, Option<string>)>)
    ensures ErrorDump([p] + rest) == "Arg: " + p.0 + " Value: " + Render(p.1) + "<br>" + ErrorDump(rest)
  {
    ErrorDumpAppend([p], rest);
    assert [p][..0] == [];
  }

  /** _createErrorStr: one "Arg: k Value: v<br>" per parameter, in order. */
  method CreateErrorStr(params: seq<(string, Option<string>)>) returns (errorStr: string)
    ensures errorStr == ErrorDump(params)
    ensures params == [] ==> errorStr == ""
  {
    errorStr := "";
    for i := 0 to |params|
      invariant errorStr == ErrorDump(params[..i])
    {
      var (key, value) := params[i];
      var shown := if value.Some? then value.value else "";
      var entry := "Arg: " + key + " Value: " + shown + "<br>";
      assert entry == ErrorEntry(params[i]);
      assert params[..i + 1][..i] == params[..i];
      errorStr := errorStr + entry;
    }
    assert params[..|params|] == params;
  }

  // ---------------------------------------------------------------------------
  // varcharLengths

  /** A row of DESCRIBE t: the column name and its declared type. */
  datatype DescribeRow = DescribeRow(field: string, columnType: string)

  /** What varcharLengths records for a column: the text between the
      parentheses of varchar(n), or n - 1 for varbinary(n). */
  datatype ColumnLength = Chars(text: string) | Bytes(n: int)

  predicate IsVarchar(row: DescribeRow)
  {
    StartsWith(row.columnType, "varchar")
  }

  predicate IsVarbinary(row: DescribeRow)
  {
    StartsWith(row.columnType, "varbinary")
  }

  /** The key a row is recorded under, if any: the field itself for varchar,
      the field without its first character for varbinary. */
  function KeyOf(row: DescribeRow): Option<string>
  {
    if IsVarbinary(row) then Some(SubstrFrom(row.field, 1))
    else if IsVarchar(row) then Some(row.field)
    else None
  }

  /** The value a row is recorded with, when KeyOf gives one. */
  function LengthOf(row: DescribeRow): ColumnLength
  {
    if IsVarbinary(row) then Bytes(ToInt(SubstrButLast(row.columnType, 10)) - 1)
    else Chars(SubstrButLast(row.columnType, 8))
  }

  /** One pass of the while loop: the varchar test, then the varbinary test. */
  function Record(lengths: map<string, ColumnLength>, row: DescribeRow): map<string, ColumnLength>
  {
    var afterVarchar :=
      if IsVarchar(row) then lengths[row.field := Chars(SubstrButLast(row.columnType, 8))] else lengths;
    if IsVarbinary(row) then
      afterVarchar[SubstrFrom(row.field, 1) := Bytes(ToInt(SubstrButLast(row.columnType, 10)) - 1)]
    else afterVarchar
  }

  /** The map the loop has built after the given rows. */
  function Lengths(rows: seq<DescribeRow>): map<string, ColumnLength>
  {
    if rows == [] then map[] else Record(Lengths(rows[..|rows| - 1]), rows[|rows| - 1])
  }

  /** No type starts with both "varchar" and "varbinary", so each row takes at
      most one of the two branches. */
  lemma RecordIsOneUpdate(lengths: map<string, ColumnLength>, row: DescribeRow)
    ensures KeyOf(row).None? ==> Record(lengths, row) == lengths
    ensures KeyOf(row).Some? ==> Record(lengths, row) == lengths[KeyOf(row).value := LengthOf(row)]
  {
    if IsVarbinary(row) {
      assert row.columnType[4] == "varbinary"[4];
      assert !IsVarchar(row);
    }
  }

  /** A column is in the result exactly when some row is recorded under it;
      rows of any other type add nothing. */
  lemma {:induction false} LengthsKeys(rows: seq<DescribeRow>, key: string)
    ensures key in Lengths(rows) <==> exists i :: 0 <= i < |rows| && KeyOf(rows[i]) == Some(key)
  {
    if rows != [] {
      var init, last := rows[..|rows| - 1], rows[|rows| - 1];
      LengthsKeys(init, key);
      RecordIsOneUpdate(Lengths(init), last);
      if KeyOf(last) == Some(key) {
        assert KeyOf(rows[|rows| - 1]) == Some(key);
      } else {
        if key in Lengths(rows) {
          var i :| 0 <= i < |init| && KeyOf(init[i]) == Some(key);
          assert rows[i] == init[i];
        }
        if exists i :: 0 <= i < |rows| && KeyOf(rows[i]) == Some(key) {
          var i :| 0 <= i < |rows| && KeyOf(rows[i]) == Some(key);
          assert i < |init| && init[i] == rows[i];
        }
      }
    }
  }

  /** A column holds what the last row recorded under it records: a later
      row with the same key overwrites an earlier one. */
  lemma {:induction false} LengthsLastRowWins(rows: seq<DescribeRow>, key: string, i: nat)
    requires i < |rows| && KeyOf(rows[i]) == Some(key)
    requires forall j :: i < j < |rows| ==> KeyOf(rows[j]) != Some(key)
    ensures key in Lengths(rows) && Lengths(rows)[key] == LengthOf(rows[i])
  {
    var init, last := rows[..|rows| - 1], rows[|rows| - 1];
    RecordIsOneUpdate(Lengths(init), last);
    if i < |rows| - 1 {
      assert init[i] == rows[i];
      assert forall j :: i < j < |init| ==> init[j] == rows[j];
      LengthsLastRowWins(init, key, i);
    }
  }

  /** varcharLengths, from the rows DESCRIBE returned. */
  method VarcharLengths(rows: seq<DescribeRow>) returns (tablerows: map<string, ColumnLength>)
    ensures tablerows == Lengths(rows)
  {
    tablerows := map[];
    var i := 0;
    while i < |rows|
      invariant 0 <= i <= |rows|
      invariant tablerows == Lengths(rows[..i])
    {
      var row := rows[i];
      assert rows[..i + 1][..i] == rows[..i];
      ghost var expected := Record(tablerows, row);
      if StartsWith(row.columnType, "varchar") {
        tablerows := tablerows[row.field := Chars(SubstrButLast(row.columnType, 8))];
      }
      if StartsWith(row.columnType, "varbinary") {
        tablerows := tablerows[SubstrFrom(row.field, 1) := Bytes(ToInt(SubstrButLast(row.columnType, 10)) - 1)];
      }
      assert tablerows == expected;
      i := i + 1;
    }
    assert rows[..|rows|] == rows;
  }

  /** A well-formed varbinary(n) column is recorded, without its first
      character, as n - 1. */
  lemma VarbinaryColumn(field: string, n: nat)
    requires field != []
    ensures var row := DescribeRow(field, "varbinary(" + Decimal(n) + ")");
            KeyOf(row) == Some(field[1..]) && LengthOf(row) == Bytes(n - 1)
  {
    var t := "varbinary(" + Decimal(n) + ")";
    assert t[..9] == "varbinary";
    assert SubstrButLast(t, 10) == Decimal(n);
    ToIntDecimal(n, "");
    assert Decimal(n) + "" == Decimal(n);
  }

  /** A well-formed varchar(n) column is recorded under its own name with the digits of n. */
  lemma VarcharColumn(field: string, n: nat)
    ensures var row := DescribeRow(field, "varchar(" + Decimal(n) + ")");
            KeyOf(row) == Some(field) && LengthOf(row) == Chars(Decimal(n))
  {
    var t := "varchar(" + Decimal(n) + ")";
    assert t[..7] == "varchar";
    assert t[7] == '(';
    assert !StartsWith(t, "varbinary");
    assert SubstrButLast(t, 8) == Decimal(n);
  }
}
