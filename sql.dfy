/**
 * App\Core\Model: the SQL text and bound parameters of the generic
 * find / findAll / create / update / delete / count operations, and the
 * `(int)($result['count'] ?? 0)` reading of a COUNT(*) row. Executing a
 * statement is outside this module.
 */
module Sql {
  import opened Wrappers
  import opened Text
  import opened Json

  /** What `execute` binds: a list for `?` placeholders, or an array for `:name` ones. */
  datatype Params = Positional(values: seq<Value>) | ByName(fields: Fields)

  /** A prepared statement with the parameters it is executed with. */
  datatype Statement = Statement(sql: string, params: Params)

  /** The WHERE fragment of findAll and count. */
  function WhereClause(conditions: seq<string>): string
  {
    if |conditions| == 0 then "" else "WHERE " + Join(conditions, " AND ")
  }

  lemma {:induction false} ContainsAfter(a: string, b: string, x: string)
    requires Contains(b, x)
    ensures Contains(a + b, x)
  {
    ContainsAt(b, x);
    var i :| 0 <= i <= |b| && StartsWith(b[i..], x);
    assert (a + b)[|a| + i..] == b[i..];
    ContainsAt(a + b, x);
  }

  lemma ContainsBefore(a: string, b: string, x: string)
    requires Contains(a, x)
    ensures Contains(a + b, x)
  {
    ContainsAt(a, x);
    var i :| 0 <= i <= |a| && StartsWith(a[i..], x);
    assert (a + b)[i..][..|x|] == a[i..][..|x|];
    ContainsAt(a + b, x);
  }

  /** Every part occurs in what implode makes of the parts. */
  lemma {:induction false} JoinContainsParts(parts: seq<string>, sep: string)
    ensures forall i :: 0 <= i < |parts| ==> Contains(Join(parts, sep), parts[i])
    decreases |parts|
  {
    if |parts| == 1 {
      ContainsInMiddle("", parts[0], "");
      assert "" + parts[0] + "" == parts[0];
    } else if |parts| > 1 {
      JoinContainsParts(parts[1..], sep);
      forall i | 0 <= i < |parts| ensures Contains(Join(parts, sep), parts[i]) {
        if i == 0 {
          ContainsInMiddle("", parts[0], sep + Join(parts[1..], sep));
          assert "" + parts[0] + (sep + Join(parts[1..], sep)) == Join(parts, sep);
        } else {
          assert parts[1..][i - 1] == parts[i];
          ContainsAfter(parts[0] + sep, Join(parts[1..], sep), parts[i]);
        }
      }
    }
  }

  /**
   * No conditions give no WHERE; otherwise the fragment is `WHERE ` and then
   * the conditions in order with ` AND ` between, so a repository that appends
   * a condition extends the fragment by ` AND ` and that condition, and every
   * condition occurs in it.
   */
  lemma WhereClauseSpec(conditions: seq<string>, extra: string)
    ensures WhereClause(conditions) == "" <==> conditions == []
    ensures conditions != [] ==> StartsWith(WhereClause(conditions), "WHERE ")
    ensures WhereClause([extra]) == "WHERE " + extra
    ensures conditions != [] ==>
      WhereClause(conditions + [extra]) == WhereClause(conditions) + " AND " + extra
    ensures forall i :: 0 <= i < |conditions| ==> Contains(WhereClause(conditions), conditions[i])
  {
    if conditions != [] {
      PrefixStartsWith("WHERE ", Join(conditions, " AND "));
      JoinAppend(conditions, extra, " AND ");
      WhereContains(conditions);
    }
  }

  lemma PrefixStartsWith(a: string, b: string)
    ensures StartsWith(a + b, a)
  {
    assert (a + b)[..|a|] == a;
  }

  lemma WhereContains(conditions: seq<string>)
    requires conditions != []
    ensures forall i :: 0 <= i < |conditions| ==> Contains(WhereClause(conditions), conditions[i])
  {
    var joined := Join(conditions, " AND ");
    JoinContainsParts(conditions, " AND ");
    forall i | 0 <= i < |conditions| ensures Contains("WHERE " + joined, conditions[i]) {
      ContainsAfter("WHERE ", joined, conditions[i]);
    }
  }

  /** find: one positional parameter, the id, against the primary key. */
  function FindStatement(table: string, primaryKey: string, id: int): Statement
  {
    Statement("SELECT * FROM " + table + " WHERE " + primaryKey + " = ?", Positional([Int(id)]))
  }

  /** delete: one positional parameter, the id, against the primary key. */
  function DeleteStatement(table: string, primaryKey: string, id: int): Statement
  {
    Statement("DELETE FROM " + table + " WHERE " + primaryKey + " = ?", Positional([Int(id)]))
  }

  // Five pieces with a `?` in the last one only hold one `?` between them.
  lemma OnePlaceholder(pre: string, table: string, mid: string, key: string, post: string)
    requires '?' !in pre && '?' !in table && '?' !in mid && '?' !in key && multiset(post)['?'] == 1
    ensures multiset(pre + table + mid + key + post)['?'] == 1
  {
    assert multiset(pre + table + mid + key + post)
      == multiset(pre) + multiset(table) + multiset(mid) + multiset(key) + multiset(post);
  }

  /** find compares the primary key with the statement's one `?`, and binds exactly the id to it. */
  lemma FindBindsId(table: string, primaryKey: string, id: int)
    requires '?' !in table && '?' !in primaryKey
    ensures multiset(FindStatement(table, primaryKey, id).sql)['?'] == 1
    ensures FindStatement(table, primaryKey, id).params == Positional([Int(id)])
  {
    var sql := "SELECT * FROM " + table + " WHERE " + primaryKey + " = ?";
    assert FindStatement(table, primaryKey, id) == Statement(sql, Positional([Int(id)]));
    OnePlaceholder("SELECT * FROM ", table, " WHERE ", primaryKey, " = ?");
  }

  /** delete compares the primary key with the statement's one `?`, and binds exactly the id to it. */
  lemma DeleteBindsId(table: string, primaryKey: string, id: int)
    requires '?' !in table && '?' !in primaryKey
    ensures multiset(DeleteStatement(table, primaryKey, id).sql)['?'] == 1
    ensures DeleteStatement(table, primaryKey, id).params == Positional([Int(id)])
  {
    var sql := "DELETE FROM " + table + " WHERE " + primaryKey + " = ?";
    assert DeleteStatement(table, primaryKey, id) == Statement(sql, Positional([Int(id)]));
    OnePlaceholder("DELETE FROM ", table, " WHERE ", primaryKey, " = ?");
  }

  /** findAll: every row of the table, or those meeting the conditions. */
  function FindAllStatement(table: string, conditions: seq<string>, params: Params): Statement
  {
    Statement("SELECT * FROM " + table + " " + WhereClause(conditions), params)
  }

  /** count: the same WHERE under `COUNT(*) as count`. */
  function CountStatement(table: string, conditions: seq<string>, params: Params): Statement
  {
    Statement("SELECT COUNT(*) as count FROM " + table + " " + WhereClause(conditions), params)
  }

  /** findAll and count differ only in what they select. */
  lemma FindAllCountShareWhere(table: string, conditions: seq<string>, params: Params)
    ensures var w := " FROM " + table + " " + WhereClause(conditions);
      && FindAllStatement(table, conditions, params).sql == "SELECT *" + w
      && CountStatement(table, conditions, params).sql == "SELECT COUNT(*) as count" + w
  {
    var where := WhereClause(conditions);
    assert "SELECT * FROM " == "SELECT *" + " FROM ";
    assert "SELECT COUNT(*) as count FROM " == "SELECT COUNT(*) as count" + " FROM ";
    Regroup("SELECT *", " FROM ", table, where);
    Regroup("SELECT COUNT(*) as count", " FROM ", table, where);
  }

  lemma Regroup(head: string, from: string, table: string, where: string)
    ensures (head + from) + table + " " + where == head + (from + table + " " + where)
  {
  }

  /** create's column list: every key of `$data`, in order. */
  function ColumnList(keys: seq<string>): string
  {
    Join(keys, ", ")
  }

  /** create's placeholder list: `':' . implode(', :', $keys)`. */
  function PlaceholderList(keys: seq<string>): string
  {
    ":" + Join(keys, ", :")
  }

  /** Each column name behind a colon. */
  function Prefixed(keys: seq<string>): (r: seq<string>)
    ensures |r| == |keys| && forall i :: 0 <= i < |keys| ==> r[i] == ":" + keys[i]
  {
    seq(|keys|, i requires 0 <= i < |keys| => ":" + keys[i])
  }

  /** create: every key of `$data` becomes a column, bound by name. */
  function CreateStatement(table: string, data: Fields): Statement
  {
    Statement("INSERT INTO " + table + " (" + ColumnList(KeysOf(data)) + ") VALUES ("
      + PlaceholderList(KeysOf(data)) + ")", ByName(data))
  }

  /**
   * The placeholder list names the same keys as the column list, in the same
   * order, each behind a colon; for an empty array the lists degenerate to
   * `()` and `(:)`.
   */
  lemma {:induction false} PlaceholderListSpec(keys: seq<string>)
    ensures keys != [] ==> PlaceholderList(keys) == Join(Prefixed(keys), ", ")
    ensures keys == [] ==> ColumnList(keys) == "" && PlaceholderList(keys) == ":"
    decreases |keys|
  {
    if |keys| > 1 {
      PlaceholderListSpec(keys[1..]);
      assert Prefixed(keys)[1..] == Prefixed(keys[1..]);
      calc {
        PlaceholderList(keys);
        ":" + (keys[0] + ", :" + Join(keys[1..], ", :"));
        (":" + keys[0]) + ", " + (":" + Join(keys[1..], ", :"));
        Join(Prefixed(keys), ", ");
      }
    }
  }

  /** The INSERT a create runs for `$data`. */
  lemma CreateStatementSpec(table: string, data: Fields)
    requires data != []
    ensures CreateStatement(table, data) == Statement(
      "INSERT INTO " + table + " (" + Join(KeysOf(data), ", ") + ") VALUES ("
        + Join(Prefixed(KeysOf(data)), ", ") + ")", ByName(data))
  {
    PlaceholderListSpec(KeysOf(data));
  }

  /** One item of update's SET clause. */
  function SetItem(column: string): string
  {
    column + " = :" + column
  }

  function SetItems(keys: seq<string>): (r: seq<string>)
    ensures |r| == |keys| && forall i :: 0 <= i < |keys| ==> r[i] == SetItem(keys[i])
  {
    seq(|keys|, i requires 0 <= i < |keys| => SetItem(keys[i]))
  }

  /**
   * update: a SET item per key of `$data`, and `$data` with `id` set to the
   * target id as the parameters.
   */
  method BuildUpdate(table: string, primaryKey: string, id: int, data: Fields) returns (st: Statement)
    requires DistinctKeys(data)
    ensures st.sql == "UPDATE " + table + " SET " + Join(SetItems(KeysOf(data)), ", ")
      + " WHERE " + primaryKey + " = :id"
    ensures st.params.ByName? && DistinctKeys(st.params.fields)
    ensures Get(st.params.fields, "id") == Some(Int(id))
    ensures forall k :: k != "id" ==> Get(st.params.fields, k) == Get(data, k)
    ensures "id" in KeysOf(data) ==> KeysOf(st.params.fields) == KeysOf(data)
    ensures "id" !in KeysOf(data) ==> KeysOf(st.params.fields) == KeysOf(data) + ["id"]
  {
    var keys := KeysOf(data);
    var items: seq<string> := [];
    for i := 0 to |keys|
      invariant items == SetItems(keys[..i])
    {
      items := items + [SetItem(keys[i])];
    }
    assert keys[..|keys|] == keys;
    var setClause := Join(items, ", ");
    var params := Put(data, "id", Int(id));
    PutProperties(data, "id", Int(id));
    st := Statement("UPDATE " + table + " SET " + setClause + " WHERE " + primaryKey + " = :id", ByName(params));
  }

  // ---------------------------------------------------------------------
  // Reading the count row.
  // ---------------------------------------------------------------------

  predicate IsDigit(c: char)
  {
    '0' <= c <= '9'
  }

  function DigitChar(d: nat): char
    requires d < 10
  {
    (48 + d) as char
  }

  /** The decimal text MySQL sends for a non-negative count. */
  function DecimalString(n: nat): (s: string)
    ensures |s| >= 1 && forall i :: 0 <= i < |s| ==> IsDigit(s[i])
    decreases n
  {
    if n < 10 then [DigitChar(n)] else DecimalString(n / 10) + [DigitChar(n % 10)]
  }

  /** The value of a run of decimal digits. */
  function DigitsValue(ds: string): nat
    requires forall i :: 0 <= i < |ds| ==> IsDigit(ds[i])
    decreases |ds|
  {
    if |ds| == 0 then 0
    else
      var d: int := ds[|ds| - 1] as int - 48;
      assert IsDigit(ds[|ds| - 1]);
      DigitsValue(ds[..|ds| - 1]) * 10 + d
  }

  /** Reading a count's decimal text gives the count back. */
  lemma {:induction false} DecimalRoundTrip(n: nat)
    ensures DigitsValue(DecimalString(n)) == n
    decreases n
  {
    if n >= 10 {
      DecimalRoundTrip(n / 10);
      var s := DecimalString(n);
      assert s[..|s| - 1] == DecimalString(n / 10);
    }
  }

  /** The longest prefix made of decimal digits. */
  function DigitRun(s: string): (r: string)
    ensures StartsWith(s, r) && forall i :: 0 <= i < |r| ==> IsDigit(r[i])
    ensures |r| < |s| ==> !IsDigit(s[|r|])
    decreases |s|
  {
    if |s| > 0 && IsDigit(s[0]) then [s[0]] + DigitRun(s[1..]) else ""
  }

  /** The whitespace PHP skips before a numeric string. */
  const NumericSpace: set<char> := {' ', '\t', '\n', '\r', '\U{000B}', '\U{000C}'}

  /**
   * `(int)` of a string: leading whitespace, an optional sign and the digits
   * that follow; anything after them is ignored, and no digits read as 0.
   */
  function StringToInt(s: string): int
  {
    var t := TrimStart(s, NumericSpace);
    if |t| > 0 && (t[0] == '-' || t[0] == '+') then
      var v: int := DigitsValue(DigitRun(t[1..]));
      if t[0] == '-' then -v else v
    else DigitsValue(DigitRun(t))
  }

  /** PHP's `(int)` cast. */
  function IntCast(v: Value): int
  {
    match v
    case Null => 0
    case Bool(b) => if b then 1 else 0
    case Int(i) => i
    case Str(s) => StringToInt(s)
    case List(items) => if |items| == 0 then 0 else 1
    case Object(fields) => if |fields| == 0 then 0 else 1
  }

  /**
   * `(int)($result['count'] ?? 0)`: `$result` is false when no row came
   * back, and a missing or null `count` reads as 0.
   */
  function CountResult(row: Option<Fields>): int
  {
    match row
    case None => 0
    case Some(fields) =>
      match Get(fields, "count")
      case None => 0
      case Some(v) => IntCast(v)
  }

  /** `(int)` reads a count's decimal text as the count. */
  lemma StringToIntOfDecimal(n: nat)
    ensures StringToInt(DecimalString(n)) == n
  {
    var s := DecimalString(n);
    assert s[0] !in NumericSpace by {
      assert IsDigit(s[0]);
    }
    TrimStartOfTrimmed(s, NumericSpace);
    DigitRunAll(s);
    DecimalRoundTrip(n);
  }

  /** A count row yields its count, as an integer or as MySQL's decimal text. */
  lemma CountResultOfCount(n: nat)
    ensures CountResult(Some([("count", Int(n))])) == n
    ensures CountResult(Some([("count", Str(DecimalString(n)))])) == n
  {
    StringToIntOfDecimal(n);
    var one: Fields := [("count", Str(DecimalString(n)))];
    assert IndexOf(one, "count") == 0;
    var two: Fields := [("count", Int(n))];
    assert IndexOf(two, "count") == 0;
  }

  /** No row, a row without `count`, or a null `count` yields 0. */
  lemma CountResultFallback(fields: Fields)
    ensures CountResult(None) == 0
    ensures "count" !in KeysOf(fields) ==> CountResult(Some(fields)) == 0
    ensures CountResult(Some([("count", Null)])) == 0
  {
    assert Get([("count", Null)], "count") == Some(Null);
  }

  lemma {:induction false} DigitRunAll(s: string)
    requires forall i :: 0 <= i < |s| ==> IsDigit(s[i])
    ensures DigitRun(s) == s
    decreases |s|
  {
    if |s| > 0 {
      DigitRunAll(s[1..]);
    }
  }

  /** The `?` placeholders one SQL fragment holds. */
  function Holes(fragment: string): nat
  {
    multiset(fragment)['?']
  }

  lemma NoHoles(fragment: string)
    requires '?' !in fragment
    ensures Holes(fragment) == 0
  {
  }

  /**
   * The condition forms the repositories put in their WHERE lists: a column
   * compared with a bound parameter, a boolean column tested for TRUE, and a
   * time column compared with the clock.
   */
  datatype Condition = Bound(column: string) | IsTrue(column: string) | AfterNow(column: string)

  /** The condition's SQL text, as the repositories write it. */
  function Render(c: Condition): string
  {
    match c
    case Bound(column) => column + " = ?"
    case IsTrue(column) => column + " = TRUE"
    case AfterNow(column) => column + " > NOW()"
  }

  /** The parameters a condition binds. */
  function Binds(c: Condition): nat
  {
    if c.Bound? then 1 else 0
  }

  function BindCount(conditions: seq<Condition>): nat
    decreases |conditions|
  {
    if |conditions| == 0 then 0 else Binds(conditions[0]) + BindCount(conditions[1..])
  }

  function Texts(conditions: seq<Condition>): (r: seq<string>)
    ensures |r| == |conditions|
    ensures forall i :: 0 <= i < |r| ==> r[i] == Render(conditions[i])
  {
    seq(|conditions|, i requires 0 <= i < |conditions| => Render(conditions[i]))
  }

  predicate PlainColumns(conditions: seq<Condition>)
  {
    forall i :: 0 <= i < |conditions| ==> '?' !in conditions[i].column
  }

  /** The rendered conditions hold one `?` per parameter they bind, and no other. */
  lemma {:induction false} TextsHoles(conditions: seq<Condition>)
    requires PlainColumns(conditions)
    ensures CountIn(Texts(conditions), '?') == BindCount(conditions)
    decreases |conditions|
  {
    if |conditions| > 0 {
      assert Texts(conditions)[1..] == Texts(conditions[1..]);
      TextsHoles(conditions[1..]);
      RenderHoles(conditions[0]);
    }
  }

  /** The WHERE fragment of a condition list holds one `?` per parameter the list binds. */
  lemma WhereHoles(conditions: seq<Condition>)
    requires PlainColumns(conditions)
    ensures Holes(WhereClause(Texts(conditions))) == BindCount(conditions)
  {
    var texts := Texts(conditions);
    if |conditions| > 0 {
      var joined := Join(texts, " AND ");
      assert WhereClause(texts) == "WHERE " + joined;
      assert '?' !in " AND " && '?' !in "WHERE ";
      TextsHoles(conditions);
      JoinCount(texts, " AND ", '?');
      HolesAfter("WHERE ", joined);
    }
  }

  // A prefix without `?` adds no placeholder.
  lemma HolesAfter(head: string, rest: string)
    requires '?' !in head
    ensures Holes(head + rest) == Holes(rest)
  {
    assert multiset(head + rest) == multiset(head) + multiset(rest);
  }

  // Text without `?` on both sides adds no placeholder.
  lemma HolesAround(head: string, middle: string, tail: string)
    requires '?' !in head && '?' !in tail
    ensures Holes(head + middle + tail) == Holes(middle)
  {
    assert multiset(head + middle + tail) == multiset(head) + multiset(middle) + multiset(tail);
  }

  // A placeholder count over `head + table + " " + where`.
  lemma HolesAfterTable(head: string, table: string, where: string)
    requires '?' !in head && '?' !in table
    ensures Holes(head + table + " " + where) == Holes(where)
  {
    assert multiset(head + table + " " + where)
      == multiset(head) + multiset(table) + multiset(" ") + multiset(where);
  }

  /**
   * findAll over plain conditions and as many parameters as they bind holds
   * one `?` per parameter, and executes with exactly those parameters.
   */
  lemma FindAllHoles(table: string, conditions: seq<Condition>, args: seq<Value>)
    requires '?' !in table && PlainColumns(conditions) && Aligned(conditions, args)
    ensures multiset(FindAllStatement(table, Texts(conditions), Positional(args)).sql)['?'] == |args|
    ensures FindAllStatement(table, Texts(conditions), Positional(args)).params == Positional(args)
  {
    var where := WhereClause(Texts(conditions));
    assert FindAllStatement(table, Texts(conditions), Positional(args)).sql == "SELECT * FROM " + table + " " + where;
    assert '?' !in "SELECT * FROM ";
    WhereHoles(conditions);
    HolesAfterTable("SELECT * FROM ", table, where);
  }

  lemma CountHeadPlain()
    ensures '?' !in "SELECT COUNT(*) as count FROM "
  {
    var head := "SELECT COUNT(*) as count FROM ";
    forall i | 0 <= i < |head| ensures head[i] != '?' {
    }
  }

  /** count holds the same placeholders as findAll and binds the same parameters. */
  lemma CountHoles(table: string, conditions: seq<Condition>, args: seq<Value>)
    requires '?' !in table && PlainColumns(conditions) && Aligned(conditions, args)
    ensures multiset(CountStatement(table, Texts(conditions), Positional(args)).sql)['?'] == |args|
    ensures CountStatement(table, Texts(conditions), Positional(args)).params == Positional(args)
  {
    var where := WhereClause(Texts(conditions));
    assert CountStatement(table, Texts(conditions), Positional(args)).sql == "SELECT COUNT(*) as count FROM " + table + " " + where;
    CountHeadPlain();
    WhereHoles(conditions);
    HolesAfterTable("SELECT COUNT(*) as count FROM ", table, where);
  }

  lemma RenderHoles(c: Condition)
    requires '?' !in c.column
    ensures Holes(Render(c)) == Binds(c)
  {
    assert multiset(c.column)['?'] == 0;
    match c
    case Bound(column) =>
      assert multiset(" = ?")['?'] == 1;
    case IsTrue(column) =>
      NoHoles(" = TRUE");
    case AfterNow(column) =>
      NoHoles(" > NOW()");
  }

  /** What one condition means for a row, given how the row reads its columns. */
  function Holds<R>(columns: (R, string) -> Option<Value>, now: int, c: Condition, args: seq<Value>, row: R): bool
  {
    match c
    case Bound(column) => columns(row, column).Some? && args == [columns(row, column).value]
    case IsTrue(column) => columns(row, column) == Some(Bool(true))
    case AfterNow(column) => columns(row, column).Some? && columns(row, column).value.Int? && columns(row, column).value.i > now
  }

  /**
   * Whether a row meets a condition list joined with AND; each condition
   * reads its own share of the positional parameters, in order.
   */
  function Satisfies<R>(conditions: seq<Condition>, args: seq<Value>, columns: (R, string) -> Option<Value>, now: int, row: R): bool
    decreases |conditions|
  {
    if |conditions| == 0 then true
    else
      var n := if Binds(conditions[0]) <= |args| then Binds(conditions[0]) else |args|;
      Holds(columns, now, conditions[0], args[..n], row) && Satisfies(conditions[1..], args[n..], columns, now, row)
  }

  /** As many parameters as the conditions bind: what `execute` needs to bind them one to one. */
  predicate Aligned(conditions: seq<Condition>, args: seq<Value>)
  {
    BindCount(conditions) == |args|
  }

  /** A condition list split in two, with its parameters split where the first part's end. */
  lemma {:induction false} SatisfiesAppend<R>(first: seq<Condition>, second: seq<Condition>, a: seq<Value>, b: seq<Value>,
                                              columns: (R, string) -> Option<Value>, now: int, row: R)
    requires Aligned(first, a)
    ensures Satisfies(first + second, a + b, columns, now, row)
      == (Satisfies(first, a, columns, now, row) && Satisfies(second, b, columns, now, row))
    ensures BindCount(first + second) == BindCount(first) + BindCount(second)
    decreases |first|
  {
    if |first| == 0 {
      assert first + second == second;
      assert a + b == b;
    } else {
      var n := Binds(first[0]);
      assert (first + second)[1..] == first[1..] + second;
      assert (a + b)[..n] == a[..n];
      assert (a + b)[n..] == a[n..] + b;
      SatisfiesAppend(first[1..], second, a[n..], b, columns, now, row);
    }
  }

  lemma SatisfiesOne<R>(c: Condition, args: seq<Value>, columns: (R, string) -> Option<Value>, now: int, row: R)
    requires Binds(c) == |args|
    ensures Satisfies([c], args, columns, now, row) == Holds(columns, now, c, args, row)
    ensures BindCount([c]) == Binds(c)
  {
    assert args[..|args|] == args;
    assert [c][1..] == [];
  }
}
