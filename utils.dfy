/** The validators and the lookup join of backend/app/utils.py. */
module Utils {
  import opened Wrappers
  import opened Values
  import opened Sequences

  /** ASCII `str.lower()` on one character. */
  function LowerChar(c: char): char
  {
    if 'A' <= c <= 'Z' then (c as int - 'A' as int + 'a' as int) as char else c
  }

  /** ASCII `str.lower()`. */
  function Lower(s: string): (r: string)
    ensures |r| == |s|
    ensures forall i :: 0 <= i < |s| ==> r[i] == LowerChar(s[i])
  {
    if s == [] then [] else [LowerChar(s[0])] + Lower(s[1..])
  }

  /** Lower-casing a lower-cased name changes nothing. */
  lemma LowerIdempotent(s: string)
    ensures Lower(Lower(s)) == Lower(s)
  {
  }

  /** `validate_table_name`: anything but a non-empty string is refused; a name is lower-cased. */
  function ValidateTableName(table: Value): (r: Result<string, string>)
    ensures r.Failure? <==> !(table.Str? && table.s != "")
    ensures r.Failure? ==> r.error == "Table name must be a non-empty string"
    ensures r.Success? ==> r.value == Lower(table.s) && |r.value| == |table.s|
  {
    if !Truthy(table) || !table.Str? then Failure("Table name must be a non-empty string")
    else Success(Lower(table.s))
  }

  /** A normalised name validates to itself. */
  lemma ValidateTableNameIdempotent(table: Value)
    requires ValidateTableName(table).Success?
    ensures ValidateTableName(Str(ValidateTableName(table).value)) == ValidateTableName(table)
  {
    LowerIdempotent(table.s);
  }

  /** `ORDERS` is normalised to `orders`; the empty name and `None` are refused. */
  lemma ValidateTableNameExamples()
    ensures ValidateTableName(Str("ORDERS")) == Success("orders")
    ensures ValidateTableName(Str("users")) == Success("users")
    ensures ValidateTableName(Str("")).Failure? && ValidateTableName(Null).Failure?
  {
    var fromUpper := Lower("ORDERS");
    assert fromUpper[0] == 'o' && fromUpper[1] == 'r' && fromUpper[2] == 'd';
    assert fromUpper[3] == 'e' && fromUpper[4] == 'r' && fromUpper[5] == 's';
    assert fromUpper == "orders";
    var fromLower := Lower("users");
    assert fromLower[0] == 'u' && fromLower[1] == 's' && fromLower[2] == 'e' && fromLower[3] == 'r' && fromLower[4] == 's';
    assert fromLower == "users";
  }

  /** The argument of `validate_record_data`: a dict or any other Python value. */
  datatype PyArg = DictArg(d: Record) | OtherArg(v: Value)

  /** `validate_record_data`: refuses a non-dict, then an empty dict; returns the dict as given. */
  function ValidateRecordData(data: PyArg): (r: Result<Record, string>)
    ensures data.OtherArg? ==> r == Failure("Record data must be a dictionary")
    ensures data.DictArg? && data.d == map[] ==> r == Failure("Record data cannot be empty")
    ensures data.DictArg? && data.d != map[] ==> r == Success(data.d)
  {
    match data
    case OtherArg(_) => Failure("Record data must be a dictionary")
    case DictArg(d) => if d == map[] then Failure("Record data cannot be empty") else Success(d)
  }

  /** `validate_join_key`: both names are validated first, then the raw names are compared,
      then the key must be truthy. */
  function ValidateJoinKey(table1: Value, table2: Value, key: Value): (r: Outcome<string>)
    ensures ValidateTableName(table1).Failure? ==> r == Fail(ValidateTableName(table1).error)
    ensures ValidateTableName(table1).Success? && ValidateTableName(table2).Failure? ==>
      r == Fail(ValidateTableName(table2).error)
    ensures ValidateTableName(table1).Success? && ValidateTableName(table2).Success? ==>
      r == if table1 == table2 then Fail("Cannot join a table with itself")
           else if !Truthy(key) then Fail("Join key cannot be empty")
           else Pass
    ensures r == Pass <==>
      table1.Str? && table1.s != "" && table2.Str? && table2.s != "" && table1 != table2 && Truthy(key)
  {
    var t1 := ValidateTableName(table1);
    if t1.Failure? then Fail(t1.error)
    else
      var t2 := ValidateTableName(table2);
      if t2.Failure? then Fail(t2.error)
      else if table1 == table2 then Fail("Cannot join a table with itself")
      else if !Truthy(key) then Fail("Join key cannot be empty")
      else Pass
  }

  /** The self-join test compares the names before lower-casing, so `Users` against `users`
      passes although both name the same table. */
  lemma ValidateJoinKeyRawNames()
    ensures ValidateJoinKey(Str("Users"), Str("users"), Str("id")) == Pass
    ensures ValidateJoinKey(Str("users"), Str("users"), Str("id")) == Fail("Cannot join a table with itself")
    ensures ValidateJoinKey(Str(""), Str("users"), Str("id")) == Fail("Table name must be a non-empty string")
    ensures ValidateJoinKey(Str("users"), Str("orders"), Str("user_id")) == Pass
    ensures ValidateJoinKey(Str("users"), Str(""), Str("user_id")) == Fail("Table name must be a non-empty string")
    ensures ValidateJoinKey(Str("users"), Str("orders"), Str("")) == Fail("Join key cannot be empty")
  {
    assert Str("Users") != Str("users") by {
      assert "Users"[0] != "users"[0];
    }
    assert Str("users") != Str("orders") by {
      assert "users"[0] != "orders"[0];
    }
  }

  /** The string a record contributes as join key: `str(record.get(key))`. */
  function KeyText(record: Record, key: string): string
  {
    PyStr(GetField(record, key))
  }

  /** `{str(record.get(key)): record for record in table2_data}`: later records replace
      earlier ones with the same key text. */
  function Lookup(rows2: seq<Record>, key: string): (r: map<string, Record>)
    ensures forall text :: text in r ==> KeyText(r[text], key) == text
    ensures forall text :: text in r ==> r[text] in rows2
    decreases |rows2|
  {
    if rows2 == [] then map[]
    else
      var last := rows2[|rows2| - 1];
      Lookup(rows2[..|rows2| - 1], key)[KeyText(last, key) := last]
  }

  /** A key text is in the lookup exactly when some table2 record has it. */
  lemma {:induction false} LookupDomain(rows2: seq<Record>, key: string, text: string)
    ensures text in Lookup(rows2, key) <==> exists j :: 0 <= j < |rows2| && KeyText(rows2[j], key) == text
    decreases |rows2|
  {
    if rows2 != [] {
      var n := |rows2|;
      var init := rows2[..n - 1];
      LookupDomain(init, key, text);
      if exists j :: 0 <= j < n && KeyText(rows2[j], key) == text {
        var j :| 0 <= j < n && KeyText(rows2[j], key) == text;
        if j < n - 1 {
          assert init[j] == rows2[j];
        }
      }
      if text in Lookup(init, key) {
        var j :| 0 <= j < |init| && KeyText(init[j], key) == text;
        assert rows2[j] == init[j];
      }
    }
  }

  /** `rows2[j]` is the last table2 record whose key text is `text`. */
  predicate LastWithText(rows2: seq<Record>, key: string, text: string, j: int)
  {
    0 <= j < |rows2| && KeyText(rows2[j], key) == text &&
    forall j' :: j < j' < |rows2| ==> KeyText(rows2[j'], key) != text
  }

  /** The record found for a key text is the last table2 record with that text. */
  lemma {:induction false} LookupLastWins(rows2: seq<Record>, key: string, text: string)
    requires text in Lookup(rows2, key)
    ensures exists j :: LastWithText(rows2, key, text, j) && Lookup(rows2, key)[text] == rows2[j]
    decreases |rows2|
  {
    var n := |rows2|;
    var init := rows2[..n - 1];
    var last := rows2[n - 1];
    assert Lookup(rows2, key) == Lookup(init, key)[KeyText(last, key) := last];
    if KeyText(last, key) == text {
      assert LastWithText(rows2, key, text, n - 1) && Lookup(rows2, key)[text] == rows2[n - 1];
    } else {
      LookupLastWins(init, key, text);
      var j :| LastWithText(init, key, text, j) && Lookup(init, key)[text] == init[j];
      assert rows2[j] == init[j];
      forall j' | j < j' < n
        ensures KeyText(rows2[j'], key) != text
      {
        if j' < n - 1 {
          assert rows2[j'] == init[j'];
        }
      }
      assert LastWithText(rows2, key, text, j) && Lookup(rows2, key)[text] == rows2[j];
    }
  }

  /** The row one table1 record contributes, if its key text is in the lookup. */
  function JoinRowFor(record1: Record, lookup: map<string, Record>, key: string): seq<Record>
  {
    var text := KeyText(record1, key);
    if text in lookup then [Overlay(record1, lookup[text])] else []
  }

  /** `JoinRowFor` as the step of the loop over table1. */
  function JoinStep(lookup: map<string, Record>, key: string): Record -> seq<Record>
  {
    record1 => JoinRowFor(record1, lookup, key)
  }

  /** The rows of the `for record1 in table1_data` loop: `{**record1, **match}` for each
      table1 record whose key text is in the lookup. */
  function JoinRows(rows1: seq<Record>, lookup: map<string, Record>, key: string): seq<Record>
  {
    FlatMap(rows1, JoinStep(lookup, key))
  }

  /** One more table1 record appends its own row. */
  lemma JoinRowsSnoc(rows1: seq<Record>, record1: Record, lookup: map<string, Record>, key: string)
    ensures JoinRows(rows1 + [record1], lookup, key) == JoinRows(rows1, lookup, key) + JoinRowFor(record1, lookup, key)
  {
    FlatMapSnoc(rows1, record1, JoinStep(lookup, key));
  }

  /** What `perform_join` returns. */
  function PerformJoinResult(rows1: seq<Record>, rows2: seq<Record>, key: string): seq<Record>
  {
    JoinRows(rows1, Lookup(rows2, key), key)
  }

  /** One table1 record yields its overlay with the matching table2 record, or nothing. */
  lemma JoinRowsOne(record1: Record, lookup: map<string, Record>, key: string)
    ensures JoinRows([record1], lookup, key) ==
      if KeyText(record1, key) in lookup then [Overlay(record1, lookup[KeyText(record1, key)])] else []
  {
    JoinRowsSnoc([], record1, lookup, key);
    assert [] + [record1] == [record1];
  }

  /** Rows follow table1 order: the join of a concatenation is the concatenation of the joins. */
  lemma JoinRowsAppend(a: seq<Record>, b: seq<Record>, lookup: map<string, Record>, key: string)
    ensures JoinRows(a + b, lookup, key) == JoinRows(a, lookup, key) + JoinRows(b, lookup, key)
  {
    FlatMapAppend(a, b, JoinStep(lookup, key));
  }

  /** At most one row per table1 record. */
  lemma JoinRowsAtMost(rows1: seq<Record>, lookup: map<string, Record>, key: string)
    ensures |JoinRows(rows1, lookup, key)| <= |rows1|
  {
    forall i | 0 <= i < |rows1|
      ensures |JoinStep(lookup, key)(rows1[i])| <= 1
    {
    }
    FlatMapAtMostOne(rows1, JoinStep(lookup, key));
  }

  /** `perform_join`: builds the lookup, then walks table1 in order. */
  method PerformJoin(rows1: seq<Record>, rows2: seq<Record>, key: string) returns (result: seq<Record>)
    ensures result == PerformJoinResult(rows1, rows2, key)
    ensures |result| <= |rows1|
  {
    var lookup := Lookup(rows2, key);
    result := [];
    var i := 0;
    while i < |rows1|
      invariant 0 <= i <= |rows1|
      invariant result == JoinRows(rows1[..i], lookup, key)
    {
      var record1 := rows1[i];
      var text := KeyText(record1, key);
      assert rows1[..i + 1] == rows1[..i] + [record1];
      JoinRowsSnoc(rows1[..i], record1, lookup, key);
      if text in lookup {
        result := result + [Overlay(record1, lookup[text])];
      }
      i := i + 1;
    }
    assert rows1[..i] == rows1;
    JoinRowsAtMost(rows1, lookup, key);
  }

  /** A table1 record without the key matches a table2 record without it (both read `None`),
      and also one whose key holds the string "None". */
  lemma MissingKeyMatchesMissing(record1: Record, record2: Record, key: string)
    requires key !in record1 && key !in record2
    ensures PerformJoinResult([record1], [record2], key) == [Overlay(record1, record2)]
    ensures PerformJoinResult([record1], [record2[key := Str("None")]], key) == [Overlay(record1, record2[key := Str("None")])]
  {
    assert [record2][..0] == [];
    assert [record2[key := Str("None")]][..0] == [];
    JoinRowsOne(record1, Lookup([record2], key), key);
    JoinRowsOne(record1, Lookup([record2[key := Str("None")]], key), key);
  }

  /** When two table2 records share a key value, the later one is joined. */
  lemma LastDuplicateWins(record1: Record, first: Record, second: Record, key: string)
    requires KeyText(first, key) == KeyText(record1, key) && KeyText(second, key) == KeyText(record1, key)
    ensures PerformJoinResult([record1], [first, second], key) == [Overlay(record1, second)]
  {
    assert [first, second][..1] == [first];
    assert [first][..0] == [];
    JoinRowsOne(record1, Lookup([first, second], key), key);
  }

  /** The employees of the department join test. */
  const People: seq<Record> := [map["id" := Str("1"), "name" := Str("John"), "dept_id" := Str("D1")],
                                map["id" := Str("2"), "name" := Str("Jane"), "dept_id" := Str("D2")],
                                map["id" := Str("3"), "name" := Str("Bob"), "dept_id" := Str("D3")]]

  /** The departments of that test; no record has `D3`. */
  const Departments: seq<Record> := [map["dept_id" := Str("D1"), "department" := Str("HR")],
                                     map["dept_id" := Str("D2"), "department" := Str("IT")]]

  /** The lookup of the department test holds exactly `D1` and `D2`. */
  lemma DepartmentLookup()
    ensures Lookup(Departments, "dept_id") == map["D1" := Departments[0], "D2" := Departments[1]]
  {
    assert Departments[..1] == [Departments[0]];
    assert [Departments[0]][..0] == [];
    assert KeyText(Departments[0], "dept_id") == "D1" && KeyText(Departments[1], "dept_id") == "D2";
    assert Lookup([Departments[0]], "dept_id") == map["D1" := Departments[0]];
  }

  /** The department join: the employee whose department has no record is dropped and the
      other two come out in table1 order. */
  lemma PerformJoinDepartments()
    ensures PerformJoinResult(People, Departments, "dept_id") ==
      [Overlay(People[0], Departments[0]), Overlay(People[1], Departments[1])]
  {
    DepartmentLookup();
    var lookup := Lookup(Departments, "dept_id");
    assert KeyText(People[0], "dept_id") == "D1" && KeyText(People[1], "dept_id") == "D2";
    assert KeyText(People[2], "dept_id") == "D3";
    assert "D3" !in lookup by {
      assert "D3" != "D1" by { assert "D3"[1] != "D1"[1]; }
      assert "D3" != "D2" by { assert "D3"[1] != "D2"[1]; }
    }
    assert People == [People[0]] + [People[1]] + [People[2]];
    JoinRowsAppend([People[0]] + [People[1]], [People[2]], lookup, "dept_id");
    JoinRowsAppend([People[0]], [People[1]], lookup, "dept_id");
    JoinRowsOne(People[0], lookup, "dept_id");
    JoinRowsOne(People[1], lookup, "dept_id");
    JoinRowsOne(People[2], lookup, "dept_id");
  }

  /** The fields the test reads back: each row keeps its employee's name and gains the
      department. */
  lemma PerformJoinDepartmentsFields()
    ensures var joined := PerformJoinResult(People, Departments, "dept_id");
            |joined| == 2 &&
            GetField(joined[0], "name") == Str("John") && GetField(joined[0], "department") == Str("HR") &&
            GetField(joined[1], "name") == Str("Jane") && GetField(joined[1], "department") == Str("IT")
  {
    PerformJoinDepartments();
    assert "name" !in Departments[0] && "name" !in Departments[1];
  }
}
