/**
 * Statement assembly of `Execute`: the SQL text `get`, `insert`, `update` and
 * `delete` send to the driver, as functions of the clause state and the
 * pending `set` pairs, and the two loops of that file as methods proved
 * against those functions.
 */
module Execute {
  import opened Wrappers
  import opened Strings
  import opened PhpArray
  import opened QueryConstructor

  /** What `get` emits for one clause: nothing if empty, the text alone if it holds its keyword. */
  function Emit(c: Clause, text: string): string
  {
    if text == "" then ""
    else if !Contains(text, Keyword(c)) then Keyword(c) + " " + text + " "
    else text + " "
  }

  /** The emitted text of the first `n` clauses of the fixed order. */
  function EmitFirst(qs: QueryString, n: nat): string
    requires n <= ClauseCount
  {
    if n == 0 then "" else EmitFirst(qs, n - 1) + Emit(ClauseAt(n - 1), qs.Get(ClauseAt(n - 1)))
  }

  /** The untrimmed text of `get`: every clause, in SQL order SELECT ... LIMIT. */
  function Emitted(qs: QueryString): string
  {
    Emit(Select, qs.select) + Emit(From, qs.from) + Emit(Join, qs.join) + Emit(Where, qs.where)
    + Emit(GroupBy, qs.groupBy) + Emit(Having, qs.having) + Emit(OrderBy, qs.orderBy) + Emit(Limit, qs.limit)
  }

  /** Walking all of `$query_string` in its own order is walking SELECT, FROM, ..., LIMIT. */
  lemma EmitFirstAll(qs: QueryString)
    ensures EmitFirst(qs, ClauseCount) == Emitted(qs)
  {
    var e0 := Emit(Select, qs.select);
    var e1 := Emit(From, qs.from);
    var e2 := Emit(Join, qs.join);
    var e3 := Emit(Where, qs.where);
    var e4 := Emit(GroupBy, qs.groupBy);
    var e5 := Emit(Having, qs.having);
    var e6 := Emit(OrderBy, qs.orderBy);
    var e7 := Emit(Limit, qs.limit);
    assert EmitFirst(qs, 1) == e0;
    assert EmitFirst(qs, 2) == e0 + e1;
    assert EmitFirst(qs, 3) == e0 + e1 + e2;
    assert EmitFirst(qs, 4) == e0 + e1 + e2 + e3;
    assert EmitFirst(qs, 5) == e0 + e1 + e2 + e3 + e4;
    assert EmitFirst(qs, 6) == e0 + e1 + e2 + e3 + e4 + e5;
    assert EmitFirst(qs, 7) == e0 + e1 + e2 + e3 + e4 + e5 + e6;
    assert EmitFirst(qs, 8) == e0 + e1 + e2 + e3 + e4 + e5 + e6 + e7;
  }

  /** The emitted text of the first `i + 1` clauses: that of the first `i`, then clause `i`'s. */
  lemma EmitFirstStep(qs: QueryString, i: nat)
    requires i < ClauseCount
    ensures EmitFirst(qs, i + 1) == EmitFirst(qs, i) + Emit(ClauseAt(i), qs.Get(ClauseAt(i)))
  {
  }

  /**
   * One pass of the `foreach` of `get`: the piece it appends for `$key => $value`.
   * It computes exactly `Emit(c, value)`; the loop body is a method of its own
   * only to keep the proof of `AssembleClauses` small.
   */
  method EmitPiece(c: Clause, key: string, value: string) returns (piece: string)
    requires key == Keyword(c)
    ensures piece == Emit(c, value)
  {
    piece := "";
    if value != "" {
      if !Contains(value, key) {
        piece := key + " " + value + " ";
      } else {
        piece := value + " ";
      }
    }
  }

  /** The `foreach` of `get` over the clause map. */
  method AssembleClauses(qs: QueryString) returns (query: string)
    ensures query == Emitted(qs)
  {
    query := "";
    var i := 0;
    while i < ClauseCount
      invariant 0 <= i <= ClauseCount
      invariant query == EmitFirst(qs, i)
    {
      var c := ClauseAt(i);
      var piece := EmitPiece(c, Keyword(c), qs.Get(c));
      EmitFirstStep(qs, i);
      query := query + piece;
      i := i + 1;
    }
    EmitFirstAll(qs);
  }

  /** The statement `get` sends for clause state `qs`. */
  function SelectStatement(qs: QueryString): string
  {
    Trim(Emitted(qs))
  }

  /** `if ($table != "") $this->from($table);` */
  function FromTable(qs: QueryString, table: string): (q: QueryString)
  {
    if table != "" then qs.With(From, table) else qs
  }

  /** `"SELECT *" . " "` followed by `"FROM" . " "`. */
  lemma DefaultHeadText()
    ensures ("SELECT *" + " ") + ("FROM" + " ") == "SELECT * FROM "
  {
  }

  /** SELECT and FROM as `get` emits them for the default columns and table `t`. */
  lemma EmitDefaultHead(t: string)
    requires t != "" && !Contains(t, "FROM")
    ensures Emit(Select, "SELECT *") + Emit(From, t) == "SELECT * FROM " + t + " "
  {
    assert Contains("SELECT *", "SELECT") by { assert "SELECT" <= "SELECT *"; }
    var l := "SELECT *" + " ";
    assert Emit(Select, "SELECT *") == l;
    assert Emit(From, t) == ("FROM" + " ") + t + " ";
    ConcatAssociates(l, ("FROM" + " ") + t, " ");
    ConcatAssociates(l, "FROM" + " ", t);
    DefaultHeadText();
  }

  /** SELECT and FROM as `get` emits them for columns `s` without the keyword and table `t`. */
  lemma EmitSelectHead(s: string, t: string)
    requires s != "" && !Contains(s, "SELECT")
    requires t != "" && !Contains(t, "FROM")
    ensures Emit(Select, s) + Emit(From, t) == "SELECT " + s + " FROM " + t + " "
  {
    var l := "SELECT" + " " + s + " ";
    assert Emit(Select, s) == l;
    assert Emit(From, t) == ("FROM" + " ") + t + " ";
    ConcatAssociates(l, ("FROM" + " ") + t, " ");
    ConcatAssociates(l, "FROM" + " ", t);
    ConcatAssociates("SELECT" + " " + s, " ", "FROM" + " ");
    ConcatAssociates("SELECT" + " ", s, " " + ("FROM" + " "));
    SelectHeadText();
  }

  /** The literal pieces around the columns of an emitted SELECT. */
  lemma SelectHeadText()
    ensures "SELECT" + " " == "SELECT " && " " + ("FROM" + " ") == " FROM "
  {
  }

  /** The clause text `get("t")` assembles on the default state, before its trim. */
  lemma GetOnDefaultUntrimmed(t: string)
    requires t != "" && !Contains(t, "FROM")
    ensures Emitted(FromTable(DefaultQueryString(), t)) == "SELECT * FROM " + t + " "
  {
    var qs := FromTable(DefaultQueryString(), t);
    assert qs.select == "SELECT *" && qs.from == t && qs.Get(Join) == "";
    assert forall d :: d != Select && d != From && d != Join ==> qs.Get(d) == "";
    EmittedSingleTail(qs, Join);
    EmitDefaultHead(t);
  }

  /**
   * `get("t")` on the default state (that is, right after any terminal call)
   * sends `SELECT * FROM t`.
   */
  lemma GetOnDefault(t: string)
    requires t != "" && !Contains(t, "FROM") && t[|t| - 1] !in TrimChars
    ensures SelectStatement(FromTable(DefaultQueryString(), t)) == "SELECT * FROM " + t
  {
    TrimJoinedTrailingBlank("SELECT * FROM ", t);
    GetOnDefaultUntrimmed(t);
  }

  /** When only SELECT, FROM and one later clause `c` hold text, `get` emits just those three. */
  lemma EmittedSingleTail(qs: QueryString, c: Clause)
    requires c != Select && c != From
    requires forall d :: d != Select && d != From && d != c ==> qs.Get(d) == ""
    ensures Emitted(qs) == Emit(Select, qs.select) + Emit(From, qs.from) + Emit(c, qs.Get(c))
  {
    assert qs.Get(Join) == qs.join && qs.Get(Where) == qs.where && qs.Get(GroupBy) == qs.groupBy;
    assert qs.Get(Having) == qs.having && qs.Get(OrderBy) == qs.orderBy && qs.Get(Limit) == qs.limit;
  }

  /**
   * `get("t")` after one call that filled clause `c` (JOIN ... LIMIT) from the
   * default state: `SELECT * FROM t`, then `c`'s keyword and text.
   */
  lemma GetWithOneClause(c: Clause, text: string, t: string)
    requires c != Select && c != From
    requires text != "" && !Contains(text, Keyword(c)) && text[|text| - 1] !in TrimChars
    requires t != "" && !Contains(t, "FROM")
    ensures SelectStatement(FromTable(DefaultQueryString().With(c, text), t))
         == "SELECT * FROM " + t + " " + Keyword(c) + " " + text
  {
    var a := "SELECT * FROM " + t + " ";
    var k := Keyword(c);
    TrimJoinedTrailingBlank(a + k + " ", text);
    ConcatAssociates(a, k + " " + text, " ");
    ConcatAssociates(a, k + " ", text);
    ConcatAssociates(a, k, " ");
    assert Emit(c, text) == k + " " + text + " ";
    EmitDefaultHead(t);
    var qs := FromTable(DefaultQueryString().With(c, text), t);
    assert qs.select == "SELECT *" && qs.from == t && qs.Get(c) == text;
    EmittedSingleTail(qs, c);
  }

  /**
   * `get("t")` after one call that filled clause `c` with a text holding its
   * own keyword: the text is emitted verbatim, with no keyword in front.
   */
  lemma GetWithVerbatimClause(c: Clause, text: string, t: string)
    requires c != Select && c != From
    requires text != "" && Contains(text, Keyword(c)) && text[|text| - 1] !in TrimChars
    requires t != "" && !Contains(t, "FROM")
    ensures SelectStatement(FromTable(DefaultQueryString().With(c, text), t))
         == "SELECT * FROM " + t + " " + text
  {
    var a := "SELECT * FROM " + t + " ";
    TrimJoinedTrailingBlank(a, text);
    ConcatAssociates(a, text, " ");
    assert Emit(c, text) == text + " ";
    EmitDefaultHead(t);
    var qs := FromTable(DefaultQueryString().With(c, text), t);
    assert qs.select == "SELECT *" && qs.from == t && qs.Get(c) == text;
    EmittedSingleTail(qs, c);
  }

  /** The clause text `get("t")` assembles after `select(s)` from the default state, before its trim. */
  lemma GetWithSelectUntrimmed(s: string, t: string)
    requires s != "" && !Contains(s, "SELECT")
    requires t != "" && !Contains(t, "FROM")
    ensures Emitted(FromTable(DefaultQueryString().With(Select, s), t)) == "SELECT " + s + " FROM " + t + " "
  {
    EmitSelectHead(s, t);
    assert Emit(Join, "") == "";
    var qs := FromTable(DefaultQueryString().With(Select, s), t);
    assert qs.select == s && qs.from == t && qs.Get(Join) == "";
    EmittedSingleTail(qs, Join);
  }

  /** `get("t")` after `select(s)` from the default state, for columns `s` without the keyword. */
  lemma GetWithSelect(s: string, t: string)
    requires s != "" && !Contains(s, "SELECT")
    requires t != "" && !Contains(t, "FROM") && t[|t| - 1] !in TrimChars
    ensures SelectStatement(FromTable(DefaultQueryString().With(Select, s), t))
         == "SELECT " + s + " FROM " + t
  {
    TrimJoinedTrailingBlank("SELECT " + s + " FROM ", t);
    GetWithSelectUntrimmed(s, t);
  }

  /** `" WHERE " . $query_string['WHERE']`, or nothing when WHERE is empty. */
  function WhereSuffix(where: string): string
  {
    if where == "" then "" else " WHERE " + where
  }

  /** The un-trimmed text `insert` builds from FROM and the pending pairs. */
  function InsertText(from: string, fields: Pairs): string
  {
    "INSERT INTO " + from + " (" + Implode(Keys(fields), ",") + ") VALUES ('" + Implode(Values(fields), "','") + "')"
  }

  /** The statement `insert` sends. */
  function InsertStatement(from: string, fields: Pairs): string
  {
    Trim(InsertText(from, fields))
  }

  /** The trim in `insert` never changes its text: it starts with `I` and ends with `)`. */
  lemma InsertStatementUntrimmed(from: string, fields: Pairs)
    ensures InsertStatement(from, fields) == InsertText(from, fields)
  {
    var s := InsertText(from, fields);
    assert s[0] == 'I' && s[|s| - 1] == ')';
    TrimStable(s);
  }

  /** `insert` of one column names it, then its value. */
  lemma InsertOneColumn(from: string, k: string, v: string)
    ensures InsertStatement(from, [(k, v)]) == "INSERT INTO " + from + " (" + k + ") VALUES ('" + v + "')"
  {
    var p := [(k, v)];
    assert Keys(p) == [k];
    assert Values(p) == [v];
    InsertStatementUntrimmed(from, p);
  }

  /** `insert` of two columns names them, then their values, in `$set` order. */
  lemma InsertTwoColumns(from: string, k1: string, v1: string, k2: string, v2: string)
    ensures InsertStatement(from, [(k1, v1), (k2, v2)])
         == "INSERT INTO " + from + " (" + k1 + "," + k2 + ") VALUES ('" + v1 + "','" + v2 + "')"
  {
    var p := [(k1, v1), (k2, v2)];
    assert Keys(p) == [k1, k2];
    assert Values(p) == [v1, v2];
    assert Implode([k1, k2], ",") == k1 + "," + k2;
    assert Implode([v1, v2], "','") == v1 + "','" + v2;
    InsertStatementUntrimmed(from, p);
  }

  /** The `$key = '$value'` pieces of `update`, in `$set` order. */
  function Assignments(fields: Pairs): (a: seq<string>)
    ensures |a| == |fields|
  {
    seq(|fields|, i requires 0 <= i < |fields| => fields[i].0 + " = '" + fields[i].1 + "'")
  }

  /** The SET text of `update`: nothing when no pair is pending (no comma for `strrpos` to find). */
  function SetText(fields: Pairs): string
  {
    if fields == [] then "" else "SET " + Implode(Assignments(fields), ",")
  }

  /** The loop of `update` that writes `$key = '$value',` per pair, then its cut at the last comma. */
  method BuildSetText(fields: Pairs) returns (update: string)
    ensures update == SetText(fields)
  {
    ghost var assigns := Assignments(fields);
    update := "SET ";
    var i := 0;
    while i < |fields|
      invariant 0 <= i <= |fields|
      invariant update == "SET " + Terminated(assigns[..i], ",")
    {
      update := update + fields[i].0 + " = '" + fields[i].1 + "',";
      assert assigns[..i + 1][..i] == assigns[..i];
      i := i + 1;
    }
    assert assigns[..i] == assigns;
    if fields != [] {
      TerminatedIsImplodeThenGlue(assigns, ",");
    } else {
      assert update == "SET ";
    }
    var comma := LastIndexOf(update, ',');
    // substr($update, 0, false) is the empty string
    update := if comma.Some? then update[..comma.value] else "";
  }

  /** The statement `update` sends. */
  function UpdateStatement(from: string, setText: string, where: string): string
  {
    Trim("UPDATE " + from + " " + setText + WhereSuffix(where))
  }

  /** The statement `update` builds from the clause state and the pending pairs. */
  method BuildUpdate(qs: QueryString, fields: Pairs) returns (statement: string)
    ensures statement == UpdateStatement(qs.from, SetText(fields), qs.where)
  {
    var update := BuildSetText(fields);
    var where := if qs.where == "" then "" else " WHERE " + qs.where;
    statement := Trim("UPDATE " + qs.from + " " + update + where);
  }

  /** The statement `update($table, $data, $where)` sends from clause state `qs` and pending pairs `p`. */
  function UpdateOn(qs: QueryString, p: Pairs, table: string, data: Fields, where: string,
                    esc: string -> string): string
  {
    var q := WhereArgument(FromTable(qs, table), where, esc);
    UpdateStatement(q.from, SetText(SetArgument(p, data, esc)), q.where)
  }

  /** A non-empty SET list ends in the closing quote of its last value. */
  lemma AssignmentsEndInQuote(fields: Pairs)
    requires fields != []
    ensures Implode(Assignments(fields), ",") != ""
    ensures Implode(Assignments(fields), ",")[|Implode(Assignments(fields), ",")| - 1] == '\''
  {
    var a := Assignments(fields);
    var n := |a|;
    var last := a[n - 1];
    assert last[|last| - 1] == '\'';
    if n > 1 {
      assert Implode(a, ",") == Implode(a[..n - 1], ",") + "," + last;
    }
  }

  /** With pairs pending, `update` sends `UPDATE t SET k1 = 'v1',...,kn = 'vn'` and the WHERE part. */
  lemma UpdateWithPairs(from: string, fields: Pairs, where: string)
    requires fields != []
    requires where == "" || where[|where| - 1] !in TrimChars
    ensures UpdateStatement(from, SetText(fields), where)
         == "UPDATE " + from + " SET " + Implode(Assignments(fields), ",") + WhereSuffix(where)
  {
    var list := Implode(Assignments(fields), ",");
    AssignmentsEndInQuote(fields);
    var p := "UPDATE " + from;
    ConcatAssociates(p, " ", "SET " + list);
    ConcatAssociates(" ", "SET ", list);
    assert " " + "SET " == " SET ";
    ConcatAssociates(p, " SET ", list);
    var s := "UPDATE " + from + " SET " + list + WhereSuffix(where);
    assert s[0] == 'U';
    assert s[|s| - 1] !in TrimChars;
    TrimStable(s);
  }

  /** The statement `delete` sends for one table. */
  function DeleteStatement(from: string, where: string): string
  {
    Trim("DELETE FROM " + from + WhereSuffix(where))
  }

  /** `if ($where != "") $this->where($where);`: a scalar predicate with no value, joined by AND. */
  function WhereArgument(qs: QueryString, where: string, esc: string -> string): QueryString
  {
    if where != "" then qs.With(Where, qs.where + Conjunction(qs.where, "AND") + Predicate(where, "", "=", true, esc))
    else qs
  }

  /** The state `delete($table, $where)` builds its statement from. */
  function DeleteState(qs: QueryString, table: string, where: string, esc: string -> string): QueryString
  {
    WhereArgument(FromTable(qs, table), where, esc)
  }

  /** The statement `delete($table, $where)` sends from clause state `qs`. */
  function DeleteOn(qs: QueryString, table: string, where: string, esc: string -> string): string
  {
    var q := DeleteState(qs, table, where, esc);
    DeleteStatement(q.from, q.where)
  }

  /** On the default state, `delete($table, $where)` holds FROM `table` and WHERE exactly `where`. */
  lemma DeleteStateOnDefault(table: string, where: string, esc: string -> string)
    requires table != ""
    requires where == "" || ContainsAny(where, OperatorChars)
    ensures DeleteState(DefaultQueryString(), table, where, esc).from == table
    ensures DeleteState(DefaultQueryString(), table, where, esc).where == where
  {
    if where != "" {
      assert Predicate(where, "", "=", true, esc) == where;
    }
  }

  /** The trim in `delete` keeps its text when table and WHERE end in non-blanks. */
  lemma DeleteStatementUntrimmed(table: string, where: string)
    requires table != "" && table[|table| - 1] !in TrimChars
    requires where == "" || where[|where| - 1] !in TrimChars
    ensures DeleteStatement(table, where) == "DELETE FROM " + table + WhereSuffix(where)
  {
    var s := "DELETE FROM " + table + WhereSuffix(where);
    assert s[0] == 'D';
    assert s[|s| - 1] !in TrimChars;
    TrimStable(s);
  }

  /**
   * Every table of a `delete` list after the first starts from the reset
   * state, so it gets exactly the `where` argument and nothing accumulated.
   */
  lemma DeleteAfterReset(table: string, where: string, esc: string -> string)
    requires table != "" && table[|table| - 1] !in TrimChars
    requires where == "" || ContainsAny(where, OperatorChars)
    requires where == "" || where[|where| - 1] !in TrimChars
    ensures DeleteOn(DefaultQueryString(), table, where, esc) == "DELETE FROM " + table + WhereSuffix(where)
  {
    DeleteStateOnDefault(table, where, esc);
    DeleteStatementUntrimmed(table, where);
  }

  /** `if ($data != "") $this->set($data);`: the scalar `""` is the "no data" default. */
  function SetArgument(p: Pairs, data: Fields, esc: string -> string): Pairs
  {
    if data != One("") then SetAll(p, Entries(data, ""), true, esc) else p
  }

  /**
   * The statements `delete($tables, $where)` sends for a list of tables, in
   * list order: the first table is deleted from the state the call found,
   * every later one after the reset of the delete before it.
   */
  function DeleteList(qs: QueryString, tables: seq<string>, where: string, esc: string -> string): (r: seq<string>)
    ensures |r| == |tables|
    decreases |tables|
  {
    if tables == [] then []
    else
      var n := |tables|;
      DeleteList(qs, tables[..n - 1], where, esc)
      + [DeleteOn(if n == 1 then qs else DefaultQueryString(), tables[n - 1], where, esc)]
  }

  /** The statements for the first `i + 1` tables: those for the first `i`, then table `i`'s. */
  lemma DeleteListStep(qs: QueryString, tables: seq<string>, where: string, esc: string -> string,
                       i: nat, current: QueryString)
    requires i < |tables|
    requires current == if i == 0 then qs else DefaultQueryString()
    ensures DeleteList(qs, tables[..i + 1], where, esc)
         == DeleteList(qs, tables[..i], where, esc) + [DeleteOn(current, tables[i], where, esc)]
  {
    assert tables[..i + 1][..i] == tables[..i];
  }

  /** Statement `i` of a list delete is the one-table delete of `tables[i]`. */
  lemma {:induction false} DeleteListAt(qs: QueryString, tables: seq<string>, where: string,
                                        esc: string -> string, i: nat)
    requires i < |tables|
    ensures DeleteList(qs, tables, where, esc)[i]
         == DeleteOn(if i == 0 then qs else DefaultQueryString(), tables[i], where, esc)
    decreases |tables|
  {
    var n := |tables|;
    if i < n - 1 {
      DeleteListAt(qs, tables[..n - 1], where, esc, i);
    }
  }

  /** Every table of a list after the first is deleted with exactly the `where` argument. */
  lemma DeleteListAfterFirst(qs: QueryString, tables: seq<string>, where: string, esc: string -> string, i: nat)
    requires 0 < i < |tables|
    requires tables[i] != "" && tables[i][|tables[i]| - 1] !in TrimChars
    requires where == "" || ContainsAny(where, OperatorChars)
    requires where == "" || where[|where| - 1] !in TrimChars
    ensures DeleteList(qs, tables, where, esc)[i] == "DELETE FROM " + tables[i] + WhereSuffix(where)
  {
    DeleteListAt(qs, tables, where, esc, i);
    DeleteAfterReset(tables[i], where, esc);
  }
}
