/**
 * The builder object: `QueryConstructor` holds the clause state, `Execute`
 * turns it into statements, and `Database` is the class a program creates.
 * The three PHP classes form one inheritance chain over the same fields, so
 * they are modelled as one class.
 */
module Database {
  import opened Wrappers
  import opened Strings
  import opened PhpArray
  import opened QueryConstructor
  import opened Execute

  class Database {
    /** The driver's `real_escape_string`, which this model does not see into. */
    const escape: string -> string
    /** `$query_string`. */
    var queryString: QueryString
    /** `$set`: the column/value pairs pending for `insert` and `update`. */
    var setPairs: Pairs
    /** `$last_query`. */
    var lastStatement: string
    /** Every statement handed to the driver, oldest first. */
    ghost var log: seq<string>

    ghost predicate Valid()
      reads this`setPairs, this`lastStatement, this`log
    {
      && DistinctKeys(setPairs)
      && lastStatement == (if log == [] then "" else log[|log| - 1])
    }

    /** A new object: the initial `$query_string`, no pending pairs, no statement sent. */
    constructor(escape: string -> string)
      ensures Valid()
      ensures this.escape == escape
      ensures queryString == DefaultQueryString() && setPairs == []
      ensures lastStatement == "" && log == []
    {
      this.escape := escape;
      queryString := DefaultQueryString();
      setPairs := [];
      lastStatement := "";
      log := [];
    }

    /** `lastQuery()`: the statement sent most recently, or `""` before the first. */
    method LastQuery() returns (q: string)
      requires Valid()
      ensures log == [] ==> q == ""
      ensures log != [] ==> q == log[|log| - 1]
    {
      q := lastStatement;
    }

    /** `getQueryString()`. */
    method GetQueryString() returns (qs: QueryString)
      ensures qs == queryString
    {
      qs := queryString;
    }

    /** `select($select)`: SELECT becomes `select` verbatim. */
    method Select(select: string)
      modifies this`queryString
      ensures queryString == old(queryString).With(Clause.Select, select)
    {
      queryString := queryString.With(Clause.Select, select);
    }

    /** `maxMinAvgSum($x, $select, $var)`. */
    method MaxMinAvgSum(x: string, select: string, alias: string)
      modifies this`queryString
      ensures queryString == old(queryString).With(Clause.Select, Aggregate(x, select, alias))
    {
      if !Contains(select, "SELECT") {
        if alias != "" {
          queryString := queryString.With(Clause.Select, x + "(" + select + ") as " + alias);
        } else {
          queryString := queryString.With(Clause.Select, x + "(" + select + ")");
        }
      } else {
        queryString := queryString.With(Clause.Select, select);
      }
    }

    method SelectMax(select: string, alias: string)
      modifies this`queryString
      ensures queryString == old(queryString).With(Clause.Select, Aggregate("MAX", select, alias))
    {
      MaxMinAvgSum("MAX", select, alias);
    }

    method SelectMin(select: string, alias: string)
      modifies this`queryString
      ensures queryString == old(queryString).With(Clause.Select, Aggregate("MIN", select, alias))
    {
      MaxMinAvgSum("MIN", select, alias);
    }

    method SelectAvg(select: string, alias: string)
      modifies this`queryString
      ensures queryString == old(queryString).With(Clause.Select, Aggregate("AVG", select, alias))
    {
      MaxMinAvgSum("AVG", select, alias);
    }

    method SelectSum(select: string, alias: string)
      modifies this`queryString
      ensures queryString == old(queryString).With(Clause.Select, Aggregate("SUM", select, alias))
    {
      MaxMinAvgSum("SUM", select, alias);
    }

    /** `from($from)`: FROM becomes `from` verbatim. */
    method From(from: string)
      modifies this`queryString
      ensures queryString == old(queryString).With(Clause.From, from)
    {
      queryString := queryString.With(Clause.From, from);
    }

    /** `join($join, $join_columns, $param)`: one more fragment, space-separated. */
    method Join(table: string, columns: string, param: string)
      modifies this`queryString
      ensures queryString == old(queryString).With(Clause.Join,
                Append(old(queryString).join, JoinFragment(table, columns, param), " "))
    {
      var prefix := if param == "" then "JOIN " else Upper(param) + " JOIN ";
      var join := table;
      if columns != "" {
        join := prefix + table + " ON " + columns;
      }
      if queryString.join != "" {
        join := " " + join;
      }
      queryString := queryString.With(Clause.Join, queryString.join + join);
    }

    /**
     * `whereOrHaving`: the first loop builds every predicate with the prefix
     * the clause calls for when the call begins, the second appends them.
     */
    method WhereOrHaving(target: Clause, andOr: string, field: Fields, value: string,
                         operator: string, backtick: bool)
      requires target == Clause.Where || target == Clause.Having
      modifies this`queryString
      ensures queryString == old(queryString).With(target,
                WhereOrHavingText(old(queryString).Get(target), andOr, Entries(field, value),
                                  operator, backtick, escape))
    {
      var rows := BuildPredicates(queryString.Get(target), andOr, Entries(field, value), operator, backtick);
      AppendRows(target, rows);
    }

    /** The first loop of `whereOrHaving`: every predicate behind the prefix the clause calls for. */
    method BuildPredicates(clause: string, andOr: string, entries: Pairs, operator: string, backtick: bool)
      returns (rows: seq<string>)
      ensures rows == Prefixed(Conjunction(clause, andOr), Predicates(entries, operator, backtick, escape))
    {
      var prefix := if clause == "" then "" else " " + andOr + " ";
      rows := [];
      var i := 0;
      while i < |entries|
        invariant 0 <= i <= |entries|
        invariant |rows| == i
        invariant forall k :: 0 <= k < i ==>
          rows[k] == prefix + Predicate(entries[k].0, entries[k].1, operator, backtick, escape)
      {
        var p := PredicateText(entries[i].0, entries[i].1, operator, backtick);
        rows := rows + [prefix + p];
        i := i + 1;
      }
    }

    /**
     * One pass of that loop: the key quoted and given its operator, then the quoted value.
     * It computes exactly `Predicate(key, value, operator, backtick, escape)`; the loop
     * body is a method of its own only to keep the proof of `BuildPredicates` small.
     */
    method PredicateText(key: string, value: string, operator: string, backtick: bool) returns (p: string)
      ensures p == Predicate(key, value, operator, backtick, escape)
    {
      var k := key;
      var v := value;
      if backtick && v != "" {
        k := "`" + k + "`";
      }
      if !ContainsAny(k, OperatorChars) {
        k := k + " " + operator;
      }
      if v != "" {
        v := " '" + escape(v) + "'";
      }
      p := k + v;
    }

    /** The second loop of `whereOrHaving`: the rows appended to the clause one by one. */
    method AppendRows(target: Clause, rows: seq<string>)
      modifies this`queryString
      ensures queryString == old(queryString).With(target, old(queryString).Get(target) + Implode(rows, ""))
    {
      ghost var clause := queryString.Get(target);
      var j := 0;
      while j < |rows|
        invariant 0 <= j <= |rows|
        invariant queryString == old(queryString).With(target, clause + Implode(rows[..j], ""))
      {
        ImplodeEmptyGlueStep(rows, j);
        ConcatAssociates(clause, Implode(rows[..j], ""), rows[j]);
        queryString := queryString.With(target, queryString.Get(target) + rows[j]);
        j := j + 1;
      }
      assert rows[..j] == rows;
    }

    /** `where($where, $value, $operator, $backtick)`: predicates joined by AND. */
    method Where(field: Fields, value: string, operator: string, backtick: bool)
      modifies this`queryString
      ensures queryString == old(queryString).With(Clause.Where,
                WhereOrHavingText(old(queryString).where, "AND", Entries(field, value), operator, backtick, escape))
    {
      WhereOrHaving(Clause.Where, "AND", field, value, operator, backtick);
    }

    /** `orWhere(...)`: predicates joined by OR. */
    method OrWhere(field: Fields, value: string, operator: string, backtick: bool)
      modifies this`queryString
      ensures queryString == old(queryString).With(Clause.Where,
                WhereOrHavingText(old(queryString).where, "OR", Entries(field, value), operator, backtick, escape))
    {
      WhereOrHaving(Clause.Where, "OR", field, value, operator, backtick);
    }

    /** `having(...)`: predicates joined by AND. */
    method Having(field: Fields, value: string, operator: string, backtick: bool)
      modifies this`queryString
      ensures queryString == old(queryString).With(Clause.Having,
                WhereOrHavingText(old(queryString).having, "AND", Entries(field, value), operator, backtick, escape))
    {
      WhereOrHaving(Clause.Having, "AND", field, value, operator, backtick);
    }

    /** `orHaving(...)`: predicates joined by OR. */
    method OrHaving(field: Fields, value: string, operator: string, backtick: bool)
      modifies this`queryString
      ensures queryString == old(queryString).With(Clause.Having,
                WhereOrHavingText(old(queryString).having, "OR", Entries(field, value), operator, backtick, escape))
    {
      WhereOrHaving(Clause.Having, "OR", field, value, operator, backtick);
    }

    /** `groupBy($group_by)`: a list replaces GROUP BY, a column is comma-appended. */
    method GroupBy(group: Columns)
      modifies this`queryString
      ensures queryString == old(queryString).With(Clause.GroupBy, GroupByText(old(queryString).groupBy, group))
    {
      match group
      case ColumnList(names) =>
        queryString := queryString.With(Clause.GroupBy, Implode(names, ", "));
      case Column(name) =>
        var piece := name;
        if queryString.groupBy != "" {
          piece := ", " + piece;
        }
        queryString := queryString.With(Clause.GroupBy, queryString.groupBy + piece);
    }

    /** `distinct()`. */
    method Distinct()
      modifies this`queryString
      ensures queryString == old(queryString).With(Clause.Select, DistinctSelect(old(queryString).select))
    {
      queryString := queryString.With(Clause.Select, "SELECT DISTINCT " + StrStr(queryString.select, "SELECT "));
    }

    /** `orderBy($order_by, $order)`: one more term, comma-separated. */
    method OrderBy(column: string, direction: string)
      modifies this`queryString
      ensures queryString == old(queryString).With(Clause.OrderBy,
                Append(old(queryString).orderBy, OrderTerm(column, direction), ", "))
    {
      var term := column;
      if direction != "" {
        term := term + " " + Upper(direction);
      }
      if queryString.orderBy != "" {
        term := ", " + term;
      }
      queryString := queryString.With(Clause.OrderBy, queryString.orderBy + term);
    }

    /** `limit($limit, $offset)`; `-1` stands for "no offset". */
    method Limit(limit: string, offset: int)
      modifies this`queryString
      ensures queryString == old(queryString).With(Clause.Limit, LimitText(limit, offset))
    {
      if !Contains(limit, "LIMIT") {
        queryString := queryString.With(Clause.Limit, if offset != -1 then IntToString(offset) + ", " + limit else limit);
      } else {
        queryString := queryString.With(Clause.Limit, limit);
      }
    }

    /** `resetQueryString()`. */
    method ResetQueryString()
      modifies this`queryString
      ensures queryString == DefaultQueryString()
    {
      queryString := QueryString("SELECT *", "", "", "", "", "", "", "");
    }

    /** `set($data, $value, $escape)`: each pair of `data` is written in order. */
    method Set(data: Fields, value: string, doEscape: bool)
      requires Valid()
      modifies this`setPairs
      ensures Valid()
      ensures setPairs == SetAll(old(setPairs), Entries(data, value), doEscape, escape)
    {
      var entries := Entries(data, value);
      ghost var p0 := setPairs;
      var i := 0;
      while i < |entries|
        invariant 0 <= i <= |entries|
        invariant DistinctKeys(setPairs)
        invariant setPairs == SetAll(p0, entries[..i], doEscape, escape)
      {
        SetEntry(p0, entries, i, doEscape);
        i := i + 1;
      }
      assert entries[..i] == entries;
    }

    /** One turn of the loop of `set`: pair `i` of `entries` written, escaped if `doEscape`. */
    method SetEntry(ghost p0: Pairs, entries: Pairs, i: nat, doEscape: bool)
      requires i < |entries|
      requires DistinctKeys(setPairs)
      requires setPairs == SetAll(p0, entries[..i], doEscape, escape)
      modifies this`setPairs
      ensures DistinctKeys(setPairs)
      ensures setPairs == SetAll(p0, entries[..i + 1], doEscape, escape)
    {
      var v := if doEscape then escape(entries[i].1) else entries[i].1;
      SetAllStep(p0, entries, i, doEscape, escape);
      WritePair(entries[i].0, v);
    }

    /** `$this->set[$key] = $value`. */
    method WritePair(key: string, value: string)
      requires DistinctKeys(setPairs)
      modifies this`setPairs
      ensures DistinctKeys(setPairs)
      ensures setPairs == Put(old(setPairs), key, value)
    {
      PutDistinct(setPairs, key, value);
      setPairs := Put(setPairs, key, value);
    }

    /** `if ($data != "") $this->set($data);` of `insert` and `update`. */
    method SetDataArgument(data: Fields)
      requires Valid()
      modifies this`setPairs
      ensures Valid()
      ensures setPairs == SetArgument(old(setPairs), data, escape)
    {
      if data != One("") {
        Set(data, "", true);
      }
    }

    /** `if ($where != "") $this->where($where);` of `update` and `delete`. */
    method WhereArgumentCall(where: string)
      modifies this`queryString
      ensures queryString == WhereArgument(old(queryString), where, escape)
    {
      if where != "" {
        Where(One(where), "", "=", true);
        OneCall(old(queryString).where, "AND", Call(where, "", "=", true), escape);
      }
    }

    /** `query($query)`: the statement goes to the driver and becomes the last query. */
    method Query(statement: string)
      requires Valid()
      modifies this`lastStatement, this`log
      ensures Valid()
      ensures log == old(log) + [statement] && lastStatement == statement
    {
      log := log + [statement];
      lastStatement := statement;
    }

    /** `get($table_name)`: assemble, reset, send. */
    method Get(tableName: string) returns (statement: string)
      requires Valid()
      modifies this`queryString, this`lastStatement, this`log
      ensures Valid()
      ensures statement == SelectStatement(FromTable(old(queryString), tableName))
      ensures queryString == DefaultQueryString()
      ensures log == old(log) + [statement]
    {
      if tableName != "" {
        From(tableName);
      }
      var query := AssembleClauses(queryString);
      ResetQueryString();
      statement := Trim(query);
      Query(statement);
    }

    /** `insert($table, $data)`: send the INSERT of the pending pairs, then clear them and reset. */
    method Insert(table: string, data: Fields) returns (statement: string)
      requires Valid()
      modifies this`queryString, this`setPairs, this`lastStatement, this`log
      ensures Valid()
      ensures statement == InsertStatement(FromTable(old(queryString), table).from,
                                           SetArgument(old(setPairs), data, escape))
      ensures queryString == DefaultQueryString() && setPairs == []
      ensures log == old(log) + [statement]
    {
      if table != "" {
        From(table);
      }
      SetDataArgument(data);
      var query := "INSERT INTO " + queryString.from + " (" + Implode(Keys(setPairs), ",")
                 + ") VALUES ('" + Implode(Values(setPairs), "','") + "')";
      statement := Trim(query);
      Query(statement);
      setPairs := [];
      ResetQueryString();
    }

    /** `update($table, $data, $where)`: send the UPDATE of the pending pairs, then clear them and reset. */
    method Update(table: string, data: Fields, where: string) returns (statement: string)
      requires Valid()
      modifies this`queryString, this`setPairs, this`lastStatement, this`log
      ensures Valid()
      ensures statement == UpdateOn(old(queryString), old(setPairs), table, data, where, escape)
      ensures queryString == DefaultQueryString() && setPairs == []
      ensures log == old(log) + [statement]
    {
      if table != "" {
        From(table);
      }
      SetDataArgument(data);
      WhereArgumentCall(where);
      statement := BuildUpdate(queryString, setPairs);
      assert statement == UpdateOn(old(queryString), old(setPairs), table, data, where, escape);
      Query(statement);
      setPairs := [];
      ResetQueryString();
    }

    /** `delete($table, $where)` for one table: send the DELETE, then reset. */
    method Delete(table: string, where: string) returns (statement: string)
      requires Valid()
      modifies this`queryString, this`lastStatement, this`log
      ensures Valid()
      ensures statement == DeleteOn(old(queryString), table, where, escape)
      ensures queryString == DefaultQueryString()
      ensures log == old(log) + [statement]
    {
      if table != "" {
        From(table);
      }
      WhereArgumentCall(where);
      var whereText := if queryString.where == "" then "" else " WHERE " + queryString.where;
      assert whereText == WhereSuffix(queryString.where);
      statement := Trim("DELETE FROM " + queryString.from + whereText);
      assert statement == DeleteOn(old(queryString), table, where, escape);
      Query(statement);
      ResetQueryString();
    }

    /** `delete($tables, $where)` for a list: one DELETE per table in order, then a reset. */
    method DeleteEach(tables: seq<string>, where: string)
      requires Valid()
      modifies this`queryString, this`lastStatement, this`log
      ensures Valid()
      ensures log == old(log) + DeleteList(old(queryString), tables, where, escape)
      ensures queryString == DefaultQueryString()
    {
      ghost var qs0 := queryString;
      ghost var log0 := log;
      var i := 0;
      while i < |tables|
        invariant 0 <= i <= |tables|
        invariant Valid()
        invariant queryString == if i == 0 then qs0 else DefaultQueryString()
        invariant log == log0 + DeleteList(qs0, tables[..i], where, escape)
      {
        DeleteListStep(qs0, tables, where, escape, i, queryString);
        var statement := Delete(tables[i], where);
        SeqConcatAssociates(log0, DeleteList(qs0, tables[..i], where, escape), [statement]);
        i := i + 1;
      }
      assert tables[..i] == tables;
      ResetQueryString();
    }
  }
}
