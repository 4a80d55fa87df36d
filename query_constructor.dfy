/**
 * The clause accumulator of `QueryConstructor`: the eight clause names in SQL
 * order, the text each builder call leaves in its clause, and what a sequence
 * of calls accumulates. The mutable object itself is `Database.Database`;
 * this module holds the pure string rules its methods are specified by.
 */
module QueryConstructor {
  import opened Wrappers
  import opened Strings
  import opened PhpArray

  /** The keys of `$query_string`. */
  datatype Clause = Select | From | Join | Where | GroupBy | Having | OrderBy | Limit

  /** The clause keyword, which is also its key in `$query_string`. */
  function Keyword(c: Clause): string
  {
    match c
    case Select => "SELECT"
    case From => "FROM"
    case Join => "JOIN"
    case Where => "WHERE"
    case GroupBy => "GROUP BY"
    case Having => "HAVING"
    case OrderBy => "ORDER BY"
    case Limit => "LIMIT"
  }

  /** The number of clauses. */
  const ClauseCount := 8

  /** The clause at index `i` of `$query_string`, whose fixed order is the SQL clause order. */
  function ClauseAt(i: nat): Clause
    requires i < ClauseCount
  {
    if i == 0 then Select else if i == 1 then From else if i == 2 then Join
    else if i == 3 then Where else if i == 4 then GroupBy else if i == 5 then Having
    else if i == 6 then OrderBy else Limit
  }

  /** The order visits every clause exactly once. */
  lemma ClauseOrderComplete(c: Clause)
    ensures exists i :: 0 <= i < ClauseCount && ClauseAt(i) == c
    ensures forall i, j :: 0 <= i < j < ClauseCount ==> ClauseAt(i) != ClauseAt(j)
  {
    match c
    case Select => assert ClauseAt(0) == c;
    case From => assert ClauseAt(1) == c;
    case Join => assert ClauseAt(2) == c;
    case Where => assert ClauseAt(3) == c;
    case GroupBy => assert ClauseAt(4) == c;
    case Having => assert ClauseAt(5) == c;
    case OrderBy => assert ClauseAt(6) == c;
    case Limit => assert ClauseAt(7) == c;
  }

  /** The value of `$query_string`: one text per clause. */
  datatype QueryString = QueryString(
    select: string, from: string, join: string, where: string,
    groupBy: string, having: string, orderBy: string, limit: string)
  {
    function Get(c: Clause): string
    {
      match c
      case Select => select
      case From => from
      case Join => join
      case Where => where
      case GroupBy => groupBy
      case Having => having
      case OrderBy => orderBy
      case Limit => limit
    }

    /** `$query_string[$c] = $text`: clause `c` becomes `text`, every other clause is kept. */
    function With(c: Clause, text: string): (q: QueryString)
      ensures q.Get(c) == text
      ensures forall d :: d != c ==> q.Get(d) == Get(d)
    {
      match c
      case Select => this.(select := text)
      case From => this.(from := text)
      case Join => this.(join := text)
      case Where => this.(where := text)
      case GroupBy => this.(groupBy := text)
      case Having => this.(having := text)
      case OrderBy => this.(orderBy := text)
      case Limit => this.(limit := text)
    }
  }

  /** The initial and the reset value of `$query_string`. */
  function DefaultQueryString(): (q: QueryString)
    ensures q.Get(Select) == "SELECT *"
    ensures forall c :: c != Select ==> q.Get(c) == ""
  {
    QueryString("SELECT *", "", "", "", "", "", "", "")
  }

  /** The first argument of `where`/`having`/`set`: a scalar key, or an array of key/value pairs. */
  datatype Fields = One(key: string) | Many(entries: Pairs)

  /** A scalar key is treated as the one-entry array `[key => value]`. */
  function Entries(f: Fields, value: string): Pairs
  {
    match f
    case One(key) => [(key, value)]
    case Many(entries) => entries
  }

  /** The argument of `groupBy`: an array of columns, or one column. */
  datatype Columns = ColumnList(names: seq<string>) | Column(name: string)

  /** SELECT after `maxMinAvgSum($x, $select, $var)`. */
  function Aggregate(x: string, select: string, alias: string): string
  {
    if !Contains(select, "SELECT") then
      if alias != "" then x + "(" + select + ") as " + alias else x + "(" + select + ")"
    else select
  }

  /** SELECT after `distinct()`: `strstr` keeps the text from the first "SELECT " on, or nothing. */
  function DistinctSelect(select: string): string
  {
    "SELECT DISTINCT " + StrStr(select, "SELECT ")
  }

  /** On the default SELECT, `distinct()` repeats the keyword. */
  lemma DistinctOfDefault()
    ensures DistinctSelect(DefaultQueryString().select) == "SELECT DISTINCT SELECT *"
  {
  }

  /** After `select("a, b")` (no keyword), `distinct()` drops the column list. */
  lemma DistinctDropsBareColumns(select: string)
    requires !Contains(select, "SELECT ")
    ensures DistinctSelect(select) == "SELECT DISTINCT "
  {
  }

  /**
   * Appending `piece` to a clause that grows by separator: the separator is
   * put in front of the piece only when the clause was non-empty.
   */
  function Append(clause: string, piece: string, sep: string): string
  {
    if clause != "" then clause + sep + piece else clause + piece
  }

  /** The clause after appending `pieces` one call at a time, the last piece last. */
  function AppendAll(clause: string, pieces: seq<string>, sep: string): string
    decreases |pieces|
  {
    if pieces == [] then clause
    else Append(AppendAll(clause, pieces[..|pieces| - 1], sep), pieces[|pieces| - 1], sep)
  }

  /** Appending pieces one call at a time to an empty clause glues them with the separator. */
  lemma {:induction false} AppendAllIsImplode(pieces: seq<string>, sep: string)
    requires forall i :: 0 <= i < |pieces| - 1 ==> pieces[i] != ""
    ensures AppendAll("", pieces, sep) == Implode(pieces, sep)
    decreases |pieces|
  {
    var n := |pieces|;
    if n == 1 {
      assert pieces[..0] == [];
    } else if n > 1 {
      var front := pieces[..n - 1];
      AppendAllIsImplode(front, sep);
      if n > 2 {
        assert front[..n - 2] == pieces[..n - 2];
      }
      assert Implode(front, sep) != "" by {
        if n == 2 { assert Implode(front, sep) == pieces[0]; }
        else { assert front[n - 2] == pieces[n - 2]; }
      }
    }
  }

  /** The fragment `join($join, $join_columns, $param)` appends. */
  function JoinFragment(table: string, columns: string, param: string): string
  {
    var prefix := if param == "" then "JOIN " else Upper(param) + " JOIN ";
    if columns != "" then prefix + table + " ON " + columns else table
  }

  /** GROUP BY after `groupBy($group_by)`. */
  function GroupByText(clause: string, group: Columns): string
  {
    match group
    case ColumnList(names) => Implode(names, ", ")
    case Column(name) => Append(clause, name, ", ")
  }

  /** Grouping by a list in one call equals adding the same columns one call at a time to an empty clause. */
  lemma GroupByListIsColumnByColumn(clause: string, names: seq<string>)
    requires forall i :: 0 <= i < |names| - 1 ==> names[i] != ""
    ensures GroupByText(clause, ColumnList(names)) == AppendAll("", names, ", ")
  {
    AppendAllIsImplode(names, ", ");
  }

  /** The entry `orderBy($order_by, $order)` appends. */
  function OrderTerm(column: string, direction: string): string
  {
    if direction != "" then column + " " + Upper(direction) else column
  }

  /** LIMIT after `limit($limit, $offset)`; `-1` is the "no offset" default. */
  function LimitText(limit: string, offset: int): string
  {
    if !Contains(limit, "LIMIT") then
      if offset != -1 then IntToString(offset) + ", " + limit else limit
    else limit
  }

  /** The character class `[!=<>]` that marks a key as already holding its operator. */
  const OperatorChars: set<char> := {'!', '=', '<', '>'}

  /** One predicate of `whereOrHaving`, without its conjunction prefix. */
  function Predicate(key: string, value: string, operator: string, backtick: bool,
                     esc: string -> string): string
  {
    var quoted := if backtick && value != "" then "`" + key + "`" else key;
    var lhs := if !ContainsAny(quoted, OperatorChars) then quoted + " " + operator else quoted;
    lhs + (if value != "" then " '" + esc(value) + "'" else "")
  }

  /** A predicate is never empty: either its key holds an operator or one is appended. */
  lemma PredicateNonEmpty(key: string, value: string, operator: string, backtick: bool,
                          esc: string -> string)
    ensures Predicate(key, value, operator, backtick, esc) != ""
  {
    var quoted := if backtick && value != "" then "`" + key + "`" else key;
    if ContainsAny(quoted, OperatorChars) {
      assert quoted != "";
    }
  }

  /** The prefix of every predicate of one call: nothing on an empty clause, else the conjunction. */
  function Conjunction(clause: string, andOr: string): string
  {
    if clause == "" then "" else " " + andOr + " "
  }

  /** The predicates of one call, in array order, without prefix. */
  function Predicates(entries: Pairs, operator: string, backtick: bool,
                      esc: string -> string): (ps: seq<string>)
    ensures |ps| == |entries|
  {
    seq(|entries|, i requires 0 <= i < |entries| =>
      Predicate(entries[i].0, entries[i].1, operator, backtick, esc))
  }

  /** What the first loop of `whereOrHaving` collects: every predicate behind the same prefix. */
  function Prefixed(prefix: string, ps: seq<string>): (r: seq<string>)
    ensures |r| == |ps|
  {
    seq(|ps|, i requires 0 <= i < |ps| => prefix + ps[i])
  }

  /** WHERE (or HAVING) after one `whereOrHaving` call on a clause that held `clause`. */
  function WhereOrHavingText(clause: string, andOr: string, entries: Pairs, operator: string,
                             backtick: bool, esc: string -> string): string
  {
    clause + Implode(Prefixed(Conjunction(clause, andOr), Predicates(entries, operator, backtick, esc)), "")
  }

  /** On a non-empty clause, every entry of one call is joined to it by the call's conjunction. */
  lemma MapCallOnNonEmptyClause(clause: string, andOr: string, entries: Pairs, operator: string,
                                backtick: bool, esc: string -> string)
    requires clause != "" && entries != []
    ensures WhereOrHavingText(clause, andOr, entries, operator, backtick, esc)
         == clause + " " + andOr + " " + Implode(Predicates(entries, operator, backtick, esc), " " + andOr + " ")
  {
    var t := " " + andOr + " ";
    var ps := Predicates(entries, operator, backtick, esc);
    assert Prefixed(t, ps) == seq(|ps|, i requires 0 <= i < |ps| => t + ps[i]);
    PrefixedIsGlueThenImplode(ps, t);
  }

  /**
   * On an empty clause the prefix is empty for every entry of the call, so the
   * predicates of a map-valued call are concatenated with no conjunction.
   */
  lemma MapCallOnEmptyClause(andOr: string, entries: Pairs, operator: string, backtick: bool,
                             esc: string -> string)
    ensures WhereOrHavingText("", andOr, entries, operator, backtick, esc)
         == Implode(Predicates(entries, operator, backtick, esc), "")
  {
    var ps := Predicates(entries, operator, backtick, esc);
    forall i | 0 <= i < |ps| ensures Prefixed("", ps)[i] == ps[i] {
      assert "" + ps[i] == ps[i];
    }
    assert Prefixed("", ps) == ps;
  }

  /** Two entries given to one call on an empty clause end up side by side. */
  lemma TwoEntriesOnEmptyClause(andOr: string, k1: string, v1: string, k2: string, v2: string,
                                operator: string, backtick: bool, esc: string -> string)
    ensures WhereOrHavingText("", andOr, [(k1, v1), (k2, v2)], operator, backtick, esc)
         == Predicate(k1, v1, operator, backtick, esc) + Predicate(k2, v2, operator, backtick, esc)
  {
    var ps := Predicates([(k1, v1), (k2, v2)], operator, backtick, esc);
    MapCallOnEmptyClause(andOr, [(k1, v1), (k2, v2)], operator, backtick, esc);
    assert ps[..1] == [ps[0]];
  }

  /** One scalar `where`/`having` call: key, value, operator, backtick switch. */
  datatype Call = Call(key: string, value: string, operator: string, backtick: bool)

  function CallPredicate(c: Call, esc: string -> string): string
  {
    Predicate(c.key, c.value, c.operator, c.backtick, esc)
  }

  /**
   * Whether a key has no `!`, `=`, `<` or `>`: then, quoted in backticks, it is
   * followed by the operator and the quoted escaped value.
   */
  lemma QuotedKeyPredicate(key: string, value: string, operator: string, esc: string -> string)
    requires value != ""
    requires forall c :: c in OperatorChars ==> c !in key
    ensures Predicate(key, value, operator, true, esc) == "`" + key + "` " + operator + " '" + esc(value) + "'"
  {
    var quoted := "`" + key + "`";
    NoneOfClass(quoted, OperatorChars) by {
      forall c | c in OperatorChars ensures c !in quoted {
        assert quoted == "`" + key + "`";
      }
    }
  }

  /**
   * A key that already holds one of `!`, `=`, `<`, `>` keeps it: the operator
   * argument is dropped, and backticks are added only around a key with a value.
   */
  lemma OperatorKeyPredicate(key: string, value: string, operator: string, backtick: bool,
                             esc: string -> string)
    requires ContainsAny(key, OperatorChars)
    ensures Predicate(key, value, operator, backtick, esc)
         == (if backtick && value != "" then "`" + key + "`" else key)
            + (if value != "" then " '" + esc(value) + "'" else "")
  {
    var quoted := "`" + key + "`";
    ContainsAnyAt(key, OperatorChars);
    var i :| 0 <= i < |key| && key[i] in OperatorChars;
    assert quoted[i + 1] == key[i];
    ContainsAnyAt(quoted, OperatorChars);
  }

  /** A scalar call together with its conjunction: `AND` for `where`/`having`, `OR` for `orWhere`/`orHaving`. */
  datatype Chained = Chained(andOr: string, call: Call)

  /** The clause after the scalar calls `chain`, each joined with its own conjunction, the last call last. */
  function ApplyChain(clause: string, chain: seq<Chained>, esc: string -> string): string
    decreases |chain|
  {
    if chain == [] then clause
    else
      var c := chain[|chain| - 1];
      WhereOrHavingText(ApplyChain(clause, chain[..|chain| - 1], esc), c.andOr,
                        [(c.call.key, c.call.value)], c.call.operator, c.call.backtick, esc)
  }

  /** One scalar call appends the conjunction (if the clause was non-empty) and its predicate. */
  lemma OneCall(clause: string, andOr: string, c: Call, esc: string -> string)
    ensures WhereOrHavingText(clause, andOr, [(c.key, c.value)], c.operator, c.backtick, esc)
         == clause + Conjunction(clause, andOr) + CallPredicate(c, esc)
  {
    var single := Prefixed(Conjunction(clause, andOr), Predicates([(c.key, c.value)], c.operator, c.backtick, esc));
    assert single == [Conjunction(clause, andOr) + CallPredicate(c, esc)];
  }

  /** At least one scalar call leaves a non-empty clause: a predicate is never empty. */
  lemma ChainNonEmpty(clause: string, chain: seq<Chained>, esc: string -> string)
    requires chain != []
    ensures ApplyChain(clause, chain, esc) != ""
  {
    var last := chain[|chain| - 1];
    OneCall(ApplyChain(clause, chain[..|chain| - 1], esc), last.andOr, last.call, esc);
    PredicateNonEmpty(last.call.key, last.call.value, last.call.operator, last.call.backtick, esc);
  }

  /** What call `i` of a chain contributes on a clause that started empty. */
  function ChainPiece(chain: seq<Chained>, i: nat, esc: string -> string): string
    requires i < |chain|
  {
    (if i == 0 then "" else " " + chain[i].andOr + " ") + CallPredicate(chain[i].call, esc)
  }

  /** What every call of a chain contributes, in call order. */
  function ChainPieces(chain: seq<Chained>, esc: string -> string): (r: seq<string>)
    ensures |r| == |chain|
  {
    seq(|chain|, i requires 0 <= i < |chain| => ChainPiece(chain, i, esc))
  }

  /** Dropping the last call drops the last piece. */
  lemma ChainPiecesFront(chain: seq<Chained>, esc: string -> string)
    requires chain != []
    ensures ChainPieces(chain, esc)[..|chain| - 1] == ChainPieces(chain[..|chain| - 1], esc)
  {
  }

  /**
   * Any mix of scalar `where` and `orWhere` calls (or `having` and `orHaving`
   * calls) on an empty clause: the first predicate, then each later predicate
   * behind its own call's conjunction, in call order. The first call's
   * conjunction never appears.
   */
  lemma {:induction false} MixedCallsJoin(chain: seq<Chained>, esc: string -> string)
    ensures ApplyChain("", chain, esc) == Implode(ChainPieces(chain, esc), "")
    decreases |chain|
  {
    var n := |chain|;
    if n > 0 {
      var front := chain[..n - 1];
      var last := chain[n - 1];
      var pieces := ChainPieces(chain, esc);
      MixedCallsJoin(front, esc);
      var prev := ApplyChain("", front, esc);
      ChainPiecesFront(chain, esc);
      ImplodeEmptyGlueStep(pieces, n - 1);
      assert pieces[..n] == pieces;
      OneCall(prev, last.andOr, last.call, esc);
      if n > 1 {
        ChainNonEmpty("", front, esc);
      }
      ConcatAssociates(prev, Conjunction(prev, last.andOr), CallPredicate(last.call, esc));
    }
  }

  /** The parts with the glue in front of every one but the first. */
  function GlueBefore(ps: seq<string>, glue: string): (r: seq<string>)
    ensures |r| == |ps|
  {
    seq(|ps|, i requires 0 <= i < |ps| => (if i == 0 then "" else glue) + ps[i])
  }

  /** Putting the glue in front of every part but the first and concatenating is `implode`. */
  lemma {:induction false} GlueBeforeIsImplode(ps: seq<string>, glue: string)
    ensures Implode(GlueBefore(ps, glue), "") == Implode(ps, glue)
    decreases |ps|
  {
    var n := |ps|;
    var pieces := GlueBefore(ps, glue);
    if n > 1 {
      var front := ps[..n - 1];
      GlueBeforeIsImplode(front, glue);
      assert pieces[..n - 1] == GlueBefore(front, glue);
      ImplodeEmptyGlueStep(pieces, n - 1);
      assert pieces[..n] == pieces;
      ConcatAssociates(Implode(front, glue), glue, ps[n - 1]);
    } else if n == 1 {
      assert pieces[0] == "" + ps[0] == ps[0];
      assert pieces == [ps[0]];
    }
  }

  /**
   * Scalar calls that all use one conjunction (only `where`, or only `orWhere`,
   * `having`, `orHaving`) on an empty clause leave their predicates, in call
   * order, glued by that conjunction.
   */
  lemma {:induction false} ScalarCallsJoin(andOr: string, calls: seq<Call>, esc: string -> string)
    ensures ApplyChain("", seq(|calls|, i requires 0 <= i < |calls| => Chained(andOr, calls[i])), esc)
         == Implode(seq(|calls|, i requires 0 <= i < |calls| => CallPredicate(calls[i], esc)), " " + andOr + " ")
  {
    var n := |calls|;
    var chain := seq(n, i requires 0 <= i < n => Chained(andOr, calls[i]));
    var ps := seq(n, i requires 0 <= i < n => CallPredicate(calls[i], esc));
    var glue := " " + andOr + " ";
    MixedCallsJoin(chain, esc);
    assert ChainPieces(chain, esc) == GlueBefore(ps, glue);
    GlueBeforeIsImplode(ps, glue);
  }



  /** The value `set` stores: escaped unless escaping is switched off. */
  function Stored(value: string, escape: bool, esc: string -> string): string
  {
    if escape then esc(value) else value
  }

  /** `$set` after writing the pairs of `data` in order. */
  function SetAll(p: Pairs, data: Pairs, escape: bool, esc: string -> string): Pairs
    decreases |data|
  {
    if data == [] then p
    else
      var last := data[|data| - 1];
      Put(SetAll(p, data[..|data| - 1], escape, esc), last.0, Stored(last.1, escape, esc))
  }

  /** Writing the pairs of `data` up to `i` and then pair `i`. */
  lemma SetAllStep(p: Pairs, data: Pairs, i: nat, escape: bool, esc: string -> string)
    requires i < |data|
    ensures SetAll(p, data[..i + 1], escape, esc)
         == Put(SetAll(p, data[..i], escape, esc), data[i].0, Stored(data[i].1, escape, esc))
  {
    assert data[..i + 1][..i] == data[..i];
  }

  /** The value `data` gives to key `k` last, if any. */
  function LastValue(data: Pairs, k: string): Option<string>
    decreases |data|
  {
    if data == [] then None
    else if data[|data| - 1].0 == k then Some(data[|data| - 1].1)
    else LastValue(data[..|data| - 1], k)
  }

  /** After `set`, a key of `data` holds its last value (stored), every other key its old value. */
  lemma {:induction false} SetAllLookup(p: Pairs, data: Pairs, escape: bool, esc: string -> string, k: string)
    ensures Lookup(SetAll(p, data, escape, esc), k)
         == match LastValue(data, k)
            case Some(v) => Some(Stored(v, escape, esc))
            case None => Lookup(p, k)
    decreases |data|
  {
    if data != [] {
      var last := data[|data| - 1];
      SetAllLookup(p, data[..|data| - 1], escape, esc, k);
      PutLookup(SetAll(p, data[..|data| - 1], escape, esc), last.0, Stored(last.1, escape, esc), k);
    }
  }

  /** `set` never reorders keys already present: the old keys stay a prefix. */
  lemma {:induction false} SetAllKeepsOrder(p: Pairs, data: Pairs, escape: bool, esc: string -> string)
    ensures Keys(p) <= Keys(SetAll(p, data, escape, esc))
    decreases |data|
  {
    if data != [] {
      var last := data[|data| - 1];
      SetAllKeepsOrder(p, data[..|data| - 1], escape, esc);
      PutKeys(SetAll(p, data[..|data| - 1], escape, esc), last.0, Stored(last.1, escape, esc));
    }
  }
}
