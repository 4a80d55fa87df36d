/**
 * Whole call sequences on one builder object and the statements they send,
 * for the behaviours the builder documents by example. Escaping is left
 * abstract; each scenario only assumes it keeps its own plain values.
 */
module Scenarios {
  import opened Strings
  import opened PhpArray
  import opened QueryConstructor
  import opened Execute
  import opened Database

  /** `select()` then `get("users")` sends `SELECT * FROM users`. */
  lemma SelectStarFromUsers()
    ensures SelectStatement(FromTable(DefaultQueryString().With(Select, "*"), "users")) == "SELECT * FROM users"
  {
    MissingFirstChar("*", "SELECT");
    UsersFacts();
    GetWithSelect("*", "users");
    SelectStarText();
  }

  lemma SelectStarText()
    ensures "SELECT " + "*" + " FROM " + "users" == "SELECT * FROM users"
  {
  }

  /** `select()` then `get("users")` on a new object. */
  method SelectAllUsers(esc: string -> string) returns (statement: string)
    ensures statement == "SELECT * FROM users"
  {
    var db := new Database(esc);
    db.Select("*");
    statement := db.Get("users");
    SelectStarFromUsers();
  }

  /** `selectMax("age", "oldest")` stores `MAX(age) as oldest`. */
  lemma MaxAgeSelect()
    ensures Aggregate("MAX", "age", "oldest") == "MAX(age) as oldest"
  {
    MissingFirstChar("age", "SELECT");
    assert "MAX" + "(" + "age" + ") as " + "oldest" == "MAX(age) as oldest";
  }

  lemma MaxAgeNoKeyword()
    ensures !Contains("MAX(age) as oldest", "SELECT")
  {
    MissingFirstChar("MAX(age) as oldest", "SELECT");
  }

  lemma MaxAgeText()
    ensures "SELECT " + "MAX(age) as oldest" + " FROM " + "users" == "SELECT MAX(age) as oldest FROM users"
  {
  }

  /** `get("users")` on SELECT `MAX(age) as oldest`. */
  lemma MaxAgeGet()
    ensures SelectStatement(FromTable(DefaultQueryString().With(Select, "MAX(age) as oldest"), "users"))
         == "SELECT MAX(age) as oldest FROM users"
  {
    MaxAgeNoKeyword();
    UsersFacts();
    MaxAgeText();
    GetWithSelect("MAX(age) as oldest", "users");
  }

  lemma UsersFacts()
    ensures !Contains("users", "FROM") && "users"[|"users"| - 1] !in TrimChars
  {
    MissingFirstChar("users", "FROM");
    assert "users"[|"users"| - 1] == 's';
  }

  /** `selectMax("age", "oldest")` then `get("users")`. */
  lemma MaxAgeStatement()
    ensures SelectStatement(FromTable(DefaultQueryString().With(Select, Aggregate("MAX", "age", "oldest")), "users"))
         == "SELECT MAX(age) as oldest FROM users"
  {
    MaxAgeSelect();
    MaxAgeGet();
  }

  /** `selectMax("age", "oldest")->get("users")` on a new object. */
  method OldestUser(esc: string -> string) returns (statement: string)
    ensures statement == "SELECT MAX(age) as oldest FROM users"
  {
    var db := new Database(esc);
    db.SelectMax("age", "oldest");
    statement := db.Get("users");
    MaxAgeStatement();
  }

  /** The WHERE text of `where(["age" => "30"], "", ">=")` on an empty WHERE. */
  lemma AgeAtLeastWhere(esc: string -> string)
    requires esc("30") == "30"
    ensures WhereOrHavingText("", "AND", [("age", "30")], ">=", true, esc) == "`age` >= '30'"
  {
    AgePredicate(esc);
    OneCall("", "AND", Call("age", "30", ">=", true), esc);
  }

  /** The predicate of `where("age", "30", ">=")`. */
  lemma AgePredicate(esc: string -> string)
    requires esc("30") == "30"
    ensures CallPredicate(Call("age", "30", ">=", true), esc) == "`age` >= '30'"
  {
    AgePredicateText();
    QuotedKeyPredicate("age", "30", ">=", esc);
  }

  lemma AgePredicateText()
    ensures "`" + "age" + "` " + ">=" + " '" + "30" + "'" == "`age` >= '30'"
  {
  }

  /** `where(["age" => "30"], "", ">=")` then `get("users")`. */
  lemma AgeAtLeastStatement(esc: string -> string)
    requires esc("30") == "30"
    ensures SelectStatement(FromTable(DefaultQueryString().With(Where,
              WhereOrHavingText("", "AND", [("age", "30")], ">=", true, esc)), "users"))
         == "SELECT * FROM users WHERE `age` >= '30'"
  {
    AgeAtLeastGet();
    AgeAtLeastWhere(esc);
  }

  /** `get("users")` on WHERE `` `age` >= '30' ``. */
  lemma AgeAtLeastGet()
    ensures SelectStatement(FromTable(DefaultQueryString().With(Where, "`age` >= '30'"), "users"))
         == "SELECT * FROM users WHERE `age` >= '30'"
  {
    AgeAtLeastNoKeyword();
    AgeAtLeastLastChar();
    UsersFacts();
    AgeAtLeastText();
    GetWithOneClause(Where, "`age` >= '30'", "users");
  }

  lemma AgeAtLeastNoKeyword()
    ensures !Contains("`age` >= '30'", Keyword(Where))
  {
    MissingFirstChar("`age` >= '30'", "WHERE");
  }



  lemma AgeAtLeastLastChar()
    ensures var w := "`age` >= '30'"; w != "" && w[|w| - 1] !in TrimChars
  {
    var w := "`age` >= '30'";
    assert w[|w| - 1] == '\'';
  }

  lemma AgeAtLeastText()
    ensures "SELECT * FROM " + "users" + " " + Keyword(Where) + " " + "`age` >= '30'"
         == "SELECT * FROM users WHERE `age` >= '30'"
  {
  }

  /** `where(["age" => "30"], "", ">=")->get("users")` on a new object. */
  method UsersAtLeast30(esc: string -> string) returns (statement: string)
    requires esc("30") == "30"
    ensures statement == "SELECT * FROM users WHERE `age` >= '30'"
  {
    var db := new Database(esc);
    db.Where(Many([("age", "30")]), "", ">=", true);
    statement := db.Get("users");
    AgeAtLeastStatement(esc);
  }

  /** The WHERE text of `where("id", "1")->orWhere("id", "2")` on an empty WHERE. */
  lemma IdOneOrTwoWhere(esc: string -> string)
    requires esc("1") == "1" && esc("2") == "2"
    ensures WhereOrHavingText(WhereOrHavingText("", "AND", [("id", "1")], "=", true, esc),
                              "OR", [("id", "2")], "=", true, esc)
         == "`id` = '1' OR `id` = '2'"
  {
    IdOneWhere(esc);
    IdOrTwoWhere(esc);
  }

  /** The WHERE text of `where("id", "1")` on an empty WHERE. */
  lemma IdOneWhere(esc: string -> string)
    requires esc("1") == "1"
    ensures WhereOrHavingText("", "AND", [("id", "1")], "=", true, esc) == "`id` = '1'"
  {
    OneCall("", "AND", Call("id", "1", "=", true), esc);
    QuotedKeyPredicate("id", "1", "=", esc);
  }

  /** `orWhere("id", "2")` on WHERE `` `id` = '1' ``. */
  lemma IdOrTwoWhere(esc: string -> string)
    requires esc("2") == "2"
    ensures WhereOrHavingText("`id` = '1'", "OR", [("id", "2")], "=", true, esc) == "`id` = '1' OR `id` = '2'"
  {
    IdOrTwoText();
    OneCall("`id` = '1'", "OR", Call("id", "2", "=", true), esc);
    QuotedKeyPredicate("id", "2", "=", esc);
  }

  /** The same mixed chain read through `ApplyChain`: the second call keeps its own `OR`. */
  lemma IdOneOrTwoChain(esc: string -> string)
    requires esc("1") == "1" && esc("2") == "2"
    ensures ApplyChain("", [Chained("AND", Call("id", "1", "=", true)), Chained("OR", Call("id", "2", "=", true))], esc)
         == "`id` = '1' OR `id` = '2'"
  {
    var chain := [Chained("AND", Call("id", "1", "=", true)), Chained("OR", Call("id", "2", "=", true))];
    assert chain[..1] == [chain[0]] && chain[..1][..0] == [];
    IdOneWhere(esc);
    IdOrTwoWhere(esc);
  }

  lemma IdOrTwoText()
    ensures "`id` = '1'" + Conjunction("`id` = '1'", "OR") + "`id` = '2'" == "`id` = '1' OR `id` = '2'"
  {
  }

  /** `where("id", "1")->orWhere("id", "2")->get("t")`. */
  lemma IdOneOrTwoStatement(esc: string -> string)
    requires esc("1") == "1" && esc("2") == "2"
    ensures SelectStatement(FromTable(DefaultQueryString().With(Where,
              WhereOrHavingText(WhereOrHavingText("", "AND", [("id", "1")], "=", true, esc),
                                "OR", [("id", "2")], "=", true, esc)), "t"))
         == "SELECT * FROM t WHERE `id` = '1' OR `id` = '2'"
  {
    IdOneOrTwoGet();
    IdOneOrTwoWhere(esc);
  }

  /** `get("t")` on WHERE `` `id` = '1' OR `id` = '2' ``. */
  lemma IdOneOrTwoGet()
    ensures SelectStatement(FromTable(DefaultQueryString().With(Where, "`id` = '1' OR `id` = '2'"), "t"))
         == "SELECT * FROM t WHERE `id` = '1' OR `id` = '2'"
  {
    IdOneOrTwoNoKeyword();
    IdOneOrTwoLastChar();
    TFacts();
    IdOneOrTwoText();
    GetWithOneClause(Where, "`id` = '1' OR `id` = '2'", "t");
  }

  /**
   * The same fact as `AgeAtLeastNoKeyword` for another text. A single lemma over
   * any text without `W` is not used: applied to a literal inside `IdOneOrTwoGet`
   * it makes that proof run out of resource.
   */
  lemma IdOneOrTwoNoKeyword()
    ensures !Contains("`id` = '1' OR `id` = '2'", Keyword(Where))
  {
    MissingFirstChar("`id` = '1' OR `id` = '2'", "WHERE");
  }

  lemma IdOneOrTwoLastChar()
    ensures var w := "`id` = '1' OR `id` = '2'"; w != "" && w[|w| - 1] !in TrimChars
  {
    var w := "`id` = '1' OR `id` = '2'";
    assert w[|w| - 1] == '\'';
  }

  lemma IdOneOrTwoText()
    ensures "SELECT * FROM " + "t" + " " + Keyword(Where) + " " + "`id` = '1' OR `id` = '2'"
         == "SELECT * FROM t WHERE `id` = '1' OR `id` = '2'"
  {
  }

  /** `where("id", "1")->orWhere("id", "2")->get("t")` on a new object. */
  method IdOneOrTwo(esc: string -> string) returns (statement: string)
    requires esc("1") == "1" && esc("2") == "2"
    ensures statement == "SELECT * FROM t WHERE `id` = '1' OR `id` = '2'"
  {
    var db := new Database(esc);
    db.Where(One("id"), "1", "=", true);
    db.OrWhere(One("id"), "2", "=", true);
    statement := db.Get("t");
    IdOneOrTwoStatement(esc);
  }

  /** `join("b", "a.id = b.id", "left")` on an empty JOIN. */
  lemma LeftJoinFragment()
    ensures Append("", JoinFragment("b", "a.id = b.id", "left"), " ")
         == "LEFT JOIN b ON a.id = b.id"
  {
    LeftUpper();
    assert "LEFT" + " JOIN " + "b" + " ON " + "a.id = b.id"
        == "LEFT JOIN b ON a.id = b.id";
  }

  lemma LeftUpper()
    ensures Upper("left") == "LEFT"
  {
    var u := Upper("left");
    assert u[0] == 'L' && u[1] == 'E' && u[2] == 'F' && u[3] == 'T';
  }

  /** The fragment holds the keyword, so `get` emits it verbatim. */
  lemma LeftJoinHoldsKeyword()
    ensures Contains("LEFT JOIN b ON a.id = b.id", Keyword(Join))
  {
    LeftJoinPieces();
    ContainsInfix("LEFT ", "JOIN", " b ON a.id = b.id");
  }

  lemma LeftJoinPieces()
    ensures "LEFT " + "JOIN" + " b ON a.id = b.id" == "LEFT JOIN b ON a.id = b.id"
  {
  }

  lemma LeftJoinLastChar()
    ensures var j := "LEFT JOIN b ON a.id = b.id"; j[|j| - 1] !in TrimChars
  {
    var j := "LEFT JOIN b ON a.id = b.id";
    assert j[|j| - 1] == 'd';
  }

  lemma LeftJoinText()
    ensures "SELECT * FROM " + "a" + " " + "LEFT JOIN b ON a.id = b.id"
         == "SELECT * FROM a LEFT JOIN b ON a.id = b.id"
  {
  }

  /** `get("a")` on JOIN `LEFT JOIN b ON a.id = b.id`. */
  lemma LeftJoinGet()
    ensures SelectStatement(FromTable(DefaultQueryString().With(Join, "LEFT JOIN b ON a.id = b.id"), "a"))
         == "SELECT * FROM a LEFT JOIN b ON a.id = b.id"
  {
    LeftJoinHoldsKeyword();
    LeftJoinLastChar();
    AFacts();
    LeftJoinText();
    GetWithVerbatimClause(Join, "LEFT JOIN b ON a.id = b.id", "a");
  }

  /** `join("b", "a.id = b.id", "left")` then `get("a")`. */
  lemma LeftJoinStatement()
    ensures SelectStatement(FromTable(DefaultQueryString().With(Join,
              Append("", JoinFragment("b", "a.id = b.id", "left"), " ")), "a"))
         == "SELECT * FROM a LEFT JOIN b ON a.id = b.id"
  {
    LeftJoinFragment();
    LeftJoinGet();
  }

  /** `join("b", "a.id = b.id", "left")->get("a")` on a new object. */
  method JoinLeft(esc: string -> string) returns (statement: string)
    ensures statement == "SELECT * FROM a LEFT JOIN b ON a.id = b.id"
  {
    var db := new Database(esc);
    db.Join("b", "a.id = b.id", "left");
    statement := db.Get("a");
    LeftJoinStatement();
  }

  lemma TFacts()
    ensures !Contains("t", "FROM") && "t"[|"t"| - 1] !in TrimChars
  {
    MissingFirstChar("t", "FROM");
    assert "t"[|"t"| - 1] == 't';
  }

  lemma AFacts()
    ensures !Contains("a", "FROM") && "a"[|"a"| - 1] !in TrimChars
  {
    MissingFirstChar("a", "FROM");
    assert "a"[|"a"| - 1] == 'a';
  }

  /** `orderBy("age", "desc")` on an empty ORDER BY. */
  lemma AgeDescTerm()
    ensures Append("", OrderTerm("age", "desc"), ", ") == "age DESC"
  {
    var u := Upper("desc");
    assert u[0] == 'D' && u[1] == 'E' && u[2] == 'S' && u[3] == 'C';
    assert u == "DESC";
  }

  lemma AgeDescNoKeyword()
    ensures !Contains("age DESC", Keyword(OrderBy))
  {
    MissingFirstChar("age DESC", "ORDER BY");
  }

  lemma AgeDescLastChar()
    ensures var o := "age DESC"; o[|o| - 1] !in TrimChars
  {
    var o := "age DESC";
    assert o[|o| - 1] == 'C';
  }

  lemma AgeDescText()
    ensures "SELECT * FROM " + "users" + " " + Keyword(OrderBy) + " " + "age DESC"
         == "SELECT * FROM users ORDER BY age DESC"
  {
  }

  /** `get("users")` on ORDER BY `age DESC`. */
  lemma AgeDescGet()
    ensures SelectStatement(FromTable(DefaultQueryString().With(OrderBy, "age DESC"), "users"))
         == "SELECT * FROM users ORDER BY age DESC"
  {
    AgeDescNoKeyword();
    AgeDescLastChar();
    UsersFacts();
    AgeDescText();
    GetWithOneClause(OrderBy, "age DESC", "users");
  }

  /** `orderBy("age", "desc")` then `get("users")`: the direction is upper-cased. */
  lemma AgeDescStatement()
    ensures SelectStatement(FromTable(DefaultQueryString().With(OrderBy,
              Append("", OrderTerm("age", "desc"), ", ")), "users"))
         == "SELECT * FROM users ORDER BY age DESC"
  {
    AgeDescTerm();
    AgeDescGet();
  }

  /** `orderBy("age", "desc")->get("users")` on a new object. */
  method UsersByAgeDesc(esc: string -> string) returns (statement: string)
    ensures statement == "SELECT * FROM users ORDER BY age DESC"
  {
    var db := new Database(esc);
    db.OrderBy("age", "desc");
    statement := db.Get("users");
    AgeDescStatement();
  }

  /** `set("name", "Ann")->set("age", "30")` on an empty `$set`, then `insert("users")`. */
  lemma AnnInsertStatement(esc: string -> string)
    requires esc("Ann") == "Ann" && esc("30") == "30"
    ensures InsertStatement("users", Put(Put([], "name", esc("Ann")), "age", esc("30")))
         == "INSERT INTO users (name,age) VALUES ('Ann','30')"
  {
    AnnPairs(esc);
    InsertTwoColumns("users", "name", "Ann", "age", "30");
    AnnInsertText();
  }

  lemma AnnPairs(esc: string -> string)
    requires esc("Ann") == "Ann" && esc("30") == "30"
    ensures Put(Put([], "name", esc("Ann")), "age", esc("30")) == [("name", "Ann"), ("age", "30")]
  {
    assert Put([], "name", esc("Ann")) == [("name", "Ann")];
  }

  lemma AnnInsertText()
    ensures "INSERT INTO " + "users" + " (" + "name" + "," + "age" + ") VALUES ('" + "Ann" + "','" + "30" + "')"
         == "INSERT INTO users (name,age) VALUES ('Ann','30')"
  {
  }

  /** `set("name", "Ann")->set("age", "30")->insert("users")` on a new object. */
  method InsertAnn(esc: string -> string) returns (statement: string)
    requires esc("Ann") == "Ann" && esc("30") == "30"
    ensures statement == "INSERT INTO users (name,age) VALUES ('Ann','30')"
  {
    var db := new Database(esc);
    db.Set(One("name"), "Ann", true);
    db.Set(One("age"), "30", true);
    assert db.setPairs == Put(Put([], "name", esc("Ann")), "age", esc("30"));
    statement := db.Insert("users", One(""));
    AnnInsertStatement(esc);
  }

  /** `insert("u")` of the one pair `set("a", "1")` left in `$set`. */
  lemma PendingSetInsertStatement(esc: string -> string)
    requires esc("1") == "1"
    ensures InsertStatement("u", Put([], "a", esc("1"))) == "INSERT INTO u (a) VALUES ('1')"
  {
    assert Put([], "a", esc("1")) == [("a", "1")];
    InsertOneColumn("u", "a", "1");
    PendingSetInsertText();
  }

  lemma PendingSetInsertText()
    ensures "INSERT INTO " + "u" + " (" + "a" + ") VALUES ('" + "1" + "')" == "INSERT INTO u (a) VALUES ('1')"
  {
  }

  /**
   * `set("a", "1")->get("t")->insert("u")`: `get` resets the clauses but not
   * `$set`, so the later `insert` still writes the pair.
   */
  method PendingSetSurvivesGet(esc: string -> string) returns (selected: string, statement: string)
    requires esc("1") == "1"
    ensures selected == "SELECT * FROM t"
    ensures statement == "INSERT INTO u (a) VALUES ('1')"
  {
    var db := new Database(esc);
    db.Set(One("a"), "1", true);
    assert db.setPairs == Put([], "a", esc("1"));
    TFacts();
    GetOnDefault("t");
    FromTText();
    selected := db.Get("t");
    statement := db.Insert("u", One(""));
    PendingSetInsertStatement(esc);
  }

  /** `limit("10", 20)` then `get("t")`: the offset comes first. */
  lemma LimitWithOffsetStatement()
    ensures SelectStatement(FromTable(DefaultQueryString().With(Limit, LimitText("10", 20)), "t"))
         == "SELECT * FROM t LIMIT 20, 10"
  {
    LimitWithOffsetLastChar();
    LimitWithOffsetNoKeyword();
    TFacts();
    LimitWithOffsetText();
    GetWithOneClause(Limit, "20, 10", "t");
  }

  lemma LimitWithOffsetLastChar()
    ensures var l := "20, 10"; l[|l| - 1] !in TrimChars
  {
    var l := "20, 10";
    assert l[|l| - 1] == '0';
  }

  lemma LimitWithOffsetNoKeyword()
    ensures !Contains("20, 10", Keyword(Limit))
  {
    MissingFirstChar("20, 10", "LIMIT");
  }

  /** `limit("10", 20)` stores the offset, then the limit. */
  lemma LimitWithOffsetText()
    ensures LimitText("10", 20) == "20, 10"
    ensures "SELECT * FROM " + "t" + " " + Keyword(Limit) + " " + "20, 10" == "SELECT * FROM t LIMIT 20, 10"
  {
    MissingFirstChar("10", "LIMIT");
    assert IntToString(20) == "20";
  }

  /** `limit("10", 20)->get("t")` on a new object. */
  method LimitWithOffset(esc: string -> string) returns (statement: string)
    ensures statement == "SELECT * FROM t LIMIT 20, 10"
  {
    var db := new Database(esc);
    db.Limit("10", 20);
    statement := db.Get("t");
    LimitWithOffsetStatement();
  }

  /** Two `get("t")` calls in a row send the same statement, `SELECT * FROM t`. */
  method GetTwice(esc: string -> string) returns (first: string, second: string)
    ensures first == second == "SELECT * FROM t"
  {
    TFacts();
    GetOnDefault("t");
    FromTText();
    var db := new Database(esc);
    first := db.Get("t");
    second := db.Get("t");
  }

  lemma FromTText()
    ensures "SELECT * FROM " + "t" == "SELECT * FROM t"
  {
  }
}
