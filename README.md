# Ruckbeard database builder: a Dafny model

This project models the query builder of `Ruckbeard\Database`. It has three parts:

- **`QueryConstructor`**: a chainable object that accumulates the text of eight SQL clauses, always visited in the order SELECT, FROM, JOIN, WHERE, GROUP BY, HAVING, ORDER BY, LIMIT. It also keeps an ordered `set` array of column/value pairs.
- **`Execute`**: turns that state into one SQL statement for `get`, `insert`, `update` or `delete`. It sends the statement to the driver, records it as the last query, and resets the clause state. Only `insert` and `update` also clear `set`.
- **`Query`**: the result cursor. It drains the driver's result handle into an owned row array and moves a position over it.

Modules:

- `Wrappers`: `Option`.
- `Strings`: the PHP string functions the builder uses.
  - `strstr` becomes `Contains`/`StrStr`.
  - `strtoupper` becomes `Upper`.
  - `trim` becomes `Trim`; it strips PHP's default character set.
  - `implode` becomes `Implode`.
  - `strrpos` becomes `LastIndexOf`.
  - Integer-to-string conversion becomes `IntToString`.
- `PhpArray`: an ordered string-keyed PHP array, as a sequence of pairs with distinct keys. Writing an existing key keeps its place; writing a new key goes at the end.
- `QueryConstructor`: the clause state as a datatype. It holds what each builder call writes, as functions, plus lemmas about them.
- `Execute`: the assembled statements as functions of the state. The loop of `get` and the loop of `update` are methods proved against those functions.
- `Database`: the builder object, a `class` whose methods update `queryString`, `setPairs`, `lastStatement` and a ghost `log` of sent statements. PHP's inheritance chain `QueryConstructor` ← `Execute` is collapsed into this one class.
- `Query`: the cursor, a `class` with the undelivered handle rows, the fetched rows and an explicit position that stands for PHP's internal array pointer.
- `Scenarios`: whole call sequences on a new object and the exact statements they send.

Other modelling choices:

- The escape function (`real_escape_string`) is a parameter `escape: string -> string`, left uninterpreted. Scenarios only require that it keeps their own plain values.
- The driver call `$this->link->query` appends the statement to `log` and sets `lastStatement`.

## Model

| member | source | states |
|---|---|---|
| QueryConstructor.DefaultQueryString | src/Ruckbeard/Database/QueryConstructor.php:8-17 | The initial clause state: SELECT is `SELECT *` and every other clause is empty. |
| QueryConstructor.QueryString.With | src/Ruckbeard/Database/QueryConstructor.php:53 | Writing one clause gives it the new text and keeps every other clause. |
| QueryConstructor.ClauseOrderComplete | src/Ruckbeard/Database/QueryConstructor.php:8-17 | The fixed clause order SELECT…LIMIT visits every clause exactly once. |
| Database.Database.constructor | src/Ruckbeard/Database/QueryConstructor.php:7-19 | A new object has the default clause state, no pending pairs, an empty last query and no statement sent. |
| Database.Database.LastQuery | src/Ruckbeard/Database/QueryConstructor.php:36-39 | `lastQuery()` returns the most recently sent statement, or `""` before the first. |
| Database.Database.GetQueryString | src/Ruckbeard/Database/QueryConstructor.php:41-44 | It returns the current clause state. |
| Database.Database.Select | src/Ruckbeard/Database/QueryConstructor.php:51-56 | SELECT becomes the argument verbatim; the other clauses and `set` are unchanged. |
| Database.Database.MaxMinAvgSum | src/Ruckbeard/Database/QueryConstructor.php:66-79 | SELECT becomes the aggregate `x(s) as v`, or `x(s)` when the alias is empty. When `s` contains `SELECT`, SELECT becomes `s` verbatim. Nothing else changes. |
| Database.Database.SelectMax | src/Ruckbeard/Database/QueryConstructor.php:82-85 | It is the `MAX` aggregate of `maxMinAvgSum`. |
| Database.Database.SelectMin | src/Ruckbeard/Database/QueryConstructor.php:87-90 | It is the `MIN` aggregate of `maxMinAvgSum`. |
| Database.Database.SelectAvg | src/Ruckbeard/Database/QueryConstructor.php:92-95 | It is the `AVG` aggregate of `maxMinAvgSum`. |
| Database.Database.SelectSum | src/Ruckbeard/Database/QueryConstructor.php:97-100 | It is the `SUM` aggregate of `maxMinAvgSum`. |
| Database.Database.From | src/Ruckbeard/Database/QueryConstructor.php:107-112 | FROM becomes the argument verbatim; nothing else changes. |
| Database.Database.Join | src/Ruckbeard/Database/QueryConstructor.php:121-136 | JOIN gains one fragment, preceded by a space only when JOIN was non-empty. The fragment is `prefix table ON cols`, or the table alone when `cols` is empty. `prefix` is `JOIN `, or the upper-cased parameter followed by ` JOIN `. |
| QueryConstructor.AppendAllIsImplode | src/Ruckbeard/Database/QueryConstructor.php:129-133 | Appending non-empty pieces one call at a time to an empty JOIN, GROUP BY or ORDER BY clause gives the pieces joined by the separator. |
| Database.Database.WhereOrHaving | src/Ruckbeard/Database/QueryConstructor.php:148-179 | Only the targeted clause changes. It gains every predicate of the call, each behind the same prefix. The prefix is decided by whether the clause was empty when the call began. |
| Database.Database.BuildPredicates | src/Ruckbeard/Database/QueryConstructor.php:154-172 | The first loop collects, in array order, the prefix followed by the predicate of each entry. |
| Database.Database.PredicateText | src/Ruckbeard/Database/QueryConstructor.php:159-171 | The key is backticked only when backticks are on and the value is non-empty. `" " + operator` is added only when the key has none of `! = < >`. The value becomes `" '" + escape(value) + "'"` only when non-empty. |
| Database.Database.AppendRows | src/Ruckbeard/Database/QueryConstructor.php:174-176 | The second loop appends all collected rows, in order, to the target clause and to nothing else. |
| QueryConstructor.MapCallOnEmptyClause | src/Ruckbeard/Database/QueryConstructor.php:156-176 | On an empty clause, all entries of one array-valued call get the prefix `""`, so their predicates are simply juxtaposed. |
| QueryConstructor.MapCallOnNonEmptyClause | src/Ruckbeard/Database/QueryConstructor.php:156-176 | On a non-empty clause, every entry of one call is joined by ` AND ` or ` OR `. |
| QueryConstructor.TwoEntriesOnEmptyClause | src/Ruckbeard/Database/QueryConstructor.php:156-176 | A two-entry array on an empty clause leaves the two predicates concatenated with no conjunction. |
| QueryConstructor.OneCall | src/Ruckbeard/Database/QueryConstructor.php:150-176 | A scalar call appends the conjunction when the clause was non-empty, then its predicate. |
| QueryConstructor.MixedCallsJoin | src/Ruckbeard/Database/QueryConstructor.php:187-201 | Any mix of scalar `where` and `orWhere` calls (each with its own `AND` or `OR`) on an empty clause leaves the first predicate, then every later predicate behind its own call's conjunction, in call order. The first call's conjunction never appears. |
| QueryConstructor.ChainNonEmpty | src/Ruckbeard/Database/QueryConstructor.php:150-176 | After at least one scalar call the clause is non-empty, so every later call is joined by its conjunction. |
| QueryConstructor.ScalarCallsJoin | src/Ruckbeard/Database/QueryConstructor.php:187-201 | Scalar calls that all use the same conjunction, on an empty clause, leave their predicates in call order, glued by ` AND ` (or ` OR `). |
| QueryConstructor.GlueBeforeIsImplode | src/Ruckbeard/Database/QueryConstructor.php:156-176 | Putting the conjunction in front of every predicate but the first and concatenating is `implode` with that conjunction. |
| QueryConstructor.QuotedKeyPredicate | src/Ruckbeard/Database/QueryConstructor.php:159-171 | When the key has none of `! = < >` and the value is non-empty, a backticked predicate is ``"`key` " + operator + " '" + escape(value) + "'"``, for any escape function. |
| QueryConstructor.OperatorKeyPredicate | src/Ruckbeard/Database/QueryConstructor.php:159-171 | When the key already holds one of `! = < >`, the operator argument is dropped. The key is backticked only when backticks are on and the value is non-empty, and is followed by the quoted escaped value when there is one. |
| QueryConstructor.PredicateNonEmpty | src/Ruckbeard/Database/QueryConstructor.php:163-171 | A predicate is never empty. |
| Database.Database.Where | src/Ruckbeard/Database/QueryConstructor.php:187-190 | It is `whereOrHaving` on WHERE with `AND`. |
| Database.Database.OrWhere | src/Ruckbeard/Database/QueryConstructor.php:198-201 | It is `whereOrHaving` on WHERE with `OR`. |
| Database.Database.Having | src/Ruckbeard/Database/QueryConstructor.php:240-243 | It is `whereOrHaving` on HAVING with `AND`. |
| Database.Database.OrHaving | src/Ruckbeard/Database/QueryConstructor.php:251-254 | It is `whereOrHaving` on HAVING with `OR`. |
| Database.Database.GroupBy | src/Ruckbeard/Database/QueryConstructor.php:208-221 | A list replaces GROUP BY with the items joined by `", "`. A string is appended, preceded by `", "` only when GROUP BY was non-empty. Nothing else changes. |
| QueryConstructor.GroupByListIsColumnByColumn | src/Ruckbeard/Database/QueryConstructor.php:210-217 | Grouping by a list in one call equals adding the same columns one call at a time to an empty GROUP BY. |
| Database.Database.Distinct | src/Ruckbeard/Database/QueryConstructor.php:227-232 | SELECT becomes `SELECT DISTINCT ` followed by the part of SELECT from its first `SELECT ` on, or by nothing. |
| QueryConstructor.DistinctOfDefault | src/Ruckbeard/Database/QueryConstructor.php:229 | On the default SELECT, `distinct()` gives `SELECT DISTINCT SELECT *`. |
| QueryConstructor.DistinctDropsBareColumns | src/Ruckbeard/Database/QueryConstructor.php:229 | On a SELECT without `SELECT `, `distinct()` drops the column list. |
| Database.Database.OrderBy | src/Ruckbeard/Database/QueryConstructor.php:262-275 | ORDER BY gains the column, or `column DIR` with the direction upper-cased when one is given. It is preceded by `", "` only when ORDER BY was non-empty. |
| Database.Database.Limit | src/Ruckbeard/Database/QueryConstructor.php:283-292 | LIMIT becomes the argument verbatim when it contains `LIMIT`. Otherwise it becomes `offset, limit` when the offset is not -1, else `limit`. |
| Database.Database.ResetQueryString | src/Ruckbeard/Database/QueryConstructor.php:294-306 | The clause state becomes the default. |
| Database.Database.Set | src/Ruckbeard/Database/QueryConstructor.php:315-332 | `set` becomes the old pairs with each pair of the argument written in order. Values are escaped when escaping is on. A scalar counts as a one-pair array. Keys stay distinct. |
| Database.Database.SetEntry | src/Ruckbeard/Database/QueryConstructor.php:322-328 | One turn of the loop writes pair `i` and keeps the keys distinct. |
| Database.Database.WritePair | src/Ruckbeard/Database/QueryConstructor.php:327 | `$this->set[$key] = $value` overwrites that key, or appends it, and keeps the keys distinct. |
| PhpArray.Put | src/Ruckbeard/Database/QueryConstructor.php:327 | `$this->set[$key] = $value` adds at most one entry. |
| PhpArray.PutKeys | src/Ruckbeard/Database/QueryConstructor.php:327 | Writing a key keeps the key order; a new key goes at the end. |
| PhpArray.PutLookup | src/Ruckbeard/Database/QueryConstructor.php:327 | After writing `k`, `k` reads the new value and every other key reads what it read before. |
| PhpArray.PutDistinct | src/Ruckbeard/Database/QueryConstructor.php:327 | Writing a key keeps the keys distinct. |
| PhpArray.Lookup | src/Ruckbeard/Database/QueryConstructor.php:327 | A key is found exactly when it is among the keys. |
| PhpArray.Keys | src/Ruckbeard/Database/Execute.php:80 | `array_keys` lists the keys in array order. |
| PhpArray.Values | src/Ruckbeard/Database/Execute.php:81 | The values, in array order. |
| QueryConstructor.SetAllLookup | src/Ruckbeard/Database/QueryConstructor.php:315-332 | After `set`, each key reads the (escaped) value the argument gave it last, or its old value when the argument did not mention it. |
| QueryConstructor.SetAllKeepsOrder | src/Ruckbeard/Database/QueryConstructor.php:315-332 | `set` keeps the existing keys as a prefix in their order. |
| Database.Database.Query | src/Ruckbeard/Database/Execute.php:16-31 | The statement is sent (appended to the log) and becomes `last_query`. |
| Execute.AssembleClauses | src/Ruckbeard/Database/Execute.php:47-56 | The loop of `get` emits the clauses in the fixed order and skips empty ones. A clause containing its keyword is emitted alone; otherwise the keyword is put in front. Each emitted clause is followed by a space. |
| Execute.EmitPiece | src/Ruckbeard/Database/Execute.php:49-55 | One turn of that loop emits exactly the piece for its clause. |
| Execute.EmitFirstAll | src/Ruckbeard/Database/Execute.php:48 | Walking the clause array in its own order is walking SELECT…LIMIT. |
| Execute.EmittedSingleTail | src/Ruckbeard/Database/Execute.php:47-56 | When only SELECT, FROM and one other clause are set, exactly those three are emitted, in that order. |
| Database.Database.Get | src/Ruckbeard/Database/Execute.php:41-61 | It sends the trimmed assembly of the state after the optional FROM change. With an empty table name, the prior FROM is kept. The clause state is then the default, and `set` is left as it was (it is outside the method's frame). |
| Execute.GetOnDefault | src/Ruckbeard/Database/Execute.php:41-61 | `get("t")` on the default state sends `SELECT * FROM t`. |
| Execute.GetWithOneClause | src/Ruckbeard/Database/Execute.php:41-61 | `get("t")` with one more clause, whose text lacks its keyword, sends `SELECT * FROM t KEY text`. |
| Execute.GetWithVerbatimClause | src/Ruckbeard/Database/Execute.php:49-54 | `get("t")` with one more clause whose text holds its own keyword sends `SELECT * FROM t text`. The text is emitted verbatim, with no keyword in front. |
| Execute.GetWithSelect | src/Ruckbeard/Database/Execute.php:41-61 | `get("t")` after `select(s)`, where `s` lacks `SELECT`, sends `SELECT s FROM t`. |
| Execute.InsertStatementUntrimmed | src/Ruckbeard/Database/Execute.php:79-82 | The trim of `insert` never changes its text. |
| Execute.InsertTwoColumns | src/Ruckbeard/Database/Execute.php:79-81 | `insert` names the keys, then the values in the same `set` order. |
| Database.Database.Insert | src/Ruckbeard/Database/Execute.php:69-85 | It sends `INSERT INTO FROM (keys) VALUES ('values')` over the pending pairs after the optional `from` and `set`. Afterwards `set` is empty and the clause state is the default. |
| Execute.BuildSetText | src/Ruckbeard/Database/Execute.php:121-125 | The loop of `update` and its cut at the last comma give `SET k1 = 'v1',…,kn = 'vn'`. With no pairs pending they give `""`. |
| Execute.BuildUpdate | src/Ruckbeard/Database/Execute.php:121-129 | The statement is `UPDATE FROM SET-text`, followed by ` WHERE ` and WHERE only when WHERE is non-empty, then trimmed. |
| Execute.AssignmentsEndInQuote | src/Ruckbeard/Database/Execute.php:122-125 | A non-empty SET list ends in the closing quote of its last value. |
| Execute.UpdateWithPairs | src/Ruckbeard/Database/Execute.php:121-129 | With pairs pending, `update` sends `UPDATE t SET k1 = 'v1',…,kn = 'vn'` plus the WHERE part, untouched by the trim. |
| Database.Database.Update | src/Ruckbeard/Database/Execute.php:107-133 | It sends the UPDATE of the state after the optional `from`, `set` and `where`. Afterwards `set` is empty and the clause state is the default. |
| Database.Database.SetDataArgument | src/Ruckbeard/Database/Execute.php:75-77 | `set($data)` runs only when `data` is not the empty scalar. |
| Database.Database.WhereArgumentCall | src/Ruckbeard/Database/Execute.php:117-119 | `where($where)` runs only when `where` is non-empty. |
| Database.Database.Delete | src/Ruckbeard/Database/Execute.php:161-174 | It sends `DELETE FROM FROM`, followed by ` WHERE ` and WHERE only when WHERE is non-empty. It then resets the clause state and leaves `set` as it was. |
| Execute.DeleteStateOnDefault | src/Ruckbeard/Database/Execute.php:161-169 | On the default state, `delete(t, w)` has FROM `t` and WHERE exactly `w`, when `w` holds an operator. |
| Execute.DeleteStatementUntrimmed | src/Ruckbeard/Database/Execute.php:169-172 | The trim of `delete` keeps its text when the table and WHERE end in non-blank characters. |
| Execute.DeleteAfterReset | src/Ruckbeard/Database/Execute.php:161-174 | From the reset state, `delete(t, w)` sends `DELETE FROM t WHERE w`, or `DELETE FROM t` when `w` is empty. |
| Database.Database.DeleteEach | src/Ruckbeard/Database/Execute.php:151-158 | A list of tables sends one DELETE per table in list order, then resets. |
| Execute.DeleteList | src/Ruckbeard/Database/Execute.php:151-158 | A list of tables yields one statement per table. |
| Execute.DeleteListAt | src/Ruckbeard/Database/Execute.php:151-158 | Statement `i` is the delete of table `i`. Table 0 starts from the state the call found; every later table starts from the reset state. |
| Execute.DeleteListAfterFirst | src/Ruckbeard/Database/Execute.php:151-158 | Every table after the first gets exactly the `where` argument and nothing accumulated before. |
| Strings.Contains | src/Ruckbeard/Database/Execute.php:50 | `strstr($s, $sub) !== false` can hold only when `sub` is no longer than `s`. |
| Strings.ContainsIffOccurs | src/Ruckbeard/Database/QueryConstructor.php:285 | The substring test holds exactly when `sub` stands at some index of `s`. |
| Strings.Implode | src/Ruckbeard/Database/QueryConstructor.php:211 | `implode` puts the glue between consecutive parts. Its properties are the lemmas `ImplodeCons`, `TerminatedIsImplodeThenGlue` and `PrefixedIsGlueThenImplode`. |
| Strings.ImplodeCons | src/Ruckbeard/Database/Execute.php:80-81 | Read from the front, `implode` is the first part, then the glue and the other parts glued together. |
| Strings.PrefixedIsGlueThenImplode | src/Ruckbeard/Database/QueryConstructor.php:156-176 | Concatenating the parts, each behind the glue, is the glue followed by the `implode` of the parts. |
| Strings.IntToString | src/Ruckbeard/Database/QueryConstructor.php:286 | The string PHP makes of an integer is never empty. |
| Strings.IntToStringDecimal | src/Ruckbeard/Database/QueryConstructor.php:286 | An integer renders as `-` exactly when it is negative, followed by decimal digits with no leading zero that read back as its magnitude. |
| Strings.NatToStringDecimal | src/Ruckbeard/Database/QueryConstructor.php:286 | A natural number renders as decimal digits with no leading zero that read back as the number. |
| Strings.StrStr | src/Ruckbeard/Database/QueryConstructor.php:229 | `strstr` returns the suffix from the first occurrence, or `""` when there is none. |
| Strings.ContainsAnyAt | src/Ruckbeard/Database/QueryConstructor.php:163 | The one-class pattern `[!=<>]` matches exactly when some character is in the class. |
| Strings.Upper | src/Ruckbeard/Database/QueryConstructor.php:123 | `strtoupper` cases each character and keeps the length. |
| Strings.Trim | src/Ruckbeard/Database/Execute.php:60 | The result neither starts nor ends with one of the characters `trim` strips. That only those end characters are removed is `Strings.TrimIsInfix`. |
| Strings.TrimIsInfix | src/Ruckbeard/Database/Execute.php:60 | `trim` keeps an infix of its input: it starts at the index where the leading white space ends, and every character before or after it is one `trim` strips. |
| Strings.TrimStable | src/Ruckbeard/Database/Execute.php:60 | Trimming a text that starts and ends with non-blank characters keeps it. |
| Strings.TrimTrailingBlank | src/Ruckbeard/Database/Execute.php:60 | Trimming the trailing space that `get` leaves gives the text before it. |
| Strings.LastIndexOf | src/Ruckbeard/Database/Execute.php:125 | `strrpos` returns the last index holding the character, or none when it is absent. |
| Strings.TerminatedIsImplodeThenGlue | src/Ruckbeard/Database/Execute.php:122-124 | Writing each piece followed by a comma is the pieces joined by commas, plus one comma. |
| Query.Query.constructor | src/Ruckbeard/Database/Query.php:11-15 | A new cursor holds the handle, no fetched rows, and position 0. |
| Query.Query.FetchAll | src/Ruckbeard/Database/Query.php:25-34 | Every remaining handle row is appended, in fetch order, and the handle is left empty. |
| Query.Query.Result | src/Ruckbeard/Database/Query.php:22-37 | It returns every fetched row. A second call fetches nothing new and returns an equal sequence. |
| Query.Query.Row | src/Ruckbeard/Database/Query.php:39-54 | It drains as `result` does, then returns the row at `pos`, or nothing when `pos` holds no row. |
| Query.Item | src/Ruckbeard/Database/Query.php:46 | A row is returned exactly when the index holds one. |
| Query.HasNext | src/Ruckbeard/Database/Query.php:56-66 | `hasNext`: `next` on the array does not give `false`. Its meaning is `Query.HasNextIffRowFollows`. |
| Query.HasNextIffRowFollows | src/Ruckbeard/Database/Query.php:56-66 | `hasNext` holds exactly when `current` one position on gives a row. |
| Query.HasPrev | src/Ruckbeard/Database/Query.php:68-78 | `hasPrev`: `prev` on the array does not give `false`. Its meaning is `Query.HasPrevIffRowPrecedes`. |
| Query.HasPrevIffRowPrecedes | src/Ruckbeard/Database/Query.php:68-78 | From a position on or just past the rows, `hasPrev` holds exactly when the index one back holds a row. |
| Query.At | src/Ruckbeard/Database/Query.php:87 | `current` gives a row exactly when the position holds one. |
| Query.Query.NextRow | src/Ruckbeard/Database/Query.php:56-88 | The position moves one on only when a row follows. It returns the row at the new position, so at the last row it returns the last row again. |
| Query.Query.PrevRow | src/Ruckbeard/Database/Query.php:69-96 | The position moves one back only when a row precedes, never below the first row. It returns the row at the new position. |
| Query.Query.FirstRow | src/Ruckbeard/Database/Query.php:98-102 | The position becomes 0; the row there is returned. |
| Query.Query.LastRow | src/Ruckbeard/Database/Query.php:104-108 | The position becomes the last row; the row there is returned. With no rows it returns nothing. |
| Query.NextStaysOnRows | src/Ruckbeard/Database/Query.php:82-88 | From a row, `nextRow` reaches a row, and stays put exactly at the last row. |
| Query.PrevUndoesNext | src/Ruckbeard/Database/Query.php:82-96 | `prevRow` undoes a `nextRow` that moved. |
| Query.AdvanceSaturates | src/Ruckbeard/Database/Query.php:82-88 | `k` calls of `nextRow` move `k` rows on, but never past the last row. |
| Query.FirstThenNextReachesLast | src/Ruckbeard/Database/Query.php:82-108 | After `firstRow`, `count - 1` calls of `nextRow` stand on the row `lastRow` returns. |
| Query.WalkToLast | src/Ruckbeard/Database/Query.php:82-108 | A caller that calls `firstRow` and then `nextRow` `count - 1` times gets the last row. |
| Scenarios.SelectAllUsers | src/Ruckbeard/Database/Execute.php:41-61 | `select()->get("users")` sends `SELECT * FROM users`. |
| Scenarios.OldestUser | src/Ruckbeard/Database/QueryConstructor.php:66-85 | `selectMax("age", "oldest")->get("users")` sends `SELECT MAX(age) as oldest FROM users`. |
| Scenarios.JoinLeft | src/Ruckbeard/Database/QueryConstructor.php:121-136 | `join("b", "a.id = b.id", "left")->get("a")` sends `SELECT * FROM a LEFT JOIN b ON a.id = b.id`: the upper-cased parameter comes first, and the fragment is emitted verbatim. |
| Scenarios.UsersByAgeDesc | src/Ruckbeard/Database/QueryConstructor.php:262-275 | `orderBy("age", "desc")->get("users")` sends `SELECT * FROM users ORDER BY age DESC`. |
| Scenarios.UsersAtLeast30 | src/Ruckbeard/Database/QueryConstructor.php:148-190 | `where(["age" => "30"], "", ">=")->get("users")` sends ``SELECT * FROM users WHERE `age` >= '30'``. |
| Scenarios.IdOneOrTwo | src/Ruckbeard/Database/QueryConstructor.php:187-201 | `where("id", "1")->orWhere("id", "2")->get("t")` sends ``SELECT * FROM t WHERE `id` = '1' OR `id` = '2'``. |
| Scenarios.IdOneOrTwoChain | src/Ruckbeard/Database/QueryConstructor.php:187-201 | The same `where("id", "1")->orWhere("id", "2")` chain, read through the general chain function, gives ``"`id` = '1' OR `id` = '2'"``. |
| Scenarios.InsertAnn | src/Ruckbeard/Database/Execute.php:69-85 | `set("name", "Ann")->set("age", "30")->insert("users")` sends `INSERT INTO users (name,age) VALUES ('Ann','30')`. |
| Scenarios.LimitWithOffset | src/Ruckbeard/Database/QueryConstructor.php:283-292 | `limit("10", 20)->get("t")` sends `SELECT * FROM t LIMIT 20, 10`: the offset comes first. |
| Scenarios.PendingSetSurvivesGet | src/Ruckbeard/Database/Execute.php:58-85 | `set("a", "1")->get("t")->insert("u")` sends `SELECT * FROM t`, then `INSERT INTO u (a) VALUES ('1')`: `get` resets the clauses but leaves `set` pending. |
| Execute.InsertOneColumn | src/Ruckbeard/Database/Execute.php:79-81 | `insert` of one pair names its key, then its value. |
| Scenarios.GetTwice | src/Ruckbeard/Database/Execute.php:58 | Two `get("t")` calls in a row both send `SELECT * FROM t`, because `get` resets the clause state. |

## Left out

- `die(...)` on a failed driver call, and the `header`, `echo json_encode` and `exit()` calls after `insert`, `update` and `delete` (`Execute.php:18, 87-97, 135-140, 176-180`). These are process termination and HTTP output. The model always continues after sending.
- The driver's result value: a `Query` cursor, `true` or `false`. The terminal methods return the statement they sent instead. `echo $query` after the return in `query` is unreachable.
- `escape` calls mysqli's `real_escape_string`. It is a parameter of the model, never interpreted.
- `fetch_object($obj)` typing rows by class name: rows are an opaque type parameter. The two branches of `result` and `row` are one model.
- PHP loose comparisons: `$value != ''` when the value is a number, and `strstr(...) == false` when the match is `"0"`. All values are strings, and the tests are plain emptiness and substring containment.
- `set` with an object argument: object properties are treated as an array of pairs.
- `delete` with nested arrays of tables: the model takes a flat list (`Database.DeleteEach`).
- `groupBy` with an argument that is neither an array nor a string does nothing; the model has only those two cases.
- The `$insert` field is declared and never used.
- The root `Database.php`, an older copy of the same classes with a mysqli connection, and `src/Ruckbeard/Database/Database.php`, the connection setup. Both are outside this model.
- PHP's default arguments are explicit parameters; every caller passes the default itself:
  - `select($select = "*")` (`QueryConstructor.php:51`);
  - the `$var = ""` of `selectMax`, `selectMin`, `selectAvg` and `selectSum` (`QueryConstructor.php:82-97`);
  - `join` with `""`, `""` (`QueryConstructor.php:121`);
  - `where`, `orWhere`, `having` and `orHaving` with `""`, `"="`, `true` (`QueryConstructor.php:187, 198, 240, 251`);
  - `orderBy` with `""` (`QueryConstructor.php:262`);
  - `limit` with `-1` (`QueryConstructor.php:283`);
  - `set($data, $value = "", $escape = true)` (`QueryConstructor.php:315`);
  - `get`, `insert`, `update` and `delete` with `""` for every argument (`Execute.php:41, 69, 107, 149`);
  - `row($pos = 0)` and the `$obj = false` of `result` and `row` (`Query.php:22, 39`).
- Query.Query.Row: PHP's notice for an absent index is not modelled; the result is `None`, standing for PHP's `null`.

Notes on the source:

- `selectMax`, `selectMin`, `selectAvg` and `selectSum` call `_max_min_avg_sum` (`QueryConstructor.php:84-99`), which does not exist. `nextRow` and `prevRow` call `has_next` and `has_prev` (`Query.php:84, 92`), which do not exist either. The model calls the evidently intended `maxMinAvgSum`, `hasNext` and `hasPrev`.
- The test of `get` and `limit` for an argument holding its own keyword is a substring test (`strstr`), not a prefix test. The model follows the code: any clause text containing its keyword anywhere is emitted without the keyword in front.
- The following are kept as written and stated as lemmas:
  - An array-valued `where` on an empty clause juxtaposes its predicates with no conjunction (`QueryConstructor.TwoEntriesOnEmptyClause`).
  - `distinct()` on the default SELECT gives `SELECT DISTINCT SELECT *` (`QueryConstructor.DistinctOfDefault`).
  - `distinct()` after a bare column list drops the columns (`QueryConstructor.DistinctDropsBareColumns`).
- A `join` without columns appends the bare table name, with no `JOIN` keyword.
- `get` (`Execute.php:58`) and `delete` (`Execute.php:174`) call only `resetQueryString`. Only `insert` (`Execute.php:84`) and `update` (`Execute.php:132`) also clear `set`. So pairs given to `set` before a `get` or `delete` are still written by the next `insert` or `update` (`Scenarios.PendingSetSurvivesGet`).
