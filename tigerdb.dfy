/**
 * The TigerDB front end (src/main/tigerdb.cpp): a small "TQL" layer in front of the SQL
 * engine. A statement is split into words at single spaces; CREATE and INSERT statements are
 * passed to the engine unchanged, `SET T1|T2 <word> <name>` records the name of table 1 or
 * table 2 and stops the statement there, and `SHOW DATA|META` becomes a SELECT over table 2
 * or table 1 once both names are known.
 */
module TigerDb {

  /** TSQLResult. */
  datatype SqlResult = SqlResult(error: bool, eMsg: string, sql: string, stopSqlFlow: bool)

  const NO_ERROR := "None"
  const INVALID_SET := "TQL Error: Invalid SET statement"
  const TABLES_UNDEFINED := "TQL Query Error: You have not defined Table 1 and Table 2 Yet"
  const UNSUPPORTED := "TigerDB V0.1 only supports SHOW TQL queries and CREATE and INSERT SQL queries"
  const SELECT_PREFIX := "SELECT * FROM "

  //===--------------------------------------------------------------------===//
  // Splitting at spaces
  //===--------------------------------------------------------------------===//

  predicate NoSpace(w: string)
  {
    forall k :: 0 <= k < |w| ==> w[k] != ' '
  }

  /** No space in s[lo..hi]. */
  predicate SpaceFree(s: string, lo: nat, hi: nat)
    requires lo <= hi <= |s|
  {
    forall k :: lo <= k < hi ==> s[k] != ' '
  }

  /** Where the word starting at pos ends: the next space at or after pos, or |s|. */
  function WordEnd(s: string, pos: nat): (e: nat)
    requires pos <= |s|
    ensures pos <= e <= |s|
    decreases |s| - pos
  {
    if pos == |s| || s[pos] == ' ' then pos else WordEnd(s, pos + 1)
  }

  /** WordEnd finds the next space: none before it, one at it unless it is the end. */
  lemma {:induction false} WordEndFinds(s: string, pos: nat)
    requires pos <= |s|
    ensures SpaceFree(s, pos, WordEnd(s, pos))
    ensures WordEnd(s, pos) < |s| ==> s[WordEnd(s, pos)] == ' '
    decreases |s| - pos
  {
    if pos < |s| && s[pos] != ' ' {
      WordEndFinds(s, pos + 1);
    }
  }

  /** A position with no space before it and a space or the end at it is where the word ends. */
  lemma {:induction false} WordEndIs(s: string, pos: nat, e: nat)
    requires pos <= e <= |s| && SpaceFree(s, pos, e) && (e < |s| ==> s[e] == ' ')
    ensures WordEnd(s, pos) == e
    decreases e - pos
  {
    if pos < e {
      WordEndIs(s, pos + 1, e);
    }
  }

  /**
   * The words `getline(stream, word, ' ')` reads one after another from a stream holding s:
   * the text up to the next space, after which the stream goes on past that space. Two
   * adjacent spaces give an empty word; a final space gives no word after it, because the
   * stream is then at its end and the next read fails.
   */
  function Split(s: string): (words: seq<string>)
    ensures s != [] <==> words != []
    decreases |s|
  {
    if s == [] then []
    else if WordEnd(s, 0) == |s| then [s]
    else [s[..WordEnd(s, 0)]] + Split(s[WordEnd(s, 0) + 1..])
  }

  /** A read that stops at a space at e: the word before it, then the words after it. */
  lemma SplitAt(s: string, e: nat)
    requires e < |s| && e == WordEnd(s, 0)
    ensures Split(s) == [s[..e]] + Split(s[e + 1..])
  {
  }

  /** A read that reaches the end of the stream: the whole rest is the last word. */
  lemma SplitWord(w: string)
    requires w != [] && NoSpace(w)
    ensures Split(w) == [w]
  {
    assert SpaceFree(w, 0, |w|);
    WordEndIs(w, 0, |w|);
  }

  /** The words separated by single spaces. */
  function Join(words: seq<string>): string
  {
    if words == [] then []
    else if |words| == 1 then words[0]
    else words[0] + " " + Join(words[1..])
  }

  lemma JoinCons(w: string, l: seq<string>)
    ensures Join([w] + l) == if l == [] then w else w + " " + Join(l)
  {
    assert ([w] + l)[1..] == l;
  }

  predicate EndsInSpace(s: string)
  {
    s != [] && s[|s| - 1] == ' '
  }

  /** No word holds a space. */
  lemma {:induction false} SplitWordsHaveNoSpace(s: string)
    ensures forall w :: w in Split(s) ==> NoSpace(w)
    decreases |s|
  {
    if s != [] {
      var e := WordEnd(s, 0);
      WordEndFinds(s, 0);
      if e < |s| {
        SplitAt(s, e);
        SplitWordsHaveNoSpace(s[e + 1..]);
        assert NoSpace(s[..e]);
      } else {
        assert NoSpace(s);
      }
    }
  }

  /** A string is the part before a space at e, that space, and the part after it. */
  lemma SliceAround(s: string, e: nat)
    requires e < |s| && s[e] == ' '
    ensures s == s[..e] + " " + s[e + 1..]
  {
  }

  /** Joining the words gives back a statement that does not end in a space. */
  lemma {:induction false} JoinSplit(s: string)
    requires !EndsInSpace(s)
    ensures Join(Split(s)) == s
    decreases |s|
  {
    if s != [] {
      var e := WordEnd(s, 0);
      if e < |s| {
        var w, rest := s[..e], s[e + 1..];
        WordEndFinds(s, 0);
        assert rest != [] && !EndsInSpace(rest) by {
          assert s[|s| - 1] != ' ';
        }
        calc {
          Join(Split(s));
          { SplitAt(s, e); }
          Join([w] + Split(rest));
          { JoinCons(w, Split(rest)); }
          w + " " + Join(Split(rest));
          { JoinSplit(rest); }
          w + " " + rest;
          { SliceAround(s, e); }
          s;
        }
      }
    }
  }

  /** A final space adds no word: the read after it finds the stream at its end. */
  lemma {:induction false} FinalSpaceAddsNoWord(s: string)
    requires s != [] && !EndsInSpace(s)
    ensures Split(s + " ") == Split(s)
    decreases |s|
  {
    var t := s + " ";
    var e := WordEnd(s, 0);
    WordEndFinds(s, 0);
    assert WordEnd(t, 0) == e && t[..e] == s[..e] by {
      assert SpaceFree(t, 0, e);
      WordEndIs(t, 0, e);
    }
    SplitAt(t, e);
    if e < |s| {
      var rest := s[e + 1..];
      assert rest != [] && !EndsInSpace(rest) by {
        assert s[|s| - 1] != ' ';
      }
      assert t[e + 1..] == rest + " ";
      FinalSpaceAddsNoWord(rest);
      SplitAt(s, e);
    } else {
      assert t[e + 1..] == [] && s[..e] == s;
    }
  }

  /** The words of a statement that starts with one word and a space. */
  lemma SplitCons(w: string, rest: string)
    requires NoSpace(w)
    ensures Split(w + " " + rest) == [w] + Split(rest)
  {
    var t := w + " " + rest;
    assert SpaceFree(t, 0, |w|);
    WordEndIs(t, 0, |w|);
    assert t[..|w|] == w && t[|w| + 1..] == rest;
    SplitAt(t, |w|);
  }

  /**
   * Splitting words joined by single spaces gives the words back, when none holds a space and
   * the last one is not empty.
   */
  lemma {:induction false} SplitJoin(words: seq<string>)
    requires words != [] && words[|words| - 1] != []
    requires forall w :: w in words ==> NoSpace(w)
    ensures Split(Join(words)) == words
  {
    if |words| == 1 {
      SplitWord(words[0]);
    } else {
      var rest := words[1..];
      assert words[0] in words;
      assert forall w :: w in rest ==> w in words;
      SplitJoin(rest);
      SplitCons(words[0], Join(rest));
      assert words == [words[0]] + rest;
    }
  }

  /**
   * The getline loop in TigerDB::parse: rest is what the stream still holds, and each
   * iteration reads one word from it.
   */
  method Tokenize(tql: string) returns (tokens: seq<string>)
    ensures tokens == Split(tql)
  {
    tokens := [];
    var rest := tql;
    while rest != []
      invariant tokens + Split(rest) == Split(tql)
      decreases |rest|
    {
      var end := 0;
      while end < |rest| && rest[end] != ' '
        invariant 0 <= end <= |rest|
        invariant SpaceFree(rest, 0, end)
      {
        end := end + 1;
      }
      WordEndIs(rest, 0, end);
      if end < |rest| {
        SplitAt(rest, end);
        assert tokens + Split(rest) == (tokens + [rest[..end]]) + Split(rest[end + 1..]);
        tokens := tokens + [rest[..end]];
        rest := rest[end + 1..];
      } else {
        assert Split(rest) == [rest];
        tokens := tokens + [rest];
        rest := [];
      }
    }
  }

  //===--------------------------------------------------------------------===//
  // The statement interpreter
  //===--------------------------------------------------------------------===//

  predicate IsWord(w: string, upper: string, lower: string)
  {
    w == upper || w == lower
  }

  /** The table names TigerDB keeps between statements. */
  datatype Tables = Tables(t1: string, t2: string)

  /**
   * What TigerDB::parse demands of its input: a non-empty statement (its first word is read
   * unchecked), and a second word after SHOW once both tables are named (parseShow reads it
   * unchecked).
   */
  predicate ParseDefined(tables: Tables, tql: string)
  {
    tql != [] &&
    (IsWord(Split(tql)[0], "SHOW", "show") && tables.t1 != "" && tables.t2 != "" ==>
       |Split(tql)| >= 2)
  }

  /** The outcome of TigerDB::parseTableName on the words of a SET statement. */
  function SetTable(tables: Tables, t: seq<string>): (Tables, SqlResult)
  {
    var fail := SqlResult(true, INVALID_SET, "", true);
    if |t| != 4 then (tables, fail)
    else if IsWord(t[1], "t1", "T1") then (tables.(t1 := t[3]), SqlResult(false, NO_ERROR, "", true))
    else if IsWord(t[1], "t2", "T2") then (tables.(t2 := t[3]), SqlResult(false, NO_ERROR, "", true))
    else (tables, fail)
  }

  /** The SELECT that TigerDB::parseShow produces: META shows table 1, anything else table 2. */
  function ShowQuery(tables: Tables, t: seq<string>): string
    requires |t| >= 2
  {
    SELECT_PREFIX + (if IsWord(t[1], "META", "meta") then tables.t1 else tables.t2)
  }

  /** The outcome of TigerDB::parse: the new table names and the result returned. */
  function Interpret(tables: Tables, tql: string): (Tables, SqlResult)
    requires ParseDefined(tables, tql)
  {
    var t := Split(tql);
    if IsWord(t[0], "CREATE", "create") || IsWord(t[0], "INSERT", "insert") then
      (tables, SqlResult(false, NO_ERROR, tql, false))
    else if IsWord(t[0], "SET", "set") then
      SetTable(tables, t)
    else if IsWord(t[0], "SHOW", "show") then
      if tables.t1 == "" || tables.t2 == "" then
        (tables, SqlResult(true, TABLES_UNDEFINED, "", false))
      else
        (tables, SqlResult(false, NO_ERROR, ShowQuery(tables, t), false))
    else
      (tables, SqlResult(true, UNSUPPORTED, "", false))
  }

  //===--------------------------------------------------------------------===//
  // Properties of the interpreter
  //===--------------------------------------------------------------------===//

  /** A failed statement leaves both table names as they were and produces no SQL. */
  lemma ErrorsChangeNothing(tables: Tables, tql: string)
    requires ParseDefined(tables, tql)
    ensures Interpret(tables, tql).1.error ==>
      Interpret(tables, tql).0 == tables && Interpret(tables, tql).1.sql == ""
  {
  }

  /**
   * Only SET stops the SQL flow, and it always does; only SET changes a table name, and it
   * changes at most one of them.
   */
  lemma OnlySetStopsAndChangesTables(tables: Tables, tql: string)
    requires ParseDefined(tables, tql)
    ensures Interpret(tables, tql).1.stopSqlFlow <==> IsWord(Split(tql)[0], "SET", "set")
    ensures !IsWord(Split(tql)[0], "SET", "set") ==> Interpret(tables, tql).0 == tables
    ensures Interpret(tables, tql).0.t1 == tables.t1 || Interpret(tables, tql).0.t2 == tables.t2
  {
  }

  /** CREATE and INSERT statements reach the engine exactly as written. */
  lemma PassThrough(tables: Tables, tql: string)
    requires tql != []
    requires var w := Split(tql)[0]; IsWord(w, "CREATE", "create") || IsWord(w, "INSERT", "insert")
    ensures ParseDefined(tables, tql)
    ensures Interpret(tables, tql) == (tables, SqlResult(false, NO_ERROR, tql, false))
  {
  }

  /**
   * A SELECT is only ever produced for SHOW with both tables named, and it selects from one
   * of the two named tables.
   */
  lemma ShowSelectsANamedTable(tables: Tables, tql: string)
    requires ParseDefined(tables, tql)
    requires !IsWord(Split(tql)[0], "CREATE", "create") && !IsWord(Split(tql)[0], "INSERT", "insert")
    ensures var r := Interpret(tables, tql).1;
      r.sql != "" <==> IsWord(Split(tql)[0], "SHOW", "show") && tables.t1 != "" && tables.t2 != ""
    ensures var r := Interpret(tables, tql).1;
      r.sql != "" ==> r.sql == SELECT_PREFIX + tables.t1 || r.sql == SELECT_PREFIX + tables.t2
  {
  }

  /** `SET T1 AS <n>` names table 1 and `SET T2 AS <n>` table 2, and the flow stops there. */
  lemma SetNamesATable(tables: Tables, which: string, n: string)
    requires which == "T1" || which == "T2"
    requires n != [] && NoSpace(n)
    ensures ParseDefined(tables, Join(["SET", which, "AS", n]))
    ensures Interpret(tables, Join(["SET", which, "AS", n])) ==
      (if which == "T1" then tables.(t1 := n) else tables.(t2 := n), SqlResult(false, NO_ERROR, "", true))
  {
    SplitJoin(["SET", which, "AS", n]);
  }

  /** With both tables named, `SHOW META` (or `meta`) selects from table 1. */
  lemma ShowMetaSelectsTableOne(tables: Tables, keyword: string)
    requires tables.t1 != "" && tables.t2 != ""
    requires IsWord(keyword, "META", "meta")
    ensures ParseDefined(tables, Join(["SHOW", keyword]))
    ensures Interpret(tables, Join(["SHOW", keyword])).1 == SqlResult(false, NO_ERROR, SELECT_PREFIX + tables.t1, false)
  {
    var tql := Join(["SHOW", keyword]);
    SplitJoin(["SHOW", keyword]);
    assert Split(tql) == ["SHOW", keyword];
    assert ShowQuery(tables, Split(tql)) == SELECT_PREFIX + tables.t1;
  }

  /**
   * With both tables named, `SHOW DATA`, and `SHOW` followed by any word other than META,
   * selects from table 2.
   */
  lemma ShowOtherSelectsTableTwo(tables: Tables, keyword: string)
    requires tables.t1 != "" && tables.t2 != ""
    requires keyword != [] && NoSpace(keyword) && !IsWord(keyword, "META", "meta")
    ensures ParseDefined(tables, Join(["SHOW", keyword]))
    ensures Interpret(tables, Join(["SHOW", keyword])).1 == SqlResult(false, NO_ERROR, SELECT_PREFIX + tables.t2, false)
  {
    SplitJoin(["SHOW", keyword]);
  }

  //===--------------------------------------------------------------------===//
  // The parser object
  //===--------------------------------------------------------------------===//

  class TigerDB {
    var t1: string
    var t2: string

    /** TigerDB(): neither table is named. */
    constructor()
      ensures t1 == "" && t2 == ""
    {
      t1 := "";
      t2 := "";
    }

    function Names(): Tables
      reads this
    {
      Tables(t1, t2)
    }

    /** TigerDB::parseTableName. */
    method ParseTableName(t: seq<string>) returns (tr: SqlResult)
      modifies this
      ensures (Names(), tr) == SetTable(old(Names()), t)
    {
      tr := SqlResult(false, NO_ERROR, "", true);
      if |t| != 4 {
        tr := tr.(error := true, eMsg := INVALID_SET);
        return;
      }
      if t[1] == "t1" || t[1] == "T1" {
        t1 := t[3];
      } else if t[1] == "t2" || t[1] == "T2" {
        t2 := t[3];
      } else {
        tr := tr.(error := true, eMsg := INVALID_SET);
      }
    }

    /** TigerDB::parseShow. */
    method ParseShow(t: seq<string>) returns (tr: SqlResult)
      requires |t| >= 2
      ensures tr == SqlResult(false, NO_ERROR, ShowQuery(Names(), t), false)
    {
      tr := SqlResult(false, NO_ERROR, "", false);
      var prefix := SELECT_PREFIX;
      if t[1] == "DATA" || t[1] == "data" {
        tr := tr.(sql := tr.sql + prefix + t2);
      } else if t[1] == "META" || t[1] == "meta" {
        tr := tr.(sql := tr.sql + prefix + t1);
      } else {
        tr := tr.(sql := tr.sql + prefix + t2);
      }
    }

    /** TigerDB::parse. */
    method Parse(tql: string) returns (t: SqlResult)
      requires ParseDefined(Names(), tql)
      modifies this
      ensures (Names(), t) == Interpret(old(Names()), tql)
    {
      t := SqlResult(false, NO_ERROR, "", false);
      var tokens := Tokenize(tql);
      if tokens[0] == "CREATE" || tokens[0] == "create" {
        t := t.(sql := tql);
      } else if tokens[0] == "INSERT" || tokens[0] == "insert" {
        t := t.(sql := tql);
      } else if tokens[0] == "SET" || tokens[0] == "set" {
        t := ParseTableName(tokens);
        return;
      } else if tokens[0] == "SHOW" || tokens[0] == "show" {
        if t1 == "" || t2 == "" {
          t := t.(error := true, eMsg := TABLES_UNDEFINED);
          return;
        }
        t := ParseShow(tokens);
        return;
      } else {
        t := t.(error := true, eMsg := UNSUPPORTED);
      }
    }
  }
}
