/**
 * PRAGMA statements (src/planner/pragma_handler.cpp). The keyword is lower-cased and then
 * dispatched: `table_info` becomes `SELECT * FROM pragma_table_info(<name>)`, the profiling
 * keywords switch the query profiler on or off, choose its print format or where it saves its
 * output, and `memory_limit` sets the buffer manager's limit from a text such as '1GB', which
 * `ParseMemoryLimit` scans into a number and a unit.
 */
module PragmaHandler {
  import opened Results

  datatype PragmaType = NOTHING | ASSIGNMENT | CALL

  /** A parameter value: text (VARCHAR) or a number. */
  datatype Value = Varchar(str: string) | Integer(n: int)

  datatype PragmaStatement = PragmaStatement(name: string, pragmaType: PragmaType, parameters: seq<Value>)
  {
    /** The parser always gives an assignment its right-hand side. */
    predicate WellFormed()
    {
      pragmaType == ASSIGNMENT ==> |parameters| >= 1
    }
  }

  /** The statement a PRAGMA is rewritten into: SELECT * FROM schema.function(argument),
    * with the argument a constant of SQL type VARCHAR. */
  datatype SqlStatement = SelectStarFrom(schema: string, functionName: string, argument: Value)

  datatype ProfilerPrintFormat = NONE | QUERY_TREE | JSON

  /** A buffer-manager limit; `SetLimit()` without an argument removes the limit. */
  datatype MemoryLimit = Unlimited | Limit(bytes: nat)

  /** The recognised keywords, after lower-casing. */
  datatype Keyword = TableInfo | EnableProfiling | DisableProfiling | ProfilingOutput | MemoryLimitKeyword
                   | Unrecognized(keyword: string)

  const DEFAULT_SCHEMA := "main"

  const TABLE_INFO_NOT_CALL := "Invalid PRAGMA table_info: expected table name"
  const TABLE_INFO_ARITY := "Invalid PRAGMA table_info: table_info takes exactly one argument"
  const CANNOT_CALL_PROFILING := "Cannot call PRAGMA enable_profiling"
  const DISABLE_WITH_PARAMETERS := "disable_profiling cannot take parameters!"
  const OUTPUT_NOT_ASSIGNMENT := "Profiling output must be an assignment (e.g. PRAGMA profile_output='/tmp/test.json')"
  const LIMIT_NOT_ASSIGNMENT := "Memory limit must be an assignment (e.g. PRAGMA memory_limit='1GB')"
  const LIMIT_WITHOUT_UNIT := "Memory limit must be an assignment with a memory unit (e.g. PRAGMA memory_limit='1GB')"
  const LIMIT_WITHOUT_NUMBER := "Memory limit must have a number (e.g. PRAGMA memory_limit=1GB"

  function UnrecognizedFormat(text: string): string
  {
    "Unrecognized print format " + text + ", supported formats: [json, query_tree]"
  }

  function UnrecognizedKeyword(keyword: string): string
  {
    "Unrecognized PRAGMA keyword: " + keyword
  }

  function UnknownUnit(unit: string): string
  {
    "Unknown unit for memory_limit: " + unit + " (expected: b, mb, gb or tb)"
  }

  function NotNumeric(number: string): string
  {
    "Could not convert string '" + number + "' to numeric"
  }

  //===--------------------------------------------------------------------===//
  // Characters and text
  //===--------------------------------------------------------------------===//

  /** std::isspace in the C locale. */
  predicate IsSpace(c: char)
  {
    c == ' ' || c == '\t' || c == '\n' || c == '\r' || c == 11 as char || c == 12 as char
  }

  predicate IsDigit(c: char)
  {
    '0' <= c <= '9'
  }

  /** The characters ParseMemoryLimit takes as part of the number. */
  predicate IsNumberChar(c: char)
  {
    IsDigit(c) || c == '.' || c == 'e' || c == 'E' || c == '-'
  }

  /** tolower: ASCII upper-case letters only. */
  function LowerChar(c: char): (d: char)
    ensures 'a' <= d <= 'z' ==> 'a' <= c <= 'z' || 'A' <= c <= 'Z'
  {
    if 'A' <= c <= 'Z' then (c as int - 'A' as int + 'a' as int) as char else c
  }

  /** StringUtil::Lower. */
  function Lower(s: string): (r: string)
    ensures |r| == |s| && forall i :: 0 <= i < |s| ==> r[i] == LowerChar(s[i])
  {
    seq(|s|, i requires 0 <= i < |s| => LowerChar(s[i]))
  }

  predicate AllDigits(s: string)
  {
    forall k :: 0 <= k < |s| ==> IsDigit(s[k])
  }

  predicate AllSpaces(s: string)
  {
    forall k :: 0 <= k < |s| ==> IsSpace(s[k])
  }

  function DigitChar(d: nat): (c: char)
    requires d < 10
    ensures IsDigit(c)
  {
    ('0' as int + d) as char
  }

  /** The number a run of decimal digits spells, most significant first. */
  function DigitsValue(s: string): nat
    requires AllDigits(s)
    decreases |s|
  {
    if s == [] then 0 else 10 * DigitsValue(s[..|s| - 1]) + (s[|s| - 1] as int - '0' as int)
  }

  /** The decimal digits of n, without leading zeros. */
  function Decimal(n: nat): (r: string)
    ensures |r| >= 1 && AllDigits(r)
  {
    if n < 10 then [DigitChar(n)] else Decimal(n / 10) + [DigitChar(n % 10)]
  }

  /** Reading back the decimal digits of n gives n. */
  lemma {:induction false} DecimalRoundTrip(n: nat)
    ensures DigitsValue(Decimal(n)) == n
  {
    if n >= 10 {
      var r := Decimal(n);
      assert r[..|r| - 1] == Decimal(n / 10);
      DecimalRoundTrip(n / 10);
    }
  }

  /** Value::ToString. */
  function ValueText(v: Value): string
  {
    match v
    case Varchar(s) => s
    case Integer(n) => if n < 0 then "-" + Decimal(-n) else Decimal(n)
  }

  /** The integer a number text denotes: an optional minus sign and at least one digit. */
  function ParseNumber(s: string): (r: Option<int>)
    ensures r.Some? <==> (AllDigits(s) && |s| >= 1) || (|s| >= 2 && s[0] == '-' && AllDigits(s[1..]))
    ensures r.Some? && r.value < 0 ==> s[0] == '-'
  {
    if |s| >= 1 && AllDigits(s) then Some(DigitsValue(s))
    else if |s| >= 2 && s[0] == '-' && AllDigits(s[1..]) then Some(-(DigitsValue(s[1..]) as int))
    else None
  }

  //===--------------------------------------------------------------------===//
  // Scanning the memory limit
  //===--------------------------------------------------------------------===//

  /** The three runs ParseMemoryLimit scans over: white space, the number, the unit. */
  datatype CharClass = Spaces | NumberChars | UnitChars

  predicate InClass(c: char, cls: CharClass)
  {
    match cls
    case Spaces => IsSpace(c)
    case NumberChars => IsNumberChar(c)
    case UnitChars => !IsSpace(c)
  }

  predicate RunOf(s: string, lo: nat, hi: nat, cls: CharClass)
    requires lo <= hi <= |s|
  {
    forall k :: lo <= k < hi ==> InClass(s[k], cls)
  }

  /**
   * Where the run of `cls` characters starting at i ends. Reading one past the last character
   * of a std::string yields its terminating NUL, which is neither a space nor a number
   * character, so the source's unbounded loops stop at the end as well.
   */
  function RunEnd(s: string, i: nat, cls: CharClass): (e: nat)
    requires i <= |s|
    ensures i <= e <= |s|
    decreases |s| - i
  {
    if i < |s| && InClass(s[i], cls) then RunEnd(s, i + 1, cls) else i
  }

  /** RunEnd finds the end of the run: every character before it is in the class, the one at it is not. */
  lemma {:induction false} RunEndFinds(s: string, i: nat, cls: CharClass)
    requires i <= |s|
    ensures RunOf(s, i, RunEnd(s, i, cls), cls)
    ensures RunEnd(s, i, cls) < |s| ==> !InClass(s[RunEnd(s, i, cls)], cls)
    decreases |s| - i
  {
    if i < |s| && InClass(s[i], cls) {
      RunEndFinds(s, i + 1, cls);
    }
  }

  /** A position with only class characters before it and a non-class character or the end at it is where the run ends. */
  lemma {:induction false} RunEndIs(s: string, i: nat, e: nat, cls: CharClass)
    requires i <= e <= |s| && RunOf(s, i, e, cls) && (e < |s| ==> !InClass(s[e], cls))
    ensures RunEnd(s, i, cls) == e
    decreases e - i
  {
    if i < e {
      RunEndIs(s, i + 1, e, cls);
    }
  }

  /** The number of bytes one unit stands for, by its lower-cased spelling. */
  function Multiplier(unit: string): (r: Option<nat>)
  {
    if unit == "byte" || unit == "bytes" || unit == "b" then Some(1)
    else if unit == "kilobyte" || unit == "kilobytes" || unit == "kb" || unit == "k" then Some(1000)
    else if unit == "megabyte" || unit == "megabytes" || unit == "mb" || unit == "m" then Some(1000 * 1000)
    else if unit == "gigabyte" || unit == "gigabytes" || unit == "gb" || unit == "g" then Some(1000 * 1000 * 1000)
    else if unit == "terabyte" || unit == "terabytes" || unit == "tb" || unit == "t" then Some(1000 * 1000 * 1000 * 1000)
    else None
  }

  /** `count` units of `multiplier` bytes each. */
  function Bytes(multiplier: nat, count: nat): nat
  {
    multiplier * count
  }

  /**
   * The limit a memory_limit text sets: leading white space, a number, white space, a unit
   * running to the next white space. A negative number removes the limit whatever the unit.
   */
  function MemoryLimitOf(arg: string): (r: Result<MemoryLimit, string>)
  {
    var numStart := RunEnd(arg, 0, Spaces);
    var numEnd := RunEnd(arg, numStart, NumberChars);
    if numEnd == numStart then Err(LIMIT_WITHOUT_NUMBER)
    else
      match ParseNumber(arg[numStart..numEnd])
      case None => Err(NotNumeric(arg[numStart..numEnd]))
      case Some(limit) =>
        var start := RunEnd(arg, numEnd, Spaces);
        var end := RunEnd(arg, start, UnitChars);
        if limit < 0 then Ok(Unlimited)
        else
          match Multiplier(Lower(arg[start..end]))
          case None => Err(UnknownUnit(Lower(arg[start..end])))
          case Some(m) => Ok(Limit(Bytes(m, limit)))
  }

  /** Every unit spelling is lower-case letters, starting with the letter of its multiplier. */
  lemma UnitSpelling(unit: string)
    requires Multiplier(unit).Some?
    ensures |unit| >= 1 && unit[0] in "bkmgt"
    ensures forall k :: 0 <= k < |unit| ==> 'a' <= unit[k] <= 'z'
  {
  }

  /** A unit whose lower-cased spelling is in the table has no white space and does not start like a number. */
  lemma {:induction false} UnitScansAsUnit(unit: string)
    requires Multiplier(Lower(unit)).Some?
    ensures |unit| >= 1 && !InClass(unit[0], NumberChars) && !InClass(unit[0], Spaces)
    ensures RunOf(unit, 0, |unit|, UnitChars)
  {
    UnitSpelling(Lower(unit));
    assert LowerChar(unit[0]) in "bkmgt";
    forall k | 0 <= k < |unit|
      ensures InClass(unit[k], UnitChars)
    {
      assert 'a' <= Lower(unit)[k] <= 'z';
    }
  }

  /**
   * A limit written out as a number of units parses back to that many bytes: white space,
   * the digits of n, optional white space, a unit in any letter case, then the end or white
   * space followed by anything.
   */
  lemma {:induction false} MemoryLimitRoundTrip(lead: string, n: nat, gap: string, unit: string, trail: string)
    requires AllSpaces(lead) && AllSpaces(gap)
    requires Multiplier(Lower(unit)).Some?
    requires trail == [] || IsSpace(trail[0])
    ensures MemoryLimitOf(lead + Decimal(n) + gap + unit + trail) == Ok(Limit(Multiplier(Lower(unit)).value * n))
  {
    var digits := Decimal(n);
    var arg := lead + digits + gap + unit + trail;
    var a, b, c, d := |lead|, |lead| + |digits|, |lead| + |digits| + |gap|, |lead| + |digits| + |gap| + |unit|;
    UnitScansAsUnit(unit);
    assert arg[a] == digits[0];
    RunEndIs(arg, 0, a, Spaces);
    assert arg[a..b] == digits;
    assert b < |arg| && arg[b] == if gap == [] then unit[0] else gap[0];
    RunEndIs(arg, a, b, NumberChars);
    DecimalRoundTrip(n);
    assert arg[c] == unit[0];
    RunEndIs(arg, b, c, Spaces);
    assert arg[c..d] == unit;
    assert d < |arg| ==> arg[d] == trail[0];
    RunEndIs(arg, c, d, UnitChars);
  }

  /** A negative number removes the limit, before the unit is looked at: whatever follows the number. */
  lemma {:induction false} NegativeMeansUnlimited(lead: string, n: nat, rest: string)
    requires AllSpaces(lead) && n > 0
    requires rest == [] || !IsNumberChar(rest[0])
    ensures MemoryLimitOf(lead + "-" + Decimal(n) + rest) == Ok(Unlimited)
  {
    var number := "-" + Decimal(n);
    var arg := lead + "-" + Decimal(n) + rest;
    var a, b := |lead|, |lead| + |number|;
    assert arg[a] == '-';
    RunEndIs(arg, 0, a, Spaces);
    assert arg[a..b] == number;
    assert b < |arg| ==> arg[b] == rest[0];
    RunEndIs(arg, a, b, NumberChars);
    assert number[1..] == Decimal(n);
    assert !IsDigit(number[0]);
    DecimalRoundTrip(n);
    assert ParseNumber(number) == Some(-(n as int));
  }

  /** A non-negative number with no unit after it is rejected: the empty unit is not in the table. */
  lemma {:induction false} BareNumberRejected(lead: string, n: nat, trail: string)
    requires AllSpaces(lead) && AllSpaces(trail)
    ensures MemoryLimitOf(lead + Decimal(n) + trail) == Err(UnknownUnit(""))
  {
    var digits := Decimal(n);
    var arg := lead + digits + trail;
    var a, b := |lead|, |lead| + |digits|;
    assert arg[a] == digits[0];
    RunEndIs(arg, 0, a, Spaces);
    assert arg[a..b] == digits;
    assert b < |arg| ==> arg[b] == trail[0];
    RunEndIs(arg, a, b, NumberChars);
    RunEndIs(arg, b, |arg|, Spaces);
    RunEndIs(arg, |arg|, |arg|, UnitChars);
  }

  /** A text whose first non-blank character cannot start a number is rejected. */
  lemma MissingNumberRejected(arg: string)
    requires RunEnd(arg, 0, Spaces) == |arg| || !IsNumberChar(arg[RunEnd(arg, 0, Spaces)])
    ensures MemoryLimitOf(arg) == Err(LIMIT_WITHOUT_NUMBER)
  {
  }

  //===--------------------------------------------------------------------===//
  // Keyword dispatch
  //===--------------------------------------------------------------------===//

  /** The keyword a PRAGMA name selects, matched after lower-casing. */
  function KeywordOf(name: string): (k: Keyword)
    ensures k.Unrecognized? ==> k.keyword == Lower(name)
  {
    var keyword := Lower(name);
    if keyword == "table_info" then TableInfo
    else if keyword == "enable_profile" || keyword == "enable_profiling" then EnableProfiling
    else if keyword == "disable_profile" || keyword == "disable_profiling" then DisableProfiling
    else if keyword == "profiling_output" || keyword == "profile_output" then ProfilingOutput
    else if keyword == "memory_limit" then MemoryLimitKeyword
    else Unrecognized(keyword)
  }

  /** Names that differ only in the case of their letters select the same keyword. */
  lemma KeywordIgnoresCase(a: string, b: string)
    requires |a| == |b| && forall i :: 0 <= i < |a| ==> LowerChar(a[i]) == LowerChar(b[i])
    ensures KeywordOf(a) == KeywordOf(b)
  {
    assert Lower(a) == Lower(b);
  }

  /** `table_info` as a call with one argument: the SELECT over pragma_table_info. */
  function TableInfoStatement(pragma: PragmaStatement): (r: Result<SqlStatement, string>)
    ensures r.Ok? <==> pragma.pragmaType == CALL && |pragma.parameters| == 1
    ensures r.Ok? ==> r.value.functionName == "pragma_table_info" && r.value.argument == pragma.parameters[0]
  {
    if pragma.pragmaType != CALL then Err(TABLE_INFO_NOT_CALL)
    else if |pragma.parameters| != 1 then Err(TABLE_INFO_ARITY)
    else Ok(SelectStarFrom(DEFAULT_SCHEMA, "pragma_table_info", pragma.parameters[0]))
  }

  /** The print format `enable_profiling` chooses: the assigned json or query_tree, QUERY_TREE without one. */
  function PrintFormatOf(pragma: PragmaStatement): (r: Result<ProfilerPrintFormat, string>)
    requires pragma.WellFormed()
    ensures r.Ok? ==> r.value != NONE
    ensures pragma.pragmaType == CALL ==> r.Err?
    ensures pragma.pragmaType == NOTHING ==> r == Ok(QUERY_TREE)
  {
    match pragma.pragmaType
    case ASSIGNMENT =>
      var assignment := ValueText(pragma.parameters[0]);
      if assignment == "json" then Ok(JSON)
      else if assignment == "query_tree" then Ok(QUERY_TREE)
      else Err(UnrecognizedFormat(assignment))
    case NOTHING => Ok(QUERY_TREE)
    case CALL => Err(CANNOT_CALL_PROFILING)
  }

  /** The text `profiling_output` stores: only a VARCHAR assignment is accepted. */
  function OutputLocationOf(pragma: PragmaStatement): (r: Result<string, string>)
    requires pragma.WellFormed()
    ensures r.Ok? <==> pragma.pragmaType == ASSIGNMENT && pragma.parameters[0].Varchar?
    ensures r.Ok? ==> r.value == pragma.parameters[0].str
  {
    if pragma.pragmaType != ASSIGNMENT || !pragma.parameters[0].Varchar? then Err(OUTPUT_NOT_ASSIGNMENT)
    else Ok(pragma.parameters[0].str)
  }

  /**
   * The limit `memory_limit` sets: a text is parsed with its unit; a bare number is accepted
   * only when negative, and then removes the limit.
   */
  function MemoryLimitPragma(pragma: PragmaStatement): (r: Result<MemoryLimit, string>)
    requires pragma.WellFormed()
    ensures pragma.pragmaType != ASSIGNMENT ==> r.Err?
    ensures pragma.pragmaType == ASSIGNMENT && pragma.parameters[0].Integer? ==>
              (r.Ok? <==> pragma.parameters[0].n < 0) && (r.Ok? ==> r.value == Unlimited)
  {
    if pragma.pragmaType != ASSIGNMENT then Err(LIMIT_NOT_ASSIGNMENT)
    else
      match pragma.parameters[0]
      case Varchar(s) => MemoryLimitOf(s)
      case Integer(value) => if value < 0 then Ok(Unlimited) else Err(LIMIT_WITHOUT_UNIT)
  }

  //===--------------------------------------------------------------------===//
  // The state PRAGMAs change
  //===--------------------------------------------------------------------===//

  /** The settings of the client's QueryProfiler that PRAGMAs change. */
  class QueryProfiler {
    var enabled: bool
    var automaticPrintFormat: ProfilerPrintFormat
    var saveLocation: string

    constructor ()
      ensures !enabled && automaticPrintFormat == NONE && saveLocation == ""
    {
      enabled := false;
      automaticPrintFormat := NONE;
      saveLocation := "";
    }
  }

  /** The memory limit of the database's buffer manager. */
  class BufferManager {
    var limit: MemoryLimit

    constructor ()
      ensures limit == Unlimited
    {
      limit := Unlimited;
    }

    method SetLimit(newLimit: MemoryLimit)
      modifies this
      ensures limit == newLimit
    {
      limit := newLimit;
    }
  }

  /** PragmaHandler, holding the parts of the client context that PRAGMAs change. */
  class PragmaHandler {
    const profiler: QueryProfiler
    const bufferManager: BufferManager

    constructor (profiler: QueryProfiler, bufferManager: BufferManager)
      ensures this.profiler == profiler && this.bufferManager == bufferManager
    {
      this.profiler := profiler;
      this.bufferManager := bufferManager;
    }

    /**
     * ParseMemoryLimit: scans `arg` and sets the limit it denotes, or reports why it has none
     * and leaves the limit as it was.
     */
    method ParseMemoryLimit(arg: string) returns (r: Result<MemoryLimit, string>)
      modifies bufferManager
      ensures r == MemoryLimitOf(arg)
      ensures r.Ok? ==> bufferManager.limit == r.value
      ensures r.Err? ==> unchanged(bufferManager)
    {
      var idx := 0;
      while idx < |arg| && IsSpace(arg[idx])
        invariant idx <= |arg| && RunEnd(arg, idx, Spaces) == RunEnd(arg, 0, Spaces)
        decreases |arg| - idx
      {
        idx := idx + 1;
      }
      var numStart := idx;
      while idx < |arg| && IsNumberChar(arg[idx])
        invariant numStart <= idx <= |arg| && RunEnd(arg, idx, NumberChars) == RunEnd(arg, numStart, NumberChars)
        decreases |arg| - idx
      {
        idx := idx + 1;
      }
      if idx == numStart {
        return Err(LIMIT_WITHOUT_NUMBER);
      }
      var number := arg[numStart..idx];
      var parsed := ParseNumber(number);
      if parsed.None? {
        return Err(NotNumeric(number));
      }
      var limit := parsed.value;
      var numEnd := idx;
      while idx < |arg| && IsSpace(arg[idx])
        invariant numEnd <= idx <= |arg| && RunEnd(arg, idx, Spaces) == RunEnd(arg, numEnd, Spaces)
        decreases |arg| - idx
      {
        idx := idx + 1;
      }
      var start := idx;
      while idx < |arg| && !IsSpace(arg[idx])
        invariant start <= idx <= |arg| && RunEnd(arg, idx, UnitChars) == RunEnd(arg, start, UnitChars)
        decreases |arg| - idx
      {
        idx := idx + 1;
      }
      if limit < 0 {
        bufferManager.SetLimit(Unlimited);
        return Ok(Unlimited);
      }
      var unit := Lower(arg[start..idx]);
      var multiplier := Multiplier(unit);
      if multiplier.None? {
        return Err(UnknownUnit(unit));
      }
      r := Ok(Limit(Bytes(multiplier.value, limit)));
      bufferManager.SetLimit(r.value);
    }

    /**
     * HandlePragma: the statement a PRAGMA is rewritten into (only `table_info` has one), or
     * the error it raises; the profiler and the buffer manager change as the keyword says and
     * are left alone on an error.
     */
    method HandlePragma(pragma: PragmaStatement) returns (r: Result<Option<SqlStatement>, string>)
      requires pragma.WellFormed()
      modifies profiler, bufferManager
      ensures KeywordOf(pragma.name) == TableInfo ==>
                unchanged(profiler, bufferManager) &&
                r == match TableInfoStatement(pragma)
                     case Ok(s) => Ok(Some(s))
                     case Err(e) => Err(e)
      ensures KeywordOf(pragma.name) == EnableProfiling ==>
                unchanged(bufferManager) &&
                match PrintFormatOf(pragma)
                case Ok(f) =>
                  r == Ok(None) && profiler.enabled && profiler.automaticPrintFormat == f &&
                  profiler.saveLocation == old(profiler.saveLocation)
                case Err(e) => r == Err(e) && unchanged(profiler)
      ensures KeywordOf(pragma.name) == DisableProfiling ==>
                unchanged(bufferManager) &&
                if pragma.pragmaType == NOTHING then
                  r == Ok(None) && !profiler.enabled && profiler.automaticPrintFormat == NONE &&
                  profiler.saveLocation == old(profiler.saveLocation)
                else r == Err(DISABLE_WITH_PARAMETERS) && unchanged(profiler)
      ensures KeywordOf(pragma.name) == ProfilingOutput ==>
                unchanged(bufferManager) &&
                match OutputLocationOf(pragma)
                case Ok(location) =>
                  r == Ok(None) && profiler.saveLocation == location &&
                  profiler.enabled == old(profiler.enabled) &&
                  profiler.automaticPrintFormat == old(profiler.automaticPrintFormat)
                case Err(e) => r == Err(e) && unchanged(profiler)
      ensures KeywordOf(pragma.name) == MemoryLimitKeyword ==>
                unchanged(profiler) &&
                match MemoryLimitPragma(pragma)
                case Ok(limit) => r == Ok(None) && bufferManager.limit == limit
                case Err(e) => r == Err(e) && unchanged(bufferManager)
      ensures KeywordOf(pragma.name).Unrecognized? ==>
                r == Err(UnrecognizedKeyword(Lower(pragma.name))) && unchanged(profiler, bufferManager)
    {
      var keyword := Lower(pragma.name);
      if keyword == "table_info" {
        if pragma.pragmaType != CALL {
          return Err(TABLE_INFO_NOT_CALL);
        }
        if |pragma.parameters| != 1 {
          return Err(TABLE_INFO_ARITY);
        }
        return Ok(Some(SelectStarFrom(DEFAULT_SCHEMA, "pragma_table_info", pragma.parameters[0])));
      } else if keyword == "enable_profile" || keyword == "enable_profiling" {
        if pragma.pragmaType == ASSIGNMENT {
          var assignment := ValueText(pragma.parameters[0]);
          if assignment == "json" {
            profiler.automaticPrintFormat := JSON;
          } else if assignment == "query_tree" {
            profiler.automaticPrintFormat := QUERY_TREE;
          } else {
            return Err(UnrecognizedFormat(assignment));
          }
        } else if pragma.pragmaType == NOTHING {
          profiler.automaticPrintFormat := QUERY_TREE;
        } else {
          return Err(CANNOT_CALL_PROFILING);
        }
        profiler.enabled := true;
      } else if keyword == "disable_profile" || keyword == "disable_profiling" {
        if pragma.pragmaType != NOTHING {
          return Err(DISABLE_WITH_PARAMETERS);
        }
        profiler.enabled := false;
        profiler.automaticPrintFormat := NONE;
      } else if keyword == "profiling_output" || keyword == "profile_output" {
        if pragma.pragmaType != ASSIGNMENT || !pragma.parameters[0].Varchar? {
          return Err(OUTPUT_NOT_ASSIGNMENT);
        }
        profiler.saveLocation := pragma.parameters[0].str;
      } else if keyword == "memory_limit" {
        if pragma.pragmaType != ASSIGNMENT {
          return Err(LIMIT_NOT_ASSIGNMENT);
        }
        if pragma.parameters[0].Varchar? {
          var parsed := ParseMemoryLimit(pragma.parameters[0].str);
          if parsed.Err? {
            return Err(parsed.error);
          }
        } else {
          var value := pragma.parameters[0].n;
          if value < 0 {
            bufferManager.SetLimit(Unlimited);
          } else {
            return Err(LIMIT_WITHOUT_UNIT);
          }
        }
      } else {
        return Err(UnrecognizedKeyword(keyword));
      }
      return Ok(None);
    }
  }
}
