/**
 * The delimited-line bulk loader (DoFile): it prepares one positional
 * INSERT statement for a table, then reads the file line by line, skips
 * '#' comments, splits each other line on tabs, reports lines with the
 * wrong number of fields and binds the fields of every other line, in
 * order, as one row.
 */
module BulkLoader {
  import opened Wrappers
  import opened Text

  const Tab := '\t'

  /** One progress message is printed per this many inserted rows. */
  const ProgressInterval := 1000

  // ---------------------------------------------------------------------
  // The INSERT statement

  /** The name of the `j`-th positional parameter, "@f{j}". */
  function Placeholder(j: nat): string
  {
    "@f" + DecimalString(j)
  }

  /** Distinct positions have distinct parameter names. */
  lemma PlaceholderInjective(i: nat, j: nat)
    ensures Placeholder(i) == Placeholder(j) ==> i == j
  {
    if Placeholder(i) == Placeholder(j) {
      assert Placeholder(i)[2..] == DecimalString(i);
      assert Placeholder(j)[2..] == DecimalString(j);
      DecimalStringInjective(i, j);
    }
  }

  /** A parameter name holds no comma and no blank. */
  lemma PlaceholderChars(j: nat, ch: char)
    ensures ch in Placeholder(j) ==> ch == '@' || ch == 'f' || '0' <= ch <= '9'
  {
    var d := DecimalString(j);
    if ch in Placeholder(j) && ch != '@' && ch != 'f' {
      var k :| 0 <= k < |Placeholder(j)| && Placeholder(j)[k] == ch;
      assert k >= 2 && d[k - 2] == ch;
    }
  }

  /** The parameter names "@f0", ..., "@f{k-1}", in increasing order. */
  function Placeholders(k: nat): (r: seq<string>)
    ensures |r| == k
    ensures forall j :: 0 <= j < k ==> r[j] == Placeholder(j)
  {
    if k == 0 then [] else Placeholders(k - 1) + [Placeholder(k - 1)]
  }

  /**
   * How many placeholders the statement gets: "@f0" is always written and
   * the loop adds one for each further expected field, so an expected
   * count below one still yields one placeholder.
   */
  function PlaceholderCount(expectedFields: int): nat
  {
    if expectedFields < 1 then 1 else expectedFields
  }

  const InsertPrefix := "INSERT INTO "
  const ValuesClause := " VALUES ("

  /** The statement text DoFile prepares for `tableName`. */
  function InsertSql(tableName: string, expectedFields: int): string
  {
    InsertPrefix + tableName + ValuesClause
      + Join(Placeholders(PlaceholderCount(expectedFields)), ',') + ")"
  }

  /**
   * The statement is "INSERT INTO <table> VALUES (" followed by a list that
   * splits on ',' into exactly the placeholders @f0 .. @f(N-1), in order,
   * holds no blank, and is closed by ")".
   */
  lemma InsertSqlShape(tableName: string, expectedFields: int)
    ensures var head := InsertPrefix + tableName + ValuesClause;
            var sql := InsertSql(tableName, expectedFields);
            var list := sql[|head|..|sql| - 1];
            && |head| < |sql| && sql[..|head|] == head && sql[|sql| - 1] == ')'
            && Split(list, ',') == Placeholders(PlaceholderCount(expectedFields))
            && ' ' !in list
  {
    var head := InsertPrefix + tableName + ValuesClause;
    var names := Placeholders(PlaceholderCount(expectedFields));
    var list := Join(names, ',');
    var sql := InsertSql(tableName, expectedFields);
    assert sql == head + list + ")";
    assert sql[|head|..|sql| - 1] == list;
    forall k | 0 <= k < |names| ensures ',' !in names[k] {
      PlaceholderChars(k, ',');
    }
    SplitJoin(names, ',');
    JoinChars(names, ',', ' ');
    forall k | 0 <= k < |names| ensures ' ' !in names[k] {
      PlaceholderChars(k, ' ');
    }
  }

  /** The loop at the head of DoFile that builds the statement text. */
  method BuildInsertSql(tableName: string, expectedFields: int) returns (sql: string)
    ensures sql == InsertSql(tableName, expectedFields)
  {
    sql := InsertPrefix + tableName + ValuesClause + "@f0";
    var x := 0;
    while x < expectedFields - 1
      invariant 0 <= x < PlaceholderCount(expectedFields)
      invariant sql == InsertPrefix + tableName + ValuesClause + Join(Placeholders(x + 1), ',')
    {
      JoinSnoc(Placeholders(x + 1), Placeholder(x + 1), ',');
      sql := sql + ",@f" + DecimalString(x + 1);
      x := x + 1;
    }
    sql := sql + ")";
  }

  // ---------------------------------------------------------------------
  // Parameter binding

  /** One entry of the command's parameter collection. */
  datatype Parameter = Parameter(name: string, value: string)

  /** The value bound to `name`, taking the first entry with that name. */
  function Lookup(parameters: seq<Parameter>, name: string): Option<string>
  {
    if parameters == [] then None
    else if parameters[0].name == name then Some(parameters[0].value)
    else Lookup(parameters[1..], name)
  }

  /**
   * Executing the statement: each placeholder takes the value bound to its
   * name; an unbound placeholder makes execution fail (None).
   */
  function Bind(names: seq<string>, parameters: seq<Parameter>): Option<seq<string>>
  {
    if names == [] then Some([])
    else match Lookup(parameters, names[0])
      case None => None
      case Some(v) =>
        match Bind(names[1..], parameters)
        case None => None
        case Some(vs) => Some([v] + vs)
  }

  /** The collection the inner loop of DoFile builds: "@f{j}" bound to fields[j]. */
  function Parameters(fields: seq<string>): (ps: seq<Parameter>)
    ensures |ps| == |fields|
  {
    if fields == [] then []
    else Parameters(fields[..|fields| - 1])
           + [Parameter(Placeholder(|fields| - 1), fields[|fields| - 1])]
  }

  lemma {:induction false} LookupSnoc(ps: seq<Parameter>, p: Parameter, name: string)
    ensures Lookup(ps + [p], name)
         == if Lookup(ps, name).Some? then Lookup(ps, name)
            else if p.name == name then Some(p.value) else None
  {
    if ps != [] {
      assert (ps + [p])[1..] == ps[1..] + [p];
      LookupSnoc(ps[1..], p, name);
    }
  }

  /** Placeholders at or beyond the number of fields are unbound. */
  lemma {:induction false} LookupParametersAbsent(fields: seq<string>, j: nat)
    requires j >= |fields|
    ensures Lookup(Parameters(fields), Placeholder(j)) == None
  {
    if fields != [] {
      var n := |fields| - 1;
      LookupParametersAbsent(fields[..n], j);
      LookupSnoc(Parameters(fields[..n]), Parameter(Placeholder(n), fields[n]), Placeholder(j));
      PlaceholderInjective(n, j);
    }
  }

  /** "@f{j}" is bound to exactly fields[j]. */
  lemma {:induction false} LookupParameters(fields: seq<string>, j: nat)
    requires j < |fields|
    ensures Lookup(Parameters(fields), Placeholder(j)) == Some(fields[j])
  {
    var n := |fields| - 1;
    var init := fields[..n];
    LookupSnoc(Parameters(init), Parameter(Placeholder(n), fields[n]), Placeholder(j));
    if j < n {
      LookupParameters(init, j);
    } else {
      LookupParametersAbsent(init, j);
    }
  }

  /** Binding succeeds with exactly the looked-up values. */
  lemma {:induction false} BindFound(names: seq<string>, parameters: seq<Parameter>, values: seq<string>)
    requires |names| == |values|
    requires forall j :: 0 <= j < |names| ==> Lookup(parameters, names[j]) == Some(values[j])
    ensures Bind(names, parameters) == Some(values)
  {
    if names != [] {
      BindFound(names[1..], parameters, values[1..]);
      assert values == [values[0]] + values[1..];
    }
  }

  /** Positional binding: the row the statement inserts is the fields, unmodified. */
  lemma PositionalBinding(fields: seq<string>)
    ensures Bind(Placeholders(|fields|), Parameters(fields)) == Some(fields)
  {
    forall j | 0 <= j < |fields|
      ensures Lookup(Parameters(fields), Placeholders(|fields|)[j]) == Some(fields[j])
    {
      LookupParameters(fields, j);
    }
    BindFound(Placeholders(|fields|), Parameters(fields), fields);
  }

  // ---------------------------------------------------------------------
  // Reading the file

  /** The warning printed for a line with the wrong number of fields. */
  datatype Diagnostic = Diagnostic(file: string, index: nat, got: nat, expected: int)

  /** What DoFile has produced so far: rows inserted, warnings, progress counts printed. */
  datatype LoadState = LoadState(rows: seq<seq<string>>, diagnostics: seq<Diagnostic>, progress: seq<nat>)

  /** `line.StartsWith("#")`. */
  predicate IsComment(line: string)
  {
    |line| >= 1 && line[0] == '#'
  }

  /** The effect of one line on the loader's state. */
  function Step(file: string, expectedFields: int, st: LoadState, line: string): LoadState
  {
    if IsComment(line) then st
    else
      var fields := Split(line, Tab);
      if |fields| != expectedFields then
        st.(diagnostics := st.diagnostics + [Diagnostic(file, |st.rows|, |fields|, expectedFields)])
      else
        st.(rows := st.rows + [fields],
            progress := if |st.rows| % ProgressInterval == 0
                        then st.progress + [|st.rows| + 1] else st.progress)
  }

  /** The state after reading `lines` from the start of the file. */
  function Load(file: string, expectedFields: int, lines: seq<string>): LoadState
  {
    if lines == [] then LoadState([], [], [])
    else Step(file, expectedFields, Load(file, expectedFields, lines[..|lines| - 1]), lines[|lines| - 1])
  }

  lemma LoadSnoc(file: string, expectedFields: int, lines: seq<string>, line: string)
    ensures Load(file, expectedFields, lines + [line])
         == Step(file, expectedFields, Load(file, expectedFields, lines), line)
  {
    assert (lines + [line])[..|lines|] == lines;
  }

  /** A comment line leaves rows, warnings and progress (hence the counter) as they were. */
  lemma CommentLineIgnored(file: string, expectedFields: int, lines: seq<string>, line: string)
    requires IsComment(line)
    ensures Load(file, expectedFields, lines + [line]) == Load(file, expectedFields, lines)
  {
    LoadSnoc(file, expectedFields, lines, line);
  }

  /**
   * A non-comment line whose field count (its tabs plus one) is not the
   * expected count adds exactly one warning and no row; the warning's index
   * is the number of rows inserted so far.
   */
  lemma MismatchedLineReported(file: string, expectedFields: int, lines: seq<string>, line: string)
    requires !IsComment(line) && Count(line, Tab) + 1 != expectedFields
    ensures var before := Load(file, expectedFields, lines);
            Load(file, expectedFields, lines + [line])
              == LoadState(before.rows,
                           before.diagnostics + [Diagnostic(file, |before.rows|, Count(line, Tab) + 1, expectedFields)],
                           before.progress)
  {
    LoadSnoc(file, expectedFields, lines, line);
  }

  /** A line made of N tab-free fields is inserted as exactly those fields. */
  lemma MatchingLineInserted(file: string, lines: seq<string>, fields: seq<string>)
    requires |fields| >= 1
    requires forall k :: 0 <= k < |fields| ==> Tab !in fields[k]
    requires !IsComment(Join(fields, Tab))
    ensures var before := Load(file, |fields|, lines);
            var after := Load(file, |fields|, lines + [Join(fields, Tab)]);
            after.rows == before.rows + [fields] && after.diagnostics == before.diagnostics
  {
    LoadSnoc(file, |fields|, lines, Join(fields, Tab));
    SplitJoin(fields, Tab);
  }

  /**
   * The warning's index counts rows inserted, not lines read: two bad lines
   * in a row report the same index, the number of rows inserted before
   * them, whatever their line positions.
   */
  lemma DiagnosticIndexCountsRows(file: string, expectedFields: int, lines: seq<string>, bad1: string, bad2: string)
    requires !IsComment(bad1) && Count(bad1, Tab) + 1 != expectedFields
    requires !IsComment(bad2) && Count(bad2, Tab) + 1 != expectedFields
    ensures var before := Load(file, expectedFields, lines);
            var after := Load(file, expectedFields, lines + [bad1, bad2]);
            after.rows == before.rows
            && after.diagnostics
               == before.diagnostics
                  + [Diagnostic(file, |before.rows|, Count(bad1, Tab) + 1, expectedFields),
                     Diagnostic(file, |before.rows|, Count(bad2, Tab) + 1, expectedFields)]
  {
    MismatchedLineReported(file, expectedFields, lines, bad1);
    MismatchedLineReported(file, expectedFields, lines + [bad1], bad2);
    assert lines + [bad1] + [bad2] == lines + [bad1, bad2];
  }

  /** Reference definition: the rows of a file are its good lines, split, in file order. */
  function GoodRows(expectedFields: int, lines: seq<string>): seq<seq<string>>
  {
    if lines == [] then []
    else
      (if !IsComment(lines[0]) && |Split(lines[0], Tab)| == expectedFields
       then [Split(lines[0], Tab)] else [])
      + GoodRows(expectedFields, lines[1..])
  }

  lemma {:induction false} GoodRowsSnoc(expectedFields: int, lines: seq<string>, line: string)
    ensures GoodRows(expectedFields, lines + [line])
         == GoodRows(expectedFields, lines)
            + (if !IsComment(line) && |Split(line, Tab)| == expectedFields then [Split(line, Tab)] else [])
  {
    if lines != [] {
      assert (lines + [line])[1..] == lines[1..] + [line];
      GoodRowsSnoc(expectedFields, lines[1..], line);
    }
  }

  /** The inserted rows are exactly the good lines' fields, in source order. */
  lemma {:induction false} LoadRowsAreGoodRows(file: string, expectedFields: int, lines: seq<string>)
    ensures Load(file, expectedFields, lines).rows == GoodRows(expectedFields, lines)
  {
    if lines != [] {
      var init := lines[..|lines| - 1];
      LoadRowsAreGoodRows(file, expectedFields, init);
      GoodRowsSnoc(expectedFields, init, lines[|lines| - 1]);
      assert init + [lines[|lines| - 1]] == lines;
    }
  }

  /** Every inserted row is the split of some non-comment line of the file. */
  lemma {:induction false} LoadRowOrigin(file: string, expectedFields: int, lines: seq<string>, k: nat)
    requires k < |Load(file, expectedFields, lines).rows|
    ensures exists m :: 0 <= m < |lines| && !IsComment(lines[m])
                        && Split(lines[m], Tab) == Load(file, expectedFields, lines).rows[k]
  {
    var init := lines[..|lines| - 1];
    var before := Load(file, expectedFields, init).rows;
    if k < |before| {
      LoadRowOrigin(file, expectedFields, init, k);
      var m :| 0 <= m < |init| && !IsComment(init[m]) && Split(init[m], Tab) == before[k];
      assert lines[m] == init[m];
    } else {
      assert Load(file, expectedFields, lines).rows[k] == Split(lines[|lines| - 1], Tab);
    }
  }

  /** Number of comment lines. */
  function CommentCount(lines: seq<string>): nat
  {
    if lines == [] then 0
    else CommentCount(lines[..|lines| - 1]) + (if IsComment(lines[|lines| - 1]) then 1 else 0)
  }

  /** Every line is a comment, an inserted row or a warning, and only one of them. */
  lemma {:induction false} LoadAccountsForEveryLine(file: string, expectedFields: int, lines: seq<string>)
    ensures var st := Load(file, expectedFields, lines);
            |st.rows| + |st.diagnostics| + CommentCount(lines) == |lines|
  {
    if lines != [] {
      LoadAccountsForEveryLine(file, expectedFields, lines[..|lines| - 1]);
    }
  }

  /** Every inserted row has exactly the expected number of fields, none holding a tab. */
  lemma {:induction false} LoadRowsWidth(file: string, expectedFields: int, lines: seq<string>)
    ensures forall k :: 0 <= k < |Load(file, expectedFields, lines).rows| ==>
              var row := Load(file, expectedFields, lines).rows[k];
              |row| == expectedFields && forall m :: 0 <= m < |row| ==> Tab !in row[m]
  {
    if lines != [] {
      var init := lines[..|lines| - 1];
      var line := lines[|lines| - 1];
      LoadRowsWidth(file, expectedFields, init);
      var before := Load(file, expectedFields, init).rows;
      var rows := Load(file, expectedFields, lines).rows;
      assert rows == before || (rows == before + [Split(line, Tab)] && |Split(line, Tab)| == expectedFields);
      forall k | 0 <= k < |rows|
        ensures |rows[k]| == expectedFields && forall m :: 0 <= m < |rows[k]| ==> Tab !in rows[k][m]
      {
        if k < |before| {
          assert rows[k] == before[k];
          assert |before[k]| == expectedFields;
        } else {
          assert rows[k] == Split(line, Tab);
        }
      }
    }
  }

  /**
   * Every warning names the file, a field count other than the expected one
   * and a row count no larger than the final one; the counts never decrease
   * from one warning to the next.
   */
  lemma {:induction false} DiagnosticsWellFormed(file: string, expectedFields: int, lines: seq<string>)
    ensures forall k :: 0 <= k < |Load(file, expectedFields, lines).diagnostics| ==>
              var d := Load(file, expectedFields, lines).diagnostics[k];
              d.file == file && d.expected == expectedFields && d.got != expectedFields
              && d.index <= |Load(file, expectedFields, lines).rows|
    ensures forall k, m :: 0 <= k < m < |Load(file, expectedFields, lines).diagnostics| ==>
              Load(file, expectedFields, lines).diagnostics[k].index
                <= Load(file, expectedFields, lines).diagnostics[m].index
  {
    if lines != [] {
      var init := lines[..|lines| - 1];
      var line := lines[|lines| - 1];
      DiagnosticsWellFormed(file, expectedFields, init);
      var before := Load(file, expectedFields, init);
      var st := Load(file, expectedFields, lines);
      assert |before.rows| <= |st.rows|;
      var d := Diagnostic(file, |before.rows|, |Split(line, Tab)|, expectedFields);
      assert st.diagnostics == before.diagnostics
          || (st.diagnostics == before.diagnostics + [d] && d.got != expectedFields);
      forall k | 0 <= k < |st.diagnostics|
        ensures var e := st.diagnostics[k];
                e.file == file && e.expected == expectedFields && e.got != expectedFields
                && e.index <= |st.rows|
      {
        if k < |before.diagnostics| {
          assert st.diagnostics[k] == before.diagnostics[k];
        }
      }
      forall k, m | 0 <= k < m < |st.diagnostics|
        ensures st.diagnostics[k].index <= st.diagnostics[m].index
      {
        assert st.diagnostics[k] == before.diagnostics[k];
        if m < |before.diagnostics| {
          assert st.diagnostics[m] == before.diagnostics[m];
        }
      }
    }
  }

  /**
   * Progress is reported after the 1st, 1001st, 2001st, ... insert: one
   * message per started block of a thousand rows, printing that row count.
   */
  lemma {:induction false} ProgressSchedule(file: string, expectedFields: int, lines: seq<string>)
    ensures var st := Load(file, expectedFields, lines);
            && |st.progress| == (|st.rows| + ProgressInterval - 1) / ProgressInterval
            && forall m :: 0 <= m < |st.progress| ==> st.progress[m] == ProgressInterval * m + 1
  {
    if lines != [] {
      ProgressSchedule(file, expectedFields, lines[..|lines| - 1]);
    }
  }

  /** The inner loop of DoFile: AddWithValue("@f{j}", fields[j]) for each j in turn. */
  method AddParameters(parameters: seq<Parameter>, fields: seq<string>) returns (ps: seq<Parameter>)
    requires parameters == []
    ensures ps == Parameters(fields)
  {
    ps := parameters;
    var j := 0;
    while j < |fields|
      invariant 0 <= j <= |fields|
      invariant ps == Parameters(fields[..j])
    {
      assert fields[..j + 1][..j] == fields[..j];
      ps := ps + [Parameter(Placeholder(j), fields[j])];
      j := j + 1;
    }
    assert fields[..j] == fields;
  }

  /**
   * DoFile: the statement text it prepares, the rows it inserts, the
   * warnings and progress counts it prints, and its counter `i`, which
   * advances only on a successful insert.
   */
  method DoFile(infile: string, tableName: string, expectedFields: int, lines: seq<string>)
    returns (sql: string, rows: seq<seq<string>>, diagnostics: seq<Diagnostic>, progress: seq<nat>, i: nat)
    ensures sql == InsertSql(tableName, expectedFields)
    ensures LoadState(rows, diagnostics, progress) == Load(infile, expectedFields, lines)
    ensures i == |rows|
  {
    sql := BuildInsertSql(tableName, expectedFields);
    var names := Placeholders(PlaceholderCount(expectedFields));
    var parameters: seq<Parameter> := [];
    rows, diagnostics, progress, i := [], [], [], 0;
    var n := 0;
    while n < |lines|
      invariant 0 <= n <= |lines|
      invariant parameters == []
      invariant LoadState(rows, diagnostics, progress) == Load(infile, expectedFields, lines[..n])
      invariant i == |rows|
    {
      var line := lines[n];
      LoadSnoc(infile, expectedFields, lines[..n], line);
      assert lines[..n + 1] == lines[..n] + [line];
      n := n + 1;
      if IsComment(line) {
        continue;
      }
      var fields := Split(line, Tab);
      if |fields| != expectedFields {
        diagnostics := diagnostics + [Diagnostic(infile, i, |fields|, expectedFields)];
        continue;
      }
      parameters := AddParameters(parameters, fields);
      PositionalBinding(fields);
      var row := Bind(names, parameters).value;
      rows := rows + [row];
      parameters := [];
      if i % ProgressInterval == 0 {
        progress := progress + [i + 1];
      }
      i := i + 1;
    }
    assert lines[..n] == lines;
  }
}
