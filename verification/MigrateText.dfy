/** The statements of a migration: their text, and a reader that takes a script apart again. */
module MigrateText {
  import opened Prelude
  import opened Text
  import opened Sql
  import opened SqlWords

  // ---------- Text ----------

  datatype Ddl =
    | AddColumn(table: string, column: string, definition: string)
    | DropIndex(table: string, index: string)
    | CreateUnique(table: string, index: string, columns: seq<string>)

  function DdlText(s: Ddl): string {
    match s
    case AddColumn(t, c, def) => "ALTER TABLE " + t + " ADD COLUMN " + c + " " + def + ";"
    case DropIndex(t, n) => "drop index " + n + " on " + t + ";\n"
    case CreateUnique(t, n, cols) =>
      "CREATE " + " UNIQUE " + " INDEX " + n + " ON " + t + " ( " + Join(cols, COMMA) + " ) " + SEMICOLON + "\n"
  }

  /** A text of one or more statements. */
  datatype Script = Script(text: string, steps: seq<Ddl>)

  function StepsText(steps: seq<Ddl>): string {
    if steps == [] then "" else StepsText(steps[..|steps| - 1]) + DdlText(steps[|steps| - 1])
  }

  lemma {:induction false} TextSnoc(steps: seq<Ddl>, s: Ddl)
    ensures StepsText(steps + [s]) == StepsText(steps) + DdlText(s)
  {
    assert (steps + [s])[..|steps|] == steps;
  }

  lemma OneStepText(s: Ddl)
    ensures StepsText([s]) == DdlText(s)
  {
    assert [] + [s] == [s];
    TextSnoc([], s);
  }

  // ---------- Reading ----------

  /** A name between two fixed texts. */
  function NameBetween(before: string, after: string, s: string): Option<Taken> {
    match Strip(before, s)
    case None => None
    case Some(t) =>
      match TakeName(t)
      case None => None
      case Some(n) =>
        match Strip(after, n.rest)
        case None => None
        case Some(rest) => Some(Taken(n.name, rest))
  }

  lemma NameBetweenOf(before: string, name: string, after: string, rest: string)
    requires PlainName(name) && after != "" && !NameChar(after[0])
    ensures NameBetween(before, after, before + name + after + rest) == Some(Taken(name, rest))
  {
    assert before + name + after + rest == before + (name + (after + rest));
    StripOf(before, name + (after + rest));
    TakeNameOf(name, after + rest);
    StripOf(after, rest);
  }

  /** A statement and what follows it. */
  datatype Read = Read(statement: Ddl, rest: string)

  /** ALTER TABLE reaches to the semicolon at the end of its text. */
  function ReadAlter(s: string): Option<Ddl> {
    match NameBetween("ALTER TABLE ", " ADD COLUMN ", s)
    case None => None
    case Some(table) =>
      match NameBetween("", " ", table.rest)
      case None => None
      case Some(column) =>
        if column.rest == "" || column.rest[|column.rest| - 1] != ';' then None
        else Some(AddColumn(table.name, column.name, column.rest[..|column.rest| - 1]))
  }

  function ReadDrop(s: string): Option<Read> {
    match NameBetween("drop index ", " on ", s)
    case None => None
    case Some(index) =>
      match NameBetween("", ";\n", index.rest)
      case None => None
      case Some(table) => Some(Read(DropIndex(table.name, index.name), table.rest))
  }

  const COLUMNS_END := " )  ; \n"

  /** The columns up to the closing parenthesis. */
  function ReadColumns(s: string): Option<(seq<string>, string)>
    decreases |s|
  {
    match TakeName(s)
    case None => None
    case Some(n) =>
      match Strip(COLUMNS_END, n.rest)
      case Some(rest) => Some(([n.name], rest))
      case None =>
        match Strip(COMMA, n.rest)
        case None => None
        case Some(t) =>
          match ReadColumns(t)
          case None => None
          case Some(more) => Some(([n.name] + more.0, more.1))
  }

  function ReadCreate(s: string): Option<Read> {
    match NameBetween("CREATE  UNIQUE  INDEX ", " ON ", s)
    case None => None
    case Some(index) =>
      match NameBetween("", " ( ", index.rest)
      case None => None
      case Some(table) =>
        match ReadColumns(table.rest)
        case None => None
        case Some(columns) => Some(Read(CreateUnique(table.name, index.name, columns.0), columns.1))
  }

  function ReadIndexes(s: string): Option<seq<Ddl>>
    decreases |s|
  {
    if s == "" then Some([])
    else
      var first := if ReadDrop(s).Some? then ReadDrop(s) else ReadCreate(s);
      if first.None? || |first.value.rest| >= |s| then None
      else
        var more := ReadIndexes(first.value.rest);
        if more.None? then None else Some([first.value.statement] + more.value)
  }

  /** The statements of a script. */
  function ReadScript(s: string): Option<seq<Ddl>> {
    if "ALTER" <= s then (match ReadAlter(s) case Some(a) => Some([a]) case None => None) else ReadIndexes(s)
  }

  // ---------- What is read is what was written ----------

  ghost predicate PlainNames(names: seq<string>) {
    forall i :: 0 <= i < |names| ==> PlainName(names[i])
  }

  lemma AlterTail(column: string, definition: string)
    requires PlainName(column)
    ensures var tail := column + " " + (definition + ";");
            NameBetween("", " ", tail) == Some(Taken(column, definition + ";"))
  {
    var tail := column + " " + (definition + ";");
    assert tail == "" + column + " " + (definition + ";");
    NameBetweenOf("", column, " ", definition + ";");
  }

  lemma AlterRead(table: string, column: string, definition: string)
    requires PlainName(table) && PlainName(column)
    ensures var tail := column + " " + (definition + ";");
            ReadAlter("ALTER TABLE " + table + " ADD COLUMN " + tail) == Some(AddColumn(table, column, definition))
  {
    var tail := column + " " + (definition + ";");
    NameBetweenOf("ALTER TABLE ", table, " ADD COLUMN ", tail);
    AlterTail(column, definition);
    assert (definition + ";")[..|definition|] == definition;
  }

  lemma ReadAlterOf(table: string, column: string, definition: string)
    requires PlainName(table) && PlainName(column)
    ensures ReadScript(DdlText(AddColumn(table, column, definition))) == Some([AddColumn(table, column, definition)])
  {
    var s := DdlText(AddColumn(table, column, definition));
    assert s == "ALTER TABLE " + table + " ADD COLUMN " + (column + " " + (definition + ";"));
    AlterRead(table, column, definition);
    assert "ALTER" <= s;
  }

  lemma ReadDropOf(table: string, index: string, rest: string)
    requires PlainName(table) && PlainName(index)
    ensures ReadDrop(DdlText(DropIndex(table, index)) + rest) == Some(Read(DropIndex(table, index), rest))
  {
    var s := DdlText(DropIndex(table, index)) + rest;
    var tail := table + ";\n" + rest;
    assert s == "drop index " + index + " on " + tail;
    NameBetweenOf("drop index ", index, " on ", tail);
    assert tail == "" + table + ";\n" + rest;
    NameBetweenOf("", table, ";\n", rest);
  }

  lemma {:induction false} ReadLastColumn(column: string, rest: string)
    requires PlainName(column)
    ensures ReadColumns(column + (COLUMNS_END + rest)) == Some(([column], rest))
  {
    TakeNameOf(column, COLUMNS_END + rest);
    StripOf(COLUMNS_END, rest);
  }

  lemma {:induction false} ReadMoreColumns(column: string, more: string)
    requires PlainName(column)
    ensures ReadColumns(column + (COMMA + more))
            == match ReadColumns(more)
               case None => None
               case Some(r) => Some(([column] + r.0, r.1))
  {
    TakeNameOf(column, COMMA + more);
    StripOther(COLUMNS_END, COMMA, more, 1);
    StripOf(COMMA, more);
  }

  lemma {:induction false} ColumnsFront(columns: seq<string>, tail: string)
    requires |columns| > 1
    ensures Join(columns, COMMA) + tail == columns[0] + (COMMA + (Join(columns[1..], COMMA) + tail))
  {
    JoinFront(columns, COMMA);
  }

  lemma {:induction false} ReadColumnsOf(columns: seq<string>, rest: string)
    requires columns != [] && PlainNames(columns)
    ensures ReadColumns(Join(columns, COMMA) + (COLUMNS_END + rest)) == Some((columns, rest))
    decreases |columns|
  {
    if |columns| == 1 {
      assert columns == [columns[0]];
      JoinOne(columns[0], COMMA);
      ReadLastColumn(columns[0], rest);
    } else {
      ColumnsFront(columns, COLUMNS_END + rest);
      ReadMoreColumns(columns[0], Join(columns[1..], COMMA) + (COLUMNS_END + rest));
      ReadColumnsOf(columns[1..], rest);
      assert [columns[0]] + columns[1..] == columns;
    }
  }

  lemma {:induction false} CreateText(table: string, index: string, columns: seq<string>, rest: string)
    ensures DdlText(CreateUnique(table, index, columns)) + rest
            == "CREATE  UNIQUE  INDEX " + index + " ON "
              + (table + " ( " + (Join(columns, COMMA) + (COLUMNS_END + rest)))
  {
    assert " ) " + SEMICOLON + "\n" == COLUMNS_END;
    assert "CREATE " + " UNIQUE " + " INDEX " == "CREATE  UNIQUE  INDEX ";
  }

  lemma CreateTail(table: string, list: string)
    requires PlainName(table)
    ensures NameBetween("", " ( ", table + " ( " + list) == Some(Taken(table, list))
  {
    assert table + " ( " + list == "" + table + " ( " + list;
    NameBetweenOf("", table, " ( ", list);
  }

  lemma ReadCreateOf(table: string, index: string, columns: seq<string>, rest: string)
    requires PlainName(table) && PlainName(index) && columns != [] && PlainNames(columns)
    ensures ReadCreate(DdlText(CreateUnique(table, index, columns)) + rest)
         == Some(Read(CreateUnique(table, index, columns), rest))
  {
    var list := Join(columns, COMMA) + (COLUMNS_END + rest);
    CreateText(table, index, columns, rest);
    NameBetweenOf("CREATE  UNIQUE  INDEX ", index, " ON ", table + " ( " + list);
    CreateTail(table, list);
    ReadColumnsOf(columns, rest);
  }

  lemma CreateIsNoDrop(table: string, index: string, columns: seq<string>, rest: string)
    ensures ReadDrop(DdlText(CreateUnique(table, index, columns)) + rest) == None
  {
    var s := DdlText(CreateUnique(table, index, columns)) + rest;
    CreateText(table, index, columns, rest);
    assert s[0] == 'C';
  }

  /** An index statement with names that can be read. */
  ghost predicate PlainIndex(s: Ddl) {
    match s
    case AddColumn(_, _, _) => false
    case DropIndex(t, n) => PlainName(t) && PlainName(n)
    case CreateUnique(t, n, cols) => PlainName(t) && PlainName(n) && cols != [] && PlainNames(cols)
  }

  lemma {:induction false} StepsFront(steps: seq<Ddl>)
    requires steps != []
    ensures StepsText(steps) == DdlText(steps[0]) + StepsText(steps[1..])
  {
    var n := |steps| - 1;
    if n > 0 {
      StepsFront(steps[..n]);
      assert steps[..n][1..] == steps[1..][..n - 1];
    }
  }

  /** One statement at the front. */
  lemma {:induction false} ReadFirst(s: Ddl, rest: string)
    requires PlainIndex(s)
    ensures |rest| < |DdlText(s) + rest|
    ensures ReadIndexes(DdlText(s) + rest)
            == var more := ReadIndexes(rest); if more.None? then None else Some([s] + more.value)
  {
    match s {
      case DropIndex(t, n) => ReadDropOf(t, n, rest);
      case CreateUnique(t, n, cols) =>
        CreateIsNoDrop(t, n, cols, rest);
        ReadCreateOf(t, n, cols, rest);
    }
  }

  lemma {:induction false} ReadIndexesOf(steps: seq<Ddl>)
    requires forall i :: 0 <= i < |steps| ==> PlainIndex(steps[i])
    ensures ReadIndexes(StepsText(steps)) == Some(steps)
    decreases |steps|
  {
    if steps != [] {
      StepsFront(steps);
      ReadFirst(steps[0], StepsText(steps[1..]));
      ReadIndexesOf(steps[1..]);
      assert [steps[0]] + steps[1..] == steps;
    }
  }

  /** A script of index statements is read as these statements. */
  lemma {:induction false} ReadScriptOf(steps: seq<Ddl>)
    requires forall i :: 0 <= i < |steps| ==> PlainIndex(steps[i])
    ensures ReadScript(StepsText(steps)) == Some(steps)
  {
    ReadIndexesOf(steps);
    if steps != [] {
      StepsFront(steps);
      assert StepsText(steps)[0] == DdlText(steps[0])[0];
    }
  }
}
