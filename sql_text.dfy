/** The SQL text that SuperDao assembles, as functions of an entity's
    field descriptors, and what that text is proved to contain.

    Reflection over a Java class is replaced by an explicit sequence of
    field descriptors, in the order reflection returns them (Java does not
    specify the order of getDeclaredFields). The column name of a field is
    `u(name)`, where `u` stands for CommonUtil.underscoreName, a function
    the model knows nothing about: it is a parameter everywhere, so no
    property proved here depends on what it does. */
module SqlText {
  import opened Lang

  /** The `type` and `length` of a @Column annotation. */
  datatype ColumnSpec = ColumnSpec(sqlType: string, length: int32)

  /** One declared field of an entity class with its persistence
      annotations: @NonColumn, @EqualColumn and @Column(type, length). */
  datatype Field = Field(name: string, nonColumn: bool, equalColumn: bool, column: Option<ColumnSpec>)

  /** What a field may be used for. Persisted: listed by INSERT and bound
      from result rows (no @NonColumn). Equality: compared by the
      existence query (@EqualColumn). Schema: declared by CREATE TABLE
      (@Column). The three are independent of each other. */
  datatype Role = Persisted | Equality | Schema

  predicate Plays(f: Field, role: Role)
  {
    match role
    case Persisted => !f.nonColumn
    case Equality => f.equalColumn
    case Schema => f.column.Some?
  }

  /** The fields that play `role`, in the order of `fields`. */
  function Selected(fields: seq<Field>, role: Role): (s: seq<Field>)
    ensures |s| <= |fields|
  {
    if fields == [] then []
    else (if Plays(fields[0], role) then [fields[0]] else []) + Selected(fields[1..], role)
  }

  /** A field is selected exactly when it is declared and plays the role. */
  lemma {:induction false} SelectedMembership(fields: seq<Field>, role: Role, f: Field)
    ensures f in Selected(fields, role) <==> f in fields && Plays(f, role)
  {
    if fields != [] {
      SelectedMembership(fields[1..], role, f);
      assert f in fields <==> f == fields[0] || f in fields[1..];
    }
  }

  /** Selection keeps the order of the fields: selecting from a concatenation is
      concatenating the selections. */
  lemma {:induction false} SelectedAppend(a: seq<Field>, b: seq<Field>, role: Role)
    ensures Selected(a + b, role) == Selected(a, role) + Selected(b, role)
  {
    if a == [] {
      assert a + b == b;
    } else {
      var head := if Plays(a[0], role) then [a[0]] else [];
      assert (a + b)[0] == a[0];
      assert (a + b)[1..] == a[1..] + b;
      assert Selected(a + b, role) == head + Selected(a[1..] + b, role);
      SelectedAppend(a[1..], b, role);
      assert Selected(a, role) == head + Selected(a[1..], role);
    }
  }

  function Names(u: string -> string, fs: seq<Field>): (cs: seq<string>)
  {
    seq(|fs|, i requires 0 <= i < |fs| => u(fs[i].name))
  }

  /** The column names of the fields that play `role`, in the order of `fields`. */
  function Columns(u: string -> string, fields: seq<Field>, role: Role): seq<string>
  {
    Names(u, Selected(fields, role))
  }

  lemma NamesAppend(u: string -> string, a: seq<Field>, b: seq<Field>)
    ensures Names(u, a + b) == Names(u, a) + Names(u, b)
  {
  }

  lemma ColumnsAppend(u: string -> string, a: seq<Field>, b: seq<Field>, role: Role)
    ensures Columns(u, a + b, role) == Columns(u, a, role) + Columns(u, b, role)
  {
    SelectedAppend(a, b, role);
    NamesAppend(u, Selected(a, role), Selected(b, role));
  }

  /** The contribution of one field to the column list is its own column
      name when it plays the role and nothing otherwise. */
  lemma ColumnsInsertField(u: string -> string, a: seq<Field>, f: Field, b: seq<Field>, role: Role)
    ensures Columns(u, a + [f] + b, role)
         == Columns(u, a, role) + (if Plays(f, role) then [u(f.name)] else []) + Columns(u, b, role)
  {
    ColumnsAppend(u, a + [f], b, role);
    ColumnsAppend(u, a, [f], role);
    assert Selected([f], role) == (if Plays(f, role) then [f] else []) + Selected([], role);
  }

  /** One more declared field appends its column, if it plays the role,
      to those of the fields before it. */
  lemma ColumnsSnoc(u: string -> string, fields: seq<Field>, k: nat, role: Role)
    requires k < |fields|
    ensures Columns(u, fields[..k + 1], role)
         == Columns(u, fields[..k], role) + (if Plays(fields[k], role) then [u(fields[k].name)] else [])
  {
    assert fields[..k + 1] == fields[..k] + [fields[k]];
    ColumnsAppend(u, fields[..k], [fields[k]], role);
    assert Selected([fields[k]], role) == (if Plays(fields[k], role) then [fields[k]] else []) + Selected([], role);
  }

  /** A name is listed exactly when some field playing the role has it. */
  lemma ColumnsMembership(u: string -> string, fields: seq<Field>, role: Role, c: string)
    ensures c in Columns(u, fields, role) <==> exists f :: f in fields && Plays(f, role) && u(f.name) == c
  {
    var s := Selected(fields, role);
    if c in Columns(u, fields, role) {
      var i :| 0 <= i < |s| && Columns(u, fields, role)[i] == c;
      SelectedMembership(fields, role, s[i]);
    }
    if f :| f in fields && Plays(f, role) && u(f.name) == c {
      SelectedMembership(fields, role, f);
      var i :| 0 <= i < |s| && s[i] == f;
      assert Columns(u, fields, role)[i] == c;
    }
  }

  /** Only the flag of its own role matters: two descriptor lists that
      agree on the names and on who plays `role` give the same columns,
      whatever their other annotations say. */
  lemma {:induction false} ColumnsSeeOnlyTheirRole(u: string -> string, fields: seq<Field>, other: seq<Field>, role: Role)
    requires |fields| == |other|
    requires forall i :: 0 <= i < |fields| ==> fields[i].name == other[i].name && Plays(fields[i], role) == Plays(other[i], role)
    ensures Columns(u, fields, role) == Columns(u, other, role)
  {
    if fields != [] {
      ColumnsInsertField(u, [], fields[0], fields[1..], role);
      ColumnsInsertField(u, [], other[0], other[1..], role);
      assert [] + [fields[0]] + fields[1..] == fields;
      assert [] + [other[0]] + other[1..] == other;
      ColumnsSeeOnlyTheirRole(u, fields[1..], other[1..], role);
    }
  }

  // ---------------------------------------------------------------------
  // Lists of text items

  /** `items` separated by `sep`. */
  function Joined(items: seq<string>, sep: char): string
  {
    if items == [] then ""
    else if |items| == 1 then items[0]
    else items[0] + [sep] + Joined(items[1..], sep)
  }

  /** `items`, each followed by `sep`: the text a loop of `sql += item + sep` builds. */
  function Terminated(items: seq<string>, sep: char): string
  {
    if items == [] then "" else items[0] + [sep] + Terminated(items[1..], sep)
  }

  lemma {:induction false} TerminatedAppend(items: seq<string>, x: string, sep: char)
    ensures Terminated(items + [x], sep) == Terminated(items, sep) + x + [sep]
  {
    if items != [] {
      assert (items + [x])[1..] == items[1..] + [x];
      TerminatedAppend(items[1..], x, sep);
    }
  }

  /** Dropping the last character of a terminated list leaves the joined list. */
  lemma {:induction false} TerminatedIsJoined(items: seq<string>, sep: char)
    requires items != []
    ensures Terminated(items, sep) == Joined(items, sep) + [sep]
  {
    if |items| > 1 {
      TerminatedIsJoined(items[1..], sep);
    }
  }

  function Concat(items: seq<string>): string
  {
    if items == [] then "" else items[0] + Concat(items[1..])
  }

  lemma {:induction false} ConcatAppend(items: seq<string>, x: string)
    ensures Concat(items + [x]) == Concat(items) + x
  {
    if items != [] {
      assert (items + [x])[1..] == items[1..] + [x];
      ConcatAppend(items[1..], x);
    }
  }

  lemma ConcatAfter(start: string, items: seq<string>, x: string)
    ensures start + Concat(items + [x]) == start + Concat(items) + x
  {
    ConcatAppend(items, x);
  }

  /** The pieces of `s` between occurrences of `sep`, empty pieces included.
      The program never splits its text; this serves only the proofs about
      what the assembled lists contain. */
  function Split(s: string, sep: char): (parts: seq<string>)
    ensures |parts| >= 1
  {
    if s == [] then [""]
    else if s[0] == sep then [""] + Split(s[1..], sep)
    else
      var rest := Split(s[1..], sep);
      [[s[0]] + rest[0]] + rest[1..]
  }

  lemma {:induction false} SplitSingle(x: string, sep: char)
    requires sep !in x
    ensures Split(x, sep) == [x]
  {
    if x != [] {
      SplitSingle(x[1..], sep);
      assert [x[0]] + x[1..] == x;
    }
  }

  lemma {:induction false} SplitCons(x: string, rest: string, sep: char)
    requires sep !in x
    ensures Split(x + [sep] + rest, sep) == [x] + Split(rest, sep)
  {
    var s := x + [sep] + rest;
    if x == [] {
      assert s[0] == sep && s[1..] == rest;
    } else {
      assert s[0] == x[0] && s[1..] == x[1..] + [sep] + rest;
      SplitCons(x[1..], rest, sep);
      assert [x[0]] + x[1..] == x;
    }
  }

  /** Splitting a joined list gives the list back when no item contains the separator. */
  lemma {:induction false} SplitJoined(items: seq<string>, sep: char)
    requires items != []
    requires forall i :: 0 <= i < |items| ==> sep !in items[i]
    ensures Split(Joined(items, sep), sep) == items
  {
    if |items| == 1 {
      SplitSingle(items[0], sep);
    } else {
      SplitJoined(items[1..], sep);
      SplitCons(items[0], Joined(items[1..], sep), sep);
    }
  }

  lemma {:induction false} JoinedAvoids(items: seq<string>, sep: char, c: char)
    requires c != sep
    requires forall i :: 0 <= i < |items| ==> c !in items[i]
    ensures c !in Joined(items, sep)
  {
    if |items| > 1 {
      JoinedAvoids(items[1..], sep, c);
    }
  }

  // ---------------------------------------------------------------------
  // INSERT

  function Backquoted(c: string): string
  {
    "`" + c + "`"
  }

  function Quoted(cols: seq<string>): seq<string>
  {
    seq(|cols|, i requires 0 <= i < |cols| => Backquoted(cols[i]))
  }

  function Marks(n: nat): seq<string>
  {
    seq(n, _ => "?")
  }

  /** "`c1`,`c2`,...,`cN`" */
  function ColumnList(cols: seq<string>): string
  {
    Joined(Quoted(cols), ',')
  }

  /** "?,?,...,?" with `n` marks. */
  function PlaceholderList(n: nat): string
  {
    Joined(Marks(n), ',')
  }

  /** The statement assembleInsert returns for `head` (the insert prefix
      followed by the table name) and the persisted columns `cols`. With
      no column the two final-character strips eat the opening
      parentheses, which is what the source does. */
  function InsertSql(head: string, cols: seq<string>): string
  {
    if cols == [] then head + ") values )"
    else head + "(" + ColumnList(cols) + ") values (" + PlaceholderList(|cols|) + ")"
  }

  /** One pass of assembleInsert's column loop appends the next column. */
  lemma ColumnStep(start: string, cols: seq<string>, c: string)
    ensures start + Terminated(Quoted(cols), ',') + ("`" + c + "`" + ",")
         == start + Terminated(Quoted(cols + [c]), ',')
  {
    TerminatedAppend(Quoted(cols), Backquoted(c), ',');
    assert Quoted(cols + [c]) == Quoted(cols) + [Backquoted(c)];
  }

  /** One pass of assembleInsert's placeholder loop appends the next mark. */
  lemma MarkStep(base: string, i: nat)
    ensures base + Terminated(Marks(i), ',') + "?," == base + Terminated(Marks(i + 1), ',')
  {
    TerminatedAppend(Marks(i), "?", ',');
    assert Marks(i + 1) == Marks(i) + ["?"];
  }

  /** The first strip of assembleInsert: the last character of the
      column loop's text is the final comma, or the opening parenthesis
      when there is no column. */
  lemma StripColumns(head: string, cols: seq<string>)
    ensures var t := head + "(" + Terminated(Quoted(cols), ',');
      t[..|t| - 1] == if cols == [] then head else head + "(" + ColumnList(cols)
  {
    var t := head + "(" + Terminated(Quoted(cols), ',');
    if cols == [] {
      assert t == head + "(";
    } else {
      TerminatedIsJoined(Quoted(cols), ',');
      assert t == head + "(" + ColumnList(cols) + ",";
    }
  }

  /** The second strip: the last character of the placeholder loop's text
      is the final comma, or the opening parenthesis when there is none. */
  lemma StripMarks(base: string, n: nat)
    requires base != []
    ensures var t := base + Terminated(Marks(n), ',');
      t[..|t| - 1] == if n == 0 then base[..|base| - 1] else base + PlaceholderList(n)
  {
    var t := base + Terminated(Marks(n), ',');
    if n == 0 {
      assert t == base;
    } else {
      TerminatedIsJoined(Marks(n), ',');
      assert t == base + PlaceholderList(n) + ",";
    }
  }

  /** Both strips together give the INSERT text. */
  lemma InsertAfterStrips(head: string, cols: seq<string>, listed: string)
    requires listed == if cols == [] then head else head + "(" + ColumnList(cols)
    ensures var base := listed + ") values (";
      (if cols == [] then base[..|base| - 1] else base + PlaceholderList(|cols|)) + ")" == InsertSql(head, cols)
  {
    var base := listed + ") values (";
    if cols == [] {
      assert base[..|base| - 1] == head + ") values ";
    }
  }

  /** The column list names each column once, backquoted, in order, and the
      value list holds exactly one `?` per column. */
  lemma InsertListsEachColumnOnce(head: string, cols: seq<string>)
    requires cols != []
    requires forall i :: 0 <= i < |cols| ==> ',' !in cols[i]
    ensures InsertSql(head, cols) == head + "(" + ColumnList(cols) + ") values (" + PlaceholderList(|cols|) + ")"
    ensures Split(ColumnList(cols), ',') == Quoted(cols)
    ensures Split(PlaceholderList(|cols|), ',') == Marks(|cols|)
    ensures |Marks(|cols|)| == |cols|
  {
    forall i | 0 <= i < |cols|
      ensures ',' !in Quoted(cols)[i]
    {
      assert Quoted(cols)[i] == "`" + cols[i] + "`";
    }
    SplitJoined(Quoted(cols), ',');
    SplitJoined(Marks(|cols|), ',');
  }

  lemma {:induction false} PlaceholderCount(n: nat)
    ensures Occurrences(PlaceholderList(n), '?') == n
  {
    if n == 1 {
      assert PlaceholderList(1) == "?";
    } else if n > 1 {
      PlaceholderCount(n - 1);
      assert Marks(n)[1..] == Marks(n - 1);
      assert PlaceholderList(n) == "?" + "," + PlaceholderList(n - 1);
      OccurrencesAppend("?", ",", '?');
      OccurrencesAppend("?" + ",", PlaceholderList(n - 1), '?');
    }
  }

  lemma {:induction false} OccurrencesAppend(a: string, b: string, c: char)
    ensures Occurrences(a + b, c) == Occurrences(a, c) + Occurrences(b, c)
    decreases |b|
  {
    if b == [] {
      assert a + b == a;
    } else {
      assert (a + b)[..|a + b| - 1] == a + b[..|b| - 1];
      OccurrencesAppend(a, b[..|b| - 1], c);
    }
  }

  lemma OccurrencesAround(a: string, w: string, b: string, c: char)
    requires c !in w
    ensures Occurrences(a + w + b, c) == Occurrences(a, c) + Occurrences(b, c)
  {
    OccurrencesAbsent(w, c);
    OccurrencesAppend(a, w, c);
    OccurrencesAppend(a + w, b, c);
  }

  lemma {:induction false} OccurrencesAbsent(a: string, c: char)
    requires c !in a
    ensures Occurrences(a, c) == 0
    decreases |a|
  {
    if a != [] {
      assert forall i :: 0 <= i < |a| - 1 ==> a[..|a| - 1][i] == a[i];
      OccurrencesAbsent(a[..|a| - 1], c);
    }
  }

  lemma ColumnListAvoids(cols: seq<string>, c: char)
    requires c != ',' && c != '`'
    requires forall i :: 0 <= i < |cols| ==> c !in cols[i]
    ensures Occurrences(ColumnList(cols), c) == 0
  {
    forall i | 0 <= i < |cols|
      ensures c !in Quoted(cols)[i]
    {
      assert Quoted(cols)[i] == "`" + cols[i] + "`";
    }
    JoinedAvoids(Quoted(cols), ',', c);
    OccurrencesAbsent(ColumnList(cols), c);
  }

  /** Counting `?` through the fixed parts of the INSERT text. */
  lemma InsertFrameCount(head: string, list: string, marks: string)
    requires Occurrences(list, '?') == 0
    ensures Occurrences(head + "(" + list + ") values (" + marks + ")", '?')
         == Occurrences(head, '?') + Occurrences(marks, '?')
  {
    OccurrencesAbsent("(", '?');
    OccurrencesAbsent(") values (", '?');
    OccurrencesAbsent(")", '?');
    OccurrencesAppend(head, "(", '?');
    OccurrencesAppend(head + "(", list, '?');
    OccurrencesAppend(head + "(" + list, ") values (", '?');
    OccurrencesAppend(head + "(" + list + ") values (", marks, '?');
    OccurrencesAppend(head + "(" + list + ") values (" + marks, ")", '?');
  }

  /** The INSERT statement carries one `?` per column beyond those already in `head`. */
  lemma InsertPlaceholders(head: string, cols: seq<string>)
    requires forall i :: 0 <= i < |cols| ==> '?' !in cols[i]
    ensures Occurrences(InsertSql(head, cols), '?') == Occurrences(head, '?') + |cols|
  {
    if cols == [] {
      OccurrencesAbsent(") values )", '?');
      OccurrencesAppend(head, ") values )", '?');
    } else {
      ColumnListAvoids(cols, '?');
      PlaceholderCount(|cols|);
      InsertFrameCount(head, ColumnList(cols), PlaceholderList(|cols|));
    }
  }

  // ---------------------------------------------------------------------
  // Existence query

  function EqualityClause(c: string): string
  {
    " and `" + c + "`= ?"
  }

  function Predicates(cols: seq<string>): seq<string>
  {
    seq(|cols|, i requires 0 <= i < |cols| => EqualityClause(cols[i]))
  }

  /** The statement assembleExist returns for `head` (the select prefix
      followed by the table name) and the equality columns `cols`. */
  function ExistSql(head: string, cols: seq<string>): string
  {
    head + " where 1 = 1 " + Concat(Predicates(cols))
  }

  /** Each equality column adds its own clause after the ones before it. */
  lemma ExistAppend(head: string, cols: seq<string>, c: string)
    ensures ExistSql(head, cols + [c]) == ExistSql(head, cols) + " and `" + c + "`= ?"
  {
    assert Predicates(cols + [c]) == Predicates(cols) + [EqualityClause(c)];
    ConcatAppend(Predicates(cols), EqualityClause(c));
  }

  lemma ClauseCount(c: string)
    requires '?' !in c
    ensures Occurrences(EqualityClause(c), '?') == 1
  {
    assert EqualityClause(c) == " and `" + c + "`= " + "?";
    OccurrencesAbsent(" and `", '?');
    OccurrencesAbsent("`= ", '?');
    OccurrencesAppend(" and `", c, '?');
    OccurrencesAppend(" and `" + c, "`= ", '?');
    OccurrencesAppend(" and `" + c + "`= ", "?", '?');
    OccurrencesAbsent(c, '?');
  }

  lemma {:induction false} PredicateCount(cols: seq<string>)
    requires forall i :: 0 <= i < |cols| ==> '?' !in cols[i]
    ensures Occurrences(Concat(Predicates(cols)), '?') == |cols|
  {
    if cols != [] {
      assert Predicates(cols)[1..] == Predicates(cols[1..]);
      PredicateCount(cols[1..]);
      ClauseCount(cols[0]);
      OccurrencesAppend(Predicates(cols)[0], Concat(Predicates(cols)[1..]), '?');
    }
  }

  /** The existence query has one `?` per equality column beyond those in `head`. */
  lemma ExistPlaceholders(head: string, cols: seq<string>)
    requires forall i :: 0 <= i < |cols| ==> '?' !in cols[i]
    ensures Occurrences(ExistSql(head, cols), '?') == Occurrences(head, '?') + |cols|
  {
    PredicateCount(cols);
    OccurrencesAround(head, " where 1 = 1 ", Concat(Predicates(cols)), '?');
  }

  // ---------------------------------------------------------------------
  // CREATE TABLE

  const IdDefinition := "`id` int(11) NOT NULL AUTO_INCREMENT,"
  const TableOptions := " PRIMARY KEY (`id`)" + ") ENGINE=InnoDB AUTO_INCREMENT=1 DEFAULT CHARSET=utf8"

  function DefinitionClause(c: string, spec: ColumnSpec): string
  {
    "`" + c + "` " + spec.sqlType + "(" + IntToString(spec.length as int) + ") DEFAULT NULL,"
  }

  /** The definition clause of a @Column field. */
  function Definition(u: string -> string, f: Field): string
  {
    match f.column
    case Some(spec) => DefinitionClause(u(f.name), spec)
    case None => ""
  }

  function DefinitionsOf(u: string -> string, fs: seq<Field>): seq<string>
  {
    seq(|fs|, i requires 0 <= i < |fs| => Definition(u, fs[i]))
  }

  /** One column definition per @Column field, in the order of `fields`. */
  function Definitions(u: string -> string, fields: seq<Field>): seq<string>
  {
    DefinitionsOf(u, Selected(fields, Schema))
  }

  lemma DefinitionsOfAppend(u: string -> string, a: seq<Field>, b: seq<Field>)
    ensures DefinitionsOf(u, a + b) == DefinitionsOf(u, a) + DefinitionsOf(u, b)
  {
    var l, r := DefinitionsOf(u, a + b), DefinitionsOf(u, a) + DefinitionsOf(u, b);
    forall i | 0 <= i < |l|
      ensures l[i] == r[i]
    {
      if i < |a| {
        assert (a + b)[i] == a[i];
      } else {
        assert (a + b)[i] == b[i - |a|];
      }
    }
  }

  /** The statement createTable sends for the table prefix `prefix`, the
      table name `table` and the column definitions `defs`. */
  function DdlSql(prefix: string, table: string, defs: seq<string>): string
  {
    DdlOpening(prefix, table) + Concat(defs) + TableOptions
  }

  function DdlOpening(prefix: string, table: string): string
  {
    "CREATE TABLE IF NOT EXISTS `" + prefix + table + "` (" + IdDefinition
  }

  lemma DefinitionsSingle(u: string -> string, f: Field)
    ensures Definitions(u, [f]) == if f.column.Some? then [DefinitionClause(u(f.name), f.column.value)] else []
  {
    assert Selected([f], Schema) == (if Plays(f, Schema) then [f] else []) + Selected([], Schema);
  }

  lemma DefinitionsAppend(u: string -> string, a: seq<Field>, b: seq<Field>)
    ensures Definitions(u, a + b) == Definitions(u, a) + Definitions(u, b)
  {
    SelectedAppend(a, b, Schema);
    DefinitionsOfAppend(u, Selected(a, Schema), Selected(b, Schema));
  }

  /** A field contributes one definition, at its own position, when it
      carries @Column, and nothing otherwise, whatever its other flags. */
  lemma DefinitionsInsertField(u: string -> string, a: seq<Field>, f: Field, b: seq<Field>)
    ensures Definitions(u, a + [f] + b)
         == Definitions(u, a)
          + (if f.column.Some? then [DefinitionClause(u(f.name), f.column.value)] else [])
          + Definitions(u, b)
  {
    DefinitionsAppend(u, a + [f], b);
    DefinitionsAppend(u, a, [f]);
    DefinitionsSingle(u, f);
  }

  lemma DefinitionsSnoc(u: string -> string, fields: seq<Field>, k: nat)
    requires k < |fields|
    ensures Definitions(u, fields[..k + 1])
         == Definitions(u, fields[..k])
          + (if fields[k].column.Some? then [DefinitionClause(u(fields[k].name), fields[k].column.value)] else [])
  {
    assert fields[..k + 1] == fields[..k] + [fields[k]];
    DefinitionsAppend(u, fields[..k], [fields[k]]);
    DefinitionsSingle(u, fields[k]);
  }

  /** The DDL always opens with the synthetic key and closes with the
      primary key and table options; between them stand the definitions. */
  lemma DdlFrame(prefix: string, table: string, defs: seq<string>)
    ensures var s := DdlSql(prefix, table, defs);
      var open := DdlOpening(prefix, table);
      |s| == |open| + |Concat(defs)| + |TableOptions|
      && s[..|open|] == open
      && s[|open|..|open| + |Concat(defs)|] == Concat(defs)
      && s[|s| - |TableOptions|..] == TableOptions
  {
  }
}
