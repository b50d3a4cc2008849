/** SuperDao: the generic data-access object. It assembles INSERT,
    existence and CREATE TABLE statements from an entity's field
    descriptors, validates its arguments, builds the parameter matrix of
    a batch insert, and binds result rows back into fresh beans.

    The database (commons-dbutils QueryRunner over the pooled data
    source) is an input: a record of total functions from statement and
    parameters to the driver's answer, an Err carrying the message of the
    SQLException it raised. */
module Storage {
  import opened Lang
  import opened SqlText

  /** A value handed to or returned by the JDBC driver. */
  datatype Value = Null | Number(n: int) | Text(s: string)

  /** One result row: column label to value; a label absent from the map
      is one the result set does not have. */
  type Row = map<string, Value>

  /** The fields a bind assigned, by field name. A field absent from the
      map keeps the default its no-argument constructor gave it. */
  type Bean = map<string, Value>

  /** What reflection reveals of an entity class: its simple name, its
      declared fields in order, whether newInstance() succeeds, and whether
      the setter `set<Name>` of a field exists and accepts a value. */
  datatype Klass = Klass(
    simpleName: string,
    fields: seq<Field>,
    instantiable: bool,
    accepts: (string, Value) -> bool)

  /** A Storable instance: its class, what toArray() returns, and what
      equalValues() returns (None for null). */
  datatype Entity = Entity(klass: Klass, values: seq<Value>, equalValues: Option<seq<Value>>)

  datatype Database = Database(
    batch: (string, seq<seq<Value>>) -> Result<seq<int>, string>,
    query: (string, seq<Value>) -> Result<seq<Row>, string>,
    update: string -> Result<int, string>)

  /** A driver answer as seen by a caller that lets SQLException propagate. */
  function Checked<T>(res: Result<T, string>): Result<T, Fault>
  {
    match res
    case Ok(v) => Ok(v)
    case Err(m) => Err(SqlError(m))
  }

  /** The Storable contract: toArray() gives one value per persisted
      column and equalValues(), when present, one per equality column. */
  predicate ConformsToStorable(e: Entity, u: string -> string)
  {
    && |e.values| == |Columns(u, e.klass.fields, Persisted)|
    && (e.equalValues.Some? ==> |e.equalValues.value| == |Columns(u, e.klass.fields, Equality)|)
  }

  /** A conforming entity supplies exactly as many values as its INSERT
      statement has placeholders (given that neither the names nor the
      prefix contain a `?`). */
  lemma InsertArity(head: string, e: Entity, u: string -> string)
    requires ConformsToStorable(e, u)
    requires '?' !in head
    requires forall c :: c in Columns(u, e.klass.fields, Persisted) ==> '?' !in c
    ensures Occurrences(InsertSql(head, Columns(u, e.klass.fields, Persisted)), '?') == |e.values|
  {
    var cols := Columns(u, e.klass.fields, Persisted);
    assert forall i :: 0 <= i < |cols| ==> '?' !in cols[i] by {
      forall i | 0 <= i < |cols| ensures '?' !in cols[i] { assert cols[i] in cols; }
    }
    InsertPlaceholders(head, cols);
    OccurrencesAbsent(head, '?');
  }

  /** A conforming entity with equality values supplies exactly as many as
      its existence query has placeholders. */
  lemma ExistArity(head: string, e: Entity, u: string -> string)
    requires ConformsToStorable(e, u)
    requires e.equalValues.Some?
    requires '?' !in head
    requires forall c :: c in Columns(u, e.klass.fields, Equality) ==> '?' !in c
    ensures Occurrences(ExistSql(head, Columns(u, e.klass.fields, Equality)), '?') == |e.equalValues.value|
  {
    var cols := Columns(u, e.klass.fields, Equality);
    assert forall i :: 0 <= i < |cols| ==> '?' !in cols[i] by {
      forall i | 0 <= i < |cols| ensures '?' !in cols[i] { assert cols[i] in cols; }
    }
    ExistPlaceholders(head, cols);
    OccurrencesAbsent(head, '?');
  }

  // ---------------------------------------------------------------------
  // Result binding

  /** The relevance test of the binder: the statement text selects
      everything or mentions the column name somewhere. */
  predicate Relevant(sql: string, column: string)
  {
    Contains(sql, "*") || Contains(sql, column)
  }

  /** The binder hands the row's value of `f` to its setter. */
  predicate Assigns(f: Field, u: string -> string, sql: string, row: Row, accepts: (string, Value) -> bool)
  {
    && !f.nonColumn
    && Relevant(sql, u(f.name))
    && u(f.name) in row
    && row[u(f.name)] != Null
    && accepts(f.name, row[u(f.name)])
  }

  /** The binder asks the row for a column it does not have. */
  predicate Missing(f: Field, u: string -> string, sql: string, row: Row)
  {
    !f.nonColumn && Relevant(sql, u(f.name)) && u(f.name) !in row
  }

  predicate DistinctNames(fields: seq<Field>)
  {
    forall i, j :: 0 <= i < j < |fields| ==> fields[i].name != fields[j].name
  }

  /** One iteration of the binder's field loop. */
  function BindField(f: Field, u: string -> string, sql: string, row: Row,
                     accepts: (string, Value) -> bool, bean: Bean): (r: Result<Bean, Fault>)
    ensures r.Err? <==> Missing(f, u, sql, row)
    ensures r.Err? ==> r.error == ColumnNotFound(u(f.name))
    ensures r.Ok? ==> r.value == if Assigns(f, u, sql, row, accepts) then bean[f.name := row[u(f.name)]] else bean
  {
    if f.nonColumn then Ok(bean)
    else
      var column := u(f.name);
      if !Relevant(sql, column) then Ok(bean)
      else if column !in row then Err(ColumnNotFound(column))
      else if row[column] == Null then Ok(bean)
      else if accepts(f.name, row[column]) then Ok(bean[f.name := row[column]])
      else Ok(bean)
  }

  function BindFields(fs: seq<Field>, u: string -> string, sql: string, row: Row,
                      accepts: (string, Value) -> bool, bean: Bean): Result<Bean, Fault>
  {
    if fs == [] then Ok(bean)
    else
      match BindField(fs[0], u, sql, row, accepts, bean)
      case Err(e) => Err(e)
      case Ok(b) => BindFields(fs[1..], u, sql, row, accepts, b)
  }

  /** The fields a fresh instance of `klass` gets from `row` under query `sql`. */
  function Bind(klass: Klass, u: string -> string, sql: string, row: Row): Result<Bean, Fault>
  {
    BindFields(klass.fields, u, sql, row, klass.accepts, map[])
  }

  /** What fillBean returns: null when the class cannot be instantiated,
      otherwise the bound bean or the fault of the first missing column. */
  function Filled(klass: Klass, u: string -> string, sql: string, row: Row): Result<Option<Bean>, Fault>
  {
    if !klass.instantiable then Ok(None)
    else
      match Bind(klass, u, sql, row)
      case Ok(b) => Ok(Some(b))
      case Err(e) => Err(e)
  }

  /** A bind fails exactly when some field asks for a column the row lacks. */
  lemma {:induction false} BindFieldsFails(fs: seq<Field>, u: string -> string, sql: string, row: Row,
                                           accepts: (string, Value) -> bool, bean: Bean)
    ensures BindFields(fs, u, sql, row, accepts, bean).Err? <==>
      exists i :: 0 <= i < |fs| && Missing(fs[i], u, sql, row)
  {
    if fs != [] {
      var rest := fs[1..];
      match BindField(fs[0], u, sql, row, accepts, bean)
      case Err(_) =>
        assert Missing(fs[0], u, sql, row);
      case Ok(b) =>
        BindFieldsFails(rest, u, sql, row, accepts, b);
        if exists i :: 0 <= i < |rest| && Missing(rest[i], u, sql, row) {
          var i :| 0 <= i < |rest| && Missing(rest[i], u, sql, row);
          assert fs[i + 1] == rest[i];
        }
        if exists i :: 0 <= i < |fs| && Missing(fs[i], u, sql, row) {
          var i :| 0 <= i < |fs| && Missing(fs[i], u, sql, row);
          assert rest[i - 1] == fs[i];
        }
    }
  }

  /** A successful bind holds the starting fields plus exactly the fields
      some descriptor assigns. */
  lemma {:induction false} BindFieldsKeys(fs: seq<Field>, u: string -> string, sql: string, row: Row,
                                          accepts: (string, Value) -> bool, bean: Bean, n: string)
    requires BindFields(fs, u, sql, row, accepts, bean).Ok?
    ensures n in BindFields(fs, u, sql, row, accepts, bean).value <==>
      (n in bean || exists i :: 0 <= i < |fs| && fs[i].name == n && Assigns(fs[i], u, sql, row, accepts))
  {
    if fs != [] {
      var rest := fs[1..];
      var b := BindField(fs[0], u, sql, row, accepts, bean).value;
      assert n in b <==> n in bean || (n == fs[0].name && Assigns(fs[0], u, sql, row, accepts));
      BindFieldsKeys(rest, u, sql, row, accepts, b, n);
      if exists i :: 0 <= i < |rest| && rest[i].name == n && Assigns(rest[i], u, sql, row, accepts) {
        var i :| 0 <= i < |rest| && rest[i].name == n && Assigns(rest[i], u, sql, row, accepts);
        assert fs[i + 1] == rest[i];
      }
      if exists i :: 0 <= i < |fs| && fs[i].name == n && Assigns(fs[i], u, sql, row, accepts) {
        var i :| 0 <= i < |fs| && fs[i].name == n && Assigns(fs[i], u, sql, row, accepts);
        if i > 0 { assert rest[i - 1] == fs[i]; }
      }
    }
  }

  /** A field no descriptor assigns keeps its starting value. */
  lemma {:induction false} BindFieldsKeeps(fs: seq<Field>, u: string -> string, sql: string, row: Row,
                                           accepts: (string, Value) -> bool, bean: Bean, n: string)
    requires BindFields(fs, u, sql, row, accepts, bean).Ok?
    requires n in bean
    requires forall i :: 0 <= i < |fs| && fs[i].name == n ==> !Assigns(fs[i], u, sql, row, accepts)
    ensures var r := BindFields(fs, u, sql, row, accepts, bean).value;
      n in r && r[n] == bean[n]
  {
    if fs != [] {
      var rest := fs[1..];
      var b := BindField(fs[0], u, sql, row, accepts, bean).value;
      assert n in b && b[n] == bean[n];
      forall j | 0 <= j < |rest| && rest[j].name == n
        ensures !Assigns(rest[j], u, sql, row, accepts)
      {
        assert fs[j + 1] == rest[j];
      }
      BindFieldsKeeps(rest, u, sql, row, accepts, b, n);
    }
  }

  /** With distinct field names, an assigned field ends with its row value. */
  lemma {:induction false} BindFieldsValues(fs: seq<Field>, u: string -> string, sql: string, row: Row,
                                            accepts: (string, Value) -> bool, bean: Bean, i: int)
    requires DistinctNames(fs)
    requires BindFields(fs, u, sql, row, accepts, bean).Ok?
    requires 0 <= i < |fs| && Assigns(fs[i], u, sql, row, accepts)
    ensures var r := BindFields(fs, u, sql, row, accepts, bean).value;
      fs[i].name in r && r[fs[i].name] == row[u(fs[i].name)]
  {
    var rest := fs[1..];
    var b := BindField(fs[0], u, sql, row, accepts, bean).value;
    assert forall k :: 0 <= k < |rest| ==> rest[k] == fs[k + 1];
    if i > 0 {
      assert DistinctNames(rest);
      assert rest[i - 1] == fs[i];
      BindFieldsValues(rest, u, sql, row, accepts, b, i - 1);
    } else {
      assert forall j :: 0 <= j < |rest| ==> rest[j].name != fs[0].name;
      BindFieldsKeeps(rest, u, sql, row, accepts, b, fs[0].name);
    }
  }

  /** What a bind does with each field of a class whose field names are
      distinct (as in any Java class): it fails exactly when a relevant
      persisted column is absent from the row; otherwise it assigns
      exactly the persisted, relevant fields whose row value is non-null
      and accepted by their setter, each with its row value, so no
      @NonColumn field is ever assigned. */
  lemma BindSpec(klass: Klass, u: string -> string, sql: string, row: Row)
    requires DistinctNames(klass.fields)
    ensures var r := Bind(klass, u, sql, row);
      && (r.Err? <==> exists i :: 0 <= i < |klass.fields| && Missing(klass.fields[i], u, sql, row))
      && (r.Ok? ==> forall n :: n in r.value <==>
            exists i :: 0 <= i < |klass.fields| && klass.fields[i].name == n && Assigns(klass.fields[i], u, sql, row, klass.accepts))
      && (r.Ok? ==> forall i :: 0 <= i < |klass.fields| && Assigns(klass.fields[i], u, sql, row, klass.accepts) ==>
            r.value[klass.fields[i].name] == row[u(klass.fields[i].name)])
      && (r.Ok? ==> forall i :: 0 <= i < |klass.fields| && klass.fields[i].nonColumn ==> klass.fields[i].name !in r.value)
  {
    BindFieldsFails(klass.fields, u, sql, row, klass.accepts, map[]);
    var r := Bind(klass, u, sql, row);
    if r.Ok? {
      forall n
        ensures n in r.value <==>
          exists i :: 0 <= i < |klass.fields| && klass.fields[i].name == n && Assigns(klass.fields[i], u, sql, row, klass.accepts)
      {
        BindFieldsKeys(klass.fields, u, sql, row, klass.accepts, map[], n);
      }
      forall i | 0 <= i < |klass.fields| && Assigns(klass.fields[i], u, sql, row, klass.accepts)
        ensures r.value[klass.fields[i].name] == row[u(klass.fields[i].name)]
      {
        BindFieldsValues(klass.fields, u, sql, row, klass.accepts, map[], i);
      }
      forall i | 0 <= i < |klass.fields| && klass.fields[i].nonColumn
        ensures klass.fields[i].name !in r.value
      {
        forall j | 0 <= j < |klass.fields| && Assigns(klass.fields[j], u, sql, row, klass.accepts)
          ensures klass.fields[j].name != klass.fields[i].name
        {
          assert j != i;
        }
      }
    }
  }

  // ---------------------------------------------------------------------
  // The data-access object

  class SuperDao {
    var tablePrefix: Option<string>
    var insertPrefix: Option<string>
    var selectPrefix: Option<string>

    /** `new SuperDao()`: the table prefix keeps its initial "robot_" and
        both statement prefixes stay null. */
    constructor ()
      ensures tablePrefix == Some("robot_") && insertPrefix == None && selectPrefix == None
    {
      tablePrefix := Some("robot_");
      insertPrefix := None;
      selectPrefix := None;
    }

    /** `new SuperDao(prefix)`: the only place the statement prefixes are set. */
    constructor WithPrefix(prefix: Option<string>)
      ensures tablePrefix == prefix
      ensures insertPrefix == Some("insert into " + Show(prefix))
      ensures selectPrefix == Some("select * from " + Show(prefix))
    {
      tablePrefix := Some("robot_");
      insertPrefix := None;
      selectPrefix := None;
      new;
      SetTablePrefix(prefix);
      insertPrefix := Some("insert into " + Show(tablePrefix));
      selectPrefix := Some("select * from " + Show(tablePrefix));
    }

    /** Changes the table prefix only: statements already prefixed keep theirs. */
    method SetTablePrefix(prefix: Option<string>)
      modifies this
      ensures tablePrefix == prefix
      ensures insertPrefix == old(insertPrefix) && selectPrefix == old(selectPrefix)
    {
      tablePrefix := prefix;
    }

    method AssembleInsert(klass: Klass, u: string -> string) returns (sql: string)
      ensures sql == InsertSql(Show(insertPrefix) + u(klass.simpleName), Columns(u, klass.fields, Persisted))
    {
      var fields := klass.fields;
      var table := u(klass.simpleName);
      ghost var head := Show(insertPrefix) + table;
      sql := Show(insertPrefix) + table + "(";
      var columnNum := 0;
      ghost var cols: seq<string> := [];
      for k := 0 to |fields|
        invariant cols == Columns(u, fields[..k], Persisted)
        invariant sql == head + "(" + Terminated(Quoted(cols), ',')
        invariant columnNum == |cols|
      {
        var f := fields[k];
        ColumnsSnoc(u, fields, k, Persisted);
        if !f.nonColumn {
          var columnName := u(f.name);
          ColumnStep(head + "(", cols, columnName);
          sql := sql + ("`" + columnName + "`" + ",");
          cols := cols + [columnName];
          columnNum := columnNum + 1;
        }
      }
      assert fields[..|fields|] == fields;
      StripColumns(head, cols);
      sql := sql[..|sql| - 1];
      ghost var listed := sql;
      sql := sql + ") values (";
      ghost var base := sql;
      for i := 0 to columnNum
        invariant sql == base + Terminated(Marks(i), ',')
      {
        MarkStep(base, i);
        sql := sql + "?,";
      }
      StripMarks(base, columnNum);
      InsertAfterStrips(head, cols, listed);
      sql := sql[..|sql| - 1];
      sql := sql + ")";
    }

    method AssembleExist(klass: Klass, u: string -> string) returns (sql: string)
      ensures sql == ExistSql(Show(selectPrefix) + u(klass.simpleName), Columns(u, klass.fields, Equality))
    {
      var fields := klass.fields;
      var table := u(klass.simpleName);
      ghost var head := Show(selectPrefix) + table;
      sql := Show(selectPrefix) + table + " where 1 = 1 ";
      ghost var cols: seq<string> := [];
      assert sql == ExistSql(head, cols);
      for k := 0 to |fields|
        invariant cols == Columns(u, fields[..k], Equality)
        invariant sql == ExistSql(head, cols)
      {
        var f := fields[k];
        ColumnsSnoc(u, fields, k, Equality);
        if f.equalColumn {
          var columnName := u(f.name);
          sql := sql + (" and `" + columnName + "`" + "= ?");
          ExistAppend(head, cols, columnName);
          cols := cols + [columnName];
        }
      }
      assert fields[..|fields|] == fields;
    }

    /** The DDL text createTable hands to the driver. */
    method CreateTableStatement(klass: Klass, u: string -> string) returns (sql: string)
      ensures sql == DdlSql(Show(tablePrefix), u(klass.simpleName), Definitions(u, klass.fields))
    {
      var fields := klass.fields;
      var table := u(klass.simpleName);
      sql := "CREATE TABLE IF NOT EXISTS `" + Show(tablePrefix) + table + "` (" +
             "`id` int(11) NOT NULL AUTO_INCREMENT,";
      ghost var start := DdlOpening(Show(tablePrefix), table);
      ghost var defs: seq<string> := [];
      assert Definitions(u, fields[..0]) == defs;
      for k := 0 to |fields|
        invariant defs == Definitions(u, fields[..k])
        invariant sql == start + Concat(defs)
      {
        var f := fields[k];
        DefinitionsSnoc(u, fields, k);
        match f.column {
          case Some(column) =>
            var columnName := u(f.name);
            var clause := "`" + columnName + "` " + column.sqlType + "(" + IntToString(column.length as int) + ") DEFAULT NULL,";
            assert clause == DefinitionClause(columnName, column);
            ConcatAfter(start, defs, clause);
            sql := sql + clause;
            defs := defs + [clause];
          case None =>
        }
      }
      assert fields[..|fields|] == fields;
      sql := sql + (" PRIMARY KEY (`id`)" +
                    ") ENGINE=InnoDB AUTO_INCREMENT=1 DEFAULT CHARSET=utf8");
    }

    /** createTable: runs the DDL; a driver fault propagates. */
    method CreateTable(klass: Klass, u: string -> string, db: Database) returns (r: Result<int, Fault>)
      ensures r == Checked(db.update(DdlSql(Show(tablePrefix), u(klass.simpleName), Definitions(u, klass.fields))))
    {
      var sql := CreateTableStatement(klass, u);
      r := Checked(db.update(sql));
    }

    /** batchSave: rejects a null or empty list before building any SQL;
        otherwise the statement comes from the first entity alone and
        row i of the parameters is toArray() of entity i. */
    method BatchSave(list: Option<seq<Option<Entity>>>, u: string -> string, db: Database)
      returns (r: Result<seq<int>, Fault>)
      ensures list.None? ==> r == Err(IllegalArgument("list must not be null"))
      ensures list.Some? && |list.value| == 0 ==> r == Err(IllegalArgument("list must have at least one item"))
      ensures list.Some? && (exists i :: 0 <= i < |list.value| && list.value[i].None?) ==> r == Err(NullPointer)
      ensures list.Some? && |list.value| > 0 && (forall i :: 0 <= i < |list.value| ==> list.value[i].Some?) ==>
        var first := list.value[0].value.klass;
        exists params: seq<seq<Value>> ::
          && |params| == |list.value|
          && (forall i :: 0 <= i < |params| ==> params[i] == list.value[i].value.values)
          && r == Checked(db.batch(InsertSql(Show(insertPrefix) + u(first.simpleName), Columns(u, first.fields, Persisted)), params))
    {
      if list.None? {
        return Err(IllegalArgument("list must not be null"));
      }
      var entities := list.value;
      if |entities| == 0 {
        return Err(IllegalArgument("list must have at least one item"));
      }
      if entities[0].None? {
        return Err(NullPointer);
      }
      var sql := AssembleInsert(entities[0].value.klass, u);
      var batchSize := |entities|;
      var params := new seq<Value>[batchSize];
      for i := 0 to batchSize
        invariant forall j :: 0 <= j < i ==> entities[j].Some? && params[j] == entities[j].value.values
      {
        if entities[i].None? {
          return Err(NullPointer);
        }
        params[i] := entities[i].value.values;
      }
      r := Checked(db.batch(sql, params[..]));
      assert forall i :: 0 <= i < |params[..]| ==> params[..][i] == entities[i].value.values;
    }

    /** save: a null bean is rejected (IllegalArgumentException is not
        caught); a driver fault yields 0; otherwise the first count of the
        one-row batch. */
    method Save(bean: Option<Entity>, u: string -> string, db: Database) returns (r: Result<int, Fault>)
      ensures bean.None? ==> r == Err(IllegalArgument("bean must not be null"))
      ensures bean.Some? ==>
        var k := bean.value.klass;
        var res := db.batch(InsertSql(Show(insertPrefix) + u(k.simpleName), Columns(u, k.fields, Persisted)), [bean.value.values]);
        && (res.Err? ==> r == Ok(0))
        && (res.Ok? && |res.value| == 0 ==> r == Err(IndexOutOfBounds))
        && (res.Ok? && |res.value| > 0 ==> r == Ok(res.value[0]))
    {
      if bean.None? {
        return Err(IllegalArgument("bean must not be null"));
      }
      var counts := BatchSave(Some([bean]), u, db);
      ghost var k := bean.value.klass;
      ghost var sql := InsertSql(Show(insertPrefix) + u(k.simpleName), Columns(u, k.fields, Persisted));
      ghost var params :| |params| == 1 && params[0] == bean.value.values && counts == Checked(db.batch(sql, params));
      assert params == [bean.value.values];
      if counts.Err? {
        // the list is neither null nor empty, so the only fault left is
        // the driver's SQLException, which save catches
        r := Ok(0);
      } else if |counts.value| == 0 {
        r := Err(IndexOutOfBounds);
      } else {
        r := Ok(counts.value[0]);
      }
    }

    /** exist: a null bean is rejected; without equality values no query is
        made and the answer is false; a driver fault also reads as false. */
    method Exist(bean: Option<Entity>, u: string -> string, db: Database) returns (r: Result<bool, Fault>)
      ensures bean.None? ==> r == Err(IllegalArgument("bean must not be null"))
      ensures bean.Some? && bean.value.equalValues.None? ==> r == Ok(false)
      ensures bean.Some? && bean.value.equalValues.Some? ==>
        var k := bean.value.klass;
        var res := db.query(ExistSql(Show(selectPrefix) + u(k.simpleName), Columns(u, k.fields, Equality)),
                            bean.value.equalValues.value);
        r == Ok(res.Ok? && |res.value| > 0)
    {
      if bean.None? {
        return Err(IllegalArgument("bean must not be null"));
      }
      if bean.value.equalValues.None? {
        return Ok(false);
      }
      var sql := AssembleExist(bean.value.klass, u);
      var res := db.query(sql, bean.value.equalValues.value);
      match res
      case Ok(rows) => r := Ok(|rows| > 0);
      case Err(_) => r := Ok(false);
    }

    /** fillBean: one fresh instance bound from one row. */
    method FillBean(row: Row, sql: string, klass: Klass, u: string -> string) returns (r: Result<Option<Bean>, Fault>)
      ensures r == Filled(klass, u, sql, row)
    {
      if !klass.instantiable {
        return Ok(None);
      }
      var fields := klass.fields;
      var bean: Bean := map[];
      for k := 0 to |fields|
        invariant BindFields(fields[k..], u, sql, row, klass.accepts, bean) == Bind(klass, u, sql, row)
      {
        var f := fields[k];
        assert fields[k..] == [f] + fields[k + 1..];
        if !f.nonColumn {
          var column := u(f.name);
          if Contains(sql, "*") || Contains(sql, column) {
            if column !in row {
              return Err(ColumnNotFound(column));
            }
            var val := row[column];
            if val != Null && klass.accepts(f.name, val) {
              bean := bean[f.name := val];
            }
          }
        }
      }
      return Ok(Some(bean));
    }

    /** getBean(sql, params, beanClass): binds the first row, if any. */
    method GetBeanWithParams(sql: string, params: seq<Value>, klass: Klass, u: string -> string, db: Database)
      returns (r: Result<Option<Bean>, Fault>)
      ensures db.query(sql, params).Err? ==> r == Err(SqlError(db.query(sql, params).error))
      ensures db.query(sql, params).Ok? && |db.query(sql, params).value| == 0 ==> r == Ok(None)
      ensures db.query(sql, params).Ok? && |db.query(sql, params).value| > 0 ==>
        r == Filled(klass, u, sql, db.query(sql, params).value[0])
    {
      var res := db.query(sql, params);
      if res.Err? {
        return Err(SqlError(res.error));
      }
      if |res.value| == 0 {
        return Ok(None);
      }
      r := FillBean(res.value[0], sql, klass, u);
    }

    /** getBean(sql, beanClass): the same with no parameters. */
    method GetBean(sql: string, klass: Klass, u: string -> string, db: Database)
      returns (r: Result<Option<Bean>, Fault>)
      ensures db.query(sql, []).Err? ==> r == Err(SqlError(db.query(sql, []).error))
      ensures db.query(sql, []).Ok? && |db.query(sql, []).value| == 0 ==> r == Ok(None)
      ensures db.query(sql, []).Ok? && |db.query(sql, []).value| > 0 ==>
        r == Filled(klass, u, sql, db.query(sql, []).value[0])
    {
      r := GetBeanWithParams(sql, [], klass, u, db);
    }

    /** getBeans: one bean per row, in row order; rows whose instance
        cannot be constructed are skipped; the first missing column aborts
        the whole query. */
    method GetBeans(sql: string, klass: Klass, u: string -> string, db: Database)
      returns (r: Result<seq<Bean>, Fault>)
      ensures db.query(sql, []).Err? ==> r == Err(SqlError(db.query(sql, []).error))
      ensures db.query(sql, []).Ok? && !klass.instantiable ==> r == Ok([])
      ensures db.query(sql, []).Ok? && klass.instantiable ==>
        var rows := db.query(sql, []).value;
        && (r.Ok? <==> forall i :: 0 <= i < |rows| ==> Bind(klass, u, sql, rows[i]).Ok?)
        && (r.Ok? ==> |r.value| == |rows| && forall i :: 0 <= i < |rows| ==> r.value[i] == Bind(klass, u, sql, rows[i]).value)
        && (r.Err? ==> exists i :: 0 <= i < |rows| && Bind(klass, u, sql, rows[i]) == Err(r.error)
                                   && forall j :: 0 <= j < i ==> Bind(klass, u, sql, rows[j]).Ok?)
    {
      var res := db.query(sql, []);
      if res.Err? {
        return Err(SqlError(res.error));
      }
      var rows := res.value;
      var result: seq<Bean> := [];
      for k := 0 to |rows|
        invariant klass.instantiable ==> |result| == k
        invariant !klass.instantiable ==> result == []
        invariant klass.instantiable ==> forall i :: 0 <= i < k ==>
          Bind(klass, u, sql, rows[i]).Ok? && result[i] == Bind(klass, u, sql, rows[i]).value
      {
        var bean := FillBean(rows[k], sql, klass, u);
        match bean
        case Err(e) =>
          return Err(e);
        case Ok(None) =>
        case Ok(Some(b)) =>
          result := result + [b];
      }
      return Ok(result);
    }
  }

  /** After setTablePrefix the INSERT keeps the constructor's prefix while
      the DDL takes the new one. */
  method PrefixScenario(klass: Klass, u: string -> string) returns (insertSql: string, ddl: string)
    ensures insertSql == InsertSql("insert into " + "a_" + u(klass.simpleName), Columns(u, klass.fields, Persisted))
    ensures ddl == DdlSql("b_", u(klass.simpleName), Definitions(u, klass.fields))
  {
    var dao := new SuperDao.WithPrefix(Some("a_"));
    dao.SetTablePrefix(Some("b_"));
    insertSql := dao.AssembleInsert(klass, u);
    ddl := dao.CreateTableStatement(klass, u);
  }

  /** A SuperDao made by the no-argument constructor renders its null
      insert prefix as the text "null". */
  method DefaultPrefixScenario(klass: Klass, u: string -> string) returns (insertSql: string, ddl: string)
    ensures insertSql == InsertSql("null" + u(klass.simpleName), Columns(u, klass.fields, Persisted))
    ensures ddl == DdlSql("robot_", u(klass.simpleName), Definitions(u, klass.fields))
  {
    var dao := new SuperDao();
    insertSql := dao.AssembleInsert(klass, u);
    ddl := dao.CreateTableStatement(klass, u);
  }
}
