# EchoMan storage and robot registry, modelled in Dafny

EchoMan runs automated "robot" accounts on several sites. This project models two parts of it:

- **`SuperDao`**, its generic data-access object. It derives SQL text from an entity's declared fields and their persistence annotations (`@NonColumn`, `@EqualColumn` and `@Column(type, length)`), validates arguments, builds the parameter matrix of a batch insert, and binds result rows back into freshly constructed beans.
- **`Robots`**, the registry of running robots. It keys robots by `account@vendor` and fills the registry at start-up from the configured `RobotBean` records.

## Files

| file | module | contents |
|---|---|---|
| `lang.dfy` | `Lang` | Java vocabulary: nullable references (`Option`), thrown exceptions (`Fault`, `Outcome`), `int`, the rendering of a possibly null `String` in a concatenation (`Show`), `"" + int`, `String.contains` |
| `sql_text.dfy` | `SqlText` | Field descriptors. The INSERT, existence-query and CREATE TABLE texts as functions of the descriptors, with what they are proved to contain. |
| `super_dao.dfy` | `Storage` | Values, rows, entity classes and the database as an input. The binding rules. `class SuperDao` with its prefixes and its operations as methods with loops. |
| `robot_bean.dfy` | `Model` | `class RobotBean` with its three fields, getters, setters and `toString`. |
| `robots.dfy` | `Echoman` | The robot kinds, the registry key, `newRobot`. `class Robots` with `enroll`, `getRobot` and the start-up loop. |

## How the model represents the program

- **Null references.** A Java `String` that may be null is an `Option<string>`. Java renders a null reference in a string concatenation as the text `null`, and `Show` does the same.
  - The no-argument `SuperDao` never sets its statement prefixes, so its INSERT text starts with `null` followed by the table name (`Storage.DefaultPrefixScenario`).
  - `rename(null, o)` equals `rename("null", o)` (`Echoman.NullRenamesAsText`).
- **Reflection.** Java reflection is replaced by explicit values:
  - a `Klass` holds the class's simple name, its declared fields as a sequence of `Field` descriptors in the order reflection returns them (Java leaves the order of `getDeclaredFields` unspecified), whether `newInstance()` succeeds, and `accepts(field, value)`, which says whether the setter exists and accepts the value;
  - `CommonUtil.underscoreName` is the parameter `u` everywhere, so nothing proved depends on what it does.
- **Entities.** A `Storable` entity is an `Entity`: its class, what `toArray()` returns, and what `equalValues()` returns.
- **The database.** `QueryRunner` over the pooled data source is a `Database` value of three total functions (batch, query, update). A driver fault is `Err(message)`, and it reaches callers as `SqlError`. A result row maps column labels to values.
- **Beans.** A bound bean is the map of the fields its setters assigned. A field absent from the map keeps the default its constructor gave it.
- **Exceptions.** Thrown exceptions are the `Err` side of a `Result`, or `Thrown` in an `Outcome`. For every exception the model can express, each method's contract gives that exceptional exit as well as the normal one. A null `Class`, a null SQL text and a null bean handed to `newRobot` are not expressible, and neither are the NullPointerExceptions they would cause (see "Left out").
- **Spec functions.**
  - The SQL texts are the functions `InsertSql`, `ExistSql` and `DdlSql`. The methods `AssembleInsert`, `AssembleExist` and `CreateTableStatement` build the same strings step by step, as the source does, and are proved equal to them.
  - The binder is the function `Bind`, which `FillBean` is proved to compute.
  - The `onStart` loop is the function `EnrollAll`. What it does is stated by the `EnrollAll…` lemmas and by `OnStart`'s contract.

Where the code may surprise a reader, the model follows the code:

- `ResultSet.getObject` on a column label the result does not have throws an `SQLException`. It is not read as null, and it propagates out of `fillBean`, `getBean` and `getBeans`, aborting the query (`ColumnNotFound`).
- `exist` skips the query only when `equalValues()` is null. With an entity that has no `@EqualColumn` field it still runs `... where 1 = 1 ` and reports whether any row exists.
- `assembleInsert` does not reject a class without persisted fields. Its first strip removes the opening parenthesis, and the text becomes `<prefix><table>) values )` (`SqlText.InsertSql`).

## Model

| member | source | states |
|---|---|---|
| SqlText.SelectedMembership | src/main/java/com/echoman/storage/SuperDao.java:243-248 | A field takes part in a statement exactly when it is declared and carries the annotation that statement looks at. |
| SqlText.SelectedAppend | src/main/java/com/echoman/storage/SuperDao.java:243-248 | Selection keeps the order of the field sequence: selecting from a concatenation of declarations concatenates the selections. |
| SqlText.ColumnsInsertField | src/main/java/com/echoman/storage/SuperDao.java:243-248 | Each field contributes its own column name at its own position, or nothing, to a statement's column list. |
| SqlText.ColumnsMembership | src/main/java/com/echoman/storage/SuperDao.java:224-226 | A column is listed exactly when some declared field with the matching annotation has that column name. |
| SqlText.ColumnsSeeOnlyTheirRole | src/main/java/com/echoman/storage/SuperDao.java:244 | Fields that agree on names and on the annotation a statement looks at give the same columns, whatever their other annotations. |
| SqlText.InsertListsEachColumnOnce | src/main/java/com/echoman/storage/SuperDao.java:239-261 | With at least one column, the INSERT is the head, then the backquoted columns in order, then as many `?` as columns. Splitting the lists at commas gives back each backquoted column once and one `?` per column. |
| SqlText.InsertPlaceholders | src/main/java/com/echoman/storage/SuperDao.java:252-259 | The INSERT holds exactly one `?` per persisted column beyond any in its head, for any number of columns (none included). |
| SqlText.ExistAppend | src/main/java/com/echoman/storage/SuperDao.java:224-228 | Each equality column appends its own ``" and `c`= ?"`` after the clauses of the columns declared before it. |
| SqlText.ExistPlaceholders | src/main/java/com/echoman/storage/SuperDao.java:222-230 | The existence query holds exactly one `?` per equality column beyond any in its head. |
| SqlText.DefinitionsInsertField | src/main/java/com/echoman/storage/SuperDao.java:272-279 | A field contributes one ``"`col` type(length) DEFAULT NULL,"`` clause, at its own position, when it carries `@Column`, and nothing otherwise, whatever its other annotations. |
| SqlText.DefinitionsSnoc | src/main/java/com/echoman/storage/SuperDao.java:272-279 | One more declared field appends its definition clause, if it has one, to those of the fields before it. |
| SqlText.DdlFrame | src/main/java/com/echoman/storage/SuperDao.java:269-281 | The DDL always opens with the table name and the auto-increment `id` clause, and always ends with the primary key and engine options. Exactly the column definitions stand between them. |
| Lang.IntToString | src/main/java/com/echoman/storage/SuperDao.java:278 | The text of an `int` length is made of canonical decimal digits: at least one, all `0`-`9`, and no leading zero unless it is just `0`. A negative gets a `-` before the digits of its magnitude. The digits read back as the magnitude, or as the number itself when it is not negative. |
| Lang.DecimalRoundTrip | src/main/java/com/echoman/storage/SuperDao.java:278 | Reading back the decimal digits of a natural number gives the number. |
| Storage.InsertArity | src/main/java/com/echoman/storage/SuperDao.java:77-85 | An entity that meets the `Storable` contract supplies exactly as many values as its INSERT has placeholders, even with no persisted column. |
| Storage.ExistArity | src/main/java/com/echoman/storage/SuperDao.java:96-99 | An entity that meets the `Storable` contract and has equality values supplies exactly as many as its existence query has placeholders. |
| Storage.BindField | src/main/java/com/echoman/storage/SuperDao.java:178-189 | One field step fails, with the missing column, exactly when the field is persisted, relevant and absent from the row. Otherwise it stores the row value exactly when that value is not null and the setter accepts it, and leaves the bean as it was in every other case. |
| Storage.BindFieldsFails | src/main/java/com/echoman/storage/SuperDao.java:177-190 | The field loop fails exactly when some persisted, relevant field's column is missing from the row. |
| Storage.BindFieldsKeys | src/main/java/com/echoman/storage/SuperDao.java:177-190 | A successful field loop leaves assigned exactly the starting fields plus those that are persisted, relevant, non-null in the row and accepted by their setter. |
| Storage.BindFieldsKeeps | src/main/java/com/echoman/storage/SuperDao.java:177-190 | A field no descriptor assigns keeps its starting value. |
| Storage.BindFieldsValues | src/main/java/com/echoman/storage/SuperDao.java:177-190 | With distinct field names, each assigned field ends with its row value. |
| Storage.BindSpec | src/main/java/com/echoman/storage/SuperDao.java:166-193 | Binding a fresh instance fails exactly on a missing relevant column. Otherwise it assigns exactly the qualifying fields, each with its row value, and never a `@NonColumn` field. |
| Storage.SuperDao.constructor | src/main/java/com/echoman/storage/SuperDao.java:25-37 | `new SuperDao()` leaves the table prefix `robot_` and both statement prefixes null. |
| Storage.SuperDao.WithPrefix | src/main/java/com/echoman/storage/SuperDao.java:39-43 | `new SuperDao(p)` sets the table prefix to `p` and derives the insert and select prefixes from it. |
| Storage.SuperDao.SetTablePrefix | src/main/java/com/echoman/storage/SuperDao.java:45-47 | Only the table prefix changes; the statement prefixes keep their values. |
| Storage.SuperDao.AssembleInsert | src/main/java/com/echoman/storage/SuperDao.java:234-262 | The text built by appending and stripping is `InsertSql` of the insert prefix, the table and the persisted columns in the order reflection returns the fields, including the zero-column case. |
| Storage.SuperDao.AssembleExist | src/main/java/com/echoman/storage/SuperDao.java:217-231 | The text is `ExistSql` of the select prefix, the table and the equality columns in the order reflection returns the fields. With none, it is just the head and `" where 1 = 1 "`. |
| Storage.SuperDao.CreateTableStatement | src/main/java/com/echoman/storage/SuperDao.java:265-281 | The DDL is `DdlSql` of the current table prefix, the table and one definition per `@Column` field in the order reflection returns the fields. |
| Storage.SuperDao.CreateTable | src/main/java/com/echoman/storage/SuperDao.java:265-285 | That DDL is handed to the driver, and its fault propagates. |
| Storage.SuperDao.BatchSave | src/main/java/com/echoman/storage/SuperDao.java:67-86 | A null list and an empty list are rejected with their messages, before any SQL is built. A null element throws. Otherwise the SQL comes from the first entity alone, and row i of the parameters is `toArray()` of entity i. |
| Storage.SuperDao.Save | src/main/java/com/echoman/storage/SuperDao.java:50-64 | A null bean is rejected. A driver fault gives 0. Otherwise the result is the first count of the one-row batch, and an empty count array throws. |
| Storage.SuperDao.Exist | src/main/java/com/echoman/storage/SuperDao.java:90-104 | A null bean is rejected. Null equality values give false without a query. Otherwise the answer is whether the query returns a row, and a driver fault reads as false. |
| Storage.SuperDao.FillBean | src/main/java/com/echoman/storage/SuperDao.java:166-193 | The field loop computes `Filled`: null when the class cannot be instantiated, otherwise `Bind` of the row. |
| Storage.SuperDao.GetBeanWithParams | src/main/java/com/echoman/storage/SuperDao.java:154-164 | A query fault propagates. No rows gives null. Otherwise the first row is bound. |
| Storage.SuperDao.GetBean | src/main/java/com/echoman/storage/SuperDao.java:142-152 | The same, for a query without parameters. |
| Storage.SuperDao.GetBeans | src/main/java/com/echoman/storage/SuperDao.java:106-140 | One bean per row in row order. No beans when the class cannot be instantiated. The first row with a missing column aborts with that fault, and every earlier row had bound. |
| Storage.PrefixScenario | src/main/java/com/echoman/storage/SuperDao.java:39-47 | After `setTablePrefix`, the INSERT keeps the constructor's prefix while the DDL uses the new one. |
| Storage.DefaultPrefixScenario | src/main/java/com/echoman/storage/SuperDao.java:25-37 | The no-argument object prefixes its INSERT with `null` and its DDL table with `robot_`. |
| Model.Rendered | src/main/java/com/echoman/model/RobotBean.java:28-31 | The text is the fixed label, the type, `", account="`, the account and `]`, at positions given by their lengths; no password. |
| Model.RenderedDeterminesFields | src/main/java/com/echoman/model/RobotBean.java:28-31 | When the type text holds no comma, equal renderings have equal type texts and equal account texts, a null field reading as `null`. |
| Model.RenderedNullAsText | src/main/java/com/echoman/model/RobotBean.java:30 | A null type or account renders exactly as the text `null` does. |
| Model.RobotBean.constructor | src/main/java/com/echoman/model/RobotBean.java:3-7 | All three fields start null. |
| Model.RobotBean.GetType | src/main/java/com/echoman/model/RobotBean.java:9-11 | `getType` returns the type field. |
| Model.RobotBean.GetAccount | src/main/java/com/echoman/model/RobotBean.java:15-17 | `getAccount` returns the account field. |
| Model.RobotBean.GetPassword | src/main/java/com/echoman/model/RobotBean.java:21-23 | `getPassword` returns the password field. |
| Model.RobotBean.SetType | src/main/java/com/echoman/model/RobotBean.java:9-14 | `getType` returns the value set, and account and password are unchanged. |
| Model.RobotBean.SetAccount | src/main/java/com/echoman/model/RobotBean.java:15-20 | `getAccount` returns the value set, and type and password are unchanged. |
| Model.RobotBean.SetPassword | src/main/java/com/echoman/model/RobotBean.java:21-26 | `getPassword` returns the value set, type and account are unchanged, and so is `toString()`. |
| Model.RobotBean.ToString | src/main/java/com/echoman/model/RobotBean.java:29-31 | `toString()` is the rendering of the current type and account. |
| Echoman.Rename | src/main/java/com/echoman/Robots.java:38-40 | The key is the owner's text, then one `@`, then the vendor's text, with null rendered as `null`. |
| Echoman.RenameInjective | src/main/java/com/echoman/Robots.java:38-40 | Non-null pairs whose owners hold no `@` share a key only when they are equal. |
| Echoman.NullRenamesAsText | src/main/java/com/echoman/Robots.java:38-40 | A null vendor or owner gets the same key as the text `null`. |
| Echoman.NewRobot | src/main/java/com/echoman/Robots.java:62-72 | A null type throws. `BAIDU`, `QQ` and `HUJIANG` give their robot built from the bean. Every other type gives the default robot. The result is never a null robot. |
| Echoman.Lookup | src/main/java/com/echoman/Robots.java:30-32 | A robot is found exactly when its key is present, and then it is the one under that key; otherwise the result is null. |
| Echoman.LookupAfterEnroll | src/main/java/com/echoman/Robots.java:30-36 | After an enroll, the same key finds the new robot, and every other key finds what it found before. |
| Echoman.EnrollAllFault | src/main/java/com/echoman/Robots.java:53-55 | The loop never loses a key already in the registry. It either completes or ends with `newRobot`'s NullPointerException. |
| Echoman.EnrollAllCompletes | src/main/java/com/echoman/Robots.java:53-55 | The enrollment loop completes exactly when every bean has a type. |
| Echoman.EnrollAllKeys | src/main/java/com/echoman/Robots.java:53-55 | After a completed loop, the registry holds exactly its earlier keys and each bean's `account@type` key. |
| Echoman.EnrollAllLastWins | src/main/java/com/echoman/Robots.java:53-55 | After a completed loop, each key holds the robot built from the last bean with that key. |
| Echoman.EnrollAllKeeps | src/main/java/com/echoman/Robots.java:53-55 | A key no bean uses keeps its robot. |
| Echoman.Robots.GetRobot | src/main/java/com/echoman/Robots.java:30-32 | A robot is found exactly when the pair's key is in the registry, and it is then the robot under that key. |
| Echoman.Robots.constructor | src/main/java/com/echoman/Robots.java:24 | The registry starts empty. |
| Echoman.Robots.Enroll | src/main/java/com/echoman/Robots.java:34-36 | The robot is put under the pair's key, replacing any robot there, and `getRobot` of the pair returns it. Every other key is unchanged. |
| Echoman.Robots.OnStart | src/main/java/com/echoman/Robots.java:43-60 | A configuration that fails to load leaves the registry as it was. A null set throws. Otherwise the registry and the outcome are those of `EnrollAll` over the beans in iteration order. |

## Left out

- Database I/O: `QueryRunner`, `DataSourceFactory` and connections are a `Database` input. Cursoring through a `ResultSet`, and driver faults in the middle of reading rows, are not modelled.
- `update` (the transaction with commit and rollback) is not modelled: it is connection plumbing around an opaque driver call.
- `SuperDao.main` is demo code and is not modelled.
- Logging, `printStackTrace`, Spring wiring (`instance`, `@PostConstruct`), and the scheduled `backgroundSign`/`backgroundProcess` are not modelled. They have no state of their own to describe.
- `Config.getObjects` is an input to `OnStart`: an error when it throws, `None` when it returns null, and otherwise its beans. The iteration order of the returned `Set` is the order of that sequence. A null element of the set is not modelled.
- `CommonUtil.underscoreName` and `camelName` are not part of this model. The first is the parameter `u`. The second only names the setter, whose lookup and outcome are `Klass.accepts`.
- Reflection is not modelled:
  - `Klass.accepts` assumes that a setter which is found and accepts a value stores it in its own field;
  - a setter that fails is skipped, as the source does;
  - `newInstance` success is one flag per class, not per row.
- Storage.SuperDao.GetBeans: construction failure is per class (`Klass.instantiable`), so either every row is skipped or none is.
- Column values are abstracted as `Value` (null, number, text). The driver's Java types, and type mismatches between a value and a setter, are folded into `Klass.accepts`.
- `ConcurrentHashMap` is a sequential `map`. Concurrent access is not modelled.
- The site robots (`BaiduRobot`, `QQRobot`, `HujiangRobot`, `DefaultRobot`) are kinds of a datatype. Their constructors and behaviour are not part of this model.
- Storage.BindField: row labels must be spelled exactly as `u` spells the column. JDBC's `getObject(String)` (SuperDao.java:126 and 182) matches labels without regard to case, and that leniency is not modelled.
- Storage.SuperDao.GetBeans, Storage.SuperDao.GetBean and Storage.SuperDao.GetBeanWithParams: `QueryRunner` wraps the handler's `SQLException` in a new `SQLException`. `ColumnNotFound` and `SqlError` are therefore one exception type to a Java caller; the model keeps them apart.
- Null arguments that Java would dereference (a null `Class`, a null SQL text, a null bean given to `newRobot`) cannot be expressed. Their NullPointerExceptions are not modelled.
- Echoman.Robots.Enroll: a null robot (which `ConcurrentHashMap.put` rejects) cannot be expressed, since a `Robot` is never null.
- Model.RenderedDeterminesFields: it recovers the texts of the type and the account, not the fields. A null field and the text `null` print alike, as `Model.RenderedNullAsText` shows.
- Echoman.RenameInjective: it covers non-null vendor and owner only. With nulls the key is not injective, as `Echoman.NullRenamesAsText` shows.
