/**
 * The code generator's preparation of one template data model per table: the
 * class name, the primary-key facts, the many-to-one and one-to-many relations
 * read from the schema's relationships, the plain fields (every column that is
 * not a foreign key) and the imports those need; plus the snake-case to
 * camel-case conversion, the SQL to Java type mapping and the four source paths
 * generated per table.
 *
 * The schema comes from an external DBML library; here it is given as tables,
 * columns with their settings, and relationships naming columns by table. The
 * template rendering that turns a data model into source text is not modelled.
 */
module CodeGenerator {
  import opened Text
  import opened Types

  datatype ColumnSetting = PrimaryKey | Increment | NotNull | Unique

  datatype DbColumn = DbColumn(name: string, colType: string, settings: set<ColumnSetting>)

  datatype DbTable = DbTable(name: string, columns: seq<DbColumn>)

  /** A column named through its table. */
  datatype ColumnRef = ColumnRef(table: string, column: string)

  /** A relationship between column lists; only the first column of each side is used. */
  datatype Relationship = Relationship(from: seq<ColumnRef>, to: seq<ColumnRef>)

  datatype Field = Field(columnName: string, fieldName: string, javaType: string, isId: bool)

  datatype ManyToOne = ManyToOne(joinColumn: string, targetClass: string, fieldName: string)

  datatype OneToMany = OneToMany(targetClass: string, fieldName: string, mappedBy: string)

  /** The template data model of one table; `idType` is absent when there is no key. */
  datatype DataModel = DataModel(packageName: string, tableName: string, className: string,
                                 hasIncrement: bool, idType: Option<string>,
                                 imports: seq<string>, fields: seq<Field>,
                                 manyToOneRels: seq<ManyToOne>, oneToManyRels: seq<OneToMany>)

  // ---------------------------------------------------------------------------
  // Names
  // ---------------------------------------------------------------------------

  /** `StringUtils.capitalize`: the first character upper-cased, the rest kept. */
  function Capitalize(s: string): (r: string)
    ensures |r| == |s|
    ensures s != [] ==> r[0] == UpperChar(s[0]) && r[1..] == s[1..]
  {
    if s == [] then s else [UpperChar(s[0])] + s[1..]
  }

  /** The camel-case form of what is left of a name, given whether the next kept
      character follows an underscore. */
  function CamelFrom(s: string, nextUpper: bool): string
    decreases |s|
  {
    if s == [] then []
    else if s[0] == '_' then CamelFrom(s[1..], true)
    else [if nextUpper then UpperChar(s[0]) else s[0]] + CamelFrom(s[1..], false)
  }

  /** snake_case to camelCase: underscores dropped, the character after a run of
      them upper-cased. */
  function CamelCase(s: string): string
  {
    CamelFrom(s, false)
  }

  function CountChar(s: string, c: char): (n: nat)
    ensures n <= |s|
    decreases |s|
  {
    if s == [] then 0 else (if s[0] == c then 1 else 0) + CountChar(s[1..], c)
  }

  /** `toCamelCase`: the character loop with its `nextUpper` flag. */
  method ToCamelCase(source: string) returns (result: string)
    ensures result == CamelCase(source)
  {
    result := [];
    var nextUpper := false;
    for i := 0 to |source|
      invariant result + CamelFrom(source[i..], nextUpper) == CamelCase(source)
    {
      var c := source[i];
      CamelFromStep(source, i, nextUpper);
      if c == '_' {
        nextUpper := true;
      } else {
        if nextUpper {
          result := result + [UpperChar(c)];
          nextUpper := false;
        } else {
          result := result + [c];
        }
      }
    }
  }

  /** One character of the conversion. */
  lemma CamelFromStep(s: string, i: nat, nextUpper: bool)
    requires i < |s|
    ensures CamelFrom(s[i..], nextUpper) ==
              if s[i] == '_' then CamelFrom(s[i + 1..], true)
              else [if nextUpper then UpperChar(s[i]) else s[i]] + CamelFrom(s[i + 1..], false)
  {
    assert s[i..][1..] == s[i + 1..];
  }

  /** The result holds no underscore and is shorter than the input by exactly the
      number of underscores in it. */
  lemma {:induction false} CamelFromShape(s: string, nextUpper: bool)
    ensures '_' !in CamelFrom(s, nextUpper)
    ensures |CamelFrom(s, nextUpper)| == |s| - CountChar(s, '_')
    decreases |s|
  {
    if s != [] {
      CamelFromShape(s[1..], s[0] == '_');
    }
  }

  /** A name without underscores is already in camel case. */
  lemma {:induction false} CamelCaseIdentity(s: string)
    requires '_' !in s
    ensures CamelCase(s) == s
    decreases |s|
  {
    if s != [] {
      assert '_' !in s[1..] by {
        assert forall i :: 0 <= i < |s| - 1 ==> s[1..][i] == s[i + 1];
      }
      CamelCaseIdentity(s[1..]);
      assert s == [s[0]] + s[1..];
    }
  }

  /** Converting twice is converting once. */
  lemma CamelCaseIdempotent(s: string)
    ensures CamelCase(CamelCase(s)) == CamelCase(s)
  {
    CamelFromShape(s, false);
    CamelCaseIdentity(CamelCase(s));
  }

  /** Two words joined by a run of one or more underscores become the first word
      followed by the capitalised second word: the run leaves nothing behind. */
  lemma CamelCaseTwoWords(a: string, sep: string, b: string)
    requires '_' !in a && '_' !in b
    requires sep != [] && forall k :: 0 <= k < |sep| ==> sep[k] == '_'
    ensures CamelCase(a + sep + b) == a + Capitalize(b)
  {
    CamelFromUnderscoreFree(a, sep + b);
    assert a + sep + b == a + (sep + b);
    CamelFromSkipsRun(sep, b, false);
    if b != [] {
      CamelCaseIdentity(b[1..]) by {
        assert forall i :: 0 <= i < |b| - 1 ==> b[1..][i] == b[i + 1];
      }
    }
  }

  /** A run of underscores is dropped, and the character after it is upper-cased. */
  lemma {:induction false} CamelFromSkipsRun(sep: string, rest: string, nextUpper: bool)
    requires sep != [] && forall k :: 0 <= k < |sep| ==> sep[k] == '_'
    ensures CamelFrom(sep + rest, nextUpper) == CamelFrom(rest, true)
    decreases |sep|
  {
    assert (sep + rest)[0] == '_' && (sep + rest)[1..] == sep[1..] + rest;
    if |sep| > 1 {
      CamelFromSkipsRun(sep[1..], rest, true);
    } else {
      assert sep[1..] + rest == rest;
    }
  }

  /** Leading characters without underscores are copied unchanged. */
  lemma {:induction false} CamelFromUnderscoreFree(a: string, rest: string)
    requires '_' !in a
    ensures CamelFrom(a + rest, false) == a + CamelFrom(rest, false)
    decreases |a|
  {
    if a != [] {
      assert (a + rest)[0] == a[0] && (a + rest)[1..] == a[1..] + rest;
      assert '_' !in a[1..] by {
        assert forall i :: 0 <= i < |a| - 1 ==> a[1..][i] == a[i + 1];
      }
      CamelFromUnderscoreFree(a[1..], rest);
      assert a[0] != '_' by {
        assert a[0] in a;
      }
      assert CamelFrom(a + rest, false) == [a[0]] + CamelFrom(a[1..] + rest, false);
      assert [a[0]] + (a[1..] + CamelFrom(rest, false)) == a + CamelFrom(rest, false);
    } else {
      assert a + rest == rest;
    }
  }

  // ---------------------------------------------------------------------------
  // Types
  // ---------------------------------------------------------------------------

  /** `mapSqlToJavaType`: four type names recognised up to case, the rest are strings. */
  function MapSqlToJavaType(sqlType: string): (javaType: string)
    ensures javaType in {"String", "Integer", "Boolean", "LocalDateTime"}
    ensures javaType == "Integer" <==> JavaEqualsIgnoreCase(sqlType, "int")
    ensures javaType == "Boolean" <==> JavaEqualsIgnoreCase(sqlType, "boolean")
    ensures javaType == "LocalDateTime" <==> JavaEqualsIgnoreCase(sqlType, "datetime")
  {
    SameLengthWordsDiffer(sqlType, "varchar", "boolean");
    if JavaEqualsIgnoreCase(sqlType, "varchar") then "String"
    else if JavaEqualsIgnoreCase(sqlType, "int") then "Integer"
    else if JavaEqualsIgnoreCase(sqlType, "boolean") then "Boolean"
    else if JavaEqualsIgnoreCase(sqlType, "datetime") then "LocalDateTime"
    else "String"
  }

  /** No text matches two different ASCII words of the same length up to case. */
  lemma SameLengthWordsDiffer(s: string, w1: string, w2: string)
    requires |w1| == |w2| && w1 != w2
    requires forall i :: 0 <= i < |w1| ==> 'a' <= w1[i] <= 'z' && 'a' <= w2[i] <= 'z'
    ensures !(JavaEqualsIgnoreCase(s, w1) && JavaEqualsIgnoreCase(s, w2))
  {
    var i :| 0 <= i < |w1| && w1[i] != w2[i];
    assert LowerChar(w1[i]) != LowerChar(w2[i]);
  }

  /** Any capitalisation of the four names maps alike, and a sized type such as
      "VARCHAR(50)" is not recognised. */
  lemma MapSqlToJavaTypeExamples()
    ensures MapSqlToJavaType("INT") == "Integer" && MapSqlToJavaType("DateTime") == "LocalDateTime"
    ensures MapSqlToJavaType("VARCHAR(50)") == "String" && MapSqlToJavaType("bigint") == "String"
  {
    assert !JavaEqualsIgnoreCase("INT", "varchar");
    assert !JavaEqualsIgnoreCase("DateTime", "varchar") && !JavaEqualsIgnoreCase("DateTime", "int")
           && !JavaEqualsIgnoreCase("DateTime", "boolean");
    assert JavaFoldChar('I') == 'i';
    assert JavaFoldChar('D') == 'd' && JavaFoldChar('T') == 't';
  }

  // ---------------------------------------------------------------------------
  // The data model, as a specification
  // ---------------------------------------------------------------------------

  /** The first primary-key column, as `stream().filter(...).findFirst()` finds it. */
  function FirstKeyColumn(columns: seq<DbColumn>): (r: Option<DbColumn>)
    ensures r.None? <==> forall i :: 0 <= i < |columns| ==> PrimaryKey !in columns[i].settings
    ensures r.Some? ==> exists i :: 0 <= i < |columns| && columns[i] == r.value
                                    && PrimaryKey in r.value.settings
                                    && forall j :: 0 <= j < i ==> PrimaryKey !in columns[j].settings
  {
    if columns == [] then None
    else if PrimaryKey in columns[0].settings then Some(columns[0])
    else
      var r := FirstKeyColumn(columns[1..]);
      assert forall i :: 1 <= i < |columns| ==> columns[i] == columns[1..][i - 1];
      r
  }

  /** The relationships leave from this table (by its first from-column). */
  predicate LeavesFrom(table: DbTable, rel: Relationship)
    requires |rel.from| > 0
  {
    rel.from[0].table == table.name
  }

  /** The relationship arrives at this table (by its first to-column). */
  predicate ArrivesAt(table: DbTable, rel: Relationship)
    requires |rel.to| > 0
  {
    rel.to[0].table == table.name
  }

  predicate WellFormed(rels: seq<Relationship>)
  {
    forall i :: 0 <= i < |rels| ==> |rels[i].from| > 0 && |rels[i].to| > 0
  }

  /** The foreign-key column names the relationships give this table, in order. */
  function ForeignKeys(table: DbTable, rels: seq<Relationship>): seq<string>
    requires WellFormed(rels)
    decreases |rels|
  {
    if rels == [] then []
    else
      var r := rels[|rels| - 1];
      ForeignKeys(table, rels[..|rels| - 1]) + (if LeavesFrom(table, r) then [r.from[0].column] else [])
  }

  function ManyToOneOf(table: DbTable, rels: seq<Relationship>): seq<ManyToOne>
    requires WellFormed(rels)
    decreases |rels|
  {
    if rels == [] then []
    else
      var r := rels[|rels| - 1];
      ManyToOneOf(table, rels[..|rels| - 1])
      + (if LeavesFrom(table, r)
         then [ManyToOne(r.from[0].column, Capitalize(r.to[0].table), CamelCase(r.to[0].table))]
         else [])
  }

  function OneToManyOf(table: DbTable, rels: seq<Relationship>): seq<OneToMany>
    requires WellFormed(rels)
    decreases |rels|
  {
    if rels == [] then []
    else
      var r := rels[|rels| - 1];
      OneToManyOf(table, rels[..|rels| - 1])
      + (if ArrivesAt(table, r)
         then [OneToMany(Capitalize(r.from[0].table), CamelCase(r.from[0].table) + "s", CamelCase(r.to[0].table))]
         else [])
  }

  function FieldOf(col: DbColumn): Field
  {
    Field(col.name, CamelCase(col.name), MapSqlToJavaType(col.colType), PrimaryKey in col.settings)
  }

  /** One field per column that is not a foreign key, in column order. */
  function FieldsOf(columns: seq<DbColumn>, foreignKeys: seq<string>): seq<Field>
    decreases |columns|
  {
    if columns == [] then []
    else
      var c := columns[|columns| - 1];
      FieldsOf(columns[..|columns| - 1], foreignKeys) + (if c.name !in foreignKeys then [FieldOf(c)] else [])
  }

  predicate NeedsDateTime(fields: seq<Field>)
  {
    exists i :: 0 <= i < |fields| && fields[i].javaType == "LocalDateTime"
  }

  /** The imports: the list type when some one-to-many relation exists, then the
      date-time type when some field needs it. */
  function ImportsOf(oneToMany: seq<OneToMany>, fields: seq<Field>): seq<string>
  {
    (if oneToMany != [] then ["java.util.List"] else [])
    + (if NeedsDateTime(fields) then ["java.time.LocalDateTime"] else [])
  }

  /** The whole data model of one table. */
  function DataModelOf(table: DbTable, rels: seq<Relationship>): DataModel
    requires WellFormed(rels)
  {
    var key := FirstKeyColumn(table.columns);
    var oneToMany := OneToManyOf(table, rels);
    var fields := FieldsOf(table.columns, ForeignKeys(table, rels));
    DataModel("com.example.demo", table.name, Capitalize(table.name),
              key.Some? && Increment in key.value.settings,
              if key.Some? then Some(MapSqlToJavaType(key.value.colType)) else None,
              ImportsOf(oneToMany, fields), fields, ManyToOneOf(table, rels), oneToMany)
  }

  // ---------------------------------------------------------------------------
  // The data model, as the generator builds it
  // ---------------------------------------------------------------------------

  /** `prepareDataModel`: the key column settles the id type and whether it is
      generated; the relationship loop fills the foreign keys, both relation lists
      and the list import; the column loop fills the fields and the date-time
      import. */
  method PrepareDataModel(table: DbTable, rels: seq<Relationship>) returns (model: DataModel)
    requires WellFormed(rels)
    ensures model == DataModelOf(table, rels)
  {
    var key := FirstKeyColumn(table.columns);
    var hasIncrement := false;
    var idType: Option<string> := None;
    if key.Some? {
      hasIncrement := Increment in key.value.settings;
      idType := Some(MapSqlToJavaType(key.value.colType));
    }
    var fkColumnNames, manyToOne, oneToMany, imports := RelationLoop(table, rels);
    var fields;
    fields, imports := ColumnLoop(table.columns, fkColumnNames, imports);
    model := DataModel("com.example.demo", table.name, Capitalize(table.name), hasIncrement, idType,
                       imports, fields, manyToOne, oneToMany);
  }

  /** The relationship loop of `prepareDataModel`. */
  method RelationLoop(table: DbTable, rels: seq<Relationship>)
    returns (fkColumnNames: seq<string>, manyToOne: seq<ManyToOne>, oneToMany: seq<OneToMany>, imports: seq<string>)
    requires WellFormed(rels)
    ensures fkColumnNames == ForeignKeys(table, rels)
    ensures manyToOne == ManyToOneOf(table, rels)
    ensures oneToMany == OneToManyOf(table, rels)
    ensures imports == if oneToMany != [] then ["java.util.List"] else []
  {
    imports, manyToOne, oneToMany, fkColumnNames := [], [], [], [];
    for i := 0 to |rels|
      invariant fkColumnNames == ForeignKeys(table, rels[..i])
      invariant manyToOne == ManyToOneOf(table, rels[..i])
      invariant oneToMany == OneToManyOf(table, rels[..i])
      invariant imports == if oneToMany != [] then ["java.util.List"] else []
    {
      assert rels[..i + 1][..i] == rels[..i];
      var rel := rels[i];
      var fromTable, toTable := rel.from[0].table, rel.to[0].table;
      if fromTable == table.name {
        var fkColName := rel.from[0].column;
        fkColumnNames := fkColumnNames + [fkColName];
        manyToOne := manyToOne + [ManyToOne(fkColName, Capitalize(toTable), CamelCase(toTable))];
      }
      if toTable == table.name {
        oneToMany := oneToMany + [OneToMany(Capitalize(fromTable), CamelCase(fromTable) + "s", CamelCase(toTable))];
        if "java.util.List" !in imports {
          imports := imports + ["java.util.List"];
        }
      }
    }
    assert rels[..|rels|] == rels;
  }

  /** The column loop of `prepareDataModel`: a field per column that is not a
      foreign key, and the date-time import after the imports so far when a
      field needs it. */
  method ColumnLoop(columns: seq<DbColumn>, fkColumnNames: seq<string>, importsBefore: seq<string>)
    returns (fields: seq<Field>, imports: seq<string>)
    requires "java.time.LocalDateTime" !in importsBefore && "java.math.BigDecimal" !in importsBefore
    ensures fields == FieldsOf(columns, fkColumnNames)
    ensures imports == importsBefore + if NeedsDateTime(fields) then ["java.time.LocalDateTime"] else []
  {
    fields, imports := [], importsBefore;
    for j := 0 to |columns|
      invariant fields == FieldsOf(columns[..j], fkColumnNames)
      invariant imports == importsBefore + if NeedsDateTime(fields) then ["java.time.LocalDateTime"] else []
    {
      assert columns[..j + 1][..j] == columns[..j];
      var col := columns[j];
      if col.name !in fkColumnNames {
        var javaType := MapSqlToJavaType(col.colType);
        var field := Field(col.name, CamelCase(col.name), javaType, PrimaryKey in col.settings);
        ghost var before := fields;
        fields := fields + [field];
        assert NeedsDateTime(fields) <==> NeedsDateTime(before) || javaType == "LocalDateTime" by {
          assert fields[|before|] == field;
          assert forall k :: 0 <= k < |before| ==> fields[k] == before[k];
        }
        if javaType == "BigDecimal" && "java.math.BigDecimal" !in imports {
          imports := imports + ["java.math.BigDecimal"];
        }
        if javaType == "LocalDateTime" && "java.time.LocalDateTime" !in imports {
          imports := imports + ["java.time.LocalDateTime"];
        }
      }
    }
    assert columns[..|columns|] == columns;
  }

  // ---------------------------------------------------------------------------
  // Properties of the data model
  // ---------------------------------------------------------------------------

  /** The imports hold no duplicate, never the decimal type, and the list type
      exactly when a one-to-many relation exists. */
  lemma ImportsFacts(table: DbTable, rels: seq<Relationship>)
    requires WellFormed(rels)
    ensures var m := DataModelOf(table, rels);
            && (forall i, j :: 0 <= i < j < |m.imports| ==> m.imports[i] != m.imports[j])
            && "java.math.BigDecimal" !in m.imports
            && ("java.util.List" in m.imports <==> m.oneToManyRels != [])
  {
  }

  /** The fields are exactly the non-foreign-key columns, in column order, each
      marked as the id exactly when it carries a primary-key setting. */
  lemma {:induction false} FieldsAreNonKeyColumns(columns: seq<DbColumn>, foreignKeys: seq<string>)
    ensures var fields := FieldsOf(columns, foreignKeys);
            && |fields| == |NonKeyColumns(columns, foreignKeys)|
            && forall i :: 0 <= i < |fields| ==>
                 var c := NonKeyColumns(columns, foreignKeys)[i];
                 && fields[i].columnName == c.name && fields[i].isId == (PrimaryKey in c.settings)
                 && fields[i].javaType == MapSqlToJavaType(c.colType)
    decreases |columns|
  {
    if columns != [] {
      FieldsAreNonKeyColumns(columns[..|columns| - 1], foreignKeys);
    }
  }

  /** The columns whose names are not foreign keys, in order. */
  function NonKeyColumns(columns: seq<DbColumn>, foreignKeys: seq<string>): (r: seq<DbColumn>)
    ensures forall i :: 0 <= i < |r| ==> r[i] in columns && r[i].name !in foreignKeys
    ensures forall c :: c in columns && c.name !in foreignKeys ==> c in r
    decreases |columns|
  {
    if columns == [] then []
    else
      var c := columns[|columns| - 1];
      var prev := NonKeyColumns(columns[..|columns| - 1], foreignKeys);
      assert forall d :: d in columns ==> d in columns[..|columns| - 1] || d == c;
      prev + (if c.name !in foreignKeys then [c] else [])
  }

  /** A relationship leaving this table adds one many-to-one relation and records
      its column as a foreign key; one arriving adds one one-to-many relation; a
      relationship from the table to itself adds both. */
  lemma {:induction false} RelationCounts(table: DbTable, rels: seq<Relationship>, r: Relationship)
    requires WellFormed(rels) && |r.from| > 0 && |r.to| > 0
    ensures var rels' := rels + [r];
            && WellFormed(rels')
            && |ManyToOneOf(table, rels')| == |ManyToOneOf(table, rels)| + (if LeavesFrom(table, r) then 1 else 0)
            && |OneToManyOf(table, rels')| == |OneToManyOf(table, rels)| + (if ArrivesAt(table, r) then 1 else 0)
            && (LeavesFrom(table, r) ==> ForeignKeys(table, rels') == ForeignKeys(table, rels) + [r.from[0].column])
            && (LeavesFrom(table, r) ==>
                  ManyToOneOf(table, rels')[|ManyToOneOf(table, rels)|]
                  == ManyToOne(r.from[0].column, Capitalize(r.to[0].table), CamelCase(r.to[0].table)))
            && (ArrivesAt(table, r) ==>
                  OneToManyOf(table, rels')[|OneToManyOf(table, rels)|]
                  == OneToMany(Capitalize(r.from[0].table), CamelCase(r.from[0].table) + "s", CamelCase(table.name)))
  {
    assert (rels + [r])[..|rels|] == rels;
  }

  /** `hasIncrement` is the increment setting of the first key column, false
      without one, and the id type follows the first key column's type. */
  lemma KeyFacts(table: DbTable, rels: seq<Relationship>, i: nat)
    requires WellFormed(rels) && i < |table.columns| && PrimaryKey in table.columns[i].settings
    requires forall j :: 0 <= j < i ==> PrimaryKey !in table.columns[j].settings
    ensures DataModelOf(table, rels).hasIncrement == (Increment in table.columns[i].settings)
    ensures DataModelOf(table, rels).idType == Some(MapSqlToJavaType(table.columns[i].colType))
  {
    var k :| 0 <= k < |table.columns| && table.columns[k] == FirstKeyColumn(table.columns).value
             && forall j :: 0 <= j < k ==> PrimaryKey !in table.columns[j].settings;
    if k < i {
    } else if k > i {
    }
  }

  // ---------------------------------------------------------------------------
  // Generated files
  // ---------------------------------------------------------------------------

  /** A file to render: its path under the package directory and the data model
      the template is given. */
  datatype SourceFile = SourceFile(path: string, model: DataModel)

  /** The entity, repository, service and controller files of one class. */
  function ClassFiles(model: DataModel): seq<SourceFile>
  {
    var c := model.className;
    [SourceFile("entity/" + c + ".java", model),
     SourceFile("repository/" + c + "Repository.java", model),
     SourceFile("service/" + c + "Service.java", model),
     SourceFile("controller/" + c + "Controller.java", model)]
  }

  /** The data model of each table, in table order. */
  function ModelsOf(tables: seq<DbTable>, rels: seq<Relationship>): (models: seq<DataModel>)
    requires WellFormed(rels)
    ensures |models| == |tables|
  {
    seq(|tables|, i requires 0 <= i < |tables| => DataModelOf(tables[i], rels))
  }

  /** The class files of each model, model by model. */
  function AllSourceFiles(models: seq<DataModel>): seq<SourceFile>
    decreases |models|
  {
    if models == [] then []
    else AllSourceFiles(models[..|models| - 1]) + ClassFiles(models[|models| - 1])
  }

  /** `generateAllSourceFiles`: four files per table, table by table. */
  method GenerateAllSourceFiles(tables: seq<DbTable>, rels: seq<Relationship>) returns (files: seq<SourceFile>)
    requires WellFormed(rels)
    ensures files == AllSourceFiles(ModelsOf(tables, rels))
  {
    files := [];
    ghost var models: seq<DataModel> := [];
    for i := 0 to |tables|
      invariant models == ModelsOf(tables[..i], rels)
      invariant files == AllSourceFiles(models)
    {
      var model := PrepareDataModel(tables[i], rels);
      var className := model.className;
      files := files + [SourceFile("entity/" + className + ".java", model)];
      files := files + [SourceFile("repository/" + className + "Repository.java", model)];
      files := files + [SourceFile("service/" + className + "Service.java", model)];
      files := files + [SourceFile("controller/" + className + "Controller.java", model)];
      ModelsOfSnoc(tables, rels, i, models, model);
      AllSourceFilesSnoc(models, model);
      models := models + [model];
    }
    assert tables[..|tables|] == tables;
  }

  lemma ModelsOfSnoc(tables: seq<DbTable>, rels: seq<Relationship>, i: nat, models: seq<DataModel>, model: DataModel)
    requires WellFormed(rels) && i < |tables|
    requires models == ModelsOf(tables[..i], rels) && model == DataModelOf(tables[i], rels)
    ensures models + [model] == ModelsOf(tables[..i + 1], rels)
  {
  }

  lemma AllSourceFilesSnoc(models: seq<DataModel>, model: DataModel)
    ensures AllSourceFiles(models + [model]) == AllSourceFiles(models) + ClassFiles(model)
  {
    assert (models + [model])[..|models|] == models;
  }

  /** File `4k + j` is the j-th kind of file of table k, named after its class. */
  lemma SourceFileLayout(tables: seq<DbTable>, rels: seq<Relationship>, k: nat)
    requires WellFormed(rels) && k < |tables|
    ensures var files := AllSourceFiles(ModelsOf(tables, rels));
            var c := Capitalize(tables[k].name);
            && |files| == 4 * |tables|
            && files[4 * k].path == "entity/" + c + ".java"
            && files[4 * k + 1].path == "repository/" + c + "Repository.java"
            && files[4 * k + 2].path == "service/" + c + "Service.java"
            && files[4 * k + 3].path == "controller/" + c + "Controller.java"
  {
    var models := ModelsOf(tables, rels);
    AllSourceFilesLength(models);
    ClassFilesAt(models, k);
    ClassFilesPaths(models[k]);
    assert models[k].className == Capitalize(tables[k].name);
  }

  /** The four files from `4k` on are the class files of model k. */
  lemma {:induction false} ClassFilesAt(models: seq<DataModel>, k: nat)
    requires k < |models|
    ensures 4 * k + 4 <= |AllSourceFiles(models)|
    ensures AllSourceFiles(models)[4 * k..4 * k + 4] == ClassFiles(models[k])
    decreases |models|
  {
    var n := |models| - 1;
    var prev := AllSourceFiles(models[..n]);
    var last := ClassFiles(models[n]);
    AllSourceFilesLength(models[..n]);
    if k < n {
      ClassFilesAt(models[..n], k);
      assert (prev + last)[4 * k..4 * k + 4] == prev[4 * k..4 * k + 4];
    } else {
      assert (prev + last)[4 * k..4 * k + 4] == last;
    }
  }

  lemma ClassFilesPaths(model: DataModel)
    ensures var files := ClassFiles(model);
            var c := model.className;
            && |files| == 4
            && files[0].path == "entity/" + c + ".java"
            && files[1].path == "repository/" + c + "Repository.java"
            && files[2].path == "service/" + c + "Service.java"
            && files[3].path == "controller/" + c + "Controller.java"
  {
  }

  lemma {:induction false} AllSourceFilesLength(models: seq<DataModel>)
    ensures |AllSourceFiles(models)| == 4 * |models|
    decreases |models|
  {
    if models != [] {
      AllSourceFilesLength(models[..|models| - 1]);
    }
  }
}
