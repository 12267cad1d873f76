/**
 * The backend service's comparison of two versions of a generated class: each
 * version's fields are collected into a map from field name to declared type, and
 * the two maps are compared, first over the new fields (added or retyped), then
 * over the old ones (removed). Also the name the project preview gives a file.
 *
 * Parsing the Java source into declarations is not part of this model: the field
 * declarations arrive as (name, type) pairs in document order, and a map's
 * iteration order arrives as the sequence of its entries or keys.
 */
module MainService {
  import opened Text
  import opened Types
  import ProjectTree

  /** One reported difference: the element, its kind, what happened and a detail line. */
  datatype CodeChange = CodeChange(element: string, kind: string, action: string, detail: string)

  function Added(name: string, newType: string): CodeChange
  {
    CodeChange(name, "FIELD", "ADDED", "Kiểu dữ liệu: " + newType)
  }

  function Modified(name: string, oldType: string, newType: string): CodeChange
  {
    CodeChange(name, "FIELD", "MODIFIED", "Đổi từ " + oldType + " sang " + newType)
  }

  function Removed(name: string): CodeChange
  {
    CodeChange(name, "FIELD", "REMOVED", "Đã xóa thuộc tính này")
  }

  // ---------------------------------------------------------------------------
  // Field maps
  // ---------------------------------------------------------------------------

  /** The names in a list of (name, type) pairs. */
  function Names(pairs: seq<(string, string)>): set<string>
  {
    set i | 0 <= i < |pairs| :: pairs[i].0
  }

  /** `fieldMap.put(name, type)` for every declaration in order. */
  function FieldMapOf(decls: seq<(string, string)>): (m: map<string, string>)
    ensures m.Keys == Names(decls)
  {
    if decls == [] then map[]
    else
      var init := decls[..|decls| - 1];
      var last := decls[|decls| - 1];
      assert Names(decls) == Names(init) + {last.0} by {
        assert forall i :: 0 <= i < |init| ==> init[i] == decls[i];
      }
      FieldMapOf(init)[last.0 := last.1]
  }

  /** `extractFields`: the map built by putting each declared variable in turn. */
  method ExtractFields(decls: seq<(string, string)>) returns (fieldMap: map<string, string>)
    ensures fieldMap == FieldMapOf(decls)
  {
    fieldMap := map[];
    for i := 0 to |decls|
      invariant fieldMap == FieldMapOf(decls[..i])
    {
      assert decls[..i + 1][..i] == decls[..i];
      fieldMap := fieldMap[decls[i].0 := decls[i].1];
    }
    assert decls[..|decls|] == decls;
  }

  /** A name declared more than once keeps the type of its last declaration. */
  lemma {:induction false} LastDeclarationWins(decls: seq<(string, string)>, i: nat)
    requires i < |decls|
    requires forall j :: i < j < |decls| ==> decls[j].0 != decls[i].0
    ensures FieldMapOf(decls)[decls[i].0] == decls[i].1
    decreases |decls|
  {
    if i < |decls| - 1 {
      var init := decls[..|decls| - 1];
      LastDeclarationWins(init, i);
    }
  }

  /** `entries` lists every entry of `m` once: the order `forEach` visits a map in. */
  ghost predicate EntriesOf(entries: seq<(string, string)>, m: map<string, string>)
  {
    && (forall i :: 0 <= i < |entries| ==> entries[i].0 in m && m[entries[i].0] == entries[i].1)
    && (forall i, j :: 0 <= i < j < |entries| ==> entries[i].0 != entries[j].0)
    && (forall name :: name in m ==> name in Names(entries))
  }

  /** `keys` lists every key of `m` once: the order its key set is visited in. */
  ghost predicate KeysOf(keys: seq<string>, m: map<string, string>)
  {
    && (forall name :: name in m <==> name in keys)
    && (forall i, j :: 0 <= i < j < |keys| ==> keys[i] != keys[j])
  }

  // ---------------------------------------------------------------------------
  // The comparison
  // ---------------------------------------------------------------------------

  /** What the first pass reports for a new field, if anything. */
  function NewFieldChange(oldFields: map<string, string>, name: string, newType: string): Option<CodeChange>
  {
    if name !in oldFields then Some(Added(name, newType))
    else if oldFields[name] != newType then Some(Modified(name, oldFields[name], newType))
    else None
  }

  /** The changes of the first pass, over the new entries in the order visited. */
  function FirstPass(oldFields: map<string, string>, entries: seq<(string, string)>): seq<CodeChange>
  {
    if entries == [] then []
    else
      var rest := FirstPass(oldFields, entries[..|entries| - 1]);
      var (name, newType) := entries[|entries| - 1];
      match NewFieldChange(oldFields, name, newType)
      case Some(c) => rest + [c]
      case None => rest
  }

  /** The changes of the second pass, over the old keys in the order visited. */
  function SecondPass(newFields: map<string, string>, keys: seq<string>): seq<CodeChange>
  {
    if keys == [] then []
    else
      var rest := SecondPass(newFields, keys[..|keys| - 1]);
      if keys[|keys| - 1] !in newFields then rest + [Removed(keys[|keys| - 1])] else rest
  }

  /** Every change of a comparison: the first pass, then the second. */
  function CompareFields(oldFields: map<string, string>, newFields: map<string, string>,
                         newEntries: seq<(string, string)>, oldKeys: seq<string>): seq<CodeChange>
  {
    FirstPass(oldFields, newEntries) + SecondPass(newFields, oldKeys)
  }

  /** `compareCode` once both field maps are known: appends to the change list
      while visiting the new entries, then the old keys. */
  method CompareCode(oldFields: map<string, string>, newFields: map<string, string>,
                     newEntries: seq<(string, string)>, oldKeys: seq<string>)
    returns (changes: seq<CodeChange>)
    ensures changes == CompareFields(oldFields, newFields, newEntries, oldKeys)
  {
    changes := [];
    for i := 0 to |newEntries|
      invariant changes == FirstPass(oldFields, newEntries[..i])
    {
      assert newEntries[..i + 1][..i] == newEntries[..i];
      var (name, newType) := newEntries[i];
      if name !in oldFields {
        changes := changes + [Added(name, newType)];
      } else if oldFields[name] != newType {
        changes := changes + [Modified(name, oldFields[name], newType)];
      }
    }
    assert newEntries[..|newEntries|] == newEntries;
    var first := changes;
    for i := 0 to |oldKeys|
      invariant changes == first + SecondPass(newFields, oldKeys[..i])
    {
      assert oldKeys[..i + 1][..i] == oldKeys[..i];
      if oldKeys[i] !in newFields {
        changes := changes + [Removed(oldKeys[i])];
      }
    }
    assert oldKeys[..|oldKeys|] == oldKeys;
  }

  /** No two changes name the same element. */
  predicate DistinctElements(cs: seq<CodeChange>)
  {
    forall i, j :: 0 <= i < j < |cs| ==> cs[i].element != cs[j].element
  }

  /** The first pass reports only what `NewFieldChange` reports for a visited entry,
      and at most once per name. */
  lemma {:induction false} FirstPassSound(oldFields: map<string, string>, newFields: map<string, string>,
                                          entries: seq<(string, string)>)
    requires forall i :: 0 <= i < |entries| ==> entries[i].0 in newFields && newFields[entries[i].0] == entries[i].1
    requires forall i, j :: 0 <= i < j < |entries| ==> entries[i].0 != entries[j].0
    ensures forall c :: c in FirstPass(oldFields, entries) ==>
              c.element in Names(entries) && c.element in newFields &&
              NewFieldChange(oldFields, c.element, newFields[c.element]) == Some(c)
    ensures DistinctElements(FirstPass(oldFields, entries))
    decreases |entries|
  {
    if entries != [] {
      var init := entries[..|entries| - 1];
      FirstPassSound(oldFields, newFields, init);
      assert Names(init) <= Names(entries) by {
        assert forall i :: 0 <= i < |init| ==> init[i] == entries[i];
      }
      var last := entries[|entries| - 1].0;
      assert last !in Names(init) by {
        assert forall i :: 0 <= i < |init| ==> init[i] == entries[i];
      }
    }
  }

  /** Every visited entry that `NewFieldChange` reports on is reported. */
  lemma {:induction false} FirstPassComplete(oldFields: map<string, string>, entries: seq<(string, string)>, i: nat)
    requires i < |entries| && NewFieldChange(oldFields, entries[i].0, entries[i].1).Some?
    ensures NewFieldChange(oldFields, entries[i].0, entries[i].1).value in FirstPass(oldFields, entries)
    decreases |entries|
  {
    if i < |entries| - 1 {
      FirstPassComplete(oldFields, entries[..|entries| - 1], i);
    }
  }

  /** The second pass reports a removal for each visited name the new map lacks, once. */
  lemma {:induction false} SecondPassFacts(newFields: map<string, string>, keys: seq<string>)
    requires forall i, j :: 0 <= i < j < |keys| ==> keys[i] != keys[j]
    ensures forall c :: c in SecondPass(newFields, keys) ==>
              c.element in keys && c.element !in newFields && c == Removed(c.element)
    ensures forall name :: name in keys && name !in newFields ==> Removed(name) in SecondPass(newFields, keys)
    ensures DistinctElements(SecondPass(newFields, keys))
    decreases |keys|
  {
    if keys != [] {
      var init := keys[..|keys| - 1];
      SecondPassFacts(newFields, init);
      assert forall name :: name in keys ==> name in init || name == keys[|keys| - 1];
    }
  }

  /** A comparison misses nothing: a name only in the new map is ADDED with its
      type, a name in both with different types is MODIFIED, and a name only in
      the old map is REMOVED. */
  lemma CompareFieldsComplete(oldFields: map<string, string>, newFields: map<string, string>,
                              newEntries: seq<(string, string)>, oldKeys: seq<string>)
    requires EntriesOf(newEntries, newFields) && KeysOf(oldKeys, oldFields)
    ensures var cs := CompareFields(oldFields, newFields, newEntries, oldKeys);
            && (forall name :: name in newFields && name !in oldFields ==> Added(name, newFields[name]) in cs)
            && (forall name :: name in newFields && name in oldFields && newFields[name] != oldFields[name] ==>
                  Modified(name, oldFields[name], newFields[name]) in cs)
            && (forall name :: name in oldFields && name !in newFields ==> Removed(name) in cs)
  {
    var first := FirstPass(oldFields, newEntries);
    var second := SecondPass(newFields, oldKeys);
    SecondPassFacts(newFields, oldKeys);
    forall name | name in newFields && NewFieldChange(oldFields, name, newFields[name]).Some?
      ensures NewFieldChange(oldFields, name, newFields[name]).value in first + second
    {
      var i :| 0 <= i < |newEntries| && newEntries[i].0 == name;
      FirstPassComplete(oldFields, newEntries, i);
    }
  }

  /** A comparison reports nothing else: every change is a FIELD change and is
      one of the three kinds above, for a name that qualifies. */
  lemma CompareFieldsSound(oldFields: map<string, string>, newFields: map<string, string>,
                           newEntries: seq<(string, string)>, oldKeys: seq<string>)
    requires EntriesOf(newEntries, newFields) && KeysOf(oldKeys, oldFields)
    ensures var cs := CompareFields(oldFields, newFields, newEntries, oldKeys);
            && (forall c :: c in cs ==> c.kind == "FIELD")
            && (forall c :: c in cs ==>
                  || (c.element in newFields && c.element !in oldFields && c == Added(c.element, newFields[c.element]))
                  || (c.element in newFields && c.element in oldFields && newFields[c.element] != oldFields[c.element] &&
                      c == Modified(c.element, oldFields[c.element], newFields[c.element]))
                  || (c.element in oldFields && c.element !in newFields && c == Removed(c.element)))
  {
    FirstPassSound(oldFields, newFields, newEntries);
    SecondPassFacts(newFields, oldKeys);
  }

  /** No name is reported twice, and every removal comes after every addition
      and modification. */
  lemma CompareFieldsOrder(oldFields: map<string, string>, newFields: map<string, string>,
                           newEntries: seq<(string, string)>, oldKeys: seq<string>)
    requires EntriesOf(newEntries, newFields) && KeysOf(oldKeys, oldFields)
    ensures var cs := CompareFields(oldFields, newFields, newEntries, oldKeys);
            && DistinctElements(cs)
            && (forall i, j :: 0 <= i < j < |cs| && cs[i].action == "REMOVED" ==> cs[j].action == "REMOVED")
  {
    var first := FirstPass(oldFields, newEntries);
    var second := SecondPass(newFields, oldKeys);
    var cs := first + second;
    FirstPassSound(oldFields, newFields, newEntries);
    SecondPassFacts(newFields, oldKeys);
    forall i, j | 0 <= i < j < |cs|
      ensures cs[i].element != cs[j].element
    {
      if i < |first| && j >= |first| {
        assert cs[i] in first && cs[j] == second[j - |first|];
      }
    }
    forall i, j | 0 <= i < j < |cs| && cs[i].action == "REMOVED"
      ensures cs[j].action == "REMOVED"
    {
      if j >= |first| {
        assert cs[j] in second;
      }
    }
  }

  /** Visiting entries that the old map already holds, type for type, reports nothing. */
  lemma {:induction false} FirstPassUnchanged(fields: map<string, string>, entries: seq<(string, string)>)
    requires forall i :: 0 <= i < |entries| ==> entries[i].0 in fields && fields[entries[i].0] == entries[i].1
    ensures FirstPass(fields, entries) == []
    decreases |entries|
  {
    if entries != [] {
      FirstPassUnchanged(fields, entries[..|entries| - 1]);
    }
  }

  /** Visiting keys that the new map still holds reports nothing. */
  lemma {:induction false} SecondPassUnchanged(fields: map<string, string>, keys: seq<string>)
    requires forall i :: 0 <= i < |keys| ==> keys[i] in fields
    ensures SecondPass(fields, keys) == []
    decreases |keys|
  {
    if keys != [] {
      SecondPassUnchanged(fields, keys[..|keys| - 1]);
    }
  }

  /** Comparing a class with itself reports nothing. */
  lemma CompareSameFieldsIsEmpty(fields: map<string, string>, entries: seq<(string, string)>, keys: seq<string>)
    requires EntriesOf(entries, fields) && KeysOf(keys, fields)
    ensures CompareFields(fields, fields, entries, keys) == []
  {
    FirstPassUnchanged(fields, entries);
    SecondPassUnchanged(fields, keys);
  }

  // ---------------------------------------------------------------------------
  // Preview file names
  // ---------------------------------------------------------------------------

  /** Where the preview places a generated file. */
  function PreviewPath(path: string): string
  {
    "src/main/java/com/example/demo/" + path
  }

  /** Putting a directory (anything ending in '/') in front of a path leaves its
      file name alone. */
  lemma FileNameBehindDirectory(dir: string, path: string)
    requires |dir| > 0 && dir[|dir| - 1] == '/'
    ensures ProjectTree.FileNameOf(dir + path) == ProjectTree.FileNameOf(path)
  {
    var full := dir + path;
    if '/' in path {
      var j := LastIndexOfChar(path, '/');
      assert full[|dir| + j + 1..] == path[j + 1..];
      LastIndexOfCharUnique(full, '/', |dir| + j);
    } else {
      assert full[|dir|..] == path;
      LastIndexOfCharUnique(full, '/', |dir| - 1);
    }
  }

  /** The preview names a file after the last segment of its generated path. */
  lemma PreviewFileName(path: string)
    ensures ProjectTree.FileNameOf(PreviewPath(path)) == ProjectTree.FileNameOf(path)
  {
    FileNameBehindDirectory("src/main/java/com/example/demo/", path);
  }
}
