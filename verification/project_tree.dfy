/**
 * The generated project's file tree: flat files, each carrying a slash-separated
 * path, are folded into a folder tree under a root named after the project. Each
 * path is walked segment by segment from the root; a missing segment becomes a new
 * intermediate folder, or the file itself when it is the last segment, appended to
 * the children of the node reached so far.
 *
 * The tree is held as an arena: `nodes[0]` is the root and every node lists its
 * children by their index in the arena, in the order they were appended.
 */
module ProjectTree {
  import opened Text
  import opened Types

  /** A file as read from the archive: its name, its type, its full path inside the
      archive, its text and its detected language. */
  datatype FlatFile = FlatFile(name: string, kind: string, path: string, content: string, language: string)

  /** A tree node; folders carry no content and no language. */
  datatype FileNode = FileNode(name: string, kind: string, path: string,
                               content: Option<string>, language: Option<string>,
                               children: seq<nat>)

  /** The node a flat file becomes when it is inserted. */
  function NodeOf(f: FlatFile): FileNode
  {
    FileNode(f.name, f.kind, f.path, Some(f.content), Some(f.language), [])
  }

  /** A freshly created folder. */
  function Folder(name: string, path: string): FileNode
  {
    FileNode(name, "folder", path, None, None, [])
  }

  /** `path.split("/")` as Java performs it. */
  function PathParts(path: string): seq<string>
  {
    JavaSplit(path, '/')
  }

  /** `name` is the last of the segments. */
  predicate LastSegment(parts: seq<string>, name: string)
  {
    |parts| > 0 && name == parts[|parts| - 1]
  }

  /** The file's name is the last segment of its path, as it is for every file
      read from an archive. */
  predicate NamedByPath(f: FlatFile)
  {
    LastSegment(PathParts(f.path), f.name)
  }

  /** The name given to a file from its path: what follows the last `/`, or the
      whole path when it has none. */
  function FileNameOf(path: string): string
  {
    if '/' in path then path[LastIndexOfChar(path, '/') + 1..] else path
  }

  /** The flat file made from an archive entry and its text. */
  function ArchiveFile(entryName: string, content: string): FlatFile
  {
    var name := FileNameOf(entryName);
    FlatFile(name, "file", entryName, content, DetectLanguage(name))
  }

  /** Every file entry of an archive (a name not ending in `/`, which would be a
      directory) gives a file named by the last segment of its path. */
  lemma ArchiveFileNamedByPath(entryName: string, content: string)
    requires entryName == [] || entryName[|entryName| - 1] != '/'
    ensures NamedByPath(ArchiveFile(entryName, content))
  {
    FileNameIsLastPart(entryName);
  }

  /** The name taken from a path is the last segment of Java's split of it. */
  lemma FileNameIsLastPart(path: string)
    requires path == [] || path[|path| - 1] != '/'
    ensures LastSegment(PathParts(path), FileNameOf(path))
  {
    if '/' in path {
      JavaSplitLast(path, '/', LastIndexOfChar(path, '/'));
    }
  }

  /** The path built for the folder reached by `parts`: the project name followed
      by `/` and each segment. */
  function FolderPath(projectName: string, parts: seq<string>): string
  {
    if parts == [] then projectName
    else FolderPath(projectName, parts[..|parts| - 1]) + "/" + parts[|parts| - 1]
  }

  lemma {:induction false} JoinSnoc(parts: seq<string>, last: string, sep: char)
    requires |parts| > 0
    ensures Join(parts + [last], sep) == Join(parts, sep) + [sep] + last
    decreases |parts|
  {
    if |parts| > 1 {
      assert (parts + [last])[1..] == parts[1..] + [last];
      JoinSnoc(parts[1..], last, sep);
    } else {
      assert (parts + [last])[1..] == [last];
    }
  }

  /** A folder's path is the project name, a slash and its segments joined by slashes. */
  lemma {:induction false} FolderPathJoin(projectName: string, parts: seq<string>)
    requires |parts| > 0
    ensures FolderPath(projectName, parts) == projectName + "/" + Join(parts, '/')
    decreases |parts|
  {
    var init := parts[..|parts| - 1];
    if |init| > 0 {
      FolderPathJoin(projectName, init);
      JoinSnoc(init, parts[|parts| - 1], '/');
      assert init + [parts[|parts| - 1]] == parts;
    }
  }

  // ---------------------------------------------------------------------------
  // Looking up children and walking paths
  // ---------------------------------------------------------------------------

  /** The first of `kids` whose node carries `name`. */
  function FindIn(nodes: seq<FileNode>, kids: seq<nat>, name: string): (r: Option<nat>)
    ensures r.Some? ==> r.value < |nodes| && nodes[r.value].name == name &&
                        exists j :: 0 <= j < |kids| && kids[j] == r.value &&
                                    forall i :: 0 <= i < j && kids[i] < |nodes| ==> nodes[kids[i]].name != name
    ensures r.None? ==> forall i :: 0 <= i < |kids| && kids[i] < |nodes| ==> nodes[kids[i]].name != name
  {
    if kids == [] then None
    else if kids[0] < |nodes| && nodes[kids[0]].name == name then Some(kids[0])
    else
      var r := FindIn(nodes, kids[1..], name);
      assert forall i :: 1 <= i < |kids| ==> kids[i] == kids[1..][i - 1];
      r
  }

  /** `findChild`: the first child of `parent` named `name`, if any. */
  function FindChild(nodes: seq<FileNode>, parent: nat, name: string): Option<nat>
  {
    if parent < |nodes| then FindIn(nodes, nodes[parent].children, name) else None
  }

  /** The node reached from `from` by following `parts` one child at a time. */
  function Walk(nodes: seq<FileNode>, from: nat, parts: seq<string>): Option<nat>
  {
    if parts == [] then Some(from)
    else match Walk(nodes, from, parts[..|parts| - 1])
         case None => None
         case Some(c) => FindChild(nodes, c, parts[|parts| - 1])
  }

  /** Every child index names a node of the arena. */
  predicate ChildrenInRange(nodes: seq<FileNode>)
  {
    forall p, k :: 0 <= p < |nodes| && 0 <= k < |nodes[p].children| ==> nodes[p].children[k] < |nodes|
  }

  /** No two children of one node carry the same name. */
  predicate SiblingsDistinct(nodes: seq<FileNode>)
  {
    forall p, j, k :: 0 <= p < |nodes| && 0 <= j < k < |nodes[p].children| &&
                      nodes[p].children[j] < |nodes| && nodes[p].children[k] < |nodes| ==>
                      nodes[nodes[p].children[j]].name != nodes[nodes[p].children[k]].name
  }

  /** Two nodes agree on everything but their children. */
  predicate SameEntry(a: FileNode, b: FileNode)
  {
    a.name == b.name && a.kind == b.kind && a.path == b.path && a.content == b.content && a.language == b.language
  }

  /** `b` grew from `a`: nodes are only added, nothing about an existing node
      changes except that children are appended after the ones it had. */
  predicate Extends(a: seq<FileNode>, b: seq<FileNode>)
  {
    |a| <= |b| && forall k :: 0 <= k < |a| ==> SameEntry(a[k], b[k]) && a[k].children <= b[k].children
  }

  lemma ExtendsTrans(a: seq<FileNode>, b: seq<FileNode>, c: seq<FileNode>)
    requires Extends(a, b) && Extends(b, c)
    ensures Extends(a, c)
  {
    forall k | 0 <= k < |a|
      ensures a[k].children <= c[k].children
    {
      assert b[k].children <= c[k].children;
    }
  }

  /** `parent.getChildren().add(node)`: the node joins the arena as the last child of `parent`. */
  function AddChild(nodes: seq<FileNode>, parent: nat, node: FileNode): (r: seq<FileNode>)
    requires parent < |nodes|
    ensures |r| == |nodes| + 1 && r[|nodes|] == node
    ensures r[parent].children == nodes[parent].children + [|nodes|]
    ensures forall k :: 0 <= k < |nodes| && k != parent ==> r[k] == nodes[k]
    ensures SameEntry(r[parent], nodes[parent])
  {
    nodes[parent := nodes[parent].(children := nodes[parent].children + [|nodes|])] + [node]
  }

  /** A lookup through a list of children, and a longer list of children. */
  lemma {:induction false} FindInAppend(nodes: seq<FileNode>, kids: seq<nat>, more: seq<nat>, name: string)
    ensures FindIn(nodes, kids + more, name) ==
            if FindIn(nodes, kids, name).Some? then FindIn(nodes, kids, name) else FindIn(nodes, more, name)
    decreases |kids|
  {
    if kids != [] {
      assert (kids + more)[1..] == kids[1..] + more;
      FindInAppend(nodes, kids[1..], more, name);
    } else {
      assert kids + more == more;
    }
  }

  /** A lookup only reads the names of the nodes it looks at. */
  lemma {:induction false} FindInSameNames(a: seq<FileNode>, b: seq<FileNode>, kids: seq<nat>, name: string)
    requires |a| <= |b|
    requires forall i :: 0 <= i < |kids| ==> kids[i] < |a| && a[kids[i]].name == b[kids[i]].name
    ensures FindIn(b, kids, name) == FindIn(a, kids, name)
    decreases |kids|
  {
    if kids != [] {
      FindInSameNames(a, b, kids[1..], name);
    }
  }

  /** A child once found stays the first one found as the arena grows. */
  lemma FindChildPersists(a: seq<FileNode>, b: seq<FileNode>, parent: nat, name: string)
    requires ChildrenInRange(a) && Extends(a, b)
    requires FindChild(a, parent, name).Some?
    ensures FindChild(b, parent, name) == FindChild(a, parent, name)
  {
    var kids := a[parent].children;
    var more := b[parent].children[|kids|..];
    assert b[parent].children == kids + more;
    FindInAppend(b, kids, more, name);
    forall i | 0 <= i < |kids|
      ensures kids[i] < |a| && a[kids[i]].name == b[kids[i]].name
    {
      assert SameEntry(a[kids[i]], b[kids[i]]);
    }
    FindInSameNames(a, b, kids, name);
  }

  /** A path that can be walked keeps leading to the same node as the arena grows. */
  lemma {:induction false} WalkPersists(a: seq<FileNode>, b: seq<FileNode>, from: nat, parts: seq<string>)
    requires ChildrenInRange(a) && Extends(a, b)
    requires Walk(a, from, parts).Some?
    ensures Walk(b, from, parts) == Walk(a, from, parts)
    decreases |parts|
  {
    if parts != [] {
      var init := parts[..|parts| - 1];
      WalkPersists(a, b, from, init);
      FindChildPersists(a, b, Walk(a, from, init).value, parts[|parts| - 1]);
    }
  }

  /** Every prefix of a path that can be walked can be walked. */
  lemma {:induction false} WalkPrefix(nodes: seq<FileNode>, from: nat, parts: seq<string>, j: nat)
    requires j <= |parts| && Walk(nodes, from, parts).Some?
    ensures Walk(nodes, from, parts[..j]).Some?
    decreases |parts|
  {
    if j < |parts| {
      var init := parts[..|parts| - 1];
      assert init[..j] == parts[..j];
      WalkPrefix(nodes, from, init, j);
    } else {
      assert parts[..j] == parts;
    }
  }

  /** One more segment is one more child lookup. */
  lemma WalkSnoc(nodes: seq<FileNode>, from: nat, parts: seq<string>, i: nat)
    requires i < |parts|
    ensures Walk(nodes, from, parts[..i + 1]) ==
            match Walk(nodes, from, parts[..i])
            case None => None
            case Some(c) => FindChild(nodes, c, parts[i])
  {
    assert parts[..i + 1][..i] == parts[..i];
  }

  /** Appending a childless node keeps every child index in range and only grows the arena. */
  lemma AddChildGrows(nodes: seq<FileNode>, parent: nat, node: FileNode)
    requires parent < |nodes| && ChildrenInRange(nodes) && node.children == []
    ensures ChildrenInRange(AddChild(nodes, parent, node))
    ensures Extends(nodes, AddChild(nodes, parent, node))
  {
  }

  /** A node appended where no child carried its name is the child found by that name. */
  lemma AddChildFinds(nodes: seq<FileNode>, parent: nat, node: FileNode)
    requires parent < |nodes| && ChildrenInRange(nodes)
    requires FindChild(nodes, parent, node.name).None?
    ensures FindChild(AddChild(nodes, parent, node), parent, node.name) == Some(|nodes|)
  {
    var r := AddChild(nodes, parent, node);
    var kids := nodes[parent].children;
    FindInAppend(r, kids, [|nodes|], node.name);
    FindInSameNames(nodes, r, kids, node.name);
    assert FindIn(r, [|nodes|], node.name) == Some(|nodes|);
  }

  /** Appending the node named after the next segment extends the walk by one step. */
  lemma AppendWalk(nodes: seq<FileNode>, parent: nat, node: FileNode, parts: seq<string>, i: nat)
    requires parent < |nodes| && ChildrenInRange(nodes) && node.children == []
    requires i < |parts| && node.name == parts[i]
    requires FindChild(nodes, parent, node.name).None?
    requires Walk(nodes, 0, parts[..i]) == Some(parent)
    ensures Walk(AddChild(nodes, parent, node), 0, parts[..i + 1]) == Some(|nodes|)
  {
    var r := AddChild(nodes, parent, node);
    AddChildFinds(nodes, parent, node);
    AddChildGrows(nodes, parent, node);
    WalkPersists(nodes, r, 0, parts[..i]);
    WalkSnoc(r, 0, parts, i);
  }

  /** A childless node appended where no child carried its name keeps sibling names distinct. */
  lemma AddChildDistinct(nodes: seq<FileNode>, parent: nat, node: FileNode)
    requires parent < |nodes| && ChildrenInRange(nodes) && node.children == []
    requires FindChild(nodes, parent, node.name).None?
    requires SiblingsDistinct(nodes)
    ensures SiblingsDistinct(AddChild(nodes, parent, node))
  {
    var r := AddChild(nodes, parent, node);
    var kids := nodes[parent].children;
    forall p, j, k | 0 <= p < |r| && 0 <= j < k < |r[p].children| &&
                     r[p].children[j] < |r| && r[p].children[k] < |r|
      ensures r[r[p].children[j]].name != r[r[p].children[k]].name
    {
      if p == |nodes| {
      } else if p != parent {
        assert r[p] == nodes[p];
      } else if k < |kids| {
        assert r[p].children[j] == kids[j] && r[p].children[k] == kids[k];
      } else {
        assert r[p].children[j] == kids[j];
      }
    }
  }

  /** A node created while inserting a file along `parts`: a folder named after
      the segment at some depth, with the path built from the segments up to it. */
  predicate FolderOnPath(node: FileNode, projectName: string, parts: seq<string>)
  {
    node.kind == "folder" && node.content.None? && node.language.None? &&
    exists d :: 0 <= d < |parts| && node.name == parts[d] && node.path == FolderPath(projectName, parts[..d + 1])
  }

  /** One more segment is one more `/` and that segment. */
  lemma FolderPathSnoc(projectName: string, parts: seq<string>, i: nat)
    requires i < |parts|
    ensures FolderPath(projectName, parts[..i + 1]) == FolderPath(projectName, parts[..i]) + "/" + parts[i]
  {
    assert parts[..i + 1][..i] == parts[..i];
  }

  /** The folder created for the segment at depth `i`. */
  lemma NewFolderOnPath(projectName: string, parts: seq<string>, i: nat, path: string)
    requires i < |parts| && path == FolderPath(projectName, parts[..i + 1])
    ensures FolderOnPath(Folder(parts[i], path), projectName, parts)
  {
  }

  /** Appending a child leaves the entries of the nodes already there as they were. */
  lemma FoldersKept(nodes: seq<FileNode>, parent: nat, node: FileNode, lo: nat, projectName: string, parts: seq<string>)
    requires parent < |nodes| && lo <= |nodes|
    requires forall k :: lo <= k < |nodes| ==> FolderOnPath(nodes[k], projectName, parts)
    ensures forall k :: lo <= k < |nodes| ==> FolderOnPath(AddChild(nodes, parent, node)[k], projectName, parts)
    ensures FolderOnPath(node, projectName, parts) ==>
              forall k :: lo <= k <= |nodes| ==> FolderOnPath(AddChild(nodes, parent, node)[k], projectName, parts)
  {
    var r := AddChild(nodes, parent, node);
    forall k | lo <= k < |nodes|
      ensures FolderOnPath(r[k], projectName, parts)
    {
      assert SameEntry(r[k], nodes[k]);
    }
  }

  /** What holds once the first `i` segments of `parts` have been walked from the
      root of `start`, reaching `current`; `created` tells whether nodes were added. */
  ghost predicate Progress(start: seq<FileNode>, nodes: seq<FileNode>, projectName: string, file: FlatFile,
                           parts: seq<string>, i: nat, current: nat, created: bool)
  {
    && i <= |parts| && current < |nodes|
    && ChildrenInRange(nodes) && Extends(start, nodes)
    && (!created ==> nodes == start)
    && (created ==> |nodes| > |start| && current == |nodes| - 1 && nodes[current].children == [])
    && (Walk(start, 0, parts).Some? ==> !created)
    && (i < |parts| || !created || LastSegment(parts, file.name) ==> Walk(nodes, 0, parts[..i]) == Some(current))
    && (forall k :: |start| <= k < |nodes| && (i < |parts| || k < |nodes| - 1) ==>
                      FolderOnPath(nodes[k], projectName, parts))
    && (i == |parts| && created ==> nodes[|nodes| - 1] == NodeOf(file))
    && (SiblingsDistinct(start) && LastSegment(parts, file.name) ==> SiblingsDistinct(nodes))
  }

  lemma ProgressStart(start: seq<FileNode>, projectName: string, file: FlatFile, parts: seq<string>)
    requires |start| > 0 && ChildrenInRange(start)
    ensures Progress(start, start, projectName, file, parts, 0, 0, false)
  {
    assert parts[..0] == [];
  }

  /** A round of the inner loop that finds the segment among the children. */
  lemma StepFound(start: seq<FileNode>, nodes: seq<FileNode>, projectName: string, file: FlatFile,
                  parts: seq<string>, i: nat, current: nat, created: bool)
    requires Progress(start, nodes, projectName, file, parts, i, current, created)
    requires i < |parts| && FindChild(nodes, current, parts[i]).Some?
    ensures Progress(start, nodes, projectName, file, parts, i + 1, FindChild(nodes, current, parts[i]).value, created)
  {
    WalkSnoc(nodes, 0, parts, i);
  }

  /** A round of the inner loop that appends a folder, or the file at the last segment. */
  lemma StepCreate(start: seq<FileNode>, nodes: seq<FileNode>, projectName: string, file: FlatFile,
                   parts: seq<string>, i: nat, current: nat, created: bool, node: FileNode)
    requires Progress(start, nodes, projectName, file, parts, i, current, created)
    requires i < |parts| && FindChild(nodes, current, parts[i]).None?
    requires node == if i == |parts| - 1 then NodeOf(file) else Folder(parts[i], FolderPath(projectName, parts[..i + 1]))
    ensures Progress(start, AddChild(nodes, current, node), projectName, file, parts, i + 1, |nodes|, true)
  {
    var r := AddChild(nodes, current, node);
    if Walk(start, 0, parts).Some? {
      WalkPrefix(start, 0, parts, i + 1);
      WalkSnoc(start, 0, parts, i);
    }
    AddChildGrows(nodes, current, node);
    ExtendsTrans(start, nodes, r);
    if node.name == parts[i] {
      AppendWalk(nodes, current, node, parts, i);
      if SiblingsDistinct(nodes) {
        AddChildDistinct(nodes, current, node);
      }
    }
    if i < |parts| - 1 {
      NewFolderOnPath(projectName, parts, i, FolderPath(projectName, parts[..i + 1]));
    }
    FoldersKept(nodes, current, node, |start|, projectName, parts);
  }

  /** What the whole walk leaves behind. */
  lemma ProgressDone(start: seq<FileNode>, nodes: seq<FileNode>, projectName: string, file: FlatFile,
                     parts: seq<string>, current: nat, created: bool)
    requires Progress(start, nodes, projectName, file, parts, |parts|, current, created)
    ensures Walk(start, 0, parts).Some? ==> nodes == start
    ensures Walk(start, 0, parts).None? ==> |nodes| > |start|
    ensures forall k :: |start| <= k < |nodes| - 1 ==> FolderOnPath(nodes[k], projectName, parts)
    ensures |nodes| > |start| ==> nodes[|nodes| - 1] == NodeOf(file)
    ensures LastSegment(parts, file.name) ==> Walk(nodes, 0, parts) == Some(current)
    ensures LastSegment(parts, file.name) && Walk(start, 0, parts).None? ==> nodes[current] == NodeOf(file)
  {
    assert parts[..|parts|] == parts;
  }

  // ---------------------------------------------------------------------------
  // Routes: the segments that lead from the root to each node
  // ---------------------------------------------------------------------------

  /** `route[k]` lists the names on the way from the root to node `k`: the root's
      route is empty, and a child's route is its parent's followed by its name. */
  ghost predicate Routed(nodes: seq<FileNode>, route: seq<seq<string>>)
  {
    && |route| == |nodes| > 0 && route[0] == []
    && forall p, k :: 0 <= p < |nodes| && 0 <= k < |nodes[p].children| && nodes[p].children[k] < |nodes| ==>
                        route[nodes[p].children[k]] == route[p] + [nodes[nodes[p].children[k]].name]
  }

  /** A walk from the root ends at the node whose route is the walked path. */
  lemma {:induction false} WalkRoute(nodes: seq<FileNode>, route: seq<seq<string>>, parts: seq<string>)
    requires Routed(nodes, route) && Walk(nodes, 0, parts).Some?
    ensures Walk(nodes, 0, parts).value < |nodes| && route[Walk(nodes, 0, parts).value] == parts
    decreases |parts|
  {
    if parts != [] {
      var init := parts[..|parts| - 1];
      WalkRoute(nodes, route, init);
      var c := Walk(nodes, 0, init).value;
      var w := FindChild(nodes, c, parts[|parts| - 1]).value;
      var j :| 0 <= j < |nodes[c].children| && nodes[c].children[j] == w;
      assert route[w] == init + [parts[|parts| - 1]];
      assert init + [parts[|parts| - 1]] == parts;
    }
  }

  /** Appending a childless node under `parent` gives it the parent's route and its own name. */
  lemma AddChildRouted(nodes: seq<FileNode>, route: seq<seq<string>>, parent: nat, node: FileNode)
    requires Routed(nodes, route) && ChildrenInRange(nodes) && parent < |nodes| && node.children == []
    ensures Routed(AddChild(nodes, parent, node), route + [route[parent] + [node.name]])
  {
    var r := AddChild(nodes, parent, node);
    var rt := route + [route[parent] + [node.name]];
    forall p, k | 0 <= p < |r| && 0 <= k < |r[p].children| && r[p].children[k] < |r|
      ensures rt[r[p].children[k]] == rt[p] + [r[r[p].children[k]].name]
    {
      if p == parent && k == |nodes[parent].children| {
        assert r[p].children[k] == |nodes|;
      } else if p == parent {
        assert r[p].children[k] == nodes[p].children[k];
        assert r[r[p].children[k]].name == nodes[nodes[p].children[k]].name;
      } else if p < |nodes| {
        assert r[p] == nodes[p];
        assert r[r[p].children[k]].name == nodes[nodes[p].children[k]].name;
      }
    }
  }

  /** A route created while inserting a file along `parts`: a prefix of `parts`,
      except that its last name is the file's own when it has the full length. */
  predicate OnRoute(r: seq<string>, parts: seq<string>, name: string)
  {
    && 0 < |r| <= |parts| && r[..|r| - 1] == parts[..|r| - 1]
    && (r[|r| - 1] == parts[|r| - 1] || (|r| == |parts| && r[|r| - 1] == name))
  }

  /** The route of the node appended at depth `i` of the walk. */
  lemma NewRouteOnRoute(parts: seq<string>, i: nat, name: string, nodeName: string)
    requires i < |parts| && (nodeName == parts[i] || (i == |parts| - 1 && nodeName == name))
    ensures OnRoute(parts[..i] + [nodeName], parts, name)
  {
    assert (parts[..i] + [nodeName])[..i] == parts[..i];
  }

  /** For a file named by the last segment of its path, a route created while
      inserting it is a prefix of that path. */
  lemma OnRoutePrefix(r: seq<string>, parts: seq<string>, name: string)
    requires OnRoute(r, parts, name) && LastSegment(parts, name)
    ensures r <= parts
  {
    assert r == r[..|r| - 1] + [r[|r| - 1]];
    assert parts[..|r|] == parts[..|r| - 1] + [parts[|r| - 1]];
  }

  /** The routes of the nodes added so far while inserting a file along `parts`. */
  ghost predicate RouteProgress(start: seq<seq<string>>, nodes: seq<FileNode>, route: seq<seq<string>>,
                                parts: seq<string>, name: string)
  {
    && Routed(nodes, route) && start <= route
    && forall k :: |start| <= k < |route| ==> OnRoute(route[k], parts, name)
  }

  /** What the route bookkeeping leaves behind. */
  lemma RouteDone(start: seq<seq<string>>, nodes: seq<FileNode>, route: seq<seq<string>>, parts: seq<string>, name: string)
    requires RouteProgress(start, nodes, route, parts, name)
    ensures Routed(nodes, route) && start <= route
    ensures forall k :: |start| <= k < |route| ==> OnRoute(route[k], parts, name)
  {
  }

  /** A round of the inner loop that appends a node records its route. */
  lemma RouteStep(start: seq<FileNode>, startRoute: seq<seq<string>>, nodes: seq<FileNode>, route: seq<seq<string>>,
                  projectName: string, file: FlatFile, parts: seq<string>, i: nat, current: nat, created: bool,
                  node: FileNode)
    requires Progress(start, nodes, projectName, file, parts, i, current, created)
    requires RouteProgress(startRoute, nodes, route, parts, file.name)
    requires i < |parts|
    requires node == if i == |parts| - 1 then NodeOf(file) else Folder(parts[i], FolderPath(projectName, parts[..i + 1]))
    ensures RouteProgress(startRoute, AddChild(nodes, current, node), route + [parts[..i] + [node.name]], parts, file.name)
  {
    WalkRoute(nodes, route, parts[..i]);
    AddChildRouted(nodes, route, current, node);
    NewRouteOnRoute(parts, i, file.name, node.name);
  }

  // ---------------------------------------------------------------------------
  // Building the tree
  // ---------------------------------------------------------------------------

  /** The tree under construction. */
  class Tree {
    const projectName: string
    var nodes: seq<FileNode>
    ghost var route: seq<seq<string>>

    /** The root is a folder whose name and path are the project name, every
        child index names a node, and `route` records how each node is reached. */
    ghost predicate Valid()
      reads this
    {
      && |nodes| > 0
      && SameEntry(nodes[0], Folder(projectName, projectName))
      && ChildrenInRange(nodes)
      && Routed(nodes, route)
    }

    /** The root alone. */
    constructor (projectName: string)
      ensures this.projectName == projectName
      ensures nodes == [Folder(projectName, projectName)]
      ensures Valid() && SiblingsDistinct(nodes)
    {
      this.projectName := projectName;
      nodes := [Folder(projectName, projectName)];
      route := [[]];
    }

    /** The inner loop, for one file split into `parts`: walks the segments from
        the root, creating missing folders, and appends the file where its last
        segment is missing. */
    method Insert(file: FlatFile, parts: seq<string>)
      requires Valid()
      modifies this
      ensures Valid() && Extends(old(nodes), nodes)
      // a path already present changes nothing; a path not present adds nodes
      ensures old(Walk(nodes, 0, parts)).Some? ==> nodes == old(nodes)
      ensures old(Walk(nodes, 0, parts)).None? ==> |nodes| > |old(nodes)|
      // what is added: folders along the path, then the file itself
      ensures forall k :: |old(nodes)| <= k < |nodes| - 1 ==> FolderOnPath(nodes[k], projectName, parts)
      ensures |nodes| > |old(nodes)| ==> nodes[|nodes| - 1] == NodeOf(file)
      // the file is found again by walking its path
      ensures LastSegment(parts, file.name) ==> Walk(nodes, 0, parts).Some?
      ensures LastSegment(parts, file.name) && old(Walk(nodes, 0, parts)).None? ==>
                nodes[Walk(nodes, 0, parts).value] == NodeOf(file)
      ensures SiblingsDistinct(old(nodes)) && LastSegment(parts, file.name) ==> SiblingsDistinct(nodes)
      // the nodes added are reached along the file's path
      ensures old(route) <= route
      ensures forall k :: |old(route)| <= k < |route| ==> OnRoute(route[k], parts, file.name)
    {
      var current := 0;
      var currentPath := projectName;
      ghost var created := false;
      ProgressStart(nodes, projectName, file, parts);
      for i := 0 to |parts|
        invariant Progress(old(nodes), nodes, projectName, file, parts, i, current, created)
        invariant currentPath == FolderPath(projectName, parts[..i])
        invariant RouteProgress(old(route), nodes, route, parts, file.name)
      {
        var part := parts[i];
        FolderPathSnoc(projectName, parts, i);
        currentPath := currentPath + "/" + part;
        var next := FindChild(nodes, current, part);
        if next.None? {
          var node := if i == |parts| - 1 then NodeOf(file) else Folder(part, currentPath);
          StepCreate(old(nodes), nodes, projectName, file, parts, i, current, created, node);
          RouteStep(old(nodes), old(route), nodes, route, projectName, file, parts, i, current, created, node);
          route := route + [parts[..i] + [node.name]];
          var index := |nodes|;
          nodes := AddChild(nodes, current, node);
          next := Some(index);
          created := true;
        } else {
          StepFound(old(nodes), nodes, projectName, file, parts, i, current, created);
        }
        current := next.value;
      }
      ProgressDone(old(nodes), nodes, projectName, file, parts, current, created);
      RouteDone(old(route), nodes, route, parts, file.name);
    }
  }

  /** Every file among the first `n` whose name is its last path segment is found
      by walking its path. */
  ghost predicate FilesFound(nodes: seq<FileNode>, flatFiles: seq<FlatFile>, n: nat)
    requires n <= |flatFiles|
  {
    forall j :: 0 <= j < n && NamedByPath(flatFiles[j]) ==> Walk(nodes, 0, PathParts(flatFiles[j].path)).Some?
  }

  /** Inserting the next file keeps the earlier ones found and finds the new one. */
  lemma FilesFoundStep(before: seq<FileNode>, after: seq<FileNode>, flatFiles: seq<FlatFile>, i: nat)
    requires i < |flatFiles| && ChildrenInRange(before) && Extends(before, after)
    requires FilesFound(before, flatFiles, i)
    requires NamedByPath(flatFiles[i]) ==> Walk(after, 0, PathParts(flatFiles[i].path)).Some?
    ensures FilesFound(after, flatFiles, i + 1)
  {
    forall j | 0 <= j < i && NamedByPath(flatFiles[j])
      ensures Walk(after, 0, PathParts(flatFiles[j].path)).Some?
    {
      WalkPersists(before, after, 0, PathParts(flatFiles[j].path));
    }
  }

  /** No file's path is a prefix of another's, nor the same path. */
  ghost predicate PathsPrefixFree(flatFiles: seq<FlatFile>)
  {
    forall j, k :: 0 <= j < |flatFiles| && 0 <= k < |flatFiles| && j != k ==>
                     !(PathParts(flatFiles[j].path) <= PathParts(flatFiles[k].path))
  }

  /** Walking `parts` from the root reaches a node carrying the file's entry. */
  ghost predicate FileAt(nodes: seq<FileNode>, parts: seq<string>, f: FlatFile)
  {
    var w := Walk(nodes, 0, parts);
    w.Some? && w.value < |nodes| && SameEntry(nodes[w.value], NodeOf(f))
  }

  /** Each of the first `n` files is at the end of its path. */
  ghost predicate FilesPlaced(nodes: seq<FileNode>, flatFiles: seq<FlatFile>, n: nat)
    requires n <= |flatFiles|
  {
    forall j :: 0 <= j < n ==> FileAt(nodes, PathParts(flatFiles[j].path), flatFiles[j])
  }

  /** Every node but the root was reached along the path of one of the first `n` files. */
  ghost predicate RoutesOnPaths(route: seq<seq<string>>, flatFiles: seq<FlatFile>, n: nat)
    requires n <= |flatFiles|
  {
    forall k :: 0 < k < |route| ==> exists j :: 0 <= j < n && route[k] <= PathParts(flatFiles[j].path)
  }

  /** Before a file is inserted, its path cannot be walked when no path is a
      prefix of another: the walk would end at a node whose route is that path. */
  lemma PathNotYetWalked(nodes: seq<FileNode>, route: seq<seq<string>>, flatFiles: seq<FlatFile>, i: nat)
    requires i < |flatFiles| && Routed(nodes, route) && RoutesOnPaths(route, flatFiles, i)
    requires PathsPrefixFree(flatFiles) && NamedByPath(flatFiles[i])
    ensures Walk(nodes, 0, PathParts(flatFiles[i].path)).None?
  {
    var parts := PathParts(flatFiles[i].path);
    if Walk(nodes, 0, parts).Some? {
      WalkRoute(nodes, route, parts);
    }
  }

  /** Inserting the next file keeps the earlier routes on their paths and puts the new
      ones on its own. */
  lemma RoutesStep(before: seq<seq<string>>, after: seq<seq<string>>, flatFiles: seq<FlatFile>, i: nat)
    requires i < |flatFiles| && NamedByPath(flatFiles[i])
    requires RoutesOnPaths(before, flatFiles, i) && before <= after
    requires forall k :: |before| <= k < |after| ==> OnRoute(after[k], PathParts(flatFiles[i].path), flatFiles[i].name)
    ensures RoutesOnPaths(after, flatFiles, i + 1)
  {
    forall k | 0 < k < |after|
      ensures exists j :: 0 <= j < i + 1 && after[k] <= PathParts(flatFiles[j].path)
    {
      if k < |before| {
        assert after[k] == before[k];
        var j :| 0 <= j < i && before[k] <= PathParts(flatFiles[j].path);
      } else {
        OnRoutePrefix(after[k], PathParts(flatFiles[i].path), flatFiles[i].name);
      }
    }
  }

  /** Inserting the next file keeps the earlier ones in place, their entries unchanged. */
  lemma FilesPlacedStep(before: seq<FileNode>, after: seq<FileNode>, flatFiles: seq<FlatFile>, i: nat)
    requires i < |flatFiles| && ChildrenInRange(before) && Extends(before, after)
    requires FilesPlaced(before, flatFiles, i) && FileAt(after, PathParts(flatFiles[i].path), flatFiles[i])
    ensures FilesPlaced(after, flatFiles, i + 1)
  {
    forall j | 0 <= j < i
      ensures FileAt(after, PathParts(flatFiles[j].path), flatFiles[j])
    {
      var parts := PathParts(flatFiles[j].path);
      WalkPersists(before, after, 0, parts);
      assert SameEntry(before[Walk(before, 0, parts).value], after[Walk(before, 0, parts).value]);
    }
  }

  /** What building keeps: when every file is named by its path, every node lies
      on the path of a file inserted so far; when moreover no path is a prefix
      of another, every file inserted so far is at the end of its path. */
  ghost predicate Placed(nodes: seq<FileNode>, route: seq<seq<string>>, flatFiles: seq<FlatFile>, n: nat,
                         named: bool, apart: bool)
    requires n <= |flatFiles|
  {
    && (named ==> RoutesOnPaths(route, flatFiles, n))
    && (apart ==> FilesPlaced(nodes, flatFiles, n))
  }

  /** Before the next file is inserted its path cannot be walked, when the paths are apart. */
  lemma PlacedBefore(nodes: seq<FileNode>, route: seq<seq<string>>, flatFiles: seq<FlatFile>, i: nat,
                     named: bool, apart: bool)
    requires i < |flatFiles| && Routed(nodes, route) && Placed(nodes, route, flatFiles, i, named, apart)
    requires named == (forall j :: 0 <= j < |flatFiles| ==> NamedByPath(flatFiles[j]))
    requires apart == (named && PathsPrefixFree(flatFiles))
    ensures apart ==> Walk(nodes, 0, PathParts(flatFiles[i].path)).None?
  {
    if apart {
      PathNotYetWalked(nodes, route, flatFiles, i);
    }
  }

  /** Inserting the next file keeps what building promises. */
  lemma PlacedStep(before: seq<FileNode>, after: seq<FileNode>, beforeRoute: seq<seq<string>>,
                   afterRoute: seq<seq<string>>, flatFiles: seq<FlatFile>, i: nat, named: bool, apart: bool)
    requires i < |flatFiles| && ChildrenInRange(before) && Extends(before, after)
    requires Placed(before, beforeRoute, flatFiles, i, named, apart)
    requires named == (forall j :: 0 <= j < |flatFiles| ==> NamedByPath(flatFiles[j]))
    requires apart == (named && PathsPrefixFree(flatFiles))
    requires beforeRoute <= afterRoute
    requires forall k :: |beforeRoute| <= k < |afterRoute| ==>
               OnRoute(afterRoute[k], PathParts(flatFiles[i].path), flatFiles[i].name)
    requires apart ==> FileAt(after, PathParts(flatFiles[i].path), flatFiles[i])
    ensures Placed(after, afterRoute, flatFiles, i + 1, named, apart)
  {
    if named {
      RoutesStep(beforeRoute, afterRoute, flatFiles, i);
    }
    if apart {
      FilesPlacedStep(before, after, flatFiles, i);
    }
  }

  /** `buildTree`: the root, then every flat file inserted in order. */
  method BuildTree(flatFiles: seq<FlatFile>, projectName: string) returns (tree: Tree)
    ensures fresh(tree) && tree.Valid() && tree.projectName == projectName
    ensures forall j :: 0 <= j < |flatFiles| && NamedByPath(flatFiles[j]) ==>
              Walk(tree.nodes, 0, PathParts(flatFiles[j].path)).Some?
    ensures (forall j :: 0 <= j < |flatFiles| ==> NamedByPath(flatFiles[j])) ==> SiblingsDistinct(tree.nodes)
    // when no path is a prefix of another, each file's path leads to that file
    ensures (forall j :: 0 <= j < |flatFiles| ==> NamedByPath(flatFiles[j])) && PathsPrefixFree(flatFiles) ==>
              forall j :: 0 <= j < |flatFiles| ==> FileAt(tree.nodes, PathParts(flatFiles[j].path), flatFiles[j])
  {
    ghost var named := forall j :: 0 <= j < |flatFiles| ==> NamedByPath(flatFiles[j]);
    ghost var apart := named && PathsPrefixFree(flatFiles);
    tree := new Tree(projectName);
    for i := 0 to |flatFiles|
      invariant tree.Valid() && tree.projectName == projectName
      invariant FilesFound(tree.nodes, flatFiles, i)
      invariant (forall j :: 0 <= j < i ==> NamedByPath(flatFiles[j])) ==> SiblingsDistinct(tree.nodes)
      invariant Placed(tree.nodes, tree.route, flatFiles, i, named, apart)
    {
      ghost var before, beforeRoute := tree.nodes, tree.route;
      var parts := PathParts(flatFiles[i].path);
      PlacedBefore(before, beforeRoute, flatFiles, i, named, apart);
      tree.Insert(flatFiles[i], parts);
      FilesFoundStep(before, tree.nodes, flatFiles, i);
      PlacedStep(before, tree.nodes, beforeRoute, tree.route, flatFiles, i, named, apart);
    }
    assert FilesFound(tree.nodes, flatFiles, |flatFiles|);
    assert Placed(tree.nodes, tree.route, flatFiles, |flatFiles|, named, apart);
  }

  // ---------------------------------------------------------------------------
  // Language of a file
  // ---------------------------------------------------------------------------

  /** `detectLanguage`: the language named by the lower-cased file suffix. Only ASCII
      letters can lower-case onto the letters of these suffixes, so lower-casing
      the ASCII capitals decides every suffix test exactly. */
  function DetectLanguage(fileName: string): (lang: string)
    ensures lang in {"java", "xml", "sql", "yaml", "json", "text"}
  {
    var lower := Lower(fileName);
    if EndsWith(lower, ".java") then "java"
    else if EndsWith(lower, ".xml") then "xml"
    else if EndsWith(lower, ".sql") then "sql"
    else if EndsWith(lower, ".yml") || EndsWith(lower, ".yaml") then "yaml"
    else if EndsWith(lower, ".json") then "json"
    else "text"
  }

  /** The `k`-th character from the end of a text ending with `suffix`. */
  lemma EndsWithAt(s: string, suffix: string, k: nat)
    requires k < |suffix|
    ensures EndsWith(s, suffix) ==> s[|s| - 1 - k] == suffix[|suffix| - 1 - k]
  {
    if EndsWith(s, suffix) {
      assert s[|s| - |suffix|..][|suffix| - 1 - k] == s[|s| - 1 - k];
    }
  }

  /** The suffixes tested are mutually exclusive, so each language is named
      exactly when its suffix is present, whatever the order of the tests. */
  lemma DetectLanguageSuffixes(fileName: string)
    ensures var lang, lower := DetectLanguage(fileName), Lower(fileName);
            && (lang == "java" <==> EndsWith(lower, ".java"))
            && (lang == "xml" <==> EndsWith(lower, ".xml"))
            && (lang == "sql" <==> EndsWith(lower, ".sql"))
            && (lang == "yaml" <==> EndsWith(lower, ".yml") || EndsWith(lower, ".yaml"))
            && (lang == "json" <==> EndsWith(lower, ".json"))
            && (lang == "text" <==> !EndsWith(lower, ".java") && !EndsWith(lower, ".xml") && !EndsWith(lower, ".sql") &&
                                    !EndsWith(lower, ".yml") && !EndsWith(lower, ".yaml") && !EndsWith(lower, ".json"))
  {
    var lower := Lower(fileName);
    EndsWithAt(lower, ".java", 0);
    EndsWithAt(lower, ".xml", 0);
    EndsWithAt(lower, ".xml", 2);
    EndsWithAt(lower, ".sql", 0);
    EndsWithAt(lower, ".sql", 1);
    EndsWithAt(lower, ".yml", 0);
    EndsWithAt(lower, ".yml", 2);
    EndsWithAt(lower, ".yaml", 0);
    EndsWithAt(lower, ".yaml", 2);
    EndsWithAt(lower, ".json", 0);
  }

  /** The language does not depend on the case of the name. */
  lemma DetectLanguageIgnoresCase(fileName: string)
    ensures DetectLanguage(Lower(fileName)) == DetectLanguage(fileName)
  {
    assert Lower(Lower(fileName)) == Lower(fileName);
  }
}
