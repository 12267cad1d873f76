/**
 * The modal that lists the generated files: a tag naming each file's kind, the
 * files shown in a sorted copy ordered by lower-cased file name, a sidebar entry
 * per file labelled with the last segment of its path, and the selected tab,
 * which goes back to the first file whenever a new non-empty list arrives.
 */
module CodeGenerationModal {
  import opened Text
  import opened Types
  import ProjectTree

  // ---------------------------------------------------------------------------
  // File kind tags
  // ---------------------------------------------------------------------------

  /** The substrings looked for, in the order they are tried. */
  const Keywords: seq<string> := ["model", "repository", "controller", "dto"]

  /** The tag shown for each substring, position for position. */
  const Tags: seq<string> := ["Model", "Repository", "Controller", "DTO"]

  /** The tag shown when none of the substrings occurs. */
  const DefaultTag: string := "File"

  /** The tag of a file: the first keyword the name contains, case-sensitively. */
  function FileType(fileName: string): (tag: string)
    ensures tag in Tags || tag == DefaultTag
  {
    if Contains(fileName, "model") then "Model"
    else if Contains(fileName, "repository") then "Repository"
    else if Contains(fileName, "controller") then "Controller"
    else if Contains(fileName, "dto") then "DTO"
    else "File"
  }

  /** The position of the first keyword of `keywords` that the name contains. */
  function FirstHit(fileName: string, keywords: seq<string>): (r: Option<nat>)
    ensures r.Some? ==> r.value < |keywords| && Contains(fileName, keywords[r.value])
    ensures r.Some? ==> forall k :: 0 <= k < r.value ==> !Contains(fileName, keywords[k])
    ensures r.None? ==> forall k :: 0 <= k < |keywords| ==> !Contains(fileName, keywords[k])
  {
    if keywords == [] then None
    else if Contains(fileName, keywords[0]) then Some(0)
    else
      match FirstHit(fileName, keywords[1..])
      case None => None
      case Some(k) => Some(k + 1)
  }

  /** The tag is the one paired with the first keyword found, and the default
      tag exactly when no keyword occurs. */
  lemma FileTypeIsFirstHit(fileName: string)
    ensures FirstHit(fileName, Keywords).Some? ==>
              FileType(fileName) == Tags[FirstHit(fileName, Keywords).value]
    ensures FirstHit(fileName, Keywords).None? <==> FileType(fileName) == DefaultTag
  {
    assert Keywords[0] == "model" && Keywords[1] == "repository";
    assert Keywords[2] == "controller" && Keywords[3] == "dto";
  }

  /** A name containing several keywords takes the tag of the earliest in the
      list, whatever their positions in the name. */
  lemma FileTypeModelFirst(x: string, y: string)
    ensures FileType(x + "dto" + y + "model") == "Model"
  {
    var s := x + "dto" + y + "model";
    assert OccursAt(s, "model", |s| - 5);
  }

  // ---------------------------------------------------------------------------
  // The sort order
  // ---------------------------------------------------------------------------

  /** JavaScript's `<` on strings: lexicographic on characters, a proper prefix
      coming first. */
  predicate LexLess(a: string, b: string)
    decreases |a|
  {
    if a == [] then b != []
    else if b == [] then false
    else if a[0] != b[0] then a[0] < b[0]
    else LexLess(a[1..], b[1..])
  }

  lemma {:induction false} LexLessIrreflexive(a: string)
    ensures !LexLess(a, a)
    decreases |a|
  {
    if a != [] {
      LexLessIrreflexive(a[1..]);
    }
  }

  /** Of two different strings exactly one is less than the other. */
  lemma {:induction false} LexLessTrichotomy(a: string, b: string)
    ensures a == b || LexLess(a, b) || LexLess(b, a)
    ensures !(LexLess(a, b) && LexLess(b, a))
    decreases |a|
  {
    if a != [] && b != [] && a[0] == b[0] {
      LexLessTrichotomy(a[1..], b[1..]);
      if a[1..] == b[1..] {
        assert a == [a[0]] + a[1..] && b == [b[0]] + b[1..];
      }
    }
  }

  lemma {:induction false} LexLessTransitive(a: string, b: string, c: string)
    requires LexLess(a, b) && LexLess(b, c)
    ensures LexLess(a, c)
    decreases |a|
  {
    if a != [] && a[0] == b[0] && b[0] == c[0] {
      LexLessTransitive(a[1..], b[1..], c[1..]);
    }
  }

  /** The key a file is sorted by: its name in lower case. */
  function SortKey(f: GeneratedFile): string
  {
    Lower(f.fileName)
  }

  /** The comparator handed to the sort. */
  function Compare(x: GeneratedFile, y: GeneratedFile): (r: int)
    ensures r in {-1, 0, 1}
  {
    if LexLess(SortKey(x), SortKey(y)) then -1
    else if LexLess(SortKey(y), SortKey(x)) then 1
    else 0
  }

  /** The comparator is consistent: swapping the arguments negates it, it is zero
      exactly for files whose keys are equal, and "not after" is transitive. */
  lemma CompareConsistent(x: GeneratedFile, y: GeneratedFile, z: GeneratedFile)
    ensures Compare(y, x) == -Compare(x, y)
    ensures Compare(x, y) == 0 <==> SortKey(x) == SortKey(y)
    ensures Compare(x, y) <= 0 && Compare(y, z) <= 0 ==> Compare(x, z) <= 0
  {
    LexLessTrichotomy(SortKey(x), SortKey(y));
    LexLessTrichotomy(SortKey(y), SortKey(z));
    LexLessTrichotomy(SortKey(x), SortKey(z));
    LexLessIrreflexive(SortKey(x));
    if LexLess(SortKey(x), SortKey(y)) && LexLess(SortKey(y), SortKey(z)) {
      LexLessTransitive(SortKey(x), SortKey(y), SortKey(z));
    }
  }

  /** Adjacent files between `lo` and `hi` are in comparator order. */
  ghost predicate SortedBetween(s: seq<GeneratedFile>, lo: int, hi: int)
    requires 0 <= lo && hi <= |s|
  {
    forall k :: lo < k < hi ==> Compare(s[k - 1], s[k]) <= 0
  }

  ghost predicate Sorted(s: seq<GeneratedFile>)
  {
    SortedBetween(s, 0, |s|)
  }

  /** In a sorted sequence every file comes no later than every file after it. */
  lemma {:induction false} SortedPairwise(s: seq<GeneratedFile>, k: nat, l: nat)
    requires Sorted(s) && k <= l < |s|
    ensures Compare(s[k], s[l]) <= 0
    decreases l - k
  {
    if k == l {
      LexLessIrreflexive(SortKey(s[k]));
    } else {
      SortedPairwise(s, k, l - 1);
      CompareConsistent(s[k], s[l - 1], s[l]);
    }
  }

  /** The state of one insertion: the first `j` files and the files from `j` to
      `i` are each in order, and the file at `j` may move further left only past
      files that come after its right neighbour. */
  ghost predicate Inserting(s: seq<GeneratedFile>, i: int, j: int)
  {
    0 <= j <= i < |s|
    && SortedBetween(s, 0, j) && SortedBetween(s, j, i + 1)
    && (0 < j < i ==> Compare(s[j - 1], s[j + 1]) <= 0)
  }

  lemma InsertStart(s: seq<GeneratedFile>, i: int)
    requires 0 <= i < |s| && SortedBetween(s, 0, i)
    ensures Inserting(s, i, i)
  {
  }

  /** Swapping the file at `j` with its left neighbour, which comes after it. */
  lemma SwapStep(s: seq<GeneratedFile>, i: int, j: int)
    requires Inserting(s, i, j) && 0 < j && Compare(s[j - 1], s[j]) > 0
    ensures Inserting(s[j - 1 := s[j]][j := s[j - 1]], i, j - 1)
  {
    var t := s[j - 1 := s[j]][j := s[j - 1]];
    CompareConsistent(s[j - 1], s[j], s[j]);
    if 1 < j {
      CompareConsistent(s[j - 2], s[j - 1], s[j]);
    }
    forall k | j - 1 < k < i + 1
      ensures Compare(t[k - 1], t[k]) <= 0
    {
      if k == j + 1 {
        assert Compare(s[j - 1], s[j + 1]) <= 0;
      }
    }
  }

  lemma InsertDone(s: seq<GeneratedFile>, i: int, j: int)
    requires Inserting(s, i, j) && (j == 0 || Compare(s[j - 1], s[j]) <= 0)
    ensures SortedBetween(s, 0, i + 1)
  {
  }

  /** Moves the file at `i` left past every file that comes after it, so that
      the first `i + 1` files are in order. */
  method InsertAt(a: array<GeneratedFile>, i: nat)
    requires i < a.Length && SortedBetween(a[..], 0, i)
    modifies a
    ensures SortedBetween(a[..], 0, i + 1)
    ensures multiset(a[..]) == multiset(old(a[..]))
  {
    InsertStart(a[..], i);
    var j := i;
    while j > 0 && Compare(a[j - 1], a[j]) > 0
      invariant Inserting(a[..], i, j)
      invariant multiset(a[..]) == multiset(old(a[..]))
    {
      ghost var s := a[..];
      SwapStep(s, i, j);
      a[j - 1], a[j] := a[j], a[j - 1];
      assert a[..] == s[j - 1 := s[j]][j := s[j - 1]];
      j := j - 1;
    }
    InsertDone(a[..], i, j);
  }

  /** The sorted copy of the file list: a fresh array filled from the list and
      sorted in place by insertion; the list itself is left as it was. */
  method SortedFiles(files: seq<GeneratedFile>) returns (sorted: seq<GeneratedFile>)
    ensures Sorted(sorted)
    ensures multiset(sorted) == multiset(files)
  {
    var a := new GeneratedFile[|files|](k requires 0 <= k < |files| => files[k]);
    assert a[..] == files;
    for i := 0 to a.Length
      invariant SortedBetween(a[..], 0, i)
      invariant multiset(a[..]) == multiset(files)
    {
      InsertAt(a, i);
    }
    sorted := a[..];
  }

  // ---------------------------------------------------------------------------
  // Sidebar labels
  // ---------------------------------------------------------------------------

  /** The label of a sidebar entry: the last piece of the name split on '/'. */
  function SidebarLabel(fileName: string): (shown: string)
    ensures '/' !in shown
  {
    var parts := SplitOn(fileName, '/');
    parts[|parts| - 1]
  }

  lemma LabelAfterLastSlash(fileName: string, j: nat)
    requires j < |fileName| && fileName[j] == '/' && '/' !in fileName[j + 1..]
    ensures SidebarLabel(fileName) == fileName[j + 1..]
  {
    SplitOnLast(fileName, '/', j);
  }

  lemma CutAt(s: string, j: nat)
    requires j < |s| && s[j] == '/'
    ensures s == s[..j] + "/" + s[j + 1..]
  {
    assert s == s[..j] + s[j..];
    assert s[j..] == [s[j]] + s[j + 1..];
  }

  /** The label is the whole name when it has no '/', and otherwise what follows
      its last '/'; the same text the backend takes as a file's name. */
  lemma SidebarLabelIsLastSegment(fileName: string)
    ensures '/' !in fileName ==> SidebarLabel(fileName) == fileName
    ensures '/' in fileName ==>
              fileName == fileName[..LastIndexOfChar(fileName, '/')] + "/" + SidebarLabel(fileName)
    ensures SidebarLabel(fileName) == ProjectTree.FileNameOf(fileName)
  {
    if '/' in fileName {
      var j := LastIndexOfChar(fileName, '/');
      LabelAfterLastSlash(fileName, j);
      CutAt(fileName, j);
    } else {
      assert SplitOn(fileName, '/') == [fileName];
    }
  }

  // ---------------------------------------------------------------------------
  // The modal's state
  // ---------------------------------------------------------------------------

  /** One button of the sidebar. */
  datatype Entry = Entry(tag: string, caption: string, active: bool)

  /** What the main pane shows. */
  datatype Pane = Viewer(fileName: string, code: string) | Message(text: string)

  const NoFileSelected: string := "No file selected."

  function EntryOf(f: GeneratedFile, index: nat, activeTab: int): (e: Entry)
    ensures e.active <==> index == activeTab
  {
    Entry(FileType(f.fileName), SidebarLabel(f.fileName), index == activeTab)
  }

  function EntriesOf(sorted: seq<GeneratedFile>, activeTab: int): (r: seq<Entry>)
    ensures |r| == |sorted|
    ensures forall k :: 0 <= k < |r| ==> r[k] == EntryOf(sorted[k], k, activeTab)
  {
    seq(|sorted|, k requires 0 <= k < |sorted| => EntryOf(sorted[k], k, activeTab))
  }

  /** The selected file in the sorted list, or the message when the tab is out of
      range. */
  function PaneOf(sorted: seq<GeneratedFile>, activeTab: int): (p: Pane)
    ensures p.Message? <==> !(0 <= activeTab < |sorted|)
    ensures p.Message? ==> p.text == NoFileSelected
  {
    if 0 <= activeTab < |sorted| then Viewer(sorted[activeTab].fileName, sorted[activeTab].content)
    else Message(NoFileSelected)
  }

  class Modal {
    /** The list received from the page. */
    var files: seq<GeneratedFile>
    /** The copy shown, sorted by lower-cased name. */
    var sortedFiles: seq<GeneratedFile>
    /** The index, into the sorted copy, of the selected file. */
    var activeTab: int

    ghost predicate Valid()
      reads this
    {
      Sorted(sortedFiles) && multiset(sortedFiles) == multiset(files)
      && (files != [] ==> 0 <= activeTab < |files|)
    }

    /** Opening state: the first tab selected. */
    constructor (files: seq<GeneratedFile>)
      ensures Valid()
      ensures this.files == files && activeTab == 0
    {
      var sorted := SortedFiles(files);
      this.files := files;
      sortedFiles := sorted;
      activeTab := 0;
    }

    /** A new list arrives: the sorted copy is rebuilt, and the selection goes
        back to the first file unless the new list is empty. */
    method FilesChanged(newFiles: seq<GeneratedFile>)
      requires Valid()
      modifies this
      ensures Valid()
      ensures files == newFiles
      ensures activeTab == if newFiles != [] then 0 else old(activeTab)
    {
      files := newFiles;
      sortedFiles := SortedFiles(newFiles);
      if |newFiles| > 0 {
        activeTab := 0;
      }
    }

    /** A click on the sidebar entry at `index`. */
    method SelectTab(index: nat)
      requires Valid() && index < |sortedFiles|
      modifies this
      ensures Valid()
      ensures activeTab == index
      ensures files == old(files) && sortedFiles == old(sortedFiles)
    {
      activeTab := index;
    }

    /** The sidebar: one entry per file of the sorted copy. */
    function Sidebar(): (r: seq<Entry>)
      reads this
    {
      EntriesOf(sortedFiles, activeTab)
    }

    /** The main pane, or nothing while the modal is closed. */
    function Content(isOpen: bool): (r: Option<Pane>)
      reads this
      ensures r.None? <==> !isOpen
    {
      if isOpen then Some(PaneOf(sortedFiles, activeTab)) else None
    }

    /** With files to show, exactly one sidebar entry is highlighted and the pane
        shows that entry's file, one of the files received; with none, the pane
        shows the message. */
    lemma ShowsSelected(isOpen: bool)
      requires Valid() && isOpen
      ensures files != [] ==>
                exists k :: 0 <= k < |Sidebar()| && Sidebar()[k].active
                  && (forall l :: 0 <= l < |Sidebar()| && Sidebar()[l].active ==> l == k)
                  && Content(isOpen) == Some(Viewer(sortedFiles[k].fileName, sortedFiles[k].content))
                  && sortedFiles[k] in multiset(files)
      ensures files == [] ==> Content(isOpen) == Some(Message(NoFileSelected))
    {
      if files != [] {
        assert |sortedFiles| == |files| by {
          assert |multiset(sortedFiles)| == |multiset(files)|;
        }
        var k := activeTab;
        assert Sidebar()[k].active;
        assert sortedFiles[k] in multiset(sortedFiles);
      } else {
        assert |sortedFiles| == |multiset(sortedFiles)|;
      }
    }
  }
}
