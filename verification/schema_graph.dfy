/**
 * The schema visualizer's projection of a parsed schema onto a diagram: the node
 * height estimate, one node per table and one edge per ref, the relation lookup
 * that picks an edge's cardinality label and end markers, the conversion of the
 * layout engine's node centres into top-left positions, the relation glyph of the
 * list view and the empty-schema placeholder.
 *
 * The layout engine itself is an input: a map from node id to the centre it chose.
 */
module SchemaGraph {
  import opened Text
  import opened Types
  import DbmlParser

  /** The drawn width of a table node. */
  const NodeWidth: int := 280
  /** The padding added to both dimensions of each node handed to the layout. */
  const LayoutPadding: int := 20
  /** The column count assumed for a name no table carries. */
  const DefaultColumnCount: int := 3

  datatype Point = Point(x: real, y: real)

  /** A diagram node: its id (the table name), its top-left position and its table. */
  datatype Node = Node(id: string, position: Point, table: Table)

  datatype Marker = CrowfootOne | CrowfootMany

  /** The cardinality label and the two end markers of an edge. */
  datatype Cardinality = Cardinality(labelText: string, markerStart: Marker, markerEnd: Marker)

  /** A diagram edge between two table nodes, with the two column names as its data. */
  datatype Edge = Edge(id: string, source: string, target: string, style: Cardinality,
                       fromColumn: string, toColumn: string)

  // ---------------------------------------------------------------------------
  // Node height
  // ---------------------------------------------------------------------------

  /** `tables.find(t => t.name === name)`: the first table with that name. */
  function FindTable(tables: seq<Table>, name: string): (r: Option<Table>)
    ensures r.None? <==> forall i :: 0 <= i < |tables| ==> tables[i].name != name
    ensures r.Some? ==> exists i :: 0 <= i < |tables| && tables[i] == r.value
                                    && r.value.name == name
                                    && forall j :: 0 <= j < i ==> tables[j].name != name
  {
    if tables == [] then None
    else if tables[0].name == name then Some(tables[0])
    else
      var r := FindTable(tables[1..], name);
      assert forall i :: 1 <= i < |tables| ==> tables[i] == tables[1..][i - 1];
      r
  }

  /** Header, one row per column of the first table with that name (three when
      there is none), and padding. */
  function EstimateNodeHeight(tables: seq<Table>, name: string): (h: int)
    ensures h >= 60 && (h - 60) % 36 == 0
  {
    var cols := match FindTable(tables, name)
                case Some(t) => |t.columns|
                case None => DefaultColumnCount;
    48 + cols * 36 + 12
  }

  /** The estimate counts the columns of the first table carrying the name. */
  lemma EstimateUsesFirstTable(tables: seq<Table>, name: string, i: nat)
    requires i < |tables| && tables[i].name == name
    requires forall j :: 0 <= j < i ==> tables[j].name != name
    ensures EstimateNodeHeight(tables, name) == 60 + 36 * |tables[i].columns|
  {
    var k :| 0 <= k < |tables| && tables[k] == FindTable(tables, name).value
             && forall j :: 0 <= j < k ==> tables[j].name != name;
    if k < i {
    } else if k > i {
    }
  }

  /** A name no table carries is drawn as if it had three columns. */
  lemma EstimateUnknownName(tables: seq<Table>, name: string)
    requires forall i :: 0 <= i < |tables| ==> tables[i].name != name
    ensures EstimateNodeHeight(tables, name) == 168
  {
  }

  // ---------------------------------------------------------------------------
  // Nodes and edges
  // ---------------------------------------------------------------------------

  /** `tables.map`: one node per table, id the table name, at the origin until laid out. */
  function BuildNodes(tables: seq<Table>): (nodes: seq<Node>)
    ensures |nodes| == |tables|
    ensures forall i :: 0 <= i < |nodes| ==> nodes[i].id == tables[i].name && nodes[i].table == tables[i]
    ensures forall i :: 0 <= i < |nodes| ==> nodes[i].position == Point(0.0, 0.0)
  {
    seq(|tables|, i requires 0 <= i < |tables| => Node(tables[i].name, Point(0.0, 0.0), tables[i]))
  }

  /** The if-chain over the relation text, `<>` first. */
  function RelationStyle(relation: string): (c: Cardinality)
    ensures c.markerStart == CrowfootMany <==> relation == "<>" || relation == "<"
    ensures c.markerEnd == CrowfootMany <==> relation == "<>" || relation == ">"
    ensures c.labelText == "M:N" <==> relation == "<>"
    ensures c.labelText == "1:1" <==> relation !in {"<>", ">", "<"}
  {
    if relation == "<>" then Cardinality("M:N", CrowfootMany, CrowfootMany)
    else if relation == ">" then Cardinality("1:N", CrowfootOne, CrowfootMany)
    else if relation == "<" then Cardinality("N:1", CrowfootMany, CrowfootOne)
    else Cardinality("1:1", CrowfootOne, CrowfootOne)
  }

  /** `"e" + index` as JavaScript writes it. */
  function EdgeId(index: nat): string
  {
    "e" + NatToString(index)
  }

  /** `refs.map((ref, index) => ...)`: one edge per ref, from its from-table to
      its to-table. */
  function BuildEdges(refs: seq<Ref>): (edges: seq<Edge>)
    ensures |edges| == |refs|
    ensures forall i :: 0 <= i < |edges| ==>
              && edges[i].id == EdgeId(i)
              && edges[i].source == refs[i].fromTable && edges[i].target == refs[i].toTable
              && edges[i].fromColumn == refs[i].fromColumn && edges[i].toColumn == refs[i].toColumn
              && edges[i].style == RelationStyle(refs[i].relation)
  {
    seq(|refs|, i requires 0 <= i < |refs| =>
      Edge(EdgeId(i), refs[i].fromTable, refs[i].toTable, RelationStyle(refs[i].relation),
           refs[i].fromColumn, refs[i].toColumn))
  }

  /** Edge ids never collide, so each ref keeps its own edge. */
  lemma EdgeIdsDistinct(refs: seq<Ref>, i: nat, j: nat)
    requires i < |refs| && j < |refs| && i != j
    ensures BuildEdges(refs)[i].id != BuildEdges(refs)[j].id
  {
    if EdgeId(i) == EdgeId(j) {
      assert NatToString(i) == EdgeId(i)[1..] == EdgeId(j)[1..] == NatToString(j);
      NatToStringInjective(i, j);
    }
  }

  /** No edge of a parsed schema is drawn many-to-many: the parser never yields `<>`. */
  lemma ParsedSchemaHasNoManyToMany(dbml: string, i: nat)
    requires i < |BuildEdges(DbmlParser.ParseDbmlSpec(dbml).refs)|
    ensures BuildEdges(DbmlParser.ParseDbmlSpec(dbml).refs)[i].style.labelText != "M:N"
  {
    DbmlParser.ParsedRefFromLine(dbml, i);
  }

  // ---------------------------------------------------------------------------
  // Layout positions
  // ---------------------------------------------------------------------------

  /** The height handed to the layout for a node. */
  function LayoutHeight(tables: seq<Table>, id: string): int
  {
    EstimateNodeHeight(tables, id) + LayoutPadding
  }

  /** `ns.map`: every node moves so that its padded box is centred on the centre
      the layout chose for its id; nothing else about it changes. */
  function ApplyLayout(nodes: seq<Node>, centres: map<string, Point>, tables: seq<Table>): (r: seq<Node>)
    requires forall i :: 0 <= i < |nodes| ==> nodes[i].id in centres
    ensures |r| == |nodes|
    ensures forall i :: 0 <= i < |r| ==> r[i].id == nodes[i].id && r[i].table == nodes[i].table
  {
    seq(|nodes|, i requires 0 <= i < |nodes| =>
      var c := centres[nodes[i].id];
      nodes[i].(position := Point(c.x - (NodeWidth + LayoutPadding) as real / 2.0,
                                  c.y - LayoutHeight(tables, nodes[i].id) as real / 2.0)))
  }

  /** The centre of a node's padded box, read back from its position. */
  function BoxCentre(n: Node, tables: seq<Table>): Point
  {
    Point(n.position.x + (NodeWidth + LayoutPadding) as real / 2.0,
          n.position.y + LayoutHeight(tables, n.id) as real / 2.0)
  }

  /** Reading the centre back from a laid-out node gives the centre the layout chose. */
  lemma LayoutCentresRoundTrip(nodes: seq<Node>, centres: map<string, Point>, tables: seq<Table>, i: nat)
    requires forall k :: 0 <= k < |nodes| ==> nodes[k].id in centres
    requires i < |nodes|
    ensures BoxCentre(ApplyLayout(nodes, centres, tables)[i], tables) == centres[nodes[i].id]
  {
  }

  /** Laying out is blind to earlier positions: laying out twice with the same
      centres is laying out once. */
  lemma ApplyLayoutIdempotent(nodes: seq<Node>, centres: map<string, Point>, tables: seq<Table>)
    requires forall k :: 0 <= k < |nodes| ==> nodes[k].id in centres
    ensures ApplyLayout(ApplyLayout(nodes, centres, tables), centres, tables) == ApplyLayout(nodes, centres, tables)
  {
  }

  // ---------------------------------------------------------------------------
  // List view
  // ---------------------------------------------------------------------------

  /** The arrow between the two column names in the relationship list. */
  function RelationGlyph(relation: string): string
  {
    if relation == ">" then "→" else if relation == "<" then "←" else "—"
  }

  /** The glyph and the edge label tell the same story: a right arrow for a
      one-to-many edge, a left arrow for many-to-one, a dash otherwise. */
  lemma GlyphMatchesLabel(relation: string)
    ensures RelationGlyph(relation) == "→" <==> RelationStyle(relation).labelText == "1:N"
    ensures RelationGlyph(relation) == "←" <==> RelationStyle(relation).labelText == "N:1"
  {
  }

  /** The placeholder replaces the views exactly when there is nothing to show. */
  predicate ShowPlaceholder(schema: ParsedSchema)
  {
    |schema.tables| == 0 && |schema.refs| == 0
  }

  /** Blank editor text shows the placeholder, and the placeholder shows only when
      the text holds no table block and no ref. */
  lemma PlaceholderExactlyForEmptySchema(dbml: string)
    ensures JsTrim(dbml) == "" ==> ShowPlaceholder(DbmlParser.ParseDbmlSpec(dbml))
    ensures ShowPlaceholder(DbmlParser.ParseDbmlSpec(dbml)) <==>
              DbmlParser.TableMatches(dbml, 0) == [] && DbmlParser.RefMatches(dbml, 0) == []
  {
    DbmlParser.BlankShortcutAgrees(dbml);
    DbmlParser.TablesOfLength(DbmlParser.TableMatches(dbml, 0));
    DbmlParser.RefsOfLength(DbmlParser.RefMatches(dbml, 0));
  }
}
