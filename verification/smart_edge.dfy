/**
 * The diagram's adaptive edge: which side of each table box an edge leaves and
 * enters (the side facing the other box, horizontal when the centres are further
 * apart horizontally than vertically), and the point on each box where the edge
 * attaches (the middle of the chosen side).
 *
 * The path drawn between the two points belongs to the diagram library and is not
 * part of this model.
 */
module SmartEdge {
  import opened Types
  import opened SchemaGraph

  datatype Side = Right | Left | Bottom | Top

  /** What the edge needs of a node: its top-left position and its measured size,
      which may be absent before the node is first measured. */
  datatype Box = Box(position: Point, width: Option<real>, height: Option<real>)

  /** The size used for a box, `size || fallback`: an absent or zero size falls back. */
  function SizeOr(size: Option<real>, fallback: real): (r: real)
    ensures size.Some? && size.value != 0.0 ==> r == size.value
    ensures size.None? || size.value == 0.0 ==> r == fallback
  {
    if size.None? || size.value == 0.0 then fallback else size.value
  }

  function Width(b: Box): real
  {
    SizeOr(b.width, 280.0)
  }

  function Height(b: Box): real
  {
    SizeOr(b.height, 200.0)
  }

  function Abs(x: real): real
  {
    if x < 0.0 then -x else x
  }

  function Opposite(side: Side): Side
  {
    match side
    case Right => Left
    case Left => Right
    case Bottom => Top
    case Top => Bottom
  }

  /** `getSmartPositions`: the sides an edge leaves the source and enters the target. */
  function SmartSides(source: Point, target: Point): (r: (Side, Side))
    ensures r.1 == Opposite(r.0)
    ensures r.0 == Right ==> target.x > source.x
    ensures r.0 == Left ==> target.x < source.x
    ensures r.0 == Bottom ==> target.y > source.y
    ensures r.0 == Top ==> target.y <= source.y
    ensures (r.0 == Right || r.0 == Left) <==> Abs(target.x - source.x) > Abs(target.y - source.y)
  {
    var dx := target.x - source.x;
    var dy := target.y - source.y;
    if Abs(dx) > Abs(dy) then
      if dx > 0.0 then (Right, Left) else (Left, Right)
    else
      if dy > 0.0 then (Bottom, Top) else (Top, Bottom)
  }

  /** Seen from the other end the choice is mirrored, except for two boxes with the
      same centre, which are joined top to bottom whichever is the source. */
  lemma SmartSidesSwap(source: Point, target: Point)
    ensures source != target ==> SmartSides(target, source) == (SmartSides(source, target).1, SmartSides(source, target).0)
    ensures source == target ==> SmartSides(target, source) == SmartSides(source, target) == (Top, Bottom)
  {
  }

  /** The centre of a box of the size the edge uses. */
  function Centre(b: Box): Point
  {
    Point(b.position.x + Width(b) / 2.0, b.position.y + Height(b) / 2.0)
  }

  /** The switch over the chosen side: the middle of that side of the box. */
  function Attachment(b: Box, side: Side): (p: Point)
    ensures side == Right ==> p == Point(b.position.x + Width(b), Centre(b).y)
    ensures side == Left ==> p == Point(b.position.x, Centre(b).y)
    ensures side == Bottom ==> p == Point(Centre(b).x, b.position.y + Height(b))
    ensures side == Top ==> p == Point(Centre(b).x, b.position.y)
  {
    var c := Centre(b);
    match side
    case Right => c.(x := b.position.x + Width(b))
    case Left => c.(x := b.position.x)
    case Bottom => c.(y := b.position.y + Height(b))
    case Top => c.(y := b.position.y)
  }

  /** For a box of positive size the attachment point lies on its border, half-way
      along the side, and opposite sides are mirror images through the centre. */
  lemma AttachmentOnBorder(b: Box, side: Side)
    requires Width(b) > 0.0 && Height(b) > 0.0
    ensures var p := Attachment(b, side);
            var q := Attachment(b, Opposite(side));
            var c := Centre(b);
            && b.position.x <= p.x <= b.position.x + Width(b)
            && b.position.y <= p.y <= b.position.y + Height(b)
            && (p.x == b.position.x || p.x == b.position.x + Width(b) || p.y == b.position.y || p.y == b.position.y + Height(b))
            && p.x + q.x == 2.0 * c.x && p.y + q.y == 2.0 * c.y
  {
  }

  /** What the edge is drawn from: the two attachment points and their sides. */
  datatype Route = Route(sourcePoint: Point, sourceSide: Side, targetPoint: Point, targetSide: Side)

  /** The edge's geometry, looked up by node id; nothing when either node is missing. */
  function EdgeRoute(nodes: map<string, Box>, source: string, target: string): (r: Option<Route>)
    ensures r.None? <==> source !in nodes || target !in nodes
    ensures r.Some? ==> r.value.targetSide == Opposite(r.value.sourceSide)
                        && r.value.sourcePoint == Attachment(nodes[source], r.value.sourceSide)
                        && r.value.targetPoint == Attachment(nodes[target], r.value.targetSide)
  {
    if source !in nodes || target !in nodes then None
    else
      var s, t := nodes[source], nodes[target];
      var sides := SmartSides(Centre(s), Centre(t));
      Some(Route(Attachment(s, sides.0), sides.0, Attachment(t, sides.1), sides.1))
  }

  /** The route leaves the source on the side facing the target's centre: a
      horizontal route when the centres are further apart across than down. */
  lemma RouteFacesTarget(nodes: map<string, Box>, source: string, target: string)
    requires source in nodes && target in nodes
    ensures var r := EdgeRoute(nodes, source, target).value;
            var cs, ct := Centre(nodes[source]), Centre(nodes[target]);
            && (r.sourceSide == Right ==> ct.x > cs.x)
            && (r.sourceSide == Left ==> ct.x < cs.x)
            && (r.sourceSide == Bottom ==> ct.y > cs.y)
            && (r.sourceSide == Top ==> ct.y <= cs.y)
  {
  }
}
