/**
 * `render_border`: a box drawn with absolute cursor moves, the four corners
 * first, then the top and bottom edge column by column (the top edge carrying
 * an optional centred title), then the left and right edges row by row.
 */
module Border {
  import opened Wrappers
  import opened Geometry
  import opened Terminal

  /** The seven-glyph table, in the order of the source's border lists. */
  datatype Glyphs = Glyphs(
    topLeft: string,
    horizontal: string,
    topRight: string,
    vertical: string,
    bottomLeft: string,
    bottomRight: string,
    bottomHorizontal: string)

  const Borders: Glyphs := Glyphs("╒", "═", "╕", "│", "╰", "╯", "─")
  const NoBorders: Glyphs := Glyphs(" ", " ", " ", " ", " ", " ", " ")

  /** The text laid over the top edge: the title padded by one space each side; Python treats `None` and "" alike as no title. */
  function Banner(title: Option<string>): (b: string)
    ensures b == "" <==> title.None? || title.value == ""
    ensures b != "" ==> |b| == |title.value| + 2 && b[0] == ' ' && b[|b| - 1] == ' ' && b[1..|b| - 1] == title.value
  {
    match title
    case None => ""
    case Some(t) => if t == "" then "" else " " + t + " "
  }

  /** The column from which the source starts writing the banner. */
  function TitleStart(lo: Point, hi: Point, banner: string): int {
    (hi.x - lo.x) / 2 + lo.x - |banner| / 2
  }

  /** The first column that receives a banner character: the start, moved right of the corner if needed. */
  function BannerColumn(lo: Point, start: int): int {
    Max(start, lo.x + 1)
  }

  /** What the top edge shows at column x once the banner has been laid from `BannerColumn`. */
  function TopCell(x: int, lo: Point, g: Glyphs, banner: string, start: int): string {
    var first := BannerColumn(lo, start);
    if first <= x < first + |banner| then [banner[x - first]] else g.horizontal
  }

  /** The number of banner characters the column loop has placed before reaching column x. */
  function Placed(x: int, lo: Point, banner: string, start: int): nat {
    Min(|banner|, Max(0, x - BannerColumn(lo, start)))
  }

  /**
   * The column loop of the source from column x to `hi.x - 1`: at each column
   * the top cell (a banner character while `x >= start` and characters remain,
   * the horizontal glyph otherwise) and then the bottom cell. `ti` is the
   * loop's `title_i`.
   */
  function Edges(x: int, lo: Point, hi: Point, g: Glyphs, banner: string, start: int, ti: nat): (f: Frame)
    ensures |f| == 2 * Max(0, hi.x - x)
    decreases hi.x - x
  {
    if x >= hi.x then []
    else
      var titled := |banner| > 0 && x >= start && ti < |banner|;
      var top := if titled then Put(x, lo.y, [banner[ti]]) else Put(x, lo.y, g.horizontal);
      [top, Put(x, hi.y, g.bottomHorizontal)]
        + Edges(x + 1, lo, hi, g, banner, start, if titled then ti + 1 else ti)
  }

  /** The row loop of the source from row y to `hi.y - 1`: left cell, then right cell. */
  function Sides(y: int, lo: Point, hi: Point, g: Glyphs): (f: Frame)
    ensures |f| == 2 * Max(0, hi.y - y)
    decreases hi.y - y
  {
    if y >= hi.y then []
    else [Put(lo.x, y, g.vertical), Put(hi.x, y, g.vertical)] + Sides(y + 1, lo, hi, g)
  }

  function Corners(lo: Point, hi: Point, g: Glyphs): Frame {
    [Put(lo.x, lo.y, g.topLeft), Put(hi.x, lo.y, g.topRight),
     Put(lo.x, hi.y, g.bottomLeft), Put(hi.x, hi.y, g.bottomRight)]
  }

  /** `render_border(_min, _max, borders, title)` as a frame. */
  function RenderBorder(lo: Point, hi: Point, g: Glyphs, title: Option<string>): (f: Frame)
    ensures |f| == 4 + 2 * Max(0, hi.x - lo.x - 1) + 2 * Max(0, hi.y - lo.y - 1)
  {
    Corners(lo, hi, g) + TopBottom(lo, hi, g, title) + Sides(lo.y + 1, lo, hi, g)
  }

  /** What the top edge shows at column x for a given title. */
  function TopGlyph(lo: Point, hi: Point, g: Glyphs, title: Option<string>, x: int): string {
    var banner := Banner(title);
    TopCell(x, lo, g, banner, TitleStart(lo, hi, banner))
  }

  /** The cells of the rectangle's outline. */
  predicate OnOutline(lo: Point, hi: Point, p: Point) {
    && lo.x <= p.x <= hi.x && lo.y <= p.y <= hi.y
    && (p.x == lo.x || p.x == hi.x || p.y == lo.y || p.y == hi.y)
  }

  /** The column loop writes only top and bottom cells of the columns from x on. */
  lemma {:induction false} EdgesDomain(x: int, lo: Point, hi: Point, g: Glyphs, banner: string, start: int, ti: nat)
    requires lo.y < hi.y
    ensures forall p :: p in Paint(Edges(x, lo, hi, g, banner, start, ti)) ==> x <= p.x < hi.x && (p.y == lo.y || p.y == hi.y)
    decreases hi.x - x
  {
    if x < hi.x {
      var titled := |banner| > 0 && x >= start && ti < |banner|;
      var top := if titled then Put(x, lo.y, [banner[ti]]) else Put(x, lo.y, g.horizontal);
      var ti' := if titled then ti + 1 else ti;
      var head := [top, Put(x, hi.y, g.bottomHorizontal)];
      var rest := Edges(x + 1, lo, hi, g, banner, start, ti');
      assert Edges(x, lo, hi, g, banner, start, ti) == head + rest;
      EdgesDomain(x + 1, lo, hi, g, banner, start, ti');
      PaintAppend(head, rest);
      PaintTwo(top, Put(x, hi.y, g.bottomHorizontal));
    }
  }

  /** The column loop leaves banner-or-horizontal cells on the top row and bottom glyphs on the bottom row, and nothing else. */
  lemma {:induction false} EdgesPaint(x: int, lo: Point, hi: Point, g: Glyphs, banner: string, start: int, ti: nat)
    requires lo.x < x && lo.y < hi.y
    requires ti == Placed(x, lo, banner, start)
    ensures var P := Paint(Edges(x, lo, hi, g, banner, start, ti));
      && (forall c :: x <= c < hi.x ==> Point(c, lo.y) in P && P[Point(c, lo.y)] == TopCell(c, lo, g, banner, start))
      && (forall c :: x <= c < hi.x ==> Point(c, hi.y) in P && P[Point(c, hi.y)] == g.bottomHorizontal)
      && (forall p :: p in P ==> x <= p.x < hi.x && (p.y == lo.y || p.y == hi.y))
    decreases hi.x - x
  {
    EdgesDomain(x, lo, hi, g, banner, start, ti);
    if x < hi.x {
      var titled := |banner| > 0 && x >= start && ti < |banner|;
      var top := if titled then Put(x, lo.y, [banner[ti]]) else Put(x, lo.y, g.horizontal);
      var ti' := if titled then ti + 1 else ti;
      var head := [top, Put(x, hi.y, g.bottomHorizontal)];
      var rest := Edges(x + 1, lo, hi, g, banner, start, ti');
      assert ti' == Placed(x + 1, lo, banner, start);
      assert top.msg == TopCell(x, lo, g, banner, start);
      EdgesPaint(x + 1, lo, hi, g, banner, start, ti');
      PaintAppend(head, rest);
      PaintTwo(top, Put(x, hi.y, g.bottomHorizontal));
      var H := Paint(head);
      var R := Paint(rest);
      var P := Paint(Edges(x, lo, hi, g, banner, start, ti));
      assert Edges(x, lo, hi, g, banner, start, ti) == head + rest;
      assert P == H + R;
      forall c | x <= c < hi.x
        ensures Point(c, lo.y) in P && P[Point(c, lo.y)] == TopCell(c, lo, g, banner, start)
      {
        if c == x {
          assert Point(c, lo.y) !in R;
        }
      }
      forall c | x <= c < hi.x
        ensures Point(c, hi.y) in P && P[Point(c, hi.y)] == g.bottomHorizontal
      {
        if c == x {
          assert Point(c, hi.y) !in R;
        }
      }
    }
  }

  /** The row loop leaves the vertical glyph at both sides of every row it visits, and nothing else. */
  lemma {:induction false} SidesPaint(y: int, lo: Point, hi: Point, g: Glyphs)
    requires lo.x < hi.x
    ensures var P := Paint(Sides(y, lo, hi, g));
      && (forall r :: y <= r < hi.y ==> Point(lo.x, r) in P && P[Point(lo.x, r)] == g.vertical)
      && (forall r :: y <= r < hi.y ==> Point(hi.x, r) in P && P[Point(hi.x, r)] == g.vertical)
      && (forall p :: p in P ==> y <= p.y < hi.y && (p.x == lo.x || p.x == hi.x))
    decreases hi.y - y
  {
    if y < hi.y {
      var head := [Put(lo.x, y, g.vertical), Put(hi.x, y, g.vertical)];
      SidesPaint(y + 1, lo, hi, g);
      PaintAppend(head, Sides(y + 1, lo, hi, g));
      PaintTwo(head[0], head[1]);
    }
  }

  /** The four corner cells, distinct when min < max on both axes. */
  lemma CornersPaint(lo: Point, hi: Point, g: Glyphs)
    requires lo.x < hi.x && lo.y < hi.y
    ensures Paint(Corners(lo, hi, g)) == map[Point(lo.x, lo.y) := g.topLeft, Point(hi.x, lo.y) := g.topRight,
                                             Point(lo.x, hi.y) := g.bottomLeft, Point(hi.x, hi.y) := g.bottomRight]
  {
    var C := Corners(lo, hi, g);
    assert C == [C[0], C[1]] + [C[2], C[3]];
    PaintTwo(C[0], C[1]);
    PaintTwo(C[2], C[3]);
    PaintAppend([C[0], C[1]], [C[2], C[3]]);
  }

  /** The column loop's frame for a titled border. */
  function TopBottom(lo: Point, hi: Point, g: Glyphs, title: Option<string>): Frame {
    Edges(lo.x + 1, lo, hi, g, Banner(title), TitleStart(lo, hi, Banner(title)), 0)
  }

  /** The border's screen is the corners', overlaid by the edges', overlaid by the sides'. */
  lemma BorderLayers(lo: Point, hi: Point, g: Glyphs, title: Option<string>)
    ensures Paint(RenderBorder(lo, hi, g, title))
      == Paint(Corners(lo, hi, g)) + Paint(TopBottom(lo, hi, g, title)) + Paint(Sides(lo.y + 1, lo, hi, g))
  {
    var C := Corners(lo, hi, g);
    var E := TopBottom(lo, hi, g, title);
    var S := Sides(lo.y + 1, lo, hi, g);
    assert RenderBorder(lo, hi, g, title) == C + E + S;
    PaintAppend(C + E, S);
    PaintAppend(C, E);
  }

  /** The edge layer of a border with min < max on both axes: top glyphs above, bottom glyphs below, nothing else. */
  lemma TopBottomPaint(lo: Point, hi: Point, g: Glyphs, title: Option<string>)
    requires lo.x < hi.x && lo.y < hi.y
    ensures forall c :: lo.x < c < hi.x ==>
      Point(c, lo.y) in Paint(TopBottom(lo, hi, g, title)) && Paint(TopBottom(lo, hi, g, title))[Point(c, lo.y)] == TopGlyph(lo, hi, g, title, c)
    ensures forall c :: lo.x < c < hi.x ==>
      Point(c, hi.y) in Paint(TopBottom(lo, hi, g, title)) && Paint(TopBottom(lo, hi, g, title))[Point(c, hi.y)] == g.bottomHorizontal
    ensures forall p :: p in Paint(TopBottom(lo, hi, g, title)) ==> lo.x < p.x < hi.x && (p.y == lo.y || p.y == hi.y)
  {
    var banner := Banner(title);
    var start := TitleStart(lo, hi, banner);
    EdgesPaint(lo.x + 1, lo, hi, g, banner, start, 0);
    assert forall c :: TopGlyph(lo, hi, g, title, c) == TopCell(c, lo, g, banner, start);
  }

  /** The side layer of a border with min < max on both axes: the vertical glyph on both sides of every inner row, nothing else. */
  lemma SidesLayer(lo: Point, hi: Point, g: Glyphs)
    requires lo.x < hi.x && lo.y < hi.y
    ensures forall r :: lo.y < r < hi.y ==>
      Point(lo.x, r) in Paint(Sides(lo.y + 1, lo, hi, g)) && Paint(Sides(lo.y + 1, lo, hi, g))[Point(lo.x, r)] == g.vertical
    ensures forall r :: lo.y < r < hi.y ==>
      Point(hi.x, r) in Paint(Sides(lo.y + 1, lo, hi, g)) && Paint(Sides(lo.y + 1, lo, hi, g))[Point(hi.x, r)] == g.vertical
    ensures forall p :: p in Paint(Sides(lo.y + 1, lo, hi, g)) ==> lo.y < p.y < hi.y && (p.x == lo.x || p.x == hi.x)
  {
    SidesPaint(lo.y + 1, lo, hi, g);
  }

  /** The border writes exactly the cells of the outline. */
  lemma BorderCovers(lo: Point, hi: Point, g: Glyphs, title: Option<string>)
    requires lo.x < hi.x && lo.y < hi.y
    ensures forall p :: p in Paint(RenderBorder(lo, hi, g, title)) <==> OnOutline(lo, hi, p)
  {
    var PC := Paint(Corners(lo, hi, g));
    var PE := Paint(TopBottom(lo, hi, g, title));
    var PS := Paint(Sides(lo.y + 1, lo, hi, g));
    BorderLayers(lo, hi, g, title);
    TopBottomPaint(lo, hi, g, title);
    SidesLayer(lo, hi, g);
    CornersPaint(lo, hi, g);
    assert forall p :: p in PC <==> p.x in {lo.x, hi.x} && p.y in {lo.y, hi.y};
    OverlayOutline(lo, hi, PC, PE, PS);
  }

  /** Neither the edges nor the sides reach a corner, so the corner glyphs stay. */
  lemma BorderCorners(lo: Point, hi: Point, g: Glyphs, title: Option<string>)
    requires lo.x < hi.x && lo.y < hi.y
    ensures Point(lo.x, lo.y) in Paint(RenderBorder(lo, hi, g, title))
      && Paint(RenderBorder(lo, hi, g, title))[Point(lo.x, lo.y)] == g.topLeft
    ensures Point(hi.x, lo.y) in Paint(RenderBorder(lo, hi, g, title))
      && Paint(RenderBorder(lo, hi, g, title))[Point(hi.x, lo.y)] == g.topRight
    ensures Point(lo.x, hi.y) in Paint(RenderBorder(lo, hi, g, title))
      && Paint(RenderBorder(lo, hi, g, title))[Point(lo.x, hi.y)] == g.bottomLeft
    ensures Point(hi.x, hi.y) in Paint(RenderBorder(lo, hi, g, title))
      && Paint(RenderBorder(lo, hi, g, title))[Point(hi.x, hi.y)] == g.bottomRight
  {
    var PE := Paint(TopBottom(lo, hi, g, title));
    var PS := Paint(Sides(lo.y + 1, lo, hi, g));
    BorderLayers(lo, hi, g, title);
    TopBottomPaint(lo, hi, g, title);
    SidesLayer(lo, hi, g);
    CornersPaint(lo, hi, g);
    assert Point(lo.x, lo.y) !in PE && Point(lo.x, lo.y) !in PS;
    assert Point(hi.x, lo.y) !in PE && Point(hi.x, lo.y) !in PS;
    assert Point(lo.x, hi.y) !in PE && Point(lo.x, hi.y) !in PS;
    assert Point(hi.x, hi.y) !in PE && Point(hi.x, hi.y) !in PS;
  }

  /**
   * For a rectangle with min < max on both axes, the border writes exactly the
   * cells of the outline and leaves the four corner glyphs at the corners.
   */
  lemma BorderOutline(lo: Point, hi: Point, g: Glyphs, title: Option<string>)
    requires lo.x < hi.x && lo.y < hi.y
    ensures forall p :: p in Paint(RenderBorder(lo, hi, g, title)) <==> OnOutline(lo, hi, p)
    ensures Point(lo.x, lo.y) in Paint(RenderBorder(lo, hi, g, title))
      && Paint(RenderBorder(lo, hi, g, title))[Point(lo.x, lo.y)] == g.topLeft
    ensures Point(hi.x, lo.y) in Paint(RenderBorder(lo, hi, g, title))
      && Paint(RenderBorder(lo, hi, g, title))[Point(hi.x, lo.y)] == g.topRight
    ensures Point(lo.x, hi.y) in Paint(RenderBorder(lo, hi, g, title))
      && Paint(RenderBorder(lo, hi, g, title))[Point(lo.x, hi.y)] == g.bottomLeft
    ensures Point(hi.x, hi.y) in Paint(RenderBorder(lo, hi, g, title))
      && Paint(RenderBorder(lo, hi, g, title))[Point(hi.x, hi.y)] == g.bottomRight
  {
    BorderCovers(lo, hi, g, title);
    BorderCorners(lo, hi, g, title);
  }

  /**
   * For a rectangle with min < max on both axes, every inner column shows its
   * top glyph (a banner character or the horizontal glyph) on the top row and
   * the bottom glyph on the bottom row, and every inner row shows the vertical
   * glyph at both sides.
   */
  lemma BorderEdges(lo: Point, hi: Point, g: Glyphs, title: Option<string>)
    requires lo.x < hi.x && lo.y < hi.y
    ensures forall c :: lo.x < c < hi.x ==>
      Point(c, lo.y) in Paint(RenderBorder(lo, hi, g, title)) && Paint(RenderBorder(lo, hi, g, title))[Point(c, lo.y)] == TopGlyph(lo, hi, g, title, c)
    ensures forall c :: lo.x < c < hi.x ==>
      Point(c, hi.y) in Paint(RenderBorder(lo, hi, g, title)) && Paint(RenderBorder(lo, hi, g, title))[Point(c, hi.y)] == g.bottomHorizontal
    ensures forall r :: lo.y < r < hi.y ==>
      Point(lo.x, r) in Paint(RenderBorder(lo, hi, g, title)) && Paint(RenderBorder(lo, hi, g, title))[Point(lo.x, r)] == g.vertical
    ensures forall r :: lo.y < r < hi.y ==>
      Point(hi.x, r) in Paint(RenderBorder(lo, hi, g, title)) && Paint(RenderBorder(lo, hi, g, title))[Point(hi.x, r)] == g.vertical
  {
    var PC := Paint(Corners(lo, hi, g));
    var PE := Paint(TopBottom(lo, hi, g, title));
    var PS := Paint(Sides(lo.y + 1, lo, hi, g));
    BorderLayers(lo, hi, g, title);
    TopBottomPaint(lo, hi, g, title);
    SidesLayer(lo, hi, g);
    CornersPaint(lo, hi, g);
    OverlayOutline(lo, hi, PC, PE, PS);
  }

  /** The set-level argument behind `BorderOutline` and `BorderEdges`, stated for any three layers shaped like the border's. */
  lemma OverlayOutline(lo: Point, hi: Point, PC: map<Point, string>, PE: map<Point, string>, PS: map<Point, string>)
    requires lo.x < hi.x && lo.y < hi.y
    requires forall p :: p in PC <==> p.x in {lo.x, hi.x} && p.y in {lo.y, hi.y}
    requires forall c :: lo.x < c < hi.x ==> Point(c, lo.y) in PE && Point(c, hi.y) in PE
    requires forall p :: p in PE ==> lo.x < p.x < hi.x && (p.y == lo.y || p.y == hi.y)
    requires forall r :: lo.y < r < hi.y ==> Point(lo.x, r) in PS && Point(hi.x, r) in PS
    requires forall p :: p in PS ==> lo.y < p.y < hi.y && (p.x == lo.x || p.x == hi.x)
    ensures var P := PC + PE + PS;
      && (forall p :: p in P <==> OnOutline(lo, hi, p))
      && (forall p :: p in PC ==> P[p] == PC[p])
      && (forall p :: p in PE ==> P[p] == PE[p])
  {
    var P := PC + PE + PS;
    forall p
      ensures p in P <==> OnOutline(lo, hi, p)
    {
      if OnOutline(lo, hi, p) {
        if (p.y == lo.y || p.y == hi.y) && lo.x < p.x < hi.x {
          assert p in PE;
        } else if lo.y < p.y < hi.y {
          assert p in PS;
        } else {
          assert p in PC;
        }
      }
    }
  }

  /**
   * When the padded title fits strictly between the corners, the top row shows
   * it whole from `TitleStart`, and the plain cells right of it outnumber those
   * left of it by zero, one or two.
   */
  lemma BannerCentred(lo: Point, hi: Point, g: Glyphs, t: string)
    requires t != ""
    requires lo.x < TitleStart(lo, hi, Banner(Some(t)))
    requires TitleStart(lo, hi, Banner(Some(t))) + |Banner(Some(t))| <= hi.x
    ensures var b := Banner(Some(t));
      var s := TitleStart(lo, hi, b);
      && (forall c :: s <= c < s + |b| ==> TopGlyph(lo, hi, g, Some(t), c) == [b[c - s]])
      && (forall c :: lo.x < c < s || s + |b| <= c < hi.x ==> TopGlyph(lo, hi, g, Some(t), c) == g.horizontal)
      && 0 <= (hi.x - (s + |b|)) - (s - (lo.x + 1)) <= 2
  {
  }

  /** The worked case: a box from (1,1) to (10,5) titled "X" shows " X " in columns 4 to 6 of row 1. */
  lemma BorderTitleExample(lo: Point, hi: Point, g: Glyphs)
    requires lo == Point(1, 1) && hi == Point(10, 5) && g == Borders
    ensures var P := Paint(RenderBorder(lo, hi, g, Some("X")));
      && Point(3, 1) in P && P[Point(3, 1)] == "═"
      && Point(4, 1) in P && P[Point(4, 1)] == " "
      && Point(5, 1) in P && P[Point(5, 1)] == "X"
      && Point(6, 1) in P && P[Point(6, 1)] == " "
      && Point(7, 1) in P && P[Point(7, 1)] == "═"
  {
    var b := Banner(Some("X"));
    assert b == " X ";
    assert TitleStart(lo, hi, b) == 4;
    BorderEdges(lo, hi, g, Some("X"));
    assert TopGlyph(lo, hi, g, Some("X"), 3) == "═";
    assert TopGlyph(lo, hi, g, Some("X"), 4) == " ";
    assert TopGlyph(lo, hi, g, Some("X"), 5) == "X";
    assert TopGlyph(lo, hi, g, Some("X"), 6) == " ";
    assert TopGlyph(lo, hi, g, Some("X"), 7) == "═";
  }
}
