/**
 * `Container.render`: the screen is cleared, the key footer is boxed along the
 * bottom three rows with its entries in equal slots, the accounts column is
 * boxed on the left (as wide as the longest handle needs), the posts fill the
 * rest above the footer, and an open modal is drawn last, on top.
 */
module Layout {
  import opened Wrappers
  import opened Geometry
  import opened Terminal
  import opened Border
  import opened Contents
  import opened Panels
  import opened Controller
  import Modals

  /** The accounts column width: room for the longest handle plus three cells, and never below the label's minimum. */
  function AccountsWidth(handles: seq<string>): (w: nat)
    ensures w >= MinAccountsWidth
    ensures forall k :: 0 <= k < |handles| ==> |handles[k]| + 3 <= w
    decreases |handles|
  {
    if |handles| == 0 then MinAccountsWidth
    else Max(|handles[0]| + 3, AccountsWidth(handles[1..]))
  }

  /** The width is attained: it is the minimum or some handle's length plus three. */
  lemma {:induction false} AccountsWidthAttained(handles: seq<string>)
    ensures AccountsWidth(handles) == MinAccountsWidth
         || exists k :: 0 <= k < |handles| && AccountsWidth(handles) == |handles[k]| + 3
    decreases |handles|
  {
    if |handles| > 0 && AccountsWidth(handles) != |handles[0]| + 3 {
      AccountsWidthAttained(handles[1..]);
      if AccountsWidth(handles) != MinAccountsWidth {
        var k :| 0 <= k < |handles[1..]| && AccountsWidth(handles[1..]) == |handles[1..][k]| + 3;
        assert handles[1..][k] == handles[k + 1];
      }
    }
  }

  /** The footer's slot width: the columns right of the left edge shared equally, rounded down. */
  function FooterSlot(lo: Point, hi: Point, n: nat): int
    requires n > 0
  {
    (hi.x - (lo.x + 1)) / n
  }

  /** The slots cover the footer's width except for fewer than n columns on the right. */
  lemma FooterSlotFloor(lo: Point, hi: Point, n: nat)
    requires n > 0
    ensures var s := FooterSlot(lo, hi, n);
      n * s <= hi.x - (lo.x + 1) < n * s + n
  {
    var a := hi.x - (lo.x + 1);
    assert a == n * (a / n) + a % n;
  }

  /** The footer loop: each entry in its slot from column x, on row y, bounded by row `maxY`. */
  function FooterRow(items: seq<Content>, x: int, slot: int, y: int, maxY: int): (r: Drawing)
    ensures |r.items| == |items|
    decreases |items|
  {
    if |items| == 0 then Drawing([], [])
    else
      var one := SlotAt(items[0], x, slot, y, maxY);
      var rest := FooterRow(items[1..], x + slot, slot, y, maxY);
      Drawing(one.frame + rest.frame, [one.content] + rest.items)
  }

  /** The render of one footer entry in the slot that starts at column x. */
  function SlotAt(c: Content, x: int, slot: int, y: int, maxY: int): Rendered {
    Contents.Render(c, Point(x, y), Point(x + slot, maxY))
  }

  /** Where the k-th slot starts when the first starts at x: the loop's column after k steps of `slot`. */
  function SlotStart(x: int, slot: int, k: nat): int
    decreases k
  {
    if k == 0 then x else SlotStart(x + slot, slot, k - 1)
  }

  /** The k-th slot starts k slot widths right of the first. */
  lemma {:induction false} SlotStartIs(x: int, slot: int, k: nat)
    ensures SlotStart(x, slot, k) == x + k * slot
    decreases k
  {
    if k > 0 {
      SlotStartIs(x + slot, slot, k - 1);
      assert (x + slot) + (k - 1) * slot == x + k * slot;
    }
  }

  /** The render of footer entry k, in the k-th slot. */
  function SlotRender(items: seq<Content>, k: nat, x: int, slot: int, y: int, maxY: int): Rendered
    requires k < |items|
  {
    SlotAt(items[k], SlotStart(x, slot, k), slot, y, maxY)
  }

  /** The entries' own commands, each in the slot after the previous one. */
  function FooterDrawn(items: seq<Content>, x: int, slot: int, y: int, maxY: int): (r: seq<Cmd>)
    ensures |r| == |items|
    decreases |items|
  {
    if |items| == 0 then []
    else [Drawn(items[0], SlotAt(items[0], x, slot, y, maxY))] + FooterDrawn(items[1..], x + slot, slot, y, maxY)
  }

  /** The footer's commands are exactly its entries' own commands. */
  lemma {:induction false} FooterPutsDrawn(items: seq<Content>, x: int, slot: int, y: int, maxY: int)
    ensures Puts(FooterRow(items, x, slot, y, maxY).frame) == FooterDrawn(items, x, slot, y, maxY)
    decreases |items|
  {
    if |items| > 0 {
      var one := SlotAt(items[0], x, slot, y, maxY);
      var rest := FooterRow(items[1..], x + slot, slot, y, maxY);
      FooterPutsDrawn(items[1..], x + slot, slot, y, maxY);
      PutsAppend(one.frame, rest.frame);
      RenderPuts(items[0], Point(x, y), Point(x + slot, maxY));
    }
  }

  /** Entry k's command is its render in the k-th slot. */
  lemma {:induction false} FooterDrawnAt(items: seq<Content>, x: int, slot: int, y: int, maxY: int, k: nat)
    requires k < |items|
    ensures FooterDrawn(items, x, slot, y, maxY)[k] == Drawn(items[k], SlotRender(items, k, x, slot, y, maxY))
    decreases k
  {
    if k > 0 {
      var rest := FooterDrawn(items[1..], x + slot, slot, y, maxY);
      FooterDrawnAt(items[1..], x + slot, slot, y, maxY, k - 1);
      assert FooterDrawn(items, x, slot, y, maxY)[k] == rest[k - 1];
      assert items[1..][k - 1] == items[k];
    }
  }

  /** Entry k of the footer is drawn as its own render in the k-th slot. */
  lemma FooterSlots(items: seq<Content>, x: int, slot: int, y: int, maxY: int)
    ensures |Puts(FooterRow(items, x, slot, y, maxY).frame)| == |items|
    ensures forall k :: 0 <= k < |items| ==>
      Puts(FooterRow(items, x, slot, y, maxY).frame)[k] == Drawn(items[k], SlotRender(items, k, x, slot, y, maxY))
  {
    FooterPutsDrawn(items, x, slot, y, maxY);
    forall k | 0 <= k < |items|
      ensures FooterDrawn(items, x, slot, y, maxY)[k] == Drawn(items[k], SlotRender(items, k, x, slot, y, maxY))
    {
      FooterDrawnAt(items, x, slot, y, maxY, k);
    }
  }

  /** The entries as their slots' renders leave them, each slot after the previous one. */
  function FooterItems(items: seq<Content>, x: int, slot: int, y: int, maxY: int): (r: seq<Content>)
    ensures |r| == |items|
    decreases |items|
  {
    if |items| == 0 then []
    else [SlotAt(items[0], x, slot, y, maxY).content] + FooterItems(items[1..], x + slot, slot, y, maxY)
  }

  /** The footer loop hands back exactly those entries. */
  lemma {:induction false} FooterRowItems(items: seq<Content>, x: int, slot: int, y: int, maxY: int)
    ensures FooterRow(items, x, slot, y, maxY).items == FooterItems(items, x, slot, y, maxY)
    decreases |items|
  {
    if |items| > 0 {
      FooterRowItems(items[1..], x + slot, slot, y, maxY);
    }
  }

  /** Entry k comes back as the render of the k-th slot left it. */
  lemma {:induction false} FooterItemsAt(items: seq<Content>, x: int, slot: int, y: int, maxY: int, k: nat)
    requires k < |items|
    ensures FooterItems(items, x, slot, y, maxY)[k] == SlotRender(items, k, x, slot, y, maxY).content
    decreases k
  {
    if k > 0 {
      var rest := FooterItems(items[1..], x + slot, slot, y, maxY);
      FooterItemsAt(items[1..], x + slot, slot, y, maxY, k - 1);
      assert FooterItems(items, x, slot, y, maxY)[k] == rest[k - 1];
      assert items[1..][k - 1] == items[k];
    }
  }

  /** Every footer entry comes back as its render left it: with its spinner advanced. */
  lemma FooterAdvances(items: seq<Content>, x: int, slot: int, y: int, maxY: int)
    ensures forall k :: 0 <= k < |items| ==>
      FooterRow(items, x, slot, y, maxY).items[k] == SlotRender(items, k, x, slot, y, maxY).content
  {
    FooterRowItems(items, x, slot, y, maxY);
    forall k | 0 <= k < |items|
      ensures FooterItems(items, x, slot, y, maxY)[k] == SlotRender(items, k, x, slot, y, maxY).content
    {
      FooterItemsAt(items, x, slot, y, maxY, k);
    }
  }

  /** The boxes of the screen between `lo` and `hi`, for an accounts column of width w. */
  function FooterMin(lo: Point, hi: Point): Point { Point(lo.x, hi.y - 2) }
  function AccountsMax(lo: Point, hi: Point, w: int): Point { Point(lo.x + w, hi.y - 3) }
  function PostsMin(lo: Point, w: int): Point { Point(lo.x + w + 1, lo.y) }
  function PostsMax(hi: Point): Point { Point(hi.x, hi.y - 3) }

  /** The accounts box's bottom-right corner for the dashboard's handles. */
  function AccountsEdge(d: Dashboard, lo: Point, hi: Point): Point {
    AccountsMax(lo, hi, AccountsWidth(Texts(d.accounts.items)))
  }

  /** Where the panels' items go: two columns in from the box's left edge and one row down; the posts also stop one cell inside. */
  function AccountsFrom(lo: Point): Point { Point(lo.x + 2, lo.y + 1) }
  function PostsFrom(lo: Point, w: int): Point { Point(PostsMin(lo, w).x + 2, PostsMin(lo, w).y + 1) }
  function PostsTo(hi: Point): Point { Point(PostsMax(hi).x - 1, PostsMax(hi).y - 1) }

  /** A composed screen: the frame and the dashboard with the spinners of the drawn items advanced. */
  datatype Composed = Composed(frame: Frame, dash: Dashboard)

  /** The layers of the screen, in drawing order. */
  datatype Layers = Layers(
    footerBox: Frame, footer: Drawing,
    accountsBox: Frame, accounts: Drawing,
    postsBox: Frame, posts: Drawing,
    modal: Frame)

  /** Each layer of the screen between `lo` and `hi`; the modal centres on a terminal of `cols` by `rows`. */
  function Layered(d: Dashboard, lo: Point, hi: Point, cols: nat, rows: nat): Layers {
    var w := AccountsWidth(Texts(d.accounts.items));
    var fmin := FooterMin(lo, hi);
    var footer := if |d.footer| > 0
      then FooterRow(d.footer, lo.x + 1, FooterSlot(lo, hi, |d.footer|), hi.y - 1, hi.y)
      else Drawing([], d.footer);
    var amax := AccountsEdge(d, lo, hi);
    var pmin := PostsMin(lo, w);
    var pmax := PostsMax(hi);
    Layers(
      RenderBorder(fmin, hi, Borders, Some(FooterTitle)), footer,
      RenderBorder(lo, amax, Borders, Some(d.accounts.title)),
      Panels.Render(d.accounts, AccountsFrom(lo), amax),
      RenderBorder(pmin, pmax, Borders, Some(d.posts.title)),
      Panels.Render(d.posts, PostsFrom(lo, w), PostsTo(hi)),
      if d.focus.OnModal? then Modals.Render(d.focus.modal, cols, rows) else [])
  }

  /**
   * `Container.render(_min, _max)`: clear the screen, then the footer box and
   * entries, the accounts box and items, the posts box and items, and the
   * modal if one is open. Rendering advances the spinners of what it draws.
   */
  function Compose(d: Dashboard, lo: Point, hi: Point, cols: nat, rows: nat): (r: Composed)
    ensures |r.dash.accounts.items| == |d.accounts.items| && |r.dash.posts.items| == |d.posts.items|
    ensures r.dash.(accounts := d.accounts, posts := d.posts, footer := d.footer) == d
  {
    var l := Layered(d, lo, hi, cols, rows);
    Composed(
      [Raw(ClearScreen)] + l.footerBox + l.footer.frame + l.accountsBox + l.accounts.frame
        + l.postsBox + l.posts.frame + l.modal,
      d.(footer := l.footer.items,
         accounts := d.accounts.(items := l.accounts.items),
         posts := d.posts.(items := l.posts.items)))
  }

  /** The main loop's render: from (1, 1) to the terminal size. */
  function Screen(d: Dashboard, cols: nat, rows: nat): Composed {
    Compose(d, Point(1, 1), Point(cols, rows), cols, rows)
  }

  /**
   * The accounts column: its box spans from `lo` to w columns right, where w
   * fits every shown handle plus three cells; item j sits at column
   * `lo.x + 2` on row `lo.y + 1 + j`, and the posts box starts the column
   * after the accounts box ends, so the two never share a cell.
   */
  lemma AccountsColumn(d: Dashboard, lo: Point, hi: Point, cols: nat, rows: nat)
    requires forall k :: 0 <= k < |d.accounts.items| ==> d.accounts.items[k].align == Left
    ensures forall k :: 0 <= k < |d.accounts.items| ==> lo.x + 2 + |d.accounts.items[k].text| < AccountsEdge(d, lo, hi).x
    ensures |Puts(Layered(d, lo, hi, cols, rows).accounts.frame)| == Shown(|d.accounts.items|, AccountsFrom(lo), AccountsEdge(d, lo, hi))
    ensures forall j :: 0 <= j < Shown(|d.accounts.items|, AccountsFrom(lo), AccountsEdge(d, lo, hi)) ==>
      && Puts(Layered(d, lo, hi, cols, rows).accounts.frame)[j].x == lo.x + 2
      && Puts(Layered(d, lo, hi, cols, rows).accounts.frame)[j].y == lo.y + 1 + j
    ensures PostsMin(lo, AccountsWidth(Texts(d.accounts.items))).x == AccountsEdge(d, lo, hi).x + 1
  {
    var amax := AccountsEdge(d, lo, hi);
    var plo := AccountsFrom(lo);
    var drawn := Panels.Render(d.accounts, plo, amax);
    assert Layered(d, lo, hi, cols, rows).accounts == drawn;
    RenderStacks(d.accounts, plo, amax);
    forall j | 0 <= j < Shown(|d.accounts.items|, plo, amax)
      ensures Puts(drawn.frame)[j].x == lo.x + 2
    {
      RenderPlacement(d.accounts.items[j], Point(plo.x, plo.y + j), amax);
    }
    forall k | 0 <= k < |d.accounts.items|
      ensures lo.x + 2 + |d.accounts.items[k].text| < amax.x
    {
      assert Texts(d.accounts.items)[k] == d.accounts.items[k].text;
    }
  }

  /**
   * With an open modal of at least 4 by 4 cells, the composed screen shows
   * the modal's buffer at its place and its corners, whatever lies beneath:
   * the modal is drawn last.
   */
  lemma ModalOnTop(d: Dashboard, lo: Point, hi: Point, cols: nat, rows: nat)
    requires d.focus.OnModal? && d.focus.modal.width >= 4 && d.focus.modal.height >= 4
    ensures var m := d.focus.modal;
      var P := Paint(Compose(d, lo, hi, cols, rows).frame);
      && Modals.BufferAt(m, cols, rows) in P && P[Modals.BufferAt(m, cols, rows)] == m.buffer
      && Modals.BoxMin(m, cols, rows) in P && P[Modals.BoxMin(m, cols, rows)] == Borders.topLeft
      && Modals.BoxMax(m, cols, rows) in P && P[Modals.BoxMax(m, cols, rows)] == Borders.bottomRight
  {
    var m := d.focus.modal;
    var l := Layered(d, lo, hi, cols, rows);
    var below := [Raw(ClearScreen)] + l.footerBox + l.footer.frame + l.accountsBox + l.accounts.frame
      + l.postsBox + l.posts.frame;
    assert Compose(d, lo, hi, cols, rows).frame == below + Modals.Render(m, cols, rows);
    PaintAppend(below, Modals.Render(m, cols, rows));
    Modals.RenderShowsBuffer(m, cols, rows);
  }

  /** Rendering changes only the spinners of the shown items: texts, alignment, focus flags and selections stay. */
  lemma ComposeKeepsState(d: Dashboard, lo: Point, hi: Point, cols: nat, rows: nat)
    ensures var r := Compose(d, lo, hi, cols, rows).dash;
      && SameFlags(r.accounts, d.accounts) && SameFlags(r.posts, d.posts)
      && r.focus == d.focus && r.running == d.running && r.store == d.store && r.cache == d.cache
  {
    var w := AccountsWidth(Texts(d.accounts.items));
    var amax := AccountsEdge(d, lo, hi);
    var r := Compose(d, lo, hi, cols, rows).dash;
    var l := Layered(d, lo, hi, cols, rows);
    assert l.accounts == Panels.Render(d.accounts, AccountsFrom(lo), amax);
    assert l.posts == Panels.Render(d.posts, PostsFrom(lo, w), PostsTo(hi));
    RenderKeepsFlags(d.accounts, AccountsFrom(lo), amax);
    RenderKeepsFlags(d.posts, PostsFrom(lo, w), PostsTo(hi));
  }
}
