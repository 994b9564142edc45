/**
 * `ListContainer`: an ordered list of contents with at most one selected item.
 * `j`/`k` move the selection down/up with wrap-around, moving the single focus
 * flag and firing the registered focus callback; rendering stacks the items on
 * successive rows until the bottom of the box.
 */
module Panels {
  import opened Wrappers
  import opened Geometry
  import opened Terminal
  import opened Contents

  /**
   * The panel's `select`: nothing, the item at an index, or `Detached`, an
   * object that is no longer among the items (the contents were replaced
   * while it was selected), on which `.index` raises.
   */
  datatype Selection = NoSelection | Selected(index: nat) | Detached

  /** A list panel; `notify` records whether a focus callback is registered. */
  datatype Panel = Panel(title: string, items: seq<Content>, sel: Selection, notify: bool)

  /** A selection index always names an item. */
  predicate WellFormed(p: Panel) {
    p.sel.Selected? ==> p.sel.index < |p.items|
  }

  /** Exactly the selected item carries the focus flag. */
  predicate FocusAgrees(p: Panel) {
    forall k :: 0 <= k < |p.items| ==> (p.items[k].focus <==> p.sel == Selected(k))
  }

  /** The two lists hold the same contents except possibly for the focus flags. */
  predicate SameButFocus(a: seq<Content>, b: seq<Content>) {
    && |a| == |b|
    && forall k :: 0 <= k < |a| ==>
         a[k].text == b[k].text && a[k].align == b[k].align && a[k].spinner == b[k].spinner
  }

  /** A navigation step: the new panel and whether the focus callback fired. */
  datatype Moved = Moved(panel: Panel, fired: bool)

  /** One step forward or back around n positions, in terms of Euclidean `%`. */
  lemma ModStep(i: int, n: int)
    requires 0 <= i < n
    ensures (i + 1) % n == if i == n - 1 then 0 else i + 1
    ensures (i - 1) % n == if i == 0 then n - 1 else i - 1
  {
    if i == n - 1 {
      assert i + 1 == 1 * n + 0;
    }
    if i == 0 {
      assert i - 1 == (-1) * n + (n - 1);
    }
  }

  /** Python's `seq[i]` for i in -n .. n-1. */
  function PyIndex(n: nat, i: int): nat
    requires i < n && i + n >= 0
  {
    if i < 0 then n + i else i
  }

  /** Clears the focus flag of item `from` (when it names one) and sets that of item `to`. */
  function Refocus(items: seq<Content>, from: Selection, to: nat): seq<Content>
    requires to < |items|
  {
    var cleared := if from.Selected? && from.index < |items|
      then items[from.index := items[from.index].(focus := false)] else items;
    cleared[to := cleared[to].(focus := true)]
  }

  /**
   * `focus_down`: on an empty panel nothing happens and the callback does not
   * fire; with no selection the first item is selected; otherwise the item
   * after the selected one, wrapping from the last to the first. A detached
   * selection makes `.index` raise (None).
   */
  function FocusDown(p: Panel): (r: Option<Moved>)
    requires WellFormed(p)
    ensures r.None? <==> |p.items| > 0 && p.sel.Detached?
    ensures |p.items| == 0 ==> r == Some(Moved(p, false))
    ensures r.Some? ==> WellFormed(r.value.panel) && |r.value.panel.items| == |p.items|
  {
    if |p.items| == 0 then Some(Moved(p, false))
    else match p.sel
      case Detached => None
      case NoSelection =>
        Some(Moved(p.(items := Refocus(p.items, p.sel, 0), sel := Selected(0)), p.notify))
      case Selected(i) =>
        var j := if i == |p.items| - 1 then -1 else i;
        var next := j + 1;
        Some(Moved(p.(items := Refocus(p.items, p.sel, next), sel := Selected(next)), p.notify))
  }

  /**
   * `focus_up`: like `focus_down`, but with no selection the last item is
   * selected, and otherwise `window_items[i - 1]`, which Python's negative
   * indexing turns into the last item when i is 0.
   */
  function FocusUp(p: Panel): (r: Option<Moved>)
    requires WellFormed(p)
    ensures r.None? <==> |p.items| > 0 && p.sel.Detached?
    ensures |p.items| == 0 ==> r == Some(Moved(p, false))
    ensures r.Some? ==> WellFormed(r.value.panel) && |r.value.panel.items| == |p.items|
  {
    if |p.items| == 0 then Some(Moved(p, false))
    else match p.sel
      case Detached => None
      case NoSelection =>
        var last := PyIndex(|p.items|, -1);
        Some(Moved(p.(items := Refocus(p.items, p.sel, last), sel := Selected(last)), p.notify))
      case Selected(i) =>
        var prev := PyIndex(|p.items|, i - 1);
        Some(Moved(p.(items := Refocus(p.items, p.sel, prev), sel := Selected(prev)), p.notify))
  }

  /**
   * A successful move to item `to`: the callback fires when one is registered,
   * `to` becomes the selection and is focused, the previously selected item
   * (if another) loses its focus, and nothing else changes.
   */
  predicate Moves(p: Panel, m: Moved, to: nat) {
    && m.fired == p.notify
    && m.panel.title == p.title && m.panel.notify == p.notify
    && to < |p.items|
    && m.panel.sel == Selected(to)
    && SameButFocus(m.panel.items, p.items)
    && m.panel.items[to].focus
    && (p.sel.Selected? && p.sel.index != to && p.sel.index < |p.items| ==> !m.panel.items[p.sel.index].focus)
    && (forall k :: 0 <= k < |p.items| && k != to && p.sel != Selected(k) ==> m.panel.items[k].focus == p.items[k].focus)
  }

  /**
   * On a non-empty panel, `focus_down` moves to the first item when nothing is
   * selected and to item (i + 1) mod n from item i.
   */
  lemma FocusDownMoves(p: Panel)
    requires WellFormed(p) && |p.items| > 0 && !p.sel.Detached?
    ensures FocusDown(p).Some?
    ensures Moves(p, FocusDown(p).value, if p.sel.Selected? then (p.sel.index + 1) % |p.items| else 0)
  {
    if p.sel.Selected? {
      ModStep(p.sel.index, |p.items|);
    }
  }

  /**
   * On a non-empty panel, `focus_up` moves to the last item when nothing is
   * selected and to item (i - 1) mod n from item i.
   */
  lemma FocusUpMoves(p: Panel)
    requires WellFormed(p) && |p.items| > 0 && !p.sel.Detached?
    ensures FocusUp(p).Some?
    ensures Moves(p, FocusUp(p).value, if p.sel.Selected? then (p.sel.index - 1) % |p.items| else |p.items| - 1)
  {
    if p.sel.Selected? {
      ModStep(p.sel.index, |p.items|);
    }
  }

  /** `ListContainer.input`: `j` and `k` navigate; any other key raises (None), as does a detached selection. */
  function Input(p: Panel, key: char): (r: Option<Moved>)
    requires WellFormed(p)
    ensures key != 'j' && key != 'k' ==> r.None?
    ensures key == 'j' ==> r == FocusDown(p)
    ensures key == 'k' ==> r == FocusUp(p)
  {
    if key == 'j' then FocusDown(p)
    else if key == 'k' then FocusUp(p)
    else None
  }

  /** A move keeps the selection well formed and keeps the focus flag on the selected item alone. */
  lemma MoveKeepsFocusAgreement(p: Panel, m: Moved, to: nat)
    requires WellFormed(p) && FocusAgrees(p) && Moves(p, m, to)
    ensures WellFormed(m.panel) && FocusAgrees(m.panel)
    ensures forall k :: 0 <= k < |m.panel.items| && m.panel.items[k].focus ==> k == to
  {
  }

  /**
   * On a non-empty panel whose focus flags agree with its selection, both
   * moves leave exactly one focused item, the newly selected one.
   */
  lemma NavigationKeepsOneFocus(p: Panel)
    requires WellFormed(p) && FocusAgrees(p) && |p.items| > 0 && !p.sel.Detached?
    ensures var d := FocusDown(p).value.panel;
      WellFormed(d) && FocusAgrees(d) && d.sel.Selected?
    ensures var u := FocusUp(p).value.panel;
      WellFormed(u) && FocusAgrees(u) && u.sel.Selected?
  {
    FocusDownMoves(p);
    FocusUpMoves(p);
    var to := if p.sel.Selected? then (p.sel.index + 1) % |p.items| else 0;
    MoveKeepsFocusAgreement(p, FocusDown(p).value, to);
    var to' := if p.sel.Selected? then (p.sel.index - 1) % |p.items| else |p.items| - 1;
    MoveKeepsFocusAgreement(p, FocusUp(p).value, to');
  }

  /** Two panels that agree on everything but focus flags, whose flags follow the same selection, are equal. */
  lemma AgreeingPanelsEqual(a: Panel, b: Panel)
    requires FocusAgrees(a) && FocusAgrees(b)
    requires a.title == b.title && a.notify == b.notify && a.sel == b.sel
    requires SameButFocus(a.items, b.items)
    ensures a == b
  {
    assert a.items == b.items by {
      forall k | 0 <= k < |a.items|
        ensures a.items[k] == b.items[k]
      {
        assert a.items[k].focus == b.items[k].focus;
      }
    }
  }

  /** Moving up undoes moving down on a panel with a selection. */
  lemma UpUndoesDown(p: Panel)
    requires WellFormed(p) && FocusAgrees(p) && p.sel.Selected?
    ensures FocusDown(p).Some?
    ensures var d := FocusDown(p).value.panel; WellFormed(d) && FocusUp(d) == Some(Moved(p, p.notify))
  {
    var n := |p.items|;
    var i := p.sel.index;
    ModStep(i, n);
    var dj := if i == n - 1 then 0 else i + 1;
    ModStep(dj, n);
    var d := FocusDown(p).value.panel;
    FocusDownMoves(p);
    MoveKeepsFocusAgreement(p, FocusDown(p).value, dj);
    FocusUpMoves(d);
    MoveKeepsFocusAgreement(d, FocusUp(d).value, i);
    AgreeingPanelsEqual(FocusUp(d).value.panel, p);
  }

  /** Moving down undoes moving up on a panel with a selection. */
  lemma DownUndoesUp(p: Panel)
    requires WellFormed(p) && FocusAgrees(p) && p.sel.Selected?
    ensures FocusUp(p).Some?
    ensures var u := FocusUp(p).value.panel; WellFormed(u) && FocusDown(u) == Some(Moved(p, p.notify))
  {
    var n := |p.items|;
    var i := p.sel.index;
    ModStep(i, n);
    var uj := if i == 0 then n - 1 else i - 1;
    ModStep(uj, n);
    var u := FocusUp(p).value.panel;
    FocusUpMoves(p);
    MoveKeepsFocusAgreement(p, FocusUp(p).value, uj);
    FocusDownMoves(u);
    MoveKeepsFocusAgreement(u, FocusDown(u).value, i);
    AgreeingPanelsEqual(FocusDown(u).value.panel, p);
  }

  /** The panel after k presses of `j`. */
  function DownTimes(p: Panel, k: nat): (r: Panel)
    requires WellFormed(p) && !p.sel.Detached?
    ensures WellFormed(r) && !r.sel.Detached?
    ensures |r.items| == |p.items|
    decreases k
  {
    if k == 0 then p else
      var q := DownTimes(p, k - 1);
      FocusDown(q).value.panel
  }

  /** The position after one step down around n positions. */
  function NextPos(a: nat, n: nat): nat {
    if a + 1 >= n then 0 else a + 1
  }

  /** The position after k steps down from position i around n positions. */
  function Advance(i: nat, k: nat, n: nat): nat
    decreases k
  {
    if k == 0 then i else NextPos(Advance(i, k - 1, n), n)
  }

  /** Within one lap, k steps from i land on i + k, wrapping past the end once. */
  lemma {:induction false} AdvanceLap(i: nat, k: nat, n: nat)
    requires i < n && k <= n
    ensures Advance(i, k, n) == if i + k < n then i + k else i + k - n
    decreases k
  {
    if k > 0 {
      AdvanceLap(i, k - 1, n);
    }
  }

  /** One press of `j` from item a selects the next position round and keeps everything but the focus flags. */
  lemma DownStep(q: Panel, a: nat)
    requires WellFormed(q) && FocusAgrees(q) && q.sel == Selected(a)
    ensures FocusDown(q).Some?
    ensures var f := FocusDown(q).value.panel;
      && FocusAgrees(f) && f.sel == Selected(NextPos(a, |q.items|))
      && SameButFocus(f.items, q.items) && f.title == q.title && f.notify == q.notify
  {
    FocusDownMoves(q);
    ModStep(a, |q.items|);
    MoveKeepsFocusAgreement(q, FocusDown(q).value, NextPos(a, |q.items|));
  }

  lemma SameButFocusTrans(a: seq<Content>, b: seq<Content>, c: seq<Content>)
    requires SameButFocus(a, b) && SameButFocus(b, c)
    ensures SameButFocus(a, c)
  {
  }

  /**
   * After k presses of `j` from item i the selection is the item k positions
   * further round, the focus flag follows it, and nothing else changes.
   */
  lemma {:induction false} DownTimesAt(p: Panel, k: nat)
    requires WellFormed(p) && FocusAgrees(p) && p.sel.Selected?
    ensures var q := DownTimes(p, k);
      && FocusAgrees(q) && q.sel == Selected(Advance(p.sel.index, k, |p.items|))
      && SameButFocus(q.items, p.items) && q.title == p.title && q.notify == p.notify
    decreases k
  {
    if k > 0 {
      DownTimesAt(p, k - 1);
      var q := DownTimes(p, k - 1);
      DownStep(q, Advance(p.sel.index, k - 1, |p.items|));
      SameButFocusTrans(DownTimes(p, k).items, q.items, p.items);
    }
  }

  /** Pressing `j` n times on an n-item panel returns to the same panel. */
  lemma DownCycles(p: Panel)
    requires WellFormed(p) && FocusAgrees(p) && p.sel.Selected?
    ensures DownTimes(p, |p.items|) == p
  {
    DownTimesAt(p, |p.items|);
    AdvanceLap(p.sel.index, |p.items|, |p.items|);
    AgreeingPanelsEqual(DownTimes(p, |p.items|), p);
  }

  /** The panel after k presses of `k`. */
  function UpTimes(p: Panel, k: nat): (r: Panel)
    requires WellFormed(p) && !p.sel.Detached?
    ensures WellFormed(r) && !r.sel.Detached?
    ensures |r.items| == |p.items|
    decreases k
  {
    if k == 0 then p else
      var q := UpTimes(p, k - 1);
      FocusUp(q).value.panel
  }

  /** The position after one step up around n positions: from the first, the last. */
  function PrevPos(a: nat, n: nat): nat {
    if a > 0 then a - 1 else if n > 0 then n - 1 else 0
  }

  /** The position after k steps up from position i around n positions. */
  function Retreat(i: nat, k: nat, n: nat): nat
    decreases k
  {
    if k == 0 then i else PrevPos(Retreat(i, k - 1, n), n)
  }

  /** Within one lap, k steps up from i land on i - k, wrapping past the first item once. */
  lemma {:induction false} RetreatLap(i: nat, k: nat, n: nat)
    requires i < n && k <= n
    ensures Retreat(i, k, n) == if k <= i then i - k else i - k + n
    decreases k
  {
    if k > 0 {
      RetreatLap(i, k - 1, n);
    }
  }

  /** One press of `k` from item a selects the previous position round (through Python's index -1) and keeps everything but the focus flags. */
  lemma UpStep(q: Panel, a: nat)
    requires WellFormed(q) && FocusAgrees(q) && q.sel == Selected(a)
    ensures FocusUp(q).Some?
    ensures var f := FocusUp(q).value.panel;
      && FocusAgrees(f) && f.sel == Selected(PrevPos(a, |q.items|))
      && SameButFocus(f.items, q.items) && f.title == q.title && f.notify == q.notify
  {
    FocusUpMoves(q);
    ModStep(a, |q.items|);
    MoveKeepsFocusAgreement(q, FocusUp(q).value, PrevPos(a, |q.items|));
  }

  /**
   * After k presses of `k` from item i the selection is the item k positions
   * further back round, the focus flag follows it, and nothing else changes.
   */
  lemma {:induction false} UpTimesAt(p: Panel, k: nat)
    requires WellFormed(p) && FocusAgrees(p) && p.sel.Selected?
    ensures var q := UpTimes(p, k);
      && FocusAgrees(q) && q.sel == Selected(Retreat(p.sel.index, k, |p.items|))
      && SameButFocus(q.items, p.items) && q.title == p.title && q.notify == p.notify
    decreases k
  {
    if k > 0 {
      UpTimesAt(p, k - 1);
      var q := UpTimes(p, k - 1);
      UpStep(q, Retreat(p.sel.index, k - 1, |p.items|));
      SameButFocusTrans(UpTimes(p, k).items, q.items, p.items);
    }
  }

  /** Pressing `k` n times on an n-item panel returns to the same panel. */
  lemma UpCycles(p: Panel)
    requires WellFormed(p) && FocusAgrees(p) && p.sel.Selected?
    ensures UpTimes(p, |p.items|) == p
  {
    UpTimesAt(p, |p.items|);
    RetreatLap(p.sel.index, |p.items|, |p.items|);
    AgreeingPanelsEqual(UpTimes(p, |p.items|), p);
  }

  /** The cursor-addressed commands of a frame, in order. */
  function Puts(f: Frame): (r: seq<Cmd>)
    ensures forall k :: 0 <= k < |r| ==> r[k].Put?
    decreases |f|
  {
    if |f| == 0 then [] else (if f[0].Put? then [f[0]] else []) + Puts(f[1..])
  }

  lemma {:induction false} PutsAppend(a: Frame, b: Frame)
    ensures Puts(a + b) == Puts(a) + Puts(b)
    decreases |a|
  {
    if |a| == 0 {
      assert a + b == b;
    } else {
      assert (a + b)[0] == a[0];
      assert (a + b)[1..] == a[1..] + b;
      PutsAppend(a[1..], b);
    }
  }

  /** A render's single cursor-addressed command. */
  lemma RenderPuts(c: Content, lo: Point, hi: Point)
    ensures Puts(Contents.Render(c, lo, hi).frame) == [Drawn(c, Contents.Render(c, lo, hi))]
  {
    var f := Contents.Render(c, lo, hi).frame;
    if c.align == Left {
      assert f[1..][1..][1..] == [];
      assert Puts(f[1..][1..][1..]) == [];
      assert Puts(f[1..][1..]) == [];
      assert Puts(f[1..]) == [f[1]];
    } else {
      assert f[1..] == [];
      assert Puts(f[1..]) == [];
    }
  }

  /** A panel render: the frame and the items with their spinners advanced. */
  datatype Drawing = Drawing(frame: Frame, items: seq<Content>)

  /** The loop of `ListContainer.render` from item k on: item k goes on row `lo.y + k` while that row is at most `hi.y`. */
  function RenderRows(items: seq<Content>, k: nat, lo: Point, hi: Point): (r: Drawing)
    requires k <= |items|
    ensures |r.items| == |items| - k
    decreases |items| - k
  {
    if k == |items| || lo.y + k > hi.y then Drawing([], items[k..])
    else
      var one := RowRender(items, k, lo, hi);
      var rest := RenderRows(items, k + 1, lo, hi);
      Drawing(one.frame + rest.frame, [one.content] + rest.items)
  }

  /** `ListContainer.render(_min, _max)`. */
  function Render(p: Panel, lo: Point, hi: Point): (r: Drawing)
    ensures |r.items| == |p.items|
  {
    RenderRows(p.items, 0, lo, hi)
  }

  /** How many items fit: one per row from `lo.y` to `hi.y`. */
  function Shown(n: nat, lo: Point, hi: Point): nat {
    Max(0, Min(n, hi.y - lo.y + 1))
  }

  /** The render of item i at row `lo.y + i`. */
  function RowRender(items: seq<Content>, i: nat, lo: Point, hi: Point): Rendered
    requires i < |items|
  {
    Contents.Render(items[i], Point(lo.x, lo.y + i), hi)
  }

  /** The cursor-addressed commands of the rows from k on, one per shown item. */
  function DrawnRows(items: seq<Content>, k: nat, lo: Point, hi: Point): seq<Cmd>
    requires k <= |items|
    decreases |items| - k
  {
    if k == |items| || lo.y + k > hi.y then []
    else [Drawn(items[k], RowRender(items, k, lo, hi))] + DrawnRows(items, k + 1, lo, hi)
  }

  /** The commands of the row loop are exactly the shown items' own commands. */
  lemma {:induction false} RenderRowsDrawn(items: seq<Content>, k: nat, lo: Point, hi: Point)
    requires k <= |items|
    ensures Puts(RenderRows(items, k, lo, hi).frame) == DrawnRows(items, k, lo, hi)
    decreases |items| - k
  {
    if k < |items| && lo.y + k <= hi.y {
      var one := RowRender(items, k, lo, hi);
      var rest := RenderRows(items, k + 1, lo, hi);
      assert RenderRows(items, k, lo, hi).frame == one.frame + rest.frame;
      PutsAppend(one.frame, rest.frame);
      RenderPuts(items[k], Point(lo.x, lo.y + k), hi);
      RenderRowsDrawn(items, k + 1, lo, hi);
    }
  }

  /** Item k + j's command sits at position j, for every shown item from k on. */
  lemma {:induction false} DrawnRowsIndex(items: seq<Content>, k: nat, lo: Point, hi: Point)
    requires k <= |items|
    ensures |DrawnRows(items, k, lo, hi)| == Max(0, Shown(|items|, lo, hi) - k)
    ensures forall j :: 0 <= j < Max(0, Shown(|items|, lo, hi) - k) ==>
      DrawnRows(items, k, lo, hi)[j] == Drawn(items[k + j], RowRender(items, k + j, lo, hi))
    decreases |items| - k
  {
    if k < |items| && lo.y + k <= hi.y {
      DrawnRowsIndex(items, k + 1, lo, hi);
      var ds := DrawnRows(items, k, lo, hi);
      var rest := DrawnRows(items, k + 1, lo, hi);
      var shown := Max(0, Shown(|items|, lo, hi) - k);
      assert shown >= 1 && Max(0, Shown(|items|, lo, hi) - (k + 1)) == shown - 1;
      forall j | 0 < j < shown
        ensures ds[j] == Drawn(items[k + j], RowRender(items, k + j, lo, hi))
      {
        assert ds[j] == rest[j - 1];
        assert k + 1 + (j - 1) == k + j;
      }
    } else {
      assert Max(0, Shown(|items|, lo, hi) - k) == 0;
    }
  }

  /** One command per shown item, item k + j's own command at position j. */
  lemma RenderRowsPuts(items: seq<Content>, k: nat, lo: Point, hi: Point)
    requires k <= |items|
    ensures |Puts(RenderRows(items, k, lo, hi).frame)| == Max(0, Shown(|items|, lo, hi) - k)
    ensures forall j :: 0 <= j < Max(0, Shown(|items|, lo, hi) - k) ==>
      Puts(RenderRows(items, k, lo, hi).frame)[j] == Drawn(items[k + j], RowRender(items, k + j, lo, hi))
  {
    RenderRowsDrawn(items, k, lo, hi);
    DrawnRowsIndex(items, k, lo, hi);
  }

  /** Item k + j comes back from the row loop advanced by its render if its row is at most `hi.y`, unchanged otherwise. */
  lemma {:induction false} RenderRowsItemAt(items: seq<Content>, k: nat, lo: Point, hi: Point, j: nat)
    requires k + j < |items|
    ensures RenderRows(items, k, lo, hi).items[j]
      == if lo.y + k + j <= hi.y then RowRender(items, k + j, lo, hi).content else items[k + j]
    decreases j
  {
    if lo.y + k > hi.y {
      assert RenderRows(items, k, lo, hi).items == items[k..];
    } else if j > 0 {
      var rest := RenderRows(items, k + 1, lo, hi);
      assert RenderRows(items, k, lo, hi).items == [RowRender(items, k, lo, hi).content] + rest.items;
      RenderRowsItemAt(items, k + 1, lo, hi, j - 1);
      assert k + 1 + (j - 1) == k + j;
    }
  }

  /** Shown items come back with their spinner advanced by their render; the others are unchanged. */
  lemma RenderRowsItems(items: seq<Content>, k: nat, lo: Point, hi: Point)
    requires k <= |items|
    ensures forall j :: 0 <= j < Max(0, Shown(|items|, lo, hi) - k) ==>
      RenderRows(items, k, lo, hi).items[j] == RowRender(items, k + j, lo, hi).content
    ensures forall j :: Max(0, Shown(|items|, lo, hi) - k) <= j < |items| - k ==>
      RenderRows(items, k, lo, hi).items[j] == items[k + j]
  {
    forall j | 0 <= j < |items| - k
      ensures RenderRows(items, k, lo, hi).items[j]
        == if j < Max(0, Shown(|items|, lo, hi) - k) then RowRender(items, k + j, lo, hi).content else items[k + j]
    {
      RenderRowsItemAt(items, k, lo, hi, j);
      assert j < Max(0, Shown(|items|, lo, hi) - k) <==> lo.y + k + j <= hi.y;
    }
  }

  /**
   * Rendering a panel draws one command per item that fits: item j on row
   * `lo.y + j`, as that item's own render.
   */
  lemma RenderStacks(p: Panel, lo: Point, hi: Point)
    ensures |Puts(Render(p, lo, hi).frame)| == Shown(|p.items|, lo, hi)
    ensures forall j :: 0 <= j < Shown(|p.items|, lo, hi) ==>
      && Puts(Render(p, lo, hi).frame)[j] == Drawn(p.items[j], RowRender(p.items, j, lo, hi))
      && Puts(Render(p, lo, hi).frame)[j].y == lo.y + j
  {
    var shown := Shown(|p.items|, lo, hi);
    assert Max(0, shown - 0) == shown;
    RenderRowsPuts(p.items, 0, lo, hi);
    forall j | 0 <= j < shown
      ensures Puts(Render(p, lo, hi).frame)[j].y == lo.y + j
    {
      RenderPlacement(p.items[j], Point(lo.x, lo.y + j), hi);
    }
  }

  /**
   * Rendering a panel advances the spinners of exactly the items that fit and
   * changes nothing else about them; the items below the box are untouched.
   */
  lemma RenderAdvancesShown(p: Panel, lo: Point, hi: Point)
    ensures forall j :: 0 <= j < Shown(|p.items|, lo, hi) ==>
      && Render(p, lo, hi).items[j] == p.items[j].(spinner := Render(p, lo, hi).items[j].spinner)
      && Render(p, lo, hi).items[j] == RowRender(p.items, j, lo, hi).content
    ensures forall j :: Shown(|p.items|, lo, hi) <= j < |p.items| ==> Render(p, lo, hi).items[j] == p.items[j]
  {
    var shown := Shown(|p.items|, lo, hi);
    assert Max(0, shown - 0) == shown;
    RenderRowsItems(p.items, 0, lo, hi);
  }

  /** The same selection, and item by item the same text, alignment and focus flag; only spinners may differ. */
  predicate SameFlags(a: Panel, b: Panel) {
    && a.title == b.title && a.sel == b.sel && a.notify == b.notify && |a.items| == |b.items|
    && forall k :: 0 <= k < |a.items| ==>
         a.items[k].text == b.items[k].text && a.items[k].align == b.items[k].align && a.items[k].focus == b.items[k].focus
  }

  /** Rendering a panel changes nothing but spinners, so its selection and focus flags still agree if they did. */
  lemma RenderKeepsFlags(p: Panel, lo: Point, hi: Point)
    ensures SameFlags(p.(items := Render(p, lo, hi).items), p)
    ensures FocusAgrees(p.(items := Render(p, lo, hi).items)) == FocusAgrees(p)
  {
    RenderAdvancesShown(p, lo, hi);
  }
}
