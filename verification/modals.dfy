/**
 * `InputModal`: a centred, bordered box holding a one-line text buffer.
 * Alphanumeric keys are appended to the buffer, carriage return hands the
 * buffer to the confirmation callback, and every other key is ignored.
 */
module Modals {
  import opened Wrappers
  import opened Geometry
  import opened Terminal
  import opened Border

  /** The modal's title, its size in cells and the text typed so far. */
  datatype Modal = Modal(title: string, width: nat, height: nat, buffer: string)

  /** A freshly opened modal: nothing typed yet. */
  function Open(title: string, width: nat, height: nat): (m: Modal)
    ensures m.buffer == "" && m.title == title && m.width == width && m.height == height
  {
    Modal(title, width, height, "")
  }

  /** The character class `[a-zA-Z0-9]`. */
  predicate IsAlnum(c: char) {
    ('a' <= c <= 'z') || ('A' <= c <= 'Z') || ('0' <= c <= '9')
  }

  predicate AllAlnum(s: string) {
    forall i :: 0 <= i < |s| ==> IsAlnum(s[i])
  }

  /** The alphanumeric keys of a key sequence, in order. */
  function Alnums(keys: string): (r: string)
    ensures AllAlnum(r) && |r| <= |keys|
    decreases |keys|
  {
    if |keys| == 0 then ""
    else (if IsAlnum(keys[0]) then [keys[0]] else "") + Alnums(keys[1..])
  }

  /** A key's effect: the modal afterwards, and the buffer handed to the callback if the key confirmed. */
  datatype Step = Step(modal: Modal, confirmed: Option<string>)

  /**
   * `InputModal.input`: carriage return confirms with the buffer as it stands;
   * an alphanumeric key grows the buffer by exactly that key; nothing else
   * changes anything, and no key fails.
   */
  function Input(m: Modal, key: char): (r: Step)
    ensures r.confirmed.Some? <==> key == '\r'
    ensures r.confirmed.Some? ==> r.confirmed.value == m.buffer
    ensures |r.modal.buffer| == |m.buffer| + 1 <==> IsAlnum(key)
    ensures m.buffer <= r.modal.buffer && |r.modal.buffer| <= |m.buffer| + 1
    ensures IsAlnum(key) ==> r.modal.buffer[|m.buffer|] == key
    ensures r.modal.title == m.title && r.modal.width == m.width && r.modal.height == m.height
  {
    var confirmed := if key == '\r' then Some(m.buffer) else None;
    var buffer := if IsAlnum(key) then m.buffer + [key] else m.buffer;
    Step(m.(buffer := buffer), confirmed)
  }

  /** The modal after a sequence of keys. */
  function Feed(m: Modal, keys: string): Modal
    decreases |keys|
  {
    if |keys| == 0 then m else Feed(Input(m, keys[0]).modal, keys[1..])
  }

  /** Typing a key sequence appends exactly its alphanumeric keys to the buffer, in order. */
  lemma {:induction false} FeedAppendsAlnums(m: Modal, keys: string)
    ensures Feed(m, keys).buffer == m.buffer + Alnums(keys)
    ensures Feed(m, keys).title == m.title && Feed(m, keys).width == m.width && Feed(m, keys).height == m.height
    decreases |keys|
  {
    if |keys| > 0 {
      var m' := Input(m, keys[0]).modal;
      assert Feed(m, keys) == Feed(m', keys[1..]);
      FeedAppendsAlnums(m', keys[1..]);
      var head := if IsAlnum(keys[0]) then [keys[0]] else "";
      assert m'.buffer == m.buffer + head;
      assert Alnums(keys) == head + Alnums(keys[1..]);
      assert m.buffer + head + Alnums(keys[1..]) == m.buffer + (head + Alnums(keys[1..]));
    }
  }

  /** Input keeps an alphanumeric buffer alphanumeric, so a confirmed handle never holds anything else. */
  lemma InputKeepsAlnum(m: Modal, key: char)
    requires AllAlnum(m.buffer)
    ensures AllAlnum(Input(m, key).modal.buffer)
    ensures Input(m, key).confirmed.Some? ==> AllAlnum(Input(m, key).confirmed.value)
  {
    var b := Input(m, key).modal.buffer;
    forall i | 0 <= i < |b|
      ensures IsAlnum(b[i])
    {
      if i < |m.buffer| {
        assert b[i] == m.buffer[i];
      }
    }
  }

  /** A row of n spaces. */
  function Spaces(n: nat): (s: string)
    ensures |s| == n && forall i :: 0 <= i < n ==> s[i] == ' '
  {
    seq(n, _ => ' ')
  }

  /** The blanking loop: a line of `line` at column x on every row from y up to (excluding) `end`. */
  function Blanks(y: int, end: int, x: int, line: string): (f: Frame)
    ensures |f| == Max(0, end - y)
    decreases end - y
  {
    if y >= end then [] else [Put(x, y, line)] + Blanks(y + 1, end, x, line)
  }

  /** The screen centre for a terminal of `cols` by `rows`. */
  function Centre(cols: nat, rows: nat): Point {
    Point(cols / 2, rows / 2)
  }

  /** The modal's top-left corner: half its size (rounded down) left of and above the centre. */
  function BoxMin(m: Modal, cols: nat, rows: nat): Point {
    var c := Centre(cols, rows);
    Point(c.x - m.width / 2, c.y - m.height / 2)
  }

  /** The modal's bottom-right corner. */
  function BoxMax(m: Modal, cols: nat, rows: nat): Point {
    var c := Centre(cols, rows);
    Point(c.x + m.width / 2, c.y + m.height / 2)
  }

  /** Where the buffer is written: two cells right of and below the top-left corner. */
  function BufferAt(m: Modal, cols: nat, rows: nat): Point {
    var lo := BoxMin(m, cols, rows);
    Point(lo.x + 2, lo.y + 2)
  }

  /**
   * `InputModal.render` for a terminal of `cols` by `rows` (the source asks
   * the terminal): blank the box's rows, write the buffer, then draw the
   * titled border over it.
   */
  function Render(m: Modal, cols: nat, rows: nat): (f: Frame)
    ensures |f| == 2 * (m.height / 2) + 1 + |RenderBorder(BoxMin(m, cols, rows), BoxMax(m, cols, rows), Borders, Some(m.title))|
  {
    var lo := BoxMin(m, cols, rows);
    var hi := BoxMax(m, cols, rows);
    var at := BufferAt(m, cols, rows);
    Blanks(lo.y, hi.y, lo.x, Spaces(m.width))
      + [Put(at.x, at.y, m.buffer)]
      + RenderBorder(lo, hi, Borders, Some(m.title))
  }

  /** The blanking loop writes row `y + k` as its k-th command, always at the same column. */
  lemma {:induction false} BlanksRows(y: int, end: int, x: int, line: string)
    ensures forall k :: 0 <= k < |Blanks(y, end, x, line)| ==> Blanks(y, end, x, line)[k] == Put(x, y + k, line)
    decreases end - y
  {
    if y < end {
      BlanksRows(y + 1, end, x, line);
      var f := Blanks(y, end, x, line);
      var rest := Blanks(y + 1, end, x, line);
      forall k | 0 < k < |f|
        ensures f[k] == Put(x, y + k, line)
      {
        assert f[k] == rest[k - 1];
      }
    }
  }

  /**
   * The modal's layout: its rows from the top edge down to the row above the
   * bottom edge are blanked with a line as wide as the modal starting at the
   * left edge, the buffer comes next, and the border is drawn last.
   */
  lemma RenderLayout(m: Modal, cols: nat, rows: nat)
    ensures var f := Render(m, cols, rows);
      var lo := BoxMin(m, cols, rows);
      var n := 2 * (m.height / 2);
      && (forall k :: 0 <= k < n ==> f[k] == Put(lo.x, lo.y + k, Spaces(m.width)))
      && f[n] == Put(lo.x + 2, lo.y + 2, m.buffer)
      && f[n + 1..] == RenderBorder(lo, BoxMax(m, cols, rows), Borders, Some(m.title))
  {
    var lo := BoxMin(m, cols, rows);
    var hi := BoxMax(m, cols, rows);
    var blanks := Blanks(lo.y, hi.y, lo.x, Spaces(m.width));
    BlanksRows(lo.y, hi.y, lo.x, Spaces(m.width));
    assert |blanks| == 2 * (m.height / 2);
  }

  /**
   * When the box is at least 4 by 4 cells (half sizes at least 2), the buffer
   * starts strictly inside the border, so the border does not overwrite it,
   * and the four corners carry the border's corner glyphs.
   */
  lemma RenderShowsBuffer(m: Modal, cols: nat, rows: nat)
    requires m.width >= 4 && m.height >= 4
    ensures var P := Paint(Render(m, cols, rows));
      var lo := BoxMin(m, cols, rows);
      var hi := BoxMax(m, cols, rows);
      && BufferAt(m, cols, rows) in P && P[BufferAt(m, cols, rows)] == m.buffer
      && lo in P && P[lo] == Borders.topLeft
      && hi in P && P[hi] == Borders.bottomRight
  {
    var lo := BoxMin(m, cols, rows);
    var hi := BoxMax(m, cols, rows);
    var at := BufferAt(m, cols, rows);
    var blanks := Blanks(lo.y, hi.y, lo.x, Spaces(m.width));
    var border := RenderBorder(lo, hi, Borders, Some(m.title));
    PaintAppend(blanks + [Put(at.x, at.y, m.buffer)], border);
    PaintAppend(blanks, [Put(at.x, at.y, m.buffer)]);
    PaintOne(Put(at.x, at.y, m.buffer));
    BorderOutline(lo, hi, Borders, Some(m.title));
    assert !OnOutline(lo, hi, at);
  }

  /**
   * On the buffer's row the border writes only the modal's left and right
   * edge cells. The right edge lies `2 * (width / 2) - 2` cells after the
   * buffer's start, so the border leaves every cell of the buffer alone
   * exactly when the buffer is no longer than that; a longer buffer loses
   * the character under the right edge, which the border draws later.
   */
  lemma BorderSparesBuffer(m: Modal, cols: nat, rows: nat)
    requires m.width >= 2 && m.height >= 4
    ensures (forall x :: BufferAt(m, cols, rows).x <= x < BufferAt(m, cols, rows).x + |m.buffer| ==>
               Point(x, BufferAt(m, cols, rows).y) !in Paint(RenderBorder(BoxMin(m, cols, rows), BoxMax(m, cols, rows), Borders, Some(m.title))))
      <==> |m.buffer| + 2 <= 2 * (m.width / 2)
  {
    var lo := BoxMin(m, cols, rows);
    var hi := BoxMax(m, cols, rows);
    var at := BufferAt(m, cols, rows);
    var P := Paint(RenderBorder(lo, hi, Borders, Some(m.title)));
    BorderOutline(lo, hi, Borders, Some(m.title));
    assert hi.x == lo.x + 2 * (m.width / 2) && hi.y == lo.y + 2 * (m.height / 2);
    if |m.buffer| + 2 > 2 * (m.width / 2) {
      assert OnOutline(lo, hi, Point(hi.x, at.y));
      assert Point(hi.x, at.y) in P;
    } else {
      forall x | at.x <= x < at.x + |m.buffer|
        ensures Point(x, at.y) !in P
      {
        assert !OnOutline(lo, hi, Point(x, at.y));
      }
    }
  }
}
