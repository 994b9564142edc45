/**
 * `Content`: one line of text with an alignment, a focus flag and an animated
 * one-character "spinner" highlight. Construction refuses text that would
 * break the line or inject a known escape sequence; rendering truncates,
 * aligns, swaps colours when focused, highlights the spinner character and
 * advances the spinner.
 */
module Contents {
  import opened Wrappers
  import opened Geometry
  import opened Terminal

  datatype Align = Left | Center | Right

  /** `spinner == -1` means the spinner is off. */
  datatype Content = Content(text: string, align: Align, focus: bool, spinner: int)

  /** The `ValueError` the constructor raises. */
  datatype ContentError = InvalidContent

  /** `needle` sits in `hay` starting at index i. */
  predicate OccursAt(needle: string, hay: string, i: int) {
    0 <= i && i + |needle| <= |hay| && hay[i..i + |needle|] == needle
  }

  /** Python's `needle in hay` for strings. */
  predicate Occurs(needle: string, hay: string) {
    exists i | 0 <= i <= |hay| - |needle| :: OccursAt(needle, hay, i)
  }

  /** The strings a content text may not contain. */
  const Forbidden: seq<string> := ["\n", "\r"] + AllEscapeSequences

  predicate Admissible(t: string) {
    forall k :: 0 <= k < |Forbidden| ==> !Occurs(Forbidden[k], t)
  }

  /** `Content(text, align)`: a fresh, unfocused content with its spinner off, or the constructor's error. */
  function New(t: string, align: Align): (r: Result<Content, ContentError>)
    ensures r.Success? <==> Admissible(t)
    ensures r.Success? ==> r.value.text == t && r.value.align == align
    ensures r.Success? ==> !r.value.focus && r.value.spinner == -1
  {
    if exists k | 0 <= k < |Forbidden| :: Occurs(Forbidden[k], t) then Failure(InvalidContent)
    else Success(Content(t, align, false, -1))
  }

  lemma OccursChar(c: char, t: string)
    ensures Occurs([c], t) <==> c in t
  {
    if c in t {
      var i :| 0 <= i < |t| && t[i] == c;
      assert OccursAt([c], t, i);
    }
    if Occurs([c], t) {
      var i :| 0 <= i <= |t| - 1 && OccursAt([c], t, i);
      assert t[i] == t[i..i + 1][0];
    }
  }

  /** A text holding a newline or a carriage return is refused; an accepted text holds neither. */
  lemma NewRejectsLineBreaks(t: string, align: Align)
    ensures '\n' in t || '\r' in t ==> New(t, align).Failure?
    ensures New(t, align).Success? ==> NoLineBreak(t)
  {
    OccursChar('\n', t);
    OccursChar('\r', t);
    assert Forbidden[0] == "\n" && Forbidden[1] == "\r";
  }

  /** Text without line breaks and without the escape character is always accepted. */
  lemma NewAcceptsPlainText(t: string, align: Align)
    requires NoLineBreak(t) && Esc !in t
    ensures New(t, align).Success?
  {
    forall k | 0 <= k < |Forbidden|
      ensures !Occurs(Forbidden[k], t)
    {
      var f := Forbidden[k];
      assert |f| > 0 && (f[0] == '\n' || f[0] == '\r' || f[0] == Esc);
      forall i | 0 <= i <= |t| - |f|
        ensures !OccursAt(f, t, i)
      {
        assert t[i..i + |f|][0] == t[i] != f[0];
      }
    }
  }

  /** Only the listed sequences are refused: a lone escape character is accepted. */
  lemma NewAcceptsLoneEscape()
    ensures New([Esc], Left).Success?
  {
    forall k | 0 <= k < |Forbidden|
      ensures !Occurs(Forbidden[k], [Esc])
    {
      if k >= 2 {
        assert |Forbidden[k]| >= 4;
      } else {
        assert [Esc][0..1] == [Esc];
      }
    }
  }

  /** Python's `s[:end]`, where a negative end counts from the back and clamps at zero. */
  function PyPrefix(s: string, end: int): string {
    if end >= 0 then s[..Min(end, |s|)] else s[..Max(0, |s| + end)]
  }

  /** The part of the text that `render` keeps: all of it if it fits before `hi.x`, else `text[:diff]`. */
  function Visible(t: string, lo: Point, hi: Point): string {
    var diff := hi.x - (lo.x + |t|);
    if diff >= 0 then t else PyPrefix(t, diff)
  }

  /** The number of characters that fit between `lo.x` and `hi.x`. */
  function VisibleLength(t: string, lo: Point, hi: Point): nat {
    Max(0, Min(|t|, hi.x - lo.x))
  }

  /** Truncation keeps exactly the prefix that fits in the available width. */
  lemma TruncationKeepsPrefix(t: string, lo: Point, hi: Point)
    ensures Visible(t, lo, hi) == t[..VisibleLength(t, lo, hi)]
  {
  }

  /** The position the spinner highlights in this render: it wraps to 0 when it has reached the visible length. */
  function SpinSlot(spinner: int, len: nat): int {
    if spinner == len then 0 else spinner
  }

  /** The spinner after one render of a text with `len` visible characters. */
  function NextSpinner(spinner: int, len: nat): int {
    if spinner == -1 then -1 else SpinSlot(spinner, len) + 1
  }

  /**
   * The source's character loop: every character of `vis` in order, the one at
   * index k wrapped in `inverse` ... `normal`.
   */
  function Highlight(vis: string, k: int, inverse: string, normal: string): string
    decreases |vis|
  {
    if |vis| == 0 then ""
    else
      (if k == 0 then inverse + [vis[0]] + normal else [vis[0]])
        + Highlight(vis[1..], k - 1, inverse, normal)
  }

  /** With k a valid index, exactly the character at k is wrapped. */
  lemma {:induction false} HighlightInside(vis: string, k: int, inverse: string, normal: string)
    requires 0 <= k < |vis|
    ensures Highlight(vis, k, inverse, normal) == vis[..k] + inverse + [vis[k]] + normal + vis[k + 1..]
    decreases |vis|
  {
    var t := vis[1..];
    if k == 0 {
      HighlightOutside(t, k - 1, inverse, normal);
      assert vis[..0] == [] && vis[1..] == t;
    } else {
      HighlightInside(t, k - 1, inverse, normal);
      assert vis[..k] == [vis[0]] + t[..k - 1];
      assert t[k - 1] == vis[k];
      assert vis[k + 1..] == t[k..];
      assert [vis[0]] + (t[..k - 1] + inverse + [t[k - 1]] + normal + t[k..])
        == ([vis[0]] + t[..k - 1]) + inverse + [vis[k]] + normal + vis[k + 1..];
    }
  }

  /** With k outside the text, nothing is wrapped. */
  lemma {:induction false} HighlightOutside(vis: string, k: int, inverse: string, normal: string)
    requires !(0 <= k < |vis|)
    ensures Highlight(vis, k, inverse, normal) == vis
    decreases |vis|
  {
    if |vis| > 0 {
      HighlightOutside(vis[1..], k - 1, inverse, normal);
      assert vis == [vis[0]] + vis[1..];
    }
  }

  /** Exactly one character is wrapped when k is a valid index; otherwise the text comes out unchanged. */
  lemma HighlightShape(vis: string, k: int, inverse: string, normal: string)
    ensures 0 <= k < |vis| ==> Highlight(vis, k, inverse, normal) == vis[..k] + inverse + [vis[k]] + normal + vis[k + 1..]
    ensures !(0 <= k < |vis|) ==> Highlight(vis, k, inverse, normal) == vis
  {
    if 0 <= k < |vis| {
      HighlightInside(vis, k, inverse, normal);
    } else {
      HighlightOutside(vis, k, inverse, normal);
    }
  }

  /** The colour pair (inverse, normal) a render uses: swapped when the content is focused. */
  function Colours(focus: bool): (string, string) {
    if focus then (NormalColors, InverseColors) else (InverseColors, NormalColors)
  }

  /** A render's frame and the content with its spinner advanced. */
  datatype Rendered = Rendered(frame: Frame, content: Content)

  /** The text a render writes: the visible prefix with the spinner character highlighted. */
  function Message(c: Content, vis: string): string {
    var (inverse, normal) := Colours(c.focus);
    if c.spinner == -1 then vis else Highlight(vis, SpinSlot(c.spinner, |vis|), inverse, normal)
  }

  /** The column the text starts at under each alignment. */
  function Column(align: Align, lo: Point, hi: Point, len: nat): int {
    match align
    case Center => lo.x + CeilHalf(hi.x - lo.x) - CeilHalf(len) + 2
    case Right => hi.x - len
    case Left => lo.x
  }

  /** `Content.render(_min, _max)` together with `_render`. */
  function Render(c: Content, lo: Point, hi: Point): (r: Rendered)
    ensures r.content == c.(spinner := r.content.spinner)
    ensures c.align == Left ==> |r.frame| == 3 && r.frame[0].Raw? && r.frame[1].Put? && r.frame[2] == Raw(NormalColors)
    ensures c.align != Left ==> |r.frame| == 1 && r.frame[0].Put?
  {
    var vis := Visible(c.text, lo, hi);
    var msg := Message(c, vis);
    var (_, normal) := Colours(c.focus);
    var at := Put(Column(c.align, lo, hi, |vis|), lo.y, msg);
    var frame := if c.align == Left then [Raw(normal), at, Raw(NormalColors)] else [at];
    Rendered(frame, c.(spinner := NextSpinner(c.spinner, |vis|)))
  }

  /** The one cursor-addressed command of a render. */
  function Drawn(c: Content, r: Rendered): Cmd
    requires c.align == Left ==> |r.frame| == 3
    requires |r.frame| >= 1
  {
    if c.align == Left then r.frame[1] else r.frame[0]
  }

  /**
   * Where and how a content is drawn: on row `lo.y`; a left-aligned text at
   * `lo.x`, bracketed by the focus-dependent colour and the normal colour; a
   * right-aligned one so that its last visible character sits just before
   * `hi.x`; a centred one at `lo.x + ceil(width/2) - ceil(len/2) + 2`.
   */
  lemma RenderPlacement(c: Content, lo: Point, hi: Point)
    ensures var r := Render(c, lo, hi);
      var len := VisibleLength(c.text, lo, hi);
      var at := Drawn(c, r);
      && at.y == lo.y
      && (c.align == Left ==> at.x == lo.x && r.frame[0] == Raw(if c.focus then InverseColors else NormalColors))
      && (c.align == Right ==> at.x + len == hi.x)
      && (c.align == Center ==> at.x == lo.x + CeilHalf(hi.x - lo.x) - CeilHalf(len) + 2)
  {
    TruncationKeepsPrefix(c.text, lo, hi);
  }

  /**
   * The spinner step of one render: an inactive spinner stays at -1 and the
   * visible text is written plain; an active one wraps to 0 when it equals the
   * visible length, highlights exactly that character when it is a valid
   * index (and nothing otherwise), then moves on by one.
   */
  lemma RenderSpinner(c: Content, lo: Point, hi: Point)
    ensures var r := Render(c, lo, hi);
      var vis := c.text[..VisibleLength(c.text, lo, hi)];
      var (inverse, normal) := Colours(c.focus);
      var msg := Drawn(c, r).msg;
      && (c.spinner == -1 ==> r.content.spinner == -1 && msg == vis)
      && (c.spinner != -1 ==>
            var k := if c.spinner == |vis| then 0 else c.spinner;
            && r.content.spinner == k + 1
            && (0 <= k < |vis| ==> msg == vis[..k] + inverse + [vis[k]] + normal + vis[k + 1..])
            && (!(0 <= k < |vis|) ==> msg == vis))
  {
    var vis := c.text[..VisibleLength(c.text, lo, hi)];
    TruncationKeepsPrefix(c.text, lo, hi);
    var (inverse, normal) := Colours(c.focus);
    HighlightShape(vis, SpinSlot(c.spinner, |vis|), inverse, normal);
  }

  /** The spinner after n renders at a fixed visible length. */
  function SpinAfter(spinner: int, len: nat, n: nat): int
    decreases n
  {
    if n == 0 then spinner else NextSpinner(SpinAfter(spinner, len, n - 1), len)
  }

  /** A content rendered n times into the same box. */
  function RenderTimes(c: Content, lo: Point, hi: Point, n: nat): (r: Content)
    decreases n
  {
    if n == 0 then c else Render(RenderTimes(c, lo, hi, n - 1), lo, hi).content
  }

  /** Repeated renders change nothing but the spinner, which follows `SpinAfter`. */
  lemma {:induction false} RenderTimesSpinner(c: Content, lo: Point, hi: Point, n: nat)
    ensures RenderTimes(c, lo, hi, n) == c.(spinner := SpinAfter(c.spinner, VisibleLength(c.text, lo, hi), n))
    decreases n
  {
    if n > 0 {
      RenderTimesSpinner(c, lo, hi, n - 1);
      TruncationKeepsPrefix(c.text, lo, hi);
    }
  }

  /** Started at 0 (as a fetch starts it), the spinner counts 0, 1, ..., len during the first len renders. */
  lemma {:induction false} SpinnerCountsUp(len: nat, n: nat)
    requires n <= len
    ensures SpinAfter(0, len, n) == n
    decreases n
  {
    if n > 0 {
      SpinnerCountsUp(len, n - 1);
    }
  }

  /**
   * Started at 0 over a non-empty visible text, the spinner highlights
   * positions 0, 1, ..., len-1 in turn and then repeats with period len; its
   * value never leaves 0 .. len.
   */
  lemma {:induction false} SpinnerCycles(len: nat, n: nat)
    requires len > 0
    ensures n < len ==> SpinSlot(SpinAfter(0, len, n), len) == n
    ensures SpinSlot(SpinAfter(0, len, n + len), len) == SpinSlot(SpinAfter(0, len, n), len)
    ensures 0 <= SpinAfter(0, len, n) <= len
    decreases n
  {
    if n == 0 {
      SpinnerCountsUp(len, len);
    } else if n < len {
      SpinnerCountsUp(len, n);
      SpinnerPeriodic(len, n);
    } else {
      SpinnerCycles(len, n - 1);
      SpinnerPeriodic(len, n);
    }
  }

  /** After the first render the spinner value repeats with period len. */
  lemma {:induction false} SpinnerPeriodic(len: nat, n: nat)
    requires len > 0 && n >= 1
    ensures SpinAfter(0, len, n + len) == SpinAfter(0, len, n)
    ensures 1 <= SpinAfter(0, len, n) <= len
    decreases n
  {
    if n == 1 {
      SpinnerCountsUp(len, len);
      assert SpinAfter(0, len, len + 1) == NextSpinner(SpinAfter(0, len, len), len);
    } else {
      SpinnerPeriodic(len, n - 1);
      assert SpinAfter(0, len, n + len) == NextSpinner(SpinAfter(0, len, n - 1 + len), len);
    }
  }

  /**
   * A spinner that is ahead of the visible length (the box shrank while it
   * ran) never wraps again: it keeps growing and no render highlights anything.
   */
  lemma {:induction false} SpinnerPastWidthNeverReturns(spinner: int, len: nat, n: nat)
    requires spinner > len
    ensures SpinAfter(spinner, len, n) > len
    ensures SpinSlot(SpinAfter(spinner, len, n), len) >= len
    decreases n
  {
    if n > 0 {
      SpinnerPastWidthNeverReturns(spinner, len, n - 1);
    }
  }

  lemma ConcatNoLineBreak(a: string, b: string)
    requires NoLineBreak(a) && NoLineBreak(b)
    ensures NoLineBreak(a + b)
  {
    assert forall x :: x in a + b ==> x in a || x in b;
  }

  lemma SliceNoLineBreak(s: string, i: nat, j: nat)
    requires i <= j <= |s| && NoLineBreak(s)
    ensures NoLineBreak(s[i..j])
  {
    assert forall x :: x in s[i..j] ==> x in s;
  }

  /** Highlighting a line-free text keeps it line-free. */
  lemma MessageNoLineBreak(c: Content, vis: string)
    requires NoLineBreak(vis)
    ensures NoLineBreak(Message(c, vis))
  {
    var (inverse, normal) := Colours(c.focus);
    assert NoLineBreak(inverse) && NoLineBreak(normal);
    var k := SpinSlot(c.spinner, |vis|);
    HighlightShape(vis, k, inverse, normal);
    if c.spinner != -1 && 0 <= k < |vis| {
      SliceNoLineBreak(vis, 0, k);
      SliceNoLineBreak(vis, k, k + 1);
      SliceNoLineBreak(vis, k + 1, |vis|);
      assert vis[k..k + 1] == [vis[k]];
      assert vis[..k] == vis[0..k] && vis[k + 1..] == vis[k + 1..|vis|];
      ConcatNoLineBreak(vis[..k], inverse);
      ConcatNoLineBreak(vis[..k] + inverse, [vis[k]]);
      ConcatNoLineBreak(vis[..k] + inverse + [vis[k]], normal);
      ConcatNoLineBreak(vis[..k] + inverse + [vis[k]] + normal, vis[k + 1..]);
    }
  }

  /** A render of an admissible content writes no newline and no carriage return. */
  lemma RenderNoLineBreak(c: Content, lo: Point, hi: Point)
    requires Admissible(c.text)
    ensures NoLineBreak(Serialize(Render(c, lo, hi).frame))
  {
    NewRejectsLineBreaks(c.text, c.align);
    var vis := Visible(c.text, lo, hi);
    TruncationKeepsPrefix(c.text, lo, hi);
    assert NoLineBreak(vis) by {
      assert forall i :: 0 <= i < |vis| ==> vis[i] == c.text[i];
    }
    MessageNoLineBreak(c, vis);
    EscapeSequencesHaveNoLineBreak();
    assert NoLineBreak(InverseColors) && NoLineBreak(NormalColors) by {
      assert AllEscapeSequences[3] == InverseColors && AllEscapeSequences[4] == NormalColors;
    }
    SerializeNoLineBreak(Render(c, lo, hi).frame);
  }
}
