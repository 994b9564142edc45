/**
 * The terminal vocabulary of the dashboard: the ANSI escape codes it emits,
 * the cursor-addressed draw command (`getpos`) and the serialiser that turns a
 * frame of such commands into the back-buffer string written to the terminal.
 * A parser for one draw command is given as the serialiser's inverse.
 */
module Terminal {
  import opened Wrappers
  import opened Geometry

  const Esc: char := '\U{1B}'

  const HideCursor: string := "\U{1B}[?25l"
  const ShowCursor: string := "\U{1B}[?25h"
  const ClearScreen: string := "\U{1B}[2J"
  const InverseColors: string := "\U{1B}[7m"
  const NormalColors: string := "\U{1B}[27m"
  const ResetMode: string := "\U{1B}[0m"
  const Bold: string := "\U{1B}[1m"
  const Underline: string := "\U{1B}[4m"
  const NoUnderline: string := "\U{1B}[24m"

  /** Every escape sequence the program itself emits; content text may contain none of them. */
  const AllEscapeSequences: seq<string> :=
    [HideCursor, ShowCursor, ClearScreen, InverseColors, NormalColors,
     ResetMode, Bold, Underline, NoUnderline]

  /**
   * One piece of a frame: `Put(x, y, msg)` is a call of `getpos` (move the
   * cursor to column x, row y and write msg); `Raw` is text emitted without a
   * cursor move (colour codes, the clear-screen code).
   */
  datatype Cmd = Put(x: int, y: int, msg: string) | Raw(text: string)

  type Frame = seq<Cmd>

  /** Neither a newline nor a carriage return occurs in s. */
  predicate NoLineBreak(s: string) {
    '\n' !in s && '\r' !in s
  }

  predicate IsDigit(c: char) {
    '0' <= c <= '9'
  }

  predicate AllDigits(s: string) {
    forall i :: 0 <= i < |s| ==> IsDigit(s[i])
  }

  function DigitChar(d: nat): (c: char)
    requires d < 10
    ensures IsDigit(c) && c as int - '0' as int == d
  {
    (d + '0' as int) as char
  }

  /** The decimal numeral of n, as Python's `str` writes it. */
  function NatToDecimal(n: nat): (s: string)
    ensures |s| >= 1 && AllDigits(s)
    decreases n
  {
    if n < 10 then [DigitChar(n)] else NatToDecimal(n / 10) + [DigitChar(n % 10)]
  }

  /** An integer as Python's f-string formats it: a minus sign for negatives. */
  function IntToDecimal(n: int): (s: string)
    ensures |s| >= 1
    ensures n >= 0 <==> AllDigits(s)
    ensures forall i :: 0 <= i < |s| ==> s[i] != ';' && s[i] != 'H' && s[i] != '\n' && s[i] != '\r'
  {
    if n < 0 then
      var s := "-" + NatToDecimal(-n);
      assert !IsDigit(s[0]);
      s
    else NatToDecimal(n)
  }

  /** The value of a run of decimal digits; the empty run is 0. */
  function DecimalValue(s: string): nat
    requires AllDigits(s)
    decreases |s|
  {
    if |s| == 0 then 0
    else DecimalValue(s[..|s| - 1]) * 10 + (s[|s| - 1] as int - '0' as int)
  }

  lemma {:induction false} DecimalRoundTrip(n: nat)
    ensures DecimalValue(NatToDecimal(n)) == n
    decreases n
  {
    if n >= 10 {
      var s := NatToDecimal(n);
      assert s[..|s| - 1] == NatToDecimal(n / 10);
      DecimalRoundTrip(n / 10);
    }
  }

  /** Reads an integer written by `IntToDecimal`. */
  function ParseInt(s: string): Option<int> {
    if |s| > 0 && AllDigits(s) then Some(DecimalValue(s))
    else if |s| > 1 && s[0] == '-' && AllDigits(s[1..]) then
      var v: int := DecimalValue(s[1..]);
      Some(-v)
    else None
  }

  lemma IntRoundTrip(n: int)
    ensures ParseInt(IntToDecimal(n)) == Some(n)
  {
    var s := IntToDecimal(n);
    if n < 0 {
      assert s[1..] == NatToDecimal(-n);
      assert !IsDigit(s[0]);
      DecimalRoundTrip(-n);
    } else {
      DecimalRoundTrip(n);
    }
  }

  /** `getpos` of the source: ESC [ row ; column H, then the message. */
  function GetPos(x: int, y: int, msg: string): string
  {
    [Esc, '['] + IntToDecimal(y) + ";" + IntToDecimal(x) + "H" + msg
  }

  function SerializeCmd(c: Cmd): string {
    match c
    case Put(x, y, msg) => GetPos(x, y, msg)
    case Raw(t) => t
  }

  /** The back-buffer string a frame stands for: its commands' strings in order. */
  function Serialize(f: Frame): (s: string)
    ensures |f| == 0 ==> s == ""
    decreases |f|
  {
    if |f| == 0 then "" else SerializeCmd(f[0]) + Serialize(f[1..])
  }

  lemma {:induction false} SerializeAppend(a: Frame, b: Frame)
    ensures Serialize(a + b) == Serialize(a) + Serialize(b)
    decreases |a|
  {
    if |a| > 0 {
      assert (a + b)[0] == a[0];
      assert (a + b)[1..] == a[1..] + b;
      SerializeAppend(a[1..], b);
    } else {
      assert a + b == b;
    }
  }

  /** Splits s at the first occurrence of c. */
  function SplitFirst(s: string, c: char): Option<(string, string)>
    decreases |s|
  {
    if |s| == 0 then None
    else if s[0] == c then Some(("", s[1..]))
    else match SplitFirst(s[1..], c)
      case None => None
      case Some(p) => Some(([s[0]] + p.0, p.1))
  }

  lemma {:induction false} SplitFirstAt(a: string, c: char, b: string)
    requires c !in a
    ensures SplitFirst(a + [c] + b, c) == Some((a, b))
    decreases |a|
  {
    if |a| > 0 {
      assert (a + [c] + b)[1..] == a[1..] + [c] + b;
      SplitFirstAt(a[1..], c, b);
      assert [a[0]] + a[1..] == a;
    } else {
      assert a + [c] + b == [c] + b;
    }
  }

  /** Reads back one cursor-addressed command produced by `GetPos`. */
  function ParsePut(s: string): Option<Cmd> {
    if |s| < 2 || s[0] != Esc || s[1] != '[' then None
    else match SplitFirst(s[2..], ';')
      case None => None
      case Some(rowRest) =>
        match SplitFirst(rowRest.1, 'H')
        case None => None
        case Some(colRest) =>
          match (ParseInt(rowRest.0), ParseInt(colRest.0))
          case (Some(y), Some(x)) => Some(Put(x, y, colRest.1))
          case _ => None
  }

  /** `getpos` loses nothing: the row, the column and the message can all be read back. */
  lemma GetPosRoundTrip(x: int, y: int, msg: string)
    ensures ParsePut(GetPos(x, y, msg)) == Some(Put(x, y, msg))
  {
    var ys, xs := IntToDecimal(y), IntToDecimal(x);
    var s := GetPos(x, y, msg);
    assert s[2..] == ys + [';'] + (xs + "H" + msg);
    SplitFirstAt(ys, ';', xs + "H" + msg);
    assert xs + "H" + msg == xs + ['H'] + msg;
    SplitFirstAt(xs, 'H', msg);
    IntRoundTrip(y);
    IntRoundTrip(x);
  }

  /** A frame whose messages and raw texts hold no line break serialises to a string without one. */
  lemma {:induction false} SerializeNoLineBreak(f: Frame)
    requires forall i :: 0 <= i < |f| ==> NoLineBreak(if f[i].Put? then f[i].msg else f[i].text)
    ensures NoLineBreak(Serialize(f))
    decreases |f|
  {
    if |f| > 0 {
      SerializeNoLineBreak(f[1..]);
      match f[0]
      case Put(x, y, msg) =>
        var s := GetPos(x, y, msg);
        assert s == [Esc, '['] + IntToDecimal(y) + ";" + IntToDecimal(x) + "H" + msg;
      case Raw(t) =>
    }
  }

  /**
   * What a frame leaves at the cells where its cursor-addressed commands
   * start: for each such cell, the message of the last command starting there
   * (later writes overwrite earlier ones). A message is recorded whole at its
   * first cell only, so a later write into the middle of a longer message is
   * not seen here.
   */
  function Paint(f: Frame): map<Point, string>
    decreases |f|
  {
    if |f| == 0 then map[]
    else
      var last := f[|f| - 1];
      var before := Paint(f[..|f| - 1]);
      if last.Put? then before[Point(last.x, last.y) := last.msg] else before
  }

  /** Drawing a then b leaves what a leaves, overwritten by what b leaves. */
  lemma {:induction false} PaintAppend(a: Frame, b: Frame)
    ensures Paint(a + b) == Paint(a) + Paint(b)
    decreases |b|
  {
    if |b| == 0 {
      assert a + b == a;
    } else {
      var b' := b[..|b| - 1];
      assert (a + b)[..|a + b| - 1] == a + b';
      assert (a + b)[|a + b| - 1] == b[|b| - 1];
      PaintAppend(a, b');
    }
  }

  /** A frame of one command leaves at most that command's message. */
  lemma PaintOne(c: Cmd)
    ensures Paint([c]) == if c.Put? then map[Point(c.x, c.y) := c.msg] else map[]
  {
    assert [c][..0] == [];
  }

  /** Two cursor-addressed commands: the second overwrites the first if they share a cell. */
  lemma PaintTwo(c: Cmd, d: Cmd)
    requires c.Put? && d.Put?
    ensures Paint([c, d]) == map[Point(c.x, c.y) := c.msg][Point(d.x, d.y) := d.msg]
  {
    assert [c, d][..1] == [c];
    PaintOne(c);
  }

  lemma EscapeSequencesHaveNoLineBreak()
    ensures forall i :: 0 <= i < |AllEscapeSequences| ==> NoLineBreak(AllEscapeSequences[i])
  {
  }
}
