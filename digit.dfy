/**
 * The big-digit renderer of src/digit.rs: a 5x5 text glyph per character,
 * glyphs laid side by side row by row.
 */
module Digit {
  import opened Wrappers

  /** Rust's `u8`. */
  type u8 = x: int | 0 <= x < 256

  /** A glyph (or a whole frame): its lines, top to bottom. */
  type Glyph = seq<string>

  const BLANK_ROW: string := "     "

  /** Five lines, each five characters wide. */
  predicate IsGlyph(g: Glyph) {
    |g| == 5 && forall i | 0 <= i < 5 :: |g[i]| == 5
  }

  /** `get_digit`: the glyph of a digit value; any value above 9 is the blank glyph. */
  function GetDigit(digit: u8): (g: Glyph)
    ensures IsGlyph(g)
    ensures digit > 9 ==> forall i | 0 <= i < 5 :: g[i] == BLANK_ROW
  {
    match digit
    case 0 => [".---.", "|   |", "|   |", "|   |", "'---'"]
    case 1 => ["  .  ", "  |  ", "  |  ", "  |  ", "  |  "]
    case 2 => [".---.", "    |", ".---.", "|    ", "'---'"]
    case 3 => [".---.", "    |", ".---.", "    |", "'---'"]
    case 4 => ["|   |", "|   |", "'---|", "    |", "    |"]
    case 5 => [".---.", "|    ", "'---.", "    |", "'---'"]
    case 6 => [".---.", "|    ", "|---.", "|   |", "'---'"]
    case 7 => [".---.", "    |", "    |", "    |", "    |"]
    case 8 => [".---.", "|   |", "|---.", "|   |", "'---'"]
    case 9 => [".---.", "|   |", "'---|", "    |", "'---'"]
    case _ => ["     ", "     ", "     ", "     ", "     "]
  }

  /** `get_colon`: two dots in the middle column, on the second and fourth lines. */
  function Colon(): (g: Glyph)
    ensures IsGlyph(g)
    ensures g[0] == g[2] == g[4] == BLANK_ROW && g[1] == g[3] != BLANK_ROW
  {
    ["     ", "  o  ", "     ", "  o  ", "     "]
  }

  /** `get_dot`: the only mark is on the last line. */
  function Dot(): (g: Glyph)
    ensures IsGlyph(g)
    ensures forall i | 0 <= i < 4 :: g[i] == BLANK_ROW
    ensures g[4] != BLANK_ROW
  {
    ["     ", "     ", "     ", "     ", "  o  "]
  }

  /** The glyph `render_time` pushes for one character: a digit, `:`, `.`, or blank for anything else. */
  function GlyphOf(c: char): (g: Glyph)
    ensures IsGlyph(g)
  {
    if '0' <= c <= '9' then GetDigit(c as int - '0' as int)
    else if c == ':' then Colon()
    else if c == '.' then Dot()
    else ["     ", "     ", "     ", "     ", "     "]
  }

  /** The glyphs of a string, one per character, in order. */
  function Glyphs(s: string): (gs: seq<Glyph>)
    ensures |gs| == |s|
    ensures forall k | 0 <= k < |s| :: gs[k] == GlyphOf(s[k])
  {
    seq(|s|, k requires 0 <= k < |s| => GlyphOf(s[k]))
  }

  /** Line i of a glyph, or nothing when the glyph has fewer lines. */
  function LineOf(g: Glyph, i: nat): string {
    if i < |g| then g[i] else ""
  }

  /** Row i of `combine_digits`: line i of every glyph, left to right. */
  function RowOf(glyphs: seq<Glyph>, i: nat): string {
    if |glyphs| == 0 then "" else RowOf(glyphs[..|glyphs| - 1], i) + LineOf(glyphs[|glyphs| - 1], i)
  }

  /** The number of rows `combine_digits` allocates: the first glyph's height, or 0. */
  function Height(glyphs: seq<Glyph>): nat {
    if |glyphs| == 0 then 0 else |glyphs[0]|
  }

  /** `combine_digits` indexes its rows by every glyph's lines, so no glyph may be taller than the first. */
  predicate Combinable(glyphs: seq<Glyph>) {
    forall k | 0 <= k < |glyphs| :: |glyphs[k]| <= Height(glyphs)
  }

  /** The frame `combine_digits` returns. */
  function Combined(glyphs: seq<Glyph>): seq<string> {
    seq(Height(glyphs), i requires 0 <= i => RowOf(glyphs, i))
  }

  /** The frame `render_time` returns. */
  function Rendered(s: string): seq<string> {
    Combined(Glyphs(s))
  }

  /**
   * `combine_digits`: starts from Height empty rows and appends each glyph's
   * lines to the rows with the same index, glyph by glyph.
   */
  method CombineDigits(digits: seq<Glyph>) returns (result: seq<string>)
    requires Combinable(digits)
    ensures |result| == Height(digits)
    ensures forall i | 0 <= i < |result| :: result[i] == RowOf(digits, i)
  {
    var height := if |digits| > 0 then |digits[0]| else 0;
    result := seq(height, _ => "");
    var k := 0;
    while k < |digits|
      invariant 0 <= k <= |digits|
      invariant |result| == height
      invariant forall i | 0 <= i < height :: result[i] == RowOf(digits[..k], i)
    {
      var digit := digits[k];
      assert digits[..k + 1][..k] == digits[..k];
      var i := 0;
      while i < |digit|
        invariant 0 <= i <= |digit| <= height
        invariant |result| == height
        invariant forall r | 0 <= r < i :: result[r] == RowOf(digits[..k + 1], r)
        invariant forall r | i <= r < height :: result[r] == RowOf(digits[..k], r)
      {
        result := result[i := result[i] + digit[i]];
        i := i + 1;
      }
      k := k + 1;
    }
    assert digits[..k] == digits;
  }

  /** `render_time`: one glyph per character, then `combine_digits`. */
  method RenderTime(timeString: string) returns (frame: seq<string>)
    ensures frame == Rendered(timeString)
  {
    var digitArts: seq<Glyph> := [];
    for k := 0 to |timeString|
      invariant digitArts == Glyphs(timeString[..k])
    {
      digitArts := digitArts + [GlyphOf(timeString[k])];
    }
    assert timeString[..|timeString|] == timeString;
    frame := CombineDigits(digitArts);
  }

  /** Rows of glyphs side by side: the row of a concatenation is the concatenation of rows. */
  lemma {:induction false} RowOfConcat(xs: seq<Glyph>, ys: seq<Glyph>, i: nat)
    ensures RowOf(xs + ys, i) == RowOf(xs, i) + RowOf(ys, i)
  {
    if |ys| == 0 {
      assert xs + ys == xs;
    } else {
      var init, last := ys[..|ys| - 1], ys[|ys| - 1];
      assert (xs + ys)[..|xs + ys| - 1] == xs + init;
      assert (xs + ys)[|xs + ys| - 1] == last;
      RowOfConcat(xs, init, i);
      calc {
        RowOf(xs + ys, i);
        RowOf(xs + init, i) + LineOf(last, i);
        (RowOf(xs, i) + RowOf(init, i)) + LineOf(last, i);
        RowOf(xs, i) + (RowOf(init, i) + LineOf(last, i));
        RowOf(xs, i) + RowOf(ys, i);
      }
    }
  }

  lemma SliceOfFront(front: string, back: string, lo: nat, hi: nat)
    requires lo <= hi <= |front|
    ensures (front + back)[lo..hi] == front[lo..hi]
  {
  }

  /**
   * Row i of a line of 5x5 glyphs is five characters per glyph, and the five
   * characters of glyph k are line i of that glyph.
   */
  lemma {:induction false} RowOfGlyphs(glyphs: seq<Glyph>, i: nat)
    requires i < 5 && forall k | 0 <= k < |glyphs| :: IsGlyph(glyphs[k])
    ensures forall k | 0 <= k < |glyphs| :: i < |glyphs[k]|
    ensures |RowOf(glyphs, i)| == 5 * |glyphs|
    ensures forall k | 0 <= k < |glyphs| :: RowOf(glyphs, i)[5 * k..5 * k + 5] == glyphs[k][i]
  {
    if |glyphs| > 0 {
      var init := glyphs[..|glyphs| - 1];
      RowOfGlyphs(init, i);
      var front, back := RowOf(init, i), glyphs[|glyphs| - 1][i];
      assert RowOf(glyphs, i) == front + back;
      forall k | 0 <= k < |glyphs|
        ensures (front + back)[5 * k..5 * k + 5] == glyphs[k][i]
      {
        if k < |glyphs| - 1 {
          SliceOfFront(front, back, 5 * k, 5 * k + 5);
          assert init[k] == glyphs[k];
        } else {
          assert (front + back)[|front|..|front| + |back|] == back;
        }
      }
    }
  }

  /**
   * A rendered frame is rectangular: five rows of five columns per character
   * (no rows at all for the empty string), and columns 5k..5k+5 of row i hold
   * line i of the glyph of character k.
   */
  lemma RenderedShape(s: string)
    ensures |Rendered(s)| == if s == [] then 0 else 5
    ensures forall i | 0 <= i < |Rendered(s)| :: |Rendered(s)[i]| == 5 * |s|
    ensures forall i, k | 0 <= i < |Rendered(s)| && 0 <= k < |s| ::
      Rendered(s)[i][5 * k..5 * k + 5] == GlyphOf(s[k])[i]
  {
    forall i | 0 <= i < |Rendered(s)|
      ensures |Rendered(s)[i]| == 5 * |s|
      ensures forall k | 0 <= k < |s| :: Rendered(s)[i][5 * k..5 * k + 5] == GlyphOf(s[k])[i]
    {
      RowOfGlyphs(Glyphs(s), i);
    }
  }

  /** Rendering is compositional: row i of the frame of a + b is row i of a's frame, then of b's. */
  lemma RenderedConcat(a: string, b: string)
    requires a != [] && b != []
    ensures |Rendered(a + b)| == |Rendered(a)| == |Rendered(b)| == 5
    ensures forall i | 0 <= i < 5 :: Rendered(a + b)[i] == Rendered(a)[i] + Rendered(b)[i]
  {
    var ga, gb := Glyphs(a), Glyphs(b);
    assert Glyphs(a + b) == ga + gb by {
      forall k | 0 <= k < |a + b|
        ensures Glyphs(a + b)[k] == (ga + gb)[k]
      {
        if k < |a| {
          assert (a + b)[k] == a[k];
        } else {
          assert (a + b)[k] == b[k - |a|];
        }
      }
    }
    assert |Rendered(a)| == |ga[0]| && |Rendered(b)| == |gb[0]|;
    forall i | 0 <= i < 5
      ensures Rendered(a + b)[i] == Rendered(a)[i] + Rendered(b)[i]
    {
      RowOfConcat(ga, gb, i);
    }
  }

  /** Column 5j + m of row i of a rendered frame is column m of line i of the glyph of character j. */
  lemma RenderedCell(s: string, i: nat, j: nat, m: nat)
    requires i < |Rendered(s)| && j < |s| && m < 5
    ensures |Rendered(s)[i]| == 5 * |s|
    ensures Rendered(s)[i][5 * j + m] == GlyphOf(s[j])[i][m]
  {
    RenderedShape(s);
    assert Rendered(s)[i][5 * j..5 * j + 5] == GlyphOf(s[j])[i];
    assert Rendered(s)[i][5 * j + m] == Rendered(s)[i][5 * j..5 * j + 5][m];
  }

  /**
   * Changing character k of the string changes nothing in any row outside
   * columns 5k..5k+5.
   */
  lemma ChangeOneCharacter(a: string, b: string, k: nat)
    requires |a| == |b| && k < |a|
    requires forall j | 0 <= j < |a| && j != k :: a[j] == b[j]
    ensures |Rendered(a)| == |Rendered(b)|
    ensures forall i | 0 <= i < |Rendered(a)| :: |Rendered(a)[i]| == |Rendered(b)[i]| == 5 * |a|
    ensures forall i, col | 0 <= i < |Rendered(a)| && 0 <= col < 5 * |a| && !(5 * k <= col < 5 * k + 5) ::
      Rendered(a)[i][col] == Rendered(b)[i][col]
  {
    assert |Rendered(a)| == |Rendered(b)| == if a == [] then 0 else 5 by {
      RenderedShape(a);
      RenderedShape(b);
    }
    forall i | 0 <= i < |Rendered(a)|
      ensures |Rendered(a)[i]| == |Rendered(b)[i]| == 5 * |a|
    {
      RenderedCell(a, i, 0, 0);
      RenderedCell(b, i, 0, 0);
    }
    forall i, col | 0 <= i < |Rendered(a)| && 0 <= col < 5 * |a| && !(5 * k <= col < 5 * k + 5)
      ensures Rendered(a)[i][col] == Rendered(b)[i][col]
    {
      var j, m := col / 5, col % 5;
      assert col == 5 * j + m && j != k;
      RenderedCell(a, i, j, m);
      RenderedCell(b, i, j, m);
    }
  }

  /** The digit a glyph stands for, if it is one of the ten digit glyphs. */
  function DigitOfGlyph(g: Glyph): Option<char> {
    if g == GetDigit(0) then Some('0')
    else if g == GetDigit(1) then Some('1')
    else if g == GetDigit(2) then Some('2')
    else if g == GetDigit(3) then Some('3')
    else if g == GetDigit(4) then Some('4')
    else if g == GetDigit(5) then Some('5')
    else if g == GetDigit(6) then Some('6')
    else if g == GetDigit(7) then Some('7')
    else if g == GetDigit(8) then Some('8')
    else if g == GetDigit(9) then Some('9')
    else None
  }

  /** The character a glyph stands for: a digit, `:` or `.`, and a space for the blank glyph. */
  function Recognize(g: Glyph): char {
    match DigitOfGlyph(g)
    case Some(d) => d
    case None => if g == Colon() then ':' else if g == Dot() then '.' else ' '
  }

  /** What a character looks like on screen: itself if it has a glyph, a space otherwise. */
  function Shown(c: char): char {
    if '0' <= c <= '9' || c == ':' || c == '.' then c else ' '
  }

  /** The ten digit glyphs are pairwise different and differ from the colon, the dot and the blank glyph. */
  lemma RecognizeDigit(d: u8)
    requires d <= 9
    ensures Recognize(GetDigit(d)) == ('0' as int + d) as char
  {
    match d
    case 0 => assert Recognize(GetDigit(0)) == '0';
    case 1 => assert Recognize(GetDigit(1)) == '1';
    case 2 => assert Recognize(GetDigit(2)) == '2';
    case 3 => assert Recognize(GetDigit(3)) == '3';
    case 4 => assert Recognize(GetDigit(4)) == '4';
    case 5 => assert Recognize(GetDigit(5)) == '5';
    case 6 => assert Recognize(GetDigit(6)) == '6';
    case 7 => assert Recognize(GetDigit(7)) == '7';
    case 8 => assert Recognize(GetDigit(8)) == '8';
    case 9 => assert Recognize(GetDigit(9)) == '9';
  }

  /** Every digit glyph has a mark on its top line; the colon, the dot and the blank glyph do not. */
  lemma DigitsMarkedOnTop()
    ensures forall d: u8 | d <= 9 :: GetDigit(d)[0] != BLANK_ROW
  {
    forall d: u8 | d <= 9
      ensures GetDigit(d)[0] != BLANK_ROW
    {
      assert GetDigit(d)[0][0] != ' ' || GetDigit(d)[0][2] != ' ';
    }
  }

  /** A glyph with an empty top line is not a digit. */
  lemma BlankTopIsNoDigit(g: Glyph)
    requires |g| > 0 && g[0] == BLANK_ROW
    ensures DigitOfGlyph(g) == None
  {
    DigitsMarkedOnTop();
  }

  /** The colon glyph differs from every digit glyph. */
  lemma RecognizeColon()
    ensures Recognize(Colon()) == ':'
  {
    BlankTopIsNoDigit(Colon());
  }

  /** The dot glyph differs from every digit glyph and from the colon. */
  lemma RecognizeDot()
    ensures Recognize(Dot()) == '.'
  {
    BlankTopIsNoDigit(Dot());
    assert Dot()[1] != Colon()[1];
  }

  /** The blank glyph differs from all the others. */
  lemma RecognizeBlank(c: char)
    requires !('0' <= c <= '9' || c == ':' || c == '.')
    ensures Recognize(GlyphOf(c)) == ' '
  {
    var g := GlyphOf(c);
    assert g[0] == BLANK_ROW && g[1] == BLANK_ROW && g[4] == BLANK_ROW;
    BlankTopIsNoDigit(g);
    assert g != Colon() && g != Dot();
  }

  /** Each glyph tells its character back; characters without a glyph read as a space. */
  lemma RecognizeGlyph(c: char)
    ensures Recognize(GlyphOf(c)) == Shown(c)
  {
    if '0' <= c <= '9' {
      RecognizeDigit(c as int - '0' as int);
    } else if c == ':' {
      RecognizeColon();
    } else if c == '.' {
      RecognizeDot();
    } else {
      RecognizeBlank(c);
    }
  }

  /** Glyph k of a frame: columns 5k..5k+5 of each of its five rows. */
  function GlyphAt(frame: seq<string>, k: nat): Glyph
    requires |frame| == 5 && forall i | 0 <= i < 5 :: |frame[i]| >= 5 * k + 5
  {
    seq(5, i requires 0 <= i < 5 => frame[i][5 * k..5 * k + 5])
  }

  /** Reading n characters back off a frame, glyph by glyph. */
  function ReadFrame(frame: seq<string>, n: nat): string
    requires |frame| == 5 && forall i | 0 <= i < 5 :: |frame[i]| == 5 * n
  {
    seq(n, k requires 0 <= k < n => Recognize(GlyphAt(frame, k)))
  }

  /** A rendered frame reads back as the string, with every character without a glyph shown as a space. */
  lemma ReadBack(s: string)
    requires s != []
    ensures |Rendered(s)| == 5 && forall i | 0 <= i < 5 :: |Rendered(s)[i]| == 5 * |s|
    ensures ReadFrame(Rendered(s), |s|) == seq(|s|, k requires 0 <= k < |s| => Shown(s[k]))
  {
    RenderedShape(s);
    forall k | 0 <= k < |s|
      ensures Recognize(GlyphAt(Rendered(s), k)) == Shown(s[k])
    {
      assert GlyphAt(Rendered(s), k) == GlyphOf(s[k]);
      RecognizeGlyph(s[k]);
    }
  }
}
