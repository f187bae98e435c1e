/** The digits of font.h as figures, and how far a drawn score tells which score it is. */
module Font {
  import opened Layout
  import opened Words
  import opened Pictures

  // ---------------------------------------------------------------- the ten figures

  /** The strokes of a seven-segment digit, on rows 0..4 and columns 1..4. */
  predicate Segments(d: nat, i: int, j: int) {
    || (i == 0 && 1 <= j <= 4 && d != 1 && d != 4)                        // top
    || (i == 2 && 1 <= j <= 4 && d != 0 && d != 1 && d != 7)              // middle
    || (i == 4 && 1 <= j <= 4 && d != 1 && d != 4 && d != 7)              // bottom
    || (0 <= i <= 2 && j == 1 && d != 1 && d != 2 && d != 3 && d != 7)    // upper left
    || (0 <= i <= 2 && j == 4 && d != 5 && d != 6)                        // upper right
    || (2 <= i <= 4 && j == 1 && (d == 0 || d == 2 || d == 6 || d == 8))  // lower left
    || (2 <= i <= 4 && j == 4 && d != 2)                                  // lower right
  }

  /** The figure that the font has for each digit. */
  predicate Figure(d: nat, i: int, j: int) {
    if d == 0 then 0 <= i <= 4 && 0 <= j <= 4 && (i == 0 || i == 4 || j == 0 || j == 4)
    else if d == 1 then (0 <= i <= 4 && j == 2) || (i == 4 && 1 <= j <= 3) || (i == 1 && j == 1)
    else if d == 2 then (i == 4 && 0 <= j <= 2) || (i == 1 && (j == 0 || j == 2)) || (i == 2 && j == 2)
                        || ((i == 0 || i == 3) && j == 1)
    else if d == 6 then Segments(9, 4 - i, j)
    else if d == 7 then (i == 0 && 1 <= j <= 4) || (0 < i <= 4 && i + j == 5)
    else Segments(d, i, j)
  }

  lemma FiveBits(v: nat)
    requires v < 32
    ensures (Bit(v, 0) <==> v % 2 == 1) && (Bit(v, 1) <==> v / 2 % 2 == 1) && (Bit(v, 2) <==> v / 4 % 2 == 1)
    ensures (Bit(v, 3) <==> v / 8 % 2 == 1) && (Bit(v, 4) <==> v / 16 % 2 == 1)
  {
    assert v / 2 / 2 == v / 4 && v / 2 / 2 / 2 == v / 8 && v / 2 / 2 / 2 / 2 == v / 16;
    assert Bit(v, 1) == Bit(v / 2, 0);
    assert Bit(v, 2) == Bit(v / 2, 1) == Bit(v / 2 / 2, 0);
    assert Bit(v, 3) == Bit(v / 2, 2) == Bit(v / 2 / 2, 1) == Bit(v / 2 / 2 / 2, 0);
    assert Bit(v, 4) == Bit(v / 2, 3) == Bit(v / 2 / 2, 2) == Bit(v / 2 / 2 / 2, 1) == Bit(v / 2 / 2 / 2 / 2, 0);
  }

  /** The zero is a frame, the seven a bar and a diagonal, the six a nine upside down; 3, 4, 5, 8 and 9 are
      seven-segment digits. */
  lemma GlyphIsFigure(d: nat, i: int, j: int)
    requires d < 10
    ensures InGlyph(d, i, j) <==> Figure(d, i, j)
  {
    hide Bit;
    if 0 <= i < CHAR_SIZE && 0 <= j < CHAR_SIZE {
      FiveBits(FONT[d].ptr[i]);
    }
  }

  ghost predicate SevenSegment(d: nat) {
    forall i, j :: InGlyph(d, i, j) <==> Segments(d, i, j)
  }

  /** The font is a seven-segment font exactly for those five digits; the six has the wrong upper stroke. */
  lemma SevenSegmentExactly(d: nat)
    requires d < 10
    ensures SevenSegment(d) <==> d == 3 || d == 4 || d == 5 || d == 8 || d == 9
  {
    hide InGlyph;
    if d == 3 || d == 4 || d == 5 || d == 8 || d == 9 {
      forall i, j ensures InGlyph(d, i, j) <==> Segments(d, i, j) {
        GlyphIsFigure(d, i, j);
      }
    } else {
      var i, j := if d == 7 then 3 else 1, if d == 0 then 1 else 4;
      GlyphIsFigure(d, i, j);
      assert InGlyph(d, i, j) != Segments(d, i, j);
    }
  }

  // ---------------------------------------------------------------- which score is it?

  /** Dot (i, j) of the score is lit. */
  ghost predicate Dotted(ds: seq<nat>, i: int, j: int) {
    exists d :: d in ds && InGlyph(d, i, j)
  }

  ghost predicate LookAlike(a: seq<nat>, b: seq<nat>) {
    forall i, j :: 0 <= i < CHAR_SIZE && 0 <= j < CHAR_SIZE ==> (Dotted(a, i, j) <==> Dotted(b, i, j))
  }

  lemma DotOf(ds: seq<nat>, p: Pixel)
    requires OnScreen(p)
    ensures p in DigitsPicture(ds, 0, 0) <==> Dotted(ds, p.c / 4, p.r / 4)
  {
    hide InGlyph;
    assert p.c / 4 - 0 == p.c / 4 && p.r / 4 - 0 == p.r / 4;
  }

  lemma NoDotOutside(ds: seq<nat>, i: int, j: int)
    requires Dotted(ds, i, j)
    ensures 0 <= i < CHAR_SIZE && 0 <= j < CHAR_SIZE
  {
  }

  /** Two digit strings drawn by `text_draw_number` give the same picture exactly when their digits have
      the same dots together, since all digits are drawn at one place. */
  lemma LookAlikeExactly(a: seq<nat>, b: seq<nat>)
    ensures DigitsPicture(a, 0, 0) == DigitsPicture(b, 0, 0) <==> LookAlike(a, b)
  {
    hide Dotted, InSomeGlyph;
    if DigitsPicture(a, 0, 0) == DigitsPicture(b, 0, 0) {
      forall i, j | 0 <= i < CHAR_SIZE && 0 <= j < CHAR_SIZE ensures Dotted(a, i, j) <==> Dotted(b, i, j) {
        DotOf(a, Px(4 * i, 4 * j));
        DotOf(b, Px(4 * i, 4 * j));
      }
    }
    if LookAlike(a, b) {
      forall p: Pixel | OnScreen(p) ensures p in DigitsPicture(a, 0, 0) <==> p in DigitsPicture(b, 0, 0) {
        DotOf(a, p);
        DotOf(b, p);
        if Dotted(a, p.c / 4, p.r / 4) {
          NoDotOutside(a, p.c / 4, p.r / 4);
        }
        if Dotted(b, p.c / 4, p.r / 4) {
          NoDotOutside(b, p.c / 4, p.r / 4);
        }
      }
    }
  }

  /** The score on the screen is that of its decimal digits, modulo 256. */
  lemma ScoreDrawn(score: nat, ds: seq<nat>)
    requires Canonical(ds) && FromDigits(ds) == score % 256
    ensures TextPicture(score) == DigitsPicture(ds, 0, 0)
  {
    DigitsUnique(ds);
  }

  lemma OneDigit(d: nat, i: int, j: int)
    ensures Dotted([d], i, j) <==> InGlyph(d, i, j)
  {
    hide InGlyph;
    if InGlyph(d, i, j) {
      assert d in [d];
    }
  }

  /** Scores of one digit can be told apart. */
  lemma DigitsDiffer(a: nat, b: nat)
    requires a < 10 && b < 10
    ensures TextPicture(a) == TextPicture(b) <==> a == b
  {
    hide InGlyph, DigitsPicture, Dotted;
    LookAlikeExactly([a], [b]);
    if LookAlike([a], [b]) {
      SameDot(a, b, 1, 1);
      SameDot(a, b, 1, 4);
      SameDot(a, b, 2, 1);
      SameDot(a, b, 3, 1);
      SameDot(a, b, 4, 2);
    }
  }

  lemma SameDot(a: nat, b: nat, i: int, j: int)
    requires a < 10 && b < 10 && LookAlike([a], [b]) && 0 <= i < CHAR_SIZE && 0 <= j < CHAR_SIZE
    ensures Figure(a, i, j) <==> Figure(b, i, j)
  {
    hide InGlyph, Dotted, Figure;
    OneDigit(a, i, j);
    OneDigit(b, i, j);
    GlyphIsFigure(a, i, j);
    GlyphIsFigure(b, i, j);
  }

  /** Scores of two digits cannot: the order of the digits is lost, and so is a three under an eight. */
  lemma SomeScoresLookAlike()
    ensures TextPicture(12) == TextPicture(21) && TextPicture(38) == TextPicture(8)
  {
    hide DigitsPicture, Dotted;
    assert Digits(12) == [2, 1] && Digits(21) == [1, 2] && Digits(38) == [8, 3] && Digits(8) == [8];
    forall i, j ensures Dotted([2, 1], i, j) <==> Dotted([1, 2], i, j)
      ensures Dotted([8, 3], i, j) <==> Dotted([8], i, j)
    {
      SameDigits(i, j);
      ThreeInEight(i, j);
    }
    LookAlikeExactly([2, 1], [1, 2]);
    LookAlikeExactly([8, 3], [8]);
  }

  lemma SameDigits(i: int, j: int)
    ensures Dotted([2, 1], i, j) <==> Dotted([1, 2], i, j)
  {
    hide InGlyph;
    assert forall d :: d in [2, 1] <==> d in [1, 2];
  }

  lemma ThreeInEight(i: int, j: int)
    ensures Dotted([8, 3], i, j) <==> Dotted([8], i, j)
  {
    hide InGlyph;
    GlyphIsFigure(3, i, j);
    GlyphIsFigure(8, i, j);
    if Dotted([8, 3], i, j) {
      assert 8 in [8];
    }
    if Dotted([8], i, j) {
      assert [8, 3][0] == 8;
    }
  }
}
