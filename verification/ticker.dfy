/** The slot-machine ticker of Ticker.kt: each character of the text gets a column of glyphs
    that scrolls (reversed, from the bottom) until the selected glyph is in view. Pixel sizes
    are integers; the item height is given already rounded. */
module Ticker {
  import opened Wrappers
  import Decimal

  /** The glyph column of a digit, top to bottom. */
  const DigitColumn: string := "9876543210 "

  predicate IsAscii(c: char) {
    c as int < 128
  }

  /** `textList`: the digit column for a digit, otherwise the character above a blank. */
  function TextList(c: char): (column: string)
    requires IsAscii(c)
    ensures c in column
    ensures |column| == (if Decimal.IsDigitChar(c) then 11 else 2)
    ensures column[|column| - 1] == ' '
    ensures Decimal.IsDigitChar(c) ==> forall i :: 0 <= i < 10 ==> column[i] == Decimal.DigitChar(9 - i)
    ensures !Decimal.IsDigitChar(c) ==> column == [c, ' ']
  {
    DigitColumnGlyphs();
    if Decimal.IsDigitChar(c) then DigitColumn else [c, ' ']
  }

  function Reverse(s: string): (r: string)
    ensures |r| == |s|
    ensures forall i :: 0 <= i < |s| ==> r[i] == s[|s| - 1 - i]
  {
    seq(|s|, i requires 0 <= i < |s| => s[|s| - 1 - i])
  }

  /** Kotlin's `indexOf`: the first position of `c` in `s`, or -1 when it does not occur. */
  function IndexOf(s: string, c: char): (i: int)
    ensures -1 <= i < |s|
    ensures i == -1 <==> c !in s
    ensures i >= 0 ==> s[i] == c && c !in s[..i]
  {
    if s == [] then -1
    else if s[0] == c then 0
    else
      var j := IndexOf(s[1..], c);
      assert s[1..][..if j >= 0 then j else 0] == s[1..if j >= 0 then j + 1 else 1];
      if j == -1 then -1 else j + 1
  }

  /** `k` is where `c` first occurs in `s`. */
  lemma FirstIndex(s: string, c: char, k: nat)
    requires k < |s| && s[k] == c
    requires forall j :: 0 <= j < k ==> s[j] != c
    ensures IndexOf(s, c) == k
  {
    assert s[..k + 1][k] == c;
  }

  /** `selectedCharIndex`: how many glyphs the column scrolls up, counted from the bottom. The
      glyph that many rows up is the selected character, and no row below it shows it. */
  function SelectedCharIndex(c: char): (k: int)
    requires IsAscii(c)
    ensures 0 <= k < |TextList(c)|
    ensures TextList(c)[|TextList(c)| - 1 - k] == c
    ensures forall j :: 0 <= j < k ==> Reverse(TextList(c))[j] != c
  {
    var column := TextList(c);
    var r := Reverse(column);
    assert c in r by {
      var i :| 0 <= i < |column| && column[i] == c;
      assert r[|column| - 1 - i] == c;
    }
    var k := IndexOf(r, c);
    assert forall j :: 0 <= j < k ==> r[j] == r[..k][j];
    k
  }

  /** The digit column counts down from '9' and ends in a blank. */
  lemma DigitColumnAt(i: nat)
    requires i < 10
    ensures DigitColumn[i] == ('9' as int - i) as char && DigitColumn[10] == ' '
  {
  }

  lemma DigitColumnGlyphs()
    ensures |DigitColumn| == 11 && DigitColumn[10] == ' '
    ensures forall i :: 0 <= i < 10 ==> DigitColumn[i] == Decimal.DigitChar(9 - i)
  {
    forall i | 0 <= i < 10
      ensures DigitColumn[i] == Decimal.DigitChar(9 - i)
    {
      DigitColumnAt(i);
    }
  }

  lemma DigitIndex(c: char)
    requires Decimal.IsDigitChar(c)
    ensures SelectedCharIndex(c) == Decimal.DigitValue(c) + 1
  {
    var r := Reverse(DigitColumn);
    var k := Decimal.DigitValue(c) + 1;
    DigitColumnAt(0);
    forall j | 1 <= j <= k
      ensures r[j] == ('0' as int + j - 1) as char
    {
      DigitColumnAt(10 - j);
    }
    FirstIndex(r, c, k);
  }

  /** The index of a digit is one more than its value, a blank's is 0, any other character's 1;
      it is always a valid row of the column. */
  lemma SelectedCharIndexValue(c: char)
    requires IsAscii(c)
    ensures 0 <= SelectedCharIndex(c) < |TextList(c)|
    ensures Decimal.IsDigitChar(c) ==> SelectedCharIndex(c) == Decimal.DigitValue(c) + 1
    ensures c == ' ' ==> SelectedCharIndex(c) == 0
    ensures !Decimal.IsDigitChar(c) && c != ' ' ==> SelectedCharIndex(c) == 1
  {
    if Decimal.IsDigitChar(c) {
      DigitIndex(c);
    } else {
      assert Reverse(TextList(c)) == [' ', c];
    }
  }

  /** `totalColumnHeight`: eleven rows for a digit, two for anything else. */
  function ColumnHeight(itemHeight: nat, c: char): (h: nat)
    requires IsAscii(c)
    ensures h == (if Decimal.IsDigitChar(c) then 11 else 2) * itemHeight
  {
    itemHeight * |TextList(c)|
  }

  /** `selectedCharPosition`: a whole number of rows, within the column, with the selected
      glyph as the row at that offset from the bottom. For a blank both rows of the column
      qualify; `Settle` states the exact offset, `itemHeight * SelectedCharIndex(c)`. */
  function TargetPosition(itemHeight: nat, c: char): (p: int)
    requires IsAscii(c)
    ensures 0 <= p <= ColumnHeight(itemHeight, c) - itemHeight
    ensures itemHeight > 0 ==> p % itemHeight == 0
    ensures itemHeight > 0 ==>
              var column := TextList(c);
              0 <= p / itemHeight < |column| && column[|column| - 1 - p / itemHeight] == c
  {
    var k := SelectedCharIndex(c);
    RowOffset(itemHeight, k, |TextList(c)|);
    itemHeight * k
  }

  /** Row `k` of a column of `n` rows starts at a whole number of rows within the column. */
  lemma RowOffset(itemHeight: nat, k: nat, n: nat)
    requires k < n
    ensures 0 <= itemHeight * k <= itemHeight * n - itemHeight
    ensures itemHeight > 0 ==> (itemHeight * k) % itemHeight == 0 && (itemHeight * k) / itemHeight == k
  {
    assert itemHeight * k <= itemHeight * (n - 1);
    if itemHeight > 0 {
      var p := itemHeight * k;
      var q, r := p / itemHeight, p % itemHeight;
      assert itemHeight * q + r == itemHeight * k;
      assert itemHeight * (k - q) == r;
    }
  }

  /** The scroll a column performs when its character changes: it starts from the prior
      offset, or from 0 when that offset lies outside the new column, and goes to `destination`,
      animated or directly. */
  datatype Scroll = Scroll(start: int, destination: int, animated: bool)

  /** The `LaunchedEffect` of `CharColumn`. */
  function PlanScroll(prior: int, itemHeight: nat, c: char, animate: bool): (s: Scroll)
    requires IsAscii(c)
    ensures s.start == (if prior >= ColumnHeight(itemHeight, c) then 0 else prior)
    ensures prior >= 0 && itemHeight > 0 ==> 0 <= s.start < ColumnHeight(itemHeight, c)
    ensures s.destination == TargetPosition(itemHeight, c)
    ensures s.animated == animate
  {
    var total := ColumnHeight(itemHeight, c);
    var start := if prior >= total then 0 else prior;
    Scroll(start, TargetPosition(itemHeight, c), animate)
  }

  /** The offset once the effect has run: `scrollTo` and `animateScrollTo` both end at the
      destination, so the column comes to rest with the selected glyph in view. */
  function Settle(prior: int, itemHeight: nat, c: char, animate: bool): (offset: int)
    requires IsAscii(c)
    ensures offset == itemHeight * SelectedCharIndex(c)
    ensures 0 <= offset <= ColumnHeight(itemHeight, c) - itemHeight
    ensures itemHeight > 0 ==> offset % itemHeight == 0 && offset / itemHeight == SelectedCharIndex(c)
  {
    RowOffset(itemHeight, SelectedCharIndex(c), |TextList(c)|);
    PlanScroll(prior, itemHeight, c, animate).destination
  }

  /** Animated or not, the column ends on the selected glyph whatever the prior offset was. */
  lemma SettleIgnoresPrior(prior1: int, prior2: int, itemHeight: nat, c: char, animate1: bool, animate2: bool)
    requires IsAscii(c)
    ensures Settle(prior1, itemHeight, c, animate1) == Settle(prior2, itemHeight, c, animate2)
  {
  }

  /** One element of the ticker's row: a prefix or suffix label, or a character column. */
  datatype Cell = Label(text: string) | CharColumn(selected: char, column: string, animate: bool)

  function LabelCount(extra: Option<string>): nat {
    if extra.Some? then 1 else 0
  }

  /** `Ticker`: the optional prefix, one column per character of `text` in order, then the
      optional suffix. */
  method LayoutRow(prefix: Option<string>, text: string, suffix: Option<string>, animate: bool)
    returns (row: seq<Cell>)
    requires forall i :: 0 <= i < |text| ==> IsAscii(text[i])
    ensures |row| == LabelCount(prefix) + |text| + LabelCount(suffix)
    ensures prefix.Some? ==> row[0] == Label(prefix.value)
    ensures suffix.Some? ==> row[|row| - 1] == Label(suffix.value)
    ensures forall i :: 0 <= i < |text| ==>
              row[LabelCount(prefix) + i] == CharColumn(text[i], TextList(text[i]), animate)
  {
    row := if prefix.Some? then [Label(prefix.value)] else [];
    var i := 0;
    while i < |text|
      invariant 0 <= i <= |text|
      invariant |row| == LabelCount(prefix) + i
      invariant prefix.Some? ==> row[0] == Label(prefix.value)
      invariant forall j :: 0 <= j < i ==>
                  row[LabelCount(prefix) + j] == CharColumn(text[j], TextList(text[j]), animate)
    {
      row := row + [CharColumn(text[i], TextList(text[i]), animate)];
      i := i + 1;
    }
    if suffix.Some? {
      row := row + [Label(suffix.value)];
    }
  }
}
