/** The amount formatter of the profile screen: a memorised quantity counted
    in eighths of a hizb is shown in a single unit, the largest of hizb,
    half, quarter and eighth that measures it exactly. */
module AmountFormat {
  import opened JsText

  /** The four units, named by the Arabic label the screen shows for them. */
  datatype Unit = Hizb | Half | Quarter | Eighth

  /** How many eighths one unit holds. */
  function Divisor(u: Unit): (d: nat)
    ensures d in {1, 2, 4, 8}
  {
    match u
    case Hizb => 8
    case Half => 4
    case Quarter => 2
    case Eighth => 1
  }

  /** The Arabic word shown after the count. */
  function Label(u: Unit): string {
    match u
    case Hizb => "حزب"
    case Half => "نصف"
    case Quarter => "ربع"
    case Eighth => "ثمن"
  }

  /** The unit the formatter settles on: the first of 8, 4, 2, 1 that divides
      `num`, which is the largest of them that does. */
  function ChooseUnit(num: int): (u: Unit)
    ensures num % Divisor(u) == 0
    ensures forall v: Unit :: Divisor(v) > Divisor(u) ==> num % Divisor(v) != 0
  {
    if num % 8 == 0 then Hizb
    else if num % 4 == 0 then Half
    else if num % 2 == 0 then Quarter
    else Eighth
  }

  /** `mapAmountToArabic` once its argument has been parsed to an integer. */
  function FormatAmount(num: int): string {
    if num % 8 == 0 then IntToString(num / 8) + " حزب"
    else if num % 4 == 0 then IntToString(num / 4) + " نصف"
    else if num % 2 == 0 then IntToString(num / 2) + " ربع"
    else IntToString(num) + " ثمن "
  }

  /** `mapAmountToArabic(amount)`: `parseInt(amount, 10)` followed by the
      formatter; a NaN falls through every divisibility test to the last
      branch. Whenever `parseInt` reads a number, the text reads back as the
      largest exact unit and a count of it that makes up that number; text
      it cannot read gives a display that reads back as nothing. */
  function MapAmountToArabic(amount: string): string {
    match ParseInt10(amount)
    case None => "NaN ثمن "
    case Some(num) => FormatAmount(num)
  }

  /** A displayed amount read back: the count and the unit. */
  datatype Amount = Amount(count: int, unit: Unit)

  /** The text that follows the count for each unit; only the eighth has a
      trailing space. */
  function Suffix(u: Unit): string {
    if u == Eighth then " " + Label(u) + " " else " " + Label(u)
  }

  /** Reads a displayed amount: a count, then one of the four suffixes. */
  function ReadAmount(s: string): Option<Amount> {
    match SplitInt(s)
    case None => None
    case Some((count, rest)) =>
      if rest == Suffix(Hizb) then Some(Amount(count, Hizb))
      else if rest == Suffix(Half) then Some(Amount(count, Half))
      else if rest == Suffix(Quarter) then Some(Amount(count, Quarter))
      else if rest == Suffix(Eighth) then Some(Amount(count, Eighth))
      else None
  }

  /** The four suffixes are told apart by their text. */
  lemma SuffixesDistinct(u: Unit, v: Unit)
    ensures Suffix(u) == Suffix(v) <==> u == v
  {
    assert Suffix(u)[1] == Label(u)[0] && Suffix(v)[1] == Label(v)[0];
  }

  /** A count followed by a unit's suffix reads back as that count and unit. */
  lemma {:induction false} ReadAmountOfShown(count: int, u: Unit)
    ensures ReadAmount(IntToString(count) + Suffix(u)) == Some(Amount(count, u))
  {
    SplitIntOfIntToString(count, Suffix(u));
    SuffixesDistinct(u, Hizb);
    SuffixesDistinct(u, Half);
    SuffixesDistinct(u, Quarter);
  }

  /** The formatter's output is the count in the chosen unit followed by that
      unit's suffix, and the count times the unit's size is the amount. */
  lemma FormatAmountShape(num: int)
    ensures var u := ChooseUnit(num);
      FormatAmount(num) == IntToString(num / Divisor(u)) + Suffix(u) &&
      num / Divisor(u) * Divisor(u) == num
  {
    if num % 8 == 0 {
      assert ChooseUnit(num) == Hizb;
    } else if num % 4 == 0 {
      assert ChooseUnit(num) == Half;
    } else if num % 2 == 0 {
      assert ChooseUnit(num) == Quarter;
    } else {
      assert ChooseUnit(num) == Eighth && num / 1 == num;
    }
  }

  /** Reading back what the formatter shows gives the unit it chose and a
      count that, multiplied by that unit's size in eighths, is the amount
      formatted: the display never loses or changes the quantity. */
  lemma {:induction false} ReadAmountOfFormat(num: int)
    ensures var u := ChooseUnit(num);
      ReadAmount(FormatAmount(num)) == Some(Amount(num / Divisor(u), u))
    ensures var a := ReadAmount(FormatAmount(num)).value;
      a.count * Divisor(a.unit) == num
  {
    var u := ChooseUnit(num);
    FormatAmountShape(num);
    ReadAmountOfShown(num / Divisor(u), u);
  }

  /** What `mapAmountToArabic` shows reads back, for any text `parseInt` can
      read, as the largest exact unit and a count of it that makes up the
      number read; text it cannot read is shown as "NaN" eighths, which reads
      back as nothing. */
  lemma MapAmountToArabicReadsBack(amount: string)
    ensures ParseInt10(amount).None? ==> MapAmountToArabic(amount) == "NaN ثمن "
    ensures ReadAmount(MapAmountToArabic(amount)).None? <==> ParseInt10(amount).None?
    ensures ParseInt10(amount).Some? ==>
      var num := ParseInt10(amount).value; var u := ChooseUnit(num);
      ReadAmount(MapAmountToArabic(amount)) == Some(Amount(num / Divisor(u), u)) &&
      num / Divisor(u) * Divisor(u) == num
  {
    match ParseInt10(amount)
    case None =>
      NaNReadsAsNothing();
    case Some(num) =>
      ReadAmountOfFormat(num);
  }

  /** The display of a NaN starts with no digit and no sign, so it is not
      an amount. */
  lemma NaNReadsAsNothing()
    ensures ReadAmount("NaN ثمن ") == None
  {
    var shown := "NaN ثمن ";
    assert !IsDigit(shown[0]) && shown[0] != '-' && shown[0] != '+';
    assert DigitRun(shown) == 0;
  }

  /** Odd amounts are always shown in eighths, even ones never are. */
  lemma OddIffEighth(num: int)
    ensures ChooseUnit(num) == Eighth <==> num % 2 == 1
  {
  }

  /** One- and two-digit renderings. */
  lemma SmallIntToString(n: nat)
    requires n < 100
    ensures n < 10 ==> IntToString(n) == [DigitChar(n)]
    ensures n >= 10 ==> IntToString(n) == [DigitChar(n / 10), DigitChar(n % 10)]
  {
    if n >= 10 {
      assert NatToString(n / 10) == [DigitChar(n / 10)];
    }
  }

  /** A rendered count reaches the formatter unchanged. */
  lemma MapRenderedCount(n: nat)
    ensures MapAmountToArabic(IntToString(n)) == FormatAmount(n)
  {
    ParseIntOfIntToString(n);
  }

  /** The display of a count given as its own rendering. */
  lemma ShownAs(n: nat, text: string, shown: string)
    requires IntToString(n) == text && FormatAmount(n) == shown
    ensures MapAmountToArabic(text) == shown
  {
    MapRenderedCount(n);
  }

  /** Examples in whole hizb: 8 and 16 eighths. */
  lemma FormatHizbExamples(input: string)
    requires input in {"8", "16"}
    ensures input == "8" ==> MapAmountToArabic(input) == "1 حزب"
    ensures input == "16" ==> MapAmountToArabic(input) == "2 حزب"
  {
    if input == "8" {
      assert IntToString(8) == "8" by { SmallIntToString(8); }
      assert FormatAmount(8) == "1 حزب" by { SmallIntToString(1); }
      ShownAs(8, "8", "1 حزب");
    } else if input == "16" {
      assert IntToString(16) == "16" by { SmallIntToString(16); }
      assert FormatAmount(16) == "2 حزب" by { SmallIntToString(2); }
      ShownAs(16, "16", "2 حزب");
    }
  }

  /** Examples in halves, quarters and eighths: 12, 6 and 5 eighths. */
  lemma FormatPartExamples(input: string)
    requires input in {"12", "6", "5"}
    ensures input == "12" ==> MapAmountToArabic(input) == "3 نصف"
    ensures input == "6" ==> MapAmountToArabic(input) == "3 ربع"
    ensures input == "5" ==> MapAmountToArabic(input) == "5 ثمن "
  {
    if input == "12" {
      assert IntToString(12) == "12" by { SmallIntToString(12); }
      assert FormatAmount(12) == "3 نصف" by { SmallIntToString(3); }
      ShownAs(12, "12", "3 نصف");
    } else if input == "6" {
      assert IntToString(6) == "6" by { SmallIntToString(6); }
      assert FormatAmount(6) == "3 ربع" by { SmallIntToString(3); }
      ShownAs(6, "6", "3 ربع");
    } else if input == "5" {
      assert IntToString(5) == "5" by { SmallIntToString(5); }
      assert FormatAmount(5) == "5 ثمن " by { SmallIntToString(5); }
      ShownAs(5, "5", "5 ثمن ");
    }
  }

  /** Text `parseInt` cannot read is shown as "NaN" eighths. */
  lemma FormatUnreadable()
    ensures MapAmountToArabic("abc") == "NaN ثمن "
    ensures MapAmountToArabic("") == "NaN ثمن "
  {
    assert !IsWhiteSpace('a') && !IsDigit('a');
  }

  /** Zero, which no branch rejects, is shown as zero hizb. */
  lemma FormatZero()
    ensures MapAmountToArabic("0") == "0 حزب"
  {
    assert IntToString(0) == "0" by { SmallIntToString(0); }
    assert FormatAmount(0) == "0 حزب" by { SmallIntToString(0); }
    ShownAs(0, "0", "0 حزب");
  }
}
