/** The settings a headline starts with when the page has no usable token. */
module Defaults {
  import opened Numbers
  import opened Types
  import opened TextSplit

  const DefaultText: string := "Design bold headlines in seconds"

  const DefaultSettings: HeadlineSettings := HeadlineSettings(
    text := DefaultText,
    fontSize := Decimal(64, 0),
    fontFamily := Inter,
    fontWeight := W800,
    letterSpacing := Decimal(0, 0),
    lineHeight := Decimal(105, -2),
    gradientEnabled := true,
    gradientDirection := Right,
    gradientFrom := "#22d3ee",
    gradientTo := "#a78bfa",
    perLetterAnimation := true,
    hoverGlow := true,
    textOutline := false,
    segmentStyles := map[2 := Highlight])

  /** The default text splits into its five words. */
  lemma DefaultWords()
    ensures Split(DefaultSettings.text) == ["Design", "bold", "headlines", "in", "seconds"]
    ensures |Split(DefaultSettings.text)| == 5
  {
    DefaultWordsSplittable();
    DefaultWordsJoin();
    SplitJoin(["Design", "bold", "headlines", "in", "seconds"]);
  }

  lemma DefaultWordsSplittable()
    ensures Splittable(["Design", "bold", "headlines", "in", "seconds"])
  {
    var words := ["Design", "bold", "headlines", "in", "seconds"];
    LettersNoSpace(words[0]);
    LettersNoSpace(words[1]);
    LettersNoSpace(words[2]);
    LettersNoSpace(words[3]);
    LettersNoSpace(words[4]);
  }

  /** Words of ASCII letters hold no whitespace. */
  lemma LettersNoSpace(w: string)
    requires forall i :: 0 <= i < |w| ==> 'a' <= w[i] <= 'z' || 'A' <= w[i] <= 'Z'
    ensures NoSpace(w)
  {
  }

  lemma DefaultWordsJoin()
    ensures Join(["Design", "bold", "headlines", "in", "seconds"], " ") == "Design bold headlines in seconds"
  {
    var w := ["Design", "bold", "headlines", "in", "seconds"];
    assert w[4..] == ["seconds"];
    JoinFrom(w, 3);
    JoinFrom(w, 2);
    JoinFrom(w, 1);
    JoinFrom(w, 0);
    assert w[0..] == w;
  }

  lemma JoinFrom(words: seq<string>, i: nat)
    requires i + 1 < |words|
    ensures Join(words[i..], " ") == words[i] + " " + Join(words[i + 1..], " ")
  {
    assert words[i..][1..] == words[i + 1..];
  }

  /** The one styled word of the default is the third, which the default text has. */
  lemma DefaultSegments()
    ensures DefaultSettings.segmentStyles.Keys == {2}
    ensures DefaultSettings.segmentStyles[2] == Highlight
    ensures 2 < |Split(DefaultSettings.text)|
  {
    DefaultWords();
  }

  /** The numeric fields are the numbers 64, 0, 1.05 and 800, as `JSON.stringify` writes them. */
  lemma DefaultNumbers()
    ensures NumberText(DefaultSettings.fontSize) == "64"
    ensures NumberText(DefaultSettings.letterSpacing) == "0"
    ensures NumberText(DefaultSettings.lineHeight) == "1.05"
    ensures NumberText(WeightNumber(DefaultSettings.fontWeight)) == "800"
  {
    FontSizeText();
    LineHeightText();
    WeightText();
  }

  lemma FontSizeText()
    ensures NumberText(Decimal(64, 0)) == "64"
  {
    assert NatText(6) == "6";
    assert NatText(64) == "64";
    assert IntDigits(Decimal(64, 0)) == "64" + Zeros(0);
  }

  lemma LineHeightText()
    ensures NumberText(Decimal(105, -2)) == "1.05"
  {
    assert NatText(1) == "1";
    assert NatText(10) == "10";
    assert NatText(105) == "105";
    assert IntDigits(Decimal(105, -2)) == "1";
    assert FracDigits(Decimal(105, -2)) == "05";
  }

  lemma WeightText()
    ensures NumberText(Decimal(8, 2)) == "800"
  {
    assert NatText(8) == "8";
    assert Zeros(2) == "00";
    assert IntDigits(Decimal(8, 2)) == "800";
  }
}
