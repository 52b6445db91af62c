/** Worked values: the documented gold colour in every input form, the exact
    bytes of two sequences, and inputs on either side of each range check. */
module ColorsExamples {
  import opened Wrappers
  import opened Text
  import Sgr
  import opened Colors
  import opened ColorsFacts

  /** The gold used throughout the documentation, packed and in hex, upper or lower case. */
  lemma GoldConversions()
    ensures IntToRgb(16763904) == Ok([255, 204, 0])
    ensures HexToRgb("#ffcc00") == Ok([255, 204, 0])
    ensures HexToRgb("#FFCC00") == Ok([255, 204, 0])
  {
  }

  /** The gold through the packed and hex entry points is the gold through the RGB one. */
  lemma GoldEntryPoints()
    ensures FgHex("#ffcc00") == FgRgb(255, 204, 0)
    ensures FgPacked(16763904) == FgRgb(255, 204, 0)
  {
    GoldConversions();
  }

  /** The decimal renderings used below. */
  lemma SomeDecimals()
    ensures Dec(255) == "255" && Dec(204) == "204" && Dec(0) == "0" && Dec(220) == "220"
  {
  }

  /** The parameters of the gold foreground, joined. */
  lemma GoldParameters()
    ensures Sgr.Join(["38", "2", "255", "204", "0"]) == "38;2;255;204;0"
  {
  }

  /** The exact bytes emitted for the gold foreground. */
  lemma GoldSequence()
    ensures FgRgb(255, 204, 0) == Ok([27 as char] + "[38;2;255;204;0m")
  {
    SomeDecimals();
    GoldParameters();
    var ps := ["38", "2", "255", "204", "0"];
    assert Sgr.Sequence(ps) == Sgr.Csi + "38;2;255;204;0" + "m";
    assert Sgr.Csi + "38;2;255;204;0" + "m" == [27 as char] + "[38;2;255;204;0m";
  }

  /** The exact bytes emitted for palette index 220 as background. */
  lemma IndexSequence()
    ensures BgIndex(220) == Ok([27 as char] + "[48;5;220m")
  {
    SomeDecimals();
    var ps := ["48", "5", "220"];
    assert Sgr.Join(ps[2..]) == "220";
    assert Sgr.Join(ps[1..]) == "5;220";
    assert Sgr.Join(ps) == "48;5;220";
    assert Sgr.Sequence(ps) == Sgr.Csi + "48;5;220" + "m";
    assert Sgr.Csi + "48;5;220" + "m" == [27 as char] + "[48;5;220m";
  }

  /** The low end of the packed range is black. */
  lemma PackedBlack()
    ensures FgPacked(0) == FgRgb(0, 0, 0)
  {
    PackedIsRgb(0);
  }

  /** A bare 220 is a packed colour, not a palette index: blue 220 with no red or green. */
  lemma PackedLiteral()
    ensures BgPacked(220) == BgRgb(0, 0, 220)
  {
    var blue := PackRgb(0, 0, 220);
    assert blue == 220;
    PackedOfRgb(0, 0, 220);
  }

  /** The packed and the indexed reading of 220 give different sequences. */
  lemma PackedLiteralIsNotIndex()
    ensures BgRgb(0, 0, 220) != BgIndex(220)
  {
    SomeDecimals();
    var rgb := ["48", "2", "0", "0", "220"];
    var index := ["48", "5", "220"];
    assert Sgr.IsParameter("0") && Sgr.IsParameter("220");
    Sgr.ParametersOfSequence(rgb);
    Sgr.ParametersOfSequence(index);
  }

  /** The high end of the packed range is white. */
  lemma PackedWhite()
    ensures FgPacked(16777215) == FgRgb(255, 255, 255)
  {
    var white := PackRgb(255, 255, 255);
    assert white == 16777215;
    PackedOfRgb(255, 255, 255);
  }

  /** One past either end of the packed range fails. */
  lemma PackedOutside()
    ensures FgPacked(-1) == Err(IllegalArgument(PackedRangeMessage))
    ensures FgPacked(16777216) == Err(IllegalArgument(PackedRangeMessage))
  {
  }

  /** A missing '#', a non-hex character and a short string fail. */
  lemma RejectedHex()
    ensures FgHex("ffcc00") == Err(IllegalArgument(HexFormatMessage))
    ensures FgHex("#xyz123") == Err(IllegalArgument(HexFormatMessage))
    ensures FgHex("#ffcc0") == Err(IllegalArgument(HexFormatMessage))
  {
  }

  /** A component one past either end of 0..255 fails. */
  lemma RejectedComponents()
    ensures FgIndex(256) == Err(IllegalArgument(ComponentRangeMessage))
    ensures FgRgb(0, -1, 0) == Err(IllegalArgument(ComponentRangeMessage))
  {
  }
}
