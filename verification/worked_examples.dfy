/**
  Concrete inputs taken through the model of the temperature probe and the
  report, with the decimal parser standing in for `Double.parseDouble`.
*/
module WorkedExamples {
  import opened Options
  import opened JavaStrings
  import opened Decimal
  import opened PiTemp
  import opened SystemInfo

  lemma RemoveApostrophe()
    ensures RemoveAll("42.8'C", Apostrophe) == "42.8C"
  {
    var tail := [Apostrophe, UnitLetter];
    assert tail[0] == Apostrophe && tail[1..] == [UnitLetter];
    assert RemoveAll([UnitLetter], Apostrophe) == [UnitLetter];
    assert RemoveAll(tail, Apostrophe) == [UnitLetter];
    assert "42.8'C" == "42.8" + tail;
    RemoveAllAppend("42.8", tail, Apostrophe);
  }

  lemma RemoveUnitLetter()
    ensures RemoveAll("42.8C", UnitLetter) == "42.8"
  {
    assert "42.8C" == "42.8" + "C";
    RemoveAllAppend("42.8", "C", UnitLetter);
    assert "C"[1..] == "";
  }

  lemma CleanTempValue()
    ensures CleanValue("42.8'C") == "42.8"
  {
    RemoveApostrophe();
    RemoveUnitLetter();
    assert RemoveAll("42.8", DegreeSign) == "42.8";
    TrimOfTrimmed("42.8");
  }

  lemma DigitsOfTemp()
    ensures AllDigits("42") && DigitsValue("42") == 42
    ensures AllDigits("8") && DigitsValue("8") == 8
  {
    assert "42"[..1] == "4";
  }

  lemma ParseTempValue()
    ensures ParseDecimal("42.8") == Some(42.8)
  {
    TrimOfTrimmed("42.8");
    IndexOfAfterField("42", '.', "8");
    assert "42.8" == "42" + ['.'] + "8";
    DigitsOfTemp();
  }

  /** The usual `vcgencmd` line yields the number between `=` and the unit. */
  lemma VendorValueExample()
    ensures VendorValue("temp=42.8'C") == Ok("42.8")
  {
    var line := "temp=42.8'C";
    assert [Delimiter] == "=";
    assert line == "temp" + "=" + "42.8'C";
    SecondFieldLast("temp", Delimiter, "42.8'C");
    assert HasTextAfterDelimiter(line, Delimiter) by {
      assert line[IndexOf(line, Delimiter) + 1..][0] != Delimiter;
    }
    CleanTempValue();
  }

  /** With that line the first tier decides, whatever the thermal-zone file holds. */
  lemma VendorReadingExample(file: FileOutcome)
    ensures GetPiTemp(VendorLine(Some("temp=42.8'C"), false), file, ParseDecimal) == Reading(42.8)
  {
    VendorValueExample();
    ParseTempValue();
    var vendor := VendorLine(Some("temp=42.8'C"), false);
    assert TriesVendor(vendor);
    assert VendorTier(vendor, ParseDecimal) == Decided(Reading(42.8));
  }

  /** With `a=b=c` element [1] is the middle field. */
  lemma MiddleFieldExample()
    ensures VendorValue("a=b=c") == Ok("b")
  {
    var line := "a=b=c";
    assert line == "a" + [Delimiter] + "b" + [Delimiter] + "c";
    SecondFieldMiddle("a", Delimiter, "b", "c");
    assert HasTextAfterDelimiter(line, Delimiter) by {
      assert line[IndexOf(line, Delimiter) + 1..][0] != Delimiter;
    }
    CleanValueFixed("b");
  }

  /** `"temp="` splits into one element, so reading element [1] throws. */
  lemma EmptyValueExample()
    ensures VendorValue("temp=") == Err(IndexOutOfBounds(1, 1))
  {
    var line := "temp=";
    assert line == "temp" + [Delimiter] + "";
    FieldsAfterField("temp", Delimiter, "");
    assert Fields("", Delimiter) == [""];
    assert Fields(line, Delimiter) == ["temp", ""];
    assert DropTrailingEmpty(["temp", ""]) == ["temp"] by {
      assert ["temp", ""][..1] == ["temp"];
    }
  }

  /** `"="` splits into no element at all. */
  lemma BareDelimiterExample()
    ensures VendorValue("=") == Err(IndexOutOfBounds(1, 0))
  {
    var line := "=";
    assert line == "" + [Delimiter] + "";
    FieldsAfterField("", Delimiter, "");
    assert Fields("", Delimiter) == [""];
    assert Fields(line, Delimiter) == ["", ""];
    assert DropTrailingEmpty(["", ""]) == [] by {
      assert ["", ""][..1] == [""];
      assert [""][..0] == [];
    }
  }

  /**
    A line with nothing after `=` fails the whole report, even when the
    thermal-zone file holds a good reading.
  */
  lemma EmptyValueFailsReport(os: OsReadings, file: FileOutcome)
    ensures GetSystemInfo(os, VendorLine(Some("temp="), false), file, ParseDecimal)
         == Failure(IndexOutOfBounds(1, 1))
  {
    EmptyValueExample();
    assert TriesVendor(VendorLine(Some("temp="), false)) by {
      assert "temp="[4] == Delimiter;
    }
  }

  lemma FileDigits()
    ensures AllDigits("50000") && DigitsValue("50000") == 50000
  {
    assert "50000"[..4] == "5000";
    assert "5000"[..3] == "500";
    assert "500"[..2] == "50";
    assert "50"[..1] == "5";
  }

  lemma FileTextTrims()
    ensures Trim("50000\n") == "50000"
  {
    assert "50000\n" == "" + "50000" + "\n";
    assert AllBlank("\n");
    TrimUnique("", "50000", "\n");
  }

  lemma ParseFileValue()
    ensures ParseDecimal("50000") == Some(50000.0)
  {
    TrimOfTrimmed("50000");
    FileDigits();
    assert '.' !in "50000";
  }

  /** The thermal-zone file counts millidegrees: `50000` and a newline is 50 degrees. */
  lemma ThermalFileExample(vendor: VendorOutcome)
    requires !TriesVendor(vendor)
    ensures GetPiTemp(vendor, FileText("50000\n"), ParseDecimal) == Reading(50.0)
  {
    FileTextTrims();
    ParseFileValue();
  }

  /**
    No vendor tool and no thermal zone: 512 MB used of 2048 MB, and the
    temperature shown as unavailable.
  */
  lemma NothingReadableExample()
    ensures GetSystemInfo(OsReadings(0.374, 2048 * 1048576, 1536 * 1048576), VendorIOError, FileIOError, ParseDecimal)
         == TempUnavailable(0.374, 512 * 1048576, 2048 * 1048576)
  {
    BothTiersFailGiveSentinel(VendorIOError, ParseDecimal);
    assert LongSub(2048 * 1048576, 1536 * 1048576) == 512 * 1048576;
  }

  lemma LettersDoNotParse()
    ensures ParseDecimal("abc") == None
  {
    TrimOfTrimmed("abc");
    var t := Trim("abc");
    assert !IsNumeral(t[0]);
  }

  lemma CleanLetters()
    ensures CleanValue("abc") == "abc"
  {
    assert NoUnitMarks("abc");
    CleanValueFixed("abc");
  }

  lemma NonNumericResidue()
    ensures VendorValue("temp=abc") == Ok("abc")
  {
    var line := "temp=abc";
    assert line == "temp" + [Delimiter] + "abc";
    SecondFieldLast("temp", Delimiter, "abc");
    assert HasTextAfterDelimiter(line, Delimiter) by {
      assert line[IndexOf(line, Delimiter) + 1..][0] != Delimiter;
    }
    CleanLetters();
  }

  /**
    Residue that does not parse is not handed to the second tier: the
    report is the failure message whatever the thermal-zone file holds.
  */
  lemma NonNumericResidueFailsReport(os: OsReadings, file: FileOutcome)
    ensures GetSystemInfo(os, VendorLine(Some("temp=abc"), false), file, ParseDecimal)
         == Failure(NumberFormat("abc"))
  {
    var line := "temp=abc";
    var vendor := VendorLine(Some(line), false);
    assert line[4] == Delimiter;
    NonNumericResidue();
    LettersDoNotParse();
    var parse: Parser := ParseDecimal;
    assert parse("abc").None?;
    ResidueFailureNamesResidue(os, vendor, file, parse);
  }

  lemma NatTextLine(n: nat)
    ensures Trim(NatText(n) + "\n") == NatText(n)
  {
    var text := NatText(n);
    assert IsDigit(text[0]) && IsDigit(text[|text| - 1]);
    assert IsTrimmed(text);
    assert text + "\n" == "" + text + "\n";
    assert AllBlank("\n");
    TrimUnique("", text, "\n");
  }

  /**
    Any count of millidegrees in the thermal-zone file, followed by a
    newline, reads as that count divided by 1000.
  */
  lemma ThermalReadingInMillidegrees(vendor: VendorOutcome, n: nat)
    requires !TriesVendor(vendor)
    ensures GetPiTemp(vendor, FileText(NatText(n) + "\n"), ParseDecimal) == Reading(n as real / 1000.0)
  {
    var content := NatText(n) + "\n";
    NatTextLine(n);
    NatTextRoundTrip(n);
    var parse: Parser := ParseDecimal;
    assert parse(Trim(content)) == Some(n as real);
    assert ThermalTier(FileText(content), parse) == Reading(n as real / MilliPerDegree);
  }
}
