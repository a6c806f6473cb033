/**
 The byte counts the program's own tests format, with the text each one
 must produce (`src/tests.rs`), and two counts that show how the rounding
 to two decimals behaves.
 */
module FmtExamples {
  import opened Text
  import opened Fmt

  /** The byte counts the program's own tests and examples print. */
  lemma FormatBytesExamples()
    ensures FormatBytes(0) == "0 B"
    ensures FormatBytes(1) == "1.00 B"
    ensures FormatBytes(1023) == "1023.00 B"
    ensures FormatBytes(1024) == "1.00 KiB"
    ensures FormatBytes(1024 * 1024) == "1.00 MiB"
    ensures FormatBytes(1024 * 1024 * 1024) == "1.00 GiB"
    ensures FormatBytes(512 * 1024) == "512.00 KiB"
    ensures FormatBytes(2048 * 1024) == "2.00 MiB"
    ensures FormatBytes(100 * 1024) == "100.00 KiB"
    ensures FormatBytes(1000) == "1000.00 B"
  {
    FormatBytesOneByte();
    FormatBytesBytes1023();
    FormatBytesOneKiB();
    FormatBytesOneMiB();
    FormatBytesOneGiB();
    FormatBytesKiB512();
    FormatBytesMiB2();
    FormatBytesKiB100();
    FormatBytesBytes1000();
  }

  lemma FormatBytesOneByte()
    ensures FormatBytes(1) == "1.00 B"
  {
    assert Pow1024(0) == 1;
    FormatBytesExactMultiple(1, 0);
    var value := Decimal(1);
    assert value == "1";
    assert value + ".00 " + Units[0] == "1.00 B";
  }

  lemma FormatBytesBytes1023()
    ensures FormatBytes(1023) == "1023.00 B"
  {
    assert Pow1024(0) == 1;
    FormatBytesExactMultiple(1023, 0);
    assert Decimal(10) == "10";
    assert Decimal(102) == "102";
    var value := Decimal(1023);
    assert value == "1023";
    assert value + ".00 " + Units[0] == "1023.00 B";
  }

  lemma FormatBytesOneKiB()
    ensures FormatBytes(1024) == "1.00 KiB"
  {
    assert Pow1024(1) == 1024;
    FormatBytesExactMultiple(1, 1);
    var value := Decimal(1);
    assert value == "1";
    assert value + ".00 " + Units[1] == "1.00 KiB";
  }

  lemma FormatBytesOneMiB()
    ensures FormatBytes(1024 * 1024) == "1.00 MiB"
  {
    assert Pow1024(2) == 1024 * 1024;
    FormatBytesExactMultiple(1, 2);
    var value := Decimal(1);
    assert value == "1";
    assert value + ".00 " + Units[2] == "1.00 MiB";
  }

  lemma FormatBytesOneGiB()
    ensures FormatBytes(1024 * 1024 * 1024) == "1.00 GiB"
  {
    assert Pow1024(3) == 1024 * 1024 * 1024;
    FormatBytesExactMultiple(1, 3);
    var value := Decimal(1);
    assert value == "1";
    assert value + ".00 " + Units[3] == "1.00 GiB";
  }

  lemma FormatBytesKiB512()
    ensures FormatBytes(512 * 1024) == "512.00 KiB"
  {
    assert Pow1024(1) == 1024;
    FormatBytesExactMultiple(512, 1);
    assert Decimal(51) == "51";
    var value := Decimal(512);
    assert value == "512";
    assert value + ".00 " + Units[1] == "512.00 KiB";
  }

  lemma FormatBytesMiB2()
    ensures FormatBytes(2048 * 1024) == "2.00 MiB"
  {
    assert Pow1024(2) == 1024 * 1024;
    FormatBytesExactMultiple(2, 2);
    var value := Decimal(2);
    assert value == "2";
    assert value + ".00 " + Units[2] == "2.00 MiB";
  }

  lemma FormatBytesKiB100()
    ensures FormatBytes(100 * 1024) == "100.00 KiB"
  {
    assert Pow1024(1) == 1024;
    FormatBytesExactMultiple(100, 1);
    assert Decimal(10) == "10";
    var value := Decimal(100);
    assert value == "100";
    assert value + ".00 " + Units[1] == "100.00 KiB";
  }

  lemma FormatBytesBytes1000()
    ensures FormatBytes(1000) == "1000.00 B"
  {
    assert Pow1024(0) == 1;
    FormatBytesExactMultiple(1000, 0);
    assert Decimal(10) == "10";
    assert Decimal(100) == "100";
    var value := Decimal(1000);
    assert value == "1000";
    assert value + ".00 " + Units[0] == "1000.00 B";
  }

  /** A count that is not a whole number of units is rounded: 2000 bytes print as `1.95 KiB`. */
  lemma FormatBytesRounds()
    ensures FormatBytes(2000) == "1.95 KiB"
  {
    Log1024Unique(2000, 1);
    assert Hundredths(2000) == 195;
    assert Decimal(1) == "1";
  }

  /** Rounding can carry the value up to 1024: one byte short of 1 MiB prints as `1024.00 KiB`. */
  lemma FormatBytesCarriesToUnitSize()
    ensures FormatBytes(1024 * 1024 - 1) == "1024.00 KiB"
  {
    Log1024Unique(1024 * 1024 - 1, 1);
    assert Hundredths(1024 * 1024 - 1) == 102400;
    assert Decimal(10) == "10";
    assert Decimal(102) == "102";
    assert Decimal(1024) == "1024";
  }
}
