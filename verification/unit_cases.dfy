/** The unit tests of the Rust sources, restated as lemmas about the model. */
module UnitCases {
  import opened Wrappers
  import opened Numeric
  import opened Text
  import opened Pixels
  import opened Grid
  import opened Server

  // Decimal and hex spellings of the sample values, worked out one at a time.

  lemma Decimal1024()
    ensures Decimal(1024) == "1024"
  {
    assert Decimal(102) == "102";
  }

  lemma Decimal768()
    ensures Decimal(768) == "768"
  {
  }

  lemma Green()
    ensures FormatColor(Rgb(0x00, 0xff, 0x00)) == "00ff00"
  {
  }

  lemma Orange()
    ensures FormatColor(Rgb(0xff, 0x0f, 0x00)) == "ff0f00"
  {
  }

  lemma TranslucentOrange()
    ensures FormatColor(Rgba(0xff, 0x0f, 0x00, 0xf0)) == "ff0f00f0"
  {
  }

  lemma DisplaySize()
    ensures FormatSize(NewSize(1024, 768)) == "SIZE 1024 768\n"
  {
    Decimal1024();
    Decimal768();
  }

  lemma DisplayColorRgb()
    ensures FormatColor(Rgb(0x00, 0x00, 0x00)) == "000000"
    ensures FormatColor(Rgb(0x0f, 0x0f, 0x0f)) == "0f0f0f"
    ensures FormatColor(Rgb(0xff, 0xff, 0xff)) == "ffffff"
  {
  }

  lemma DisplayColorRgba()
    ensures FormatColor(Rgba(0x00, 0x00, 0x00, 0x00)) == "00000000"
    ensures FormatColor(Rgba(0x0f, 0x0f, 0x0f, 0x0f)) == "0f0f0f0f"
    ensures FormatColor(Rgba(0xff, 0xff, 0xff, 0xff)) == "ffffffff"
  {
  }

  lemma FromStrRgb()
    ensures ParseColor("ff0f00") == Ok(Rgb(0xff, 0x0f, 0x00))
  {
    Orange();
    ColorRoundTrip(Rgb(0xff, 0x0f, 0x00));
  }

  lemma FromStrRgba()
    ensures ParseColor("ff0f00f0") == Ok(Rgba(0xff, 0x0f, 0x00, 0xf0))
  {
    TranslucentOrange();
    ColorRoundTrip(Rgba(0xff, 0x0f, 0x00, 0xf0));
  }

  lemma FromStrWrongSize()
    ensures ParseColor("000000f") == Err(WrongSize)
  {
  }

  lemma DisplayPixel()
    ensures FormatPixel(NewPixel(1024, 768, Rgb(0x00, 0xff, 0x00))) == "PX 1024 768 00ff00"
  {
    Decimal1024();
    Decimal768();
    Green();
  }

  /** The text `PX 1024 768 ff0f00`, as the display of the pixel it spells. */
  lemma SamplePixelText()
    ensures FormatPixel(NewPixel(1024, 768, Rgb(0xff, 0x0f, 0x00))) == "PX 1024 768 ff0f00"
  {
    Decimal1024();
    Decimal768();
    Orange();
  }

  lemma FromStrPixel()
    ensures ParsePixel("PX 1024 768 ff0f00") == Ok(NewPixel(1024, 768, Rgb(0xff, 0x0f, 0x00)))
  {
    SamplePixelText();
    PixelRoundTrip(NewPixel(1024, 768, Rgb(0xff, 0x0f, 0x00)));
  }

  lemma Hallo()
    ensures IsWord("hallo") && IsAscii("hallo")
  {
  }

  lemma TrailingText()
    ensures "PX 1024 768 ff0f00" + " " + "hallo" == "PX 1024 768 ff0f00 hallo"
  {
  }

  lemma FromStrPixelTrailing()
    ensures ParsePixel("PX 1024 768 ff0f00 hallo") == Err(WrongFormat)
  {
    SamplePixelText();
    Hallo();
    TrailingText();
    TrailingWordRejected(NewPixel(1024, 768, Rgb(0xff, 0x0f, 0x00)), "hallo");
  }

  lemma ShortText()
    ensures "PX" + " " + "1024" + " " + "768" == "PX 1024 768"
  {
  }

  lemma FromStrPixelShort()
    ensures ParsePixel("PX 1024 768") == Err(WrongFormat)
  {
    Decimal1024();
    Decimal768();
    ShortText();
    MissingColorRejected(1024, 768);
  }
}
