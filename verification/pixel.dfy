/**
  Colours and pixels and their wire text: `Color` prints as six or eight
  lower-case hex digits and `Pixel` as `PX <x> <y> <color>`; both parse
  back from that text with a small error taxonomy.
 */
module Pixels {
  import opened Wrappers
  import opened Numeric
  import opened Text

  /** An RGB colour with an optional alpha channel; `a == None` is printed as six digits. */
  datatype Color = Color(r: u8, g: u8, b: u8, a: Option<u8>)

  datatype Coordinate = Coordinate(x: u32, y: u32)

  datatype Pixel = Pixel(coord: Coordinate, color: Color)

  /** `ParseColorError`. */
  datatype ColorError = ColorParseInt(kind: IntErrorKind) | WrongSize

  /** `ParsePixelError`. */
  datatype PixelError = PixelParseInt(kind: IntErrorKind) | PixelParseColor(cause: ColorError) | WrongFormat

  /** `Color::rgb`: an opaque colour, displayed as its three channels' hex pairs. */
  function Rgb(r: u8, g: u8, b: u8): (c: Color)
    ensures c.r == r && c.g == g && c.b == b && c.a.None?
    ensures FormatColor(c) == Hex2(r) + Hex2(g) + Hex2(b)
  {
    var c := Color(r, g, b, None);
    FormatColorGroups(c);
    c
  }

  /** `Color::rgba`: a colour with alpha, displayed as four hex pairs, alpha last. */
  function Rgba(r: u8, g: u8, b: u8, a: u8): (c: Color)
    ensures c.r == r && c.g == g && c.b == b && c.a == Some(a)
    ensures FormatColor(c) == Hex2(r) + Hex2(g) + Hex2(b) + Hex2(a)
  {
    var c := Color(r, g, b, Some(a));
    FormatColorGroups(c);
    c
  }

  /** `Pixel::new`: the pixel at `(x, y)`, displayed as `PX`, the two coordinates and the colour. */
  function NewPixel(x: u32, y: u32, color: Color): (p: Pixel)
    ensures p.coord == Coordinate(x, y) && p.color == color
    ensures Tokens(FormatPixel(p)) == ["PX", Decimal(x), Decimal(y), FormatColor(color)]
  {
    var p := Pixel(Coordinate(x, y), color);
    PixelTokens(p);
    p
  }

  /** `Display for Color`: two lower-case, zero-padded hex digits per channel, alpha last. */
  function FormatColor(c: Color): (s: string)
    ensures |s| == if c.a.None? then 6 else 8
    ensures forall i :: 0 <= i < |s| ==> IsLowerHexDigit(s[i])
  {
    var rgb := Hex2(c.r) + Hex2(c.g) + Hex2(c.b);
    var s := match c.a
      case None => rgb
      case Some(a) => rgb + Hex2(a);
    assert s[0..2] == Hex2(c.r) && s[2..4] == Hex2(c.g) && s[4..6] == Hex2(c.b);
    assert c.a.Some? ==> s[6..8] == Hex2(c.a.value);
    s
  }

  /** A character a channel group may start with: a hex digit, or the sign `from_str_radix` accepts. */
  predicate PlusOrHex(c: char)
  {
    c == '+' || DigitValue(c, 16).Some?
  }

  /** A two-character group that `u8::from_str_radix(_, 16)` accepts: a hex digit or '+', then a hex digit. */
  predicate GroupAccepted(g: string)
    requires |g| == 2
  {
    PlusOrHex(g[0]) && DigitValue(g[1], 16).Some?
  }

  /** What `u8::from_str_radix(_, 16)` does with exactly two characters. */
  lemma HexPair(g: string)
    requires |g| == 2
    ensures ParseHexU8(g).Ok? <==> GroupAccepted(g)
    ensures ParseHexU8(g).Err? ==> ParseHexU8(g).error == InvalidDigit
    ensures AllDigits(g, 16) ==> ParseHexU8(g) == Ok(Value(g, 16))
    ensures g[0] == '+' && DigitValue(g[1], 16).Some? ==> ParseHexU8(g) == Ok(DigitValue(g[1], 16).value)
  {
    TwoHexDigitsFit(g);
    if g[0] == '+' {
      assert Unsigned(g) == [g[1]];
      if DigitValue(g[1], 16).Some? { ValueOfShort([g[1]], 16); }
    } else {
      assert Unsigned(g) == g;
      if AllDigits(g, 16) { ValueOfShort(g, 16); }
    }
  }

  /**
    One channel: `u8::from_str_radix(group, 16)?`. A two-character group is
    accepted exactly when it is a hex digit or '+' followed by a hex digit;
    its value is the two digits' value, or the one digit's after a '+'.
   */
  function Channel(g: string): (r: Result<u8, ColorError>)
    ensures r.Err? ==> r.error.ColorParseInt?
    ensures |g| == 2 ==> (r.Ok? <==> GroupAccepted(g))
    ensures |g| == 2 && r.Err? ==> r.error == ColorParseInt(InvalidDigit)
    ensures |g| == 2 && AllDigits(g, 16) ==> r == Ok(Value(g, 16))
    ensures |g| == 2 && g[0] == '+' && DigitValue(g[1], 16).Some? ==> r == Ok(DigitValue(g[1], 16).value)
  {
    if |g| == 2 then HexPair(g); ChannelOf(ParseHexU8(g)) else ChannelOf(ParseHexU8(g))
  }

  /** A `ParseIntError` converted by `?` into a colour error. */
  function ChannelOf(p: Result<u8, IntErrorKind>): (r: Result<u8, ColorError>)
    ensures r.Ok? <==> p.Ok?
    ensures p.Ok? ==> r.value == p.value
    ensures p.Err? ==> r.error == ColorParseInt(p.error)
  {
    match p
    case Ok(v) => Ok(v)
    case Err(k) => Err(ColorParseInt(k))
  }

  /** The character at index `i` of a colour is one its group accepts there. */
  predicate AcceptedAt(s: string, i: int)
    requires 0 <= i < |s|
  {
    if i % 2 == 0 then PlusOrHex(s[i]) else DigitValue(s[i], 16).Some?
  }

  /** The first index of the two-character group holding index `i` of a colour. */
  function GroupStart(i: nat): (k: nat)
    requires i < 8
    ensures k <= i < k + 2 && k + 2 <= 8 && (i < 6 ==> k + 2 <= 6)
    ensures k % 2 == 0 && i - k == i % 2
  {
    if i < 2 then 0 else if i < 4 then 2 else if i < 6 then 4 else 6
  }

  /** Every group is accepted exactly when every character is accepted at its place. */
  lemma GroupsCover(s: string)
    requires |s| == 6 || |s| == 8
    ensures (forall i :: 0 <= i < |s| ==> AcceptedAt(s, i)) <==>
      && GroupAccepted(s[0..2]) && GroupAccepted(s[2..4]) && GroupAccepted(s[4..6])
      && (|s| == 8 ==> GroupAccepted(s[6..8]))
  {
    if GroupAccepted(s[0..2]) && GroupAccepted(s[2..4]) && GroupAccepted(s[4..6]) && (|s| == 8 ==> GroupAccepted(s[6..8])) {
      forall i | 0 <= i < |s| ensures AcceptedAt(s, i) {
        var k := GroupStart(i);
        assert s[i] == s[k..k + 2][i - k];
      }
    }
    if forall i :: 0 <= i < |s| ==> AcceptedAt(s, i) {
      forall k | 0 <= k < |s| && k % 2 == 0 ensures GroupAccepted(s[k..k + 2]) {
        assert AcceptedAt(s, k) && AcceptedAt(s, k + 1);
      }
      assert 0 % 2 == 0 && 2 % 2 == 0 && 4 % 2 == 0 && 6 % 2 == 0;
    }
  }

  lemma GroupsAreDigits(s: string)
    requires AllDigits(s, 16)
    requires |s| == 6 || |s| == 8
    ensures AllDigits(s[0..2], 16) && AllDigits(s[2..4], 16) && AllDigits(s[4..6], 16)
    ensures |s| == 8 ==> AllDigits(s[6..8], 16)
  {
  }

  /**
    `FromStr for Color`: the length alone decides between six digits (no
    alpha), eight digits (alpha) and `WrongSize`; then the groups are parsed
    left to right and the first bad group gives `ParseInt`. A colour of the
    right length is accepted exactly when each group is a hex digit or '+'
    followed by a hex digit, and each channel is its group's value.
   */
  function ParseColor(s: string): (r: Result<Color, ColorError>)
    requires IsAscii(s)
    ensures r == Err(WrongSize) <==> |s| != 6 && |s| != 8
    ensures r.Ok? ==> (r.value.a.Some? <==> |s| == 8)
    ensures r.Err? && (|s| == 6 || |s| == 8) ==> r.error == ColorParseInt(InvalidDigit)
    ensures |s| == 6 || |s| == 8 ==> (r.Ok? <==> forall i :: 0 <= i < |s| ==> AcceptedAt(s, i))
    ensures (|s| == 6 || |s| == 8) && AllDigits(s, 16) ==> r.Ok?
    ensures r.Ok? && |s| >= 6 ==>
      Channel(s[0..2]) == Ok(r.value.r) && Channel(s[2..4]) == Ok(r.value.g) && Channel(s[4..6]) == Ok(r.value.b)
    ensures r.Ok? && |s| == 8 ==> Channel(s[6..8]) == Ok(r.value.a.value)
  {
    if |s| == 6 || |s| == 8 then
      GroupsCover(s);
      if AllDigits(s, 16) then GroupsAreDigits(s); ColorGroups(s) else ColorGroups(s)
    else Err(WrongSize)
  }

  /**
    The group-by-group part of `ParseColor`, for a string of length six or
    eight: it succeeds exactly when every group's channel does, with those
    channels, and otherwise reports the first bad group's invalid digit.
   */
  function ColorGroups(s: string): (r: Result<Color, ColorError>)
    requires |s| == 6 || |s| == 8
    ensures r.Ok? <==>
      && Channel(s[0..2]).Ok? && Channel(s[2..4]).Ok? && Channel(s[4..6]).Ok?
      && (|s| == 8 ==> Channel(s[6..8]).Ok?)
    ensures r.Ok? ==>
      && Channel(s[0..2]) == Ok(r.value.r) && Channel(s[2..4]) == Ok(r.value.g) && Channel(s[4..6]) == Ok(r.value.b)
      && (r.value.a.Some? <==> |s| == 8)
      && (|s| == 8 ==> Channel(s[6..8]) == Ok(r.value.a.value))
    ensures r.Err? ==> r.error == ColorParseInt(InvalidDigit)
  {
    var r :- Channel(s[0..2]);
    var g :- Channel(s[2..4]);
    var b :- Channel(s[4..6]);
    if |s| == 6 then Ok(Rgb(r, g, b))
    else
      var a :- Channel(s[6..8]);
      Ok(Rgba(r, g, b, a))
  }

  /** Parsing the display of any colour returns that colour, alpha presence included. */
  lemma ColorRoundTrip(c: Color)
    ensures IsAscii(FormatColor(c))
    ensures ParseColor(FormatColor(c)) == Ok(c)
  {
    var s := FormatColor(c);
    LowerHexIsWord(s);
    FormatColorGroups(c);
    var h0, h1, h2 := Hex2(c.r), Hex2(c.g), Hex2(c.b);
    assert s[0..2] == h0 && s[2..4] == h1 && s[4..6] == h2;
    ChannelOfHex2(c.r);
    ChannelOfHex2(c.g);
    ChannelOfHex2(c.b);
    if c.a.Some? {
      var h3 := Hex2(c.a.value);
      assert s[6..8] == h3;
      ChannelOfHex2(c.a.value);
    }
  }

  lemma ChannelOfHex2(n: u8)
    ensures Channel(Hex2(n)) == Ok(n)
  {
    Hex2RoundTrip(n);
  }

  function LowerAscii(c: char): char
  {
    if 'A' <= c <= 'Z' then (c as int - 'A' as int + 'a' as int) as char else c
  }

  /** The text with ASCII upper-case letters turned to lower case. */
  function Lower(s: string): (t: string)
    ensures |t| == |s|
  {
    seq(|s|, i requires 0 <= i < |s| => LowerAscii(s[i]))
  }

  lemma LowerConcat(a: string, b: string)
    ensures Lower(a + b) == Lower(a) + Lower(b)
  {
  }

  lemma HexDigitOfValue(c: char)
    requires DigitValue(c, 16).Some?
    ensures HexDigit(DigitValue(c, 16).value) == LowerAscii(c)
  {
  }

  lemma SplitByte(high: nat, low: nat)
    requires high < 16 && low < 16
    ensures (16 * high + low) / 16 == high && (16 * high + low) % 16 == low
  {
  }

  /** A group of two hex digits reprints as the same digits in lower case. */
  lemma Hex2OfGroup(g: string)
    requires |g| == 2 && AllDigits(g, 16)
    ensures Value(g, 16) < 0x100
    ensures Hex2(Value(g, 16)) == Lower(g)
  {
    ValueOfShort(g, 16);
    var d0, d1 := DigitValue(g[0], 16).value, DigitValue(g[1], 16).value;
    SplitByte(d0, d1);
    HexDigitOfValue(g[0]);
    HexDigitOfValue(g[1]);
    assert Hex2(16 * d0 + d1) == [HexDigit(d0), HexDigit(d1)];
    assert Lower(g) == [LowerAscii(g[0]), LowerAscii(g[1])];
  }

  lemma FormatColorGroups(c: Color)
    ensures c.a.None? ==> FormatColor(c) == Hex2(c.r) + Hex2(c.g) + Hex2(c.b)
    ensures c.a.Some? ==> FormatColor(c) == Hex2(c.r) + Hex2(c.g) + Hex2(c.b) + Hex2(c.a.value)
  {
  }

  /** A colour spelled with hex digits only parses to the values of its groups. */
  lemma ParsedChannels(s: string)
    requires |s| == 6 || |s| == 8
    requires AllDigits(s, 16)
    ensures IsAscii(s)
    ensures AllDigits(s[0..2], 16) && AllDigits(s[2..4], 16) && AllDigits(s[4..6], 16)
    ensures |s| == 8 ==> AllDigits(s[6..8], 16)
    ensures Value(s[0..2], 16) < 0x100 && Value(s[2..4], 16) < 0x100 && Value(s[4..6], 16) < 0x100
    ensures |s| == 8 ==> Value(s[6..8], 16) < 0x100
    ensures |s| == 6 ==> ParseColor(s) == Ok(Rgb(Value(s[0..2], 16), Value(s[2..4], 16), Value(s[4..6], 16)))
    ensures |s| == 8 ==> ParseColor(s) == Ok(Rgba(Value(s[0..2], 16), Value(s[2..4], 16), Value(s[4..6], 16), Value(s[6..8], 16)))
  {
    assert IsAscii(s) by {
      forall i | 0 <= i < |s| ensures s[i] < '\U{80}' {
        assert DigitValue(s[i], 16).Some?;
      }
    }
    GroupsAreDigits(s);
    ValueOfShort(s[0..2], 16);
    ValueOfShort(s[2..4], 16);
    ValueOfShort(s[4..6], 16);
    if |s| == 8 {
      ValueOfShort(s[6..8], 16);
    }
  }

  /**
    For a colour written with hex digits only, in either case, parsing and
    printing again gives the same text in lower case: the display is the
    canonical form of every accepted spelling without a '+'.
   */
  lemma ColorCanonical(s: string)
    requires |s| == 6 || |s| == 8
    requires AllDigits(s, 16)
    ensures IsAscii(s)
    ensures ParseColor(s).Ok?
    ensures FormatColor(ParseColor(s).value) == Lower(s)
  {
    ParsedChannels(s);
    Hex2OfGroup(s[0..2]);
    Hex2OfGroup(s[2..4]);
    Hex2OfGroup(s[4..6]);
    if |s| == 8 { Hex2OfGroup(s[6..8]); }
    FormatColorGroups(ParseColor(s).value);
    LowerGroups(s);
  }

  /**
    Each channel goes through `from_str_radix`, which takes a leading '+':
    a colour spelled with signed one-digit groups is accepted.
   */
  lemma PlusSignAccepted()
    ensures ParseColor("+f+f+f") == Ok(Rgb(0x0f, 0x0f, 0x0f))
  {
    assert Channel("+f") == Ok(0x0f) by {
      assert Unsigned("+f") == "f";
      ValueOfShort("f", 16);
    }
    var s := "+f+f+f";
    assert s[0..2] == "+f" && s[2..4] == "+f" && s[4..6] == "+f";
  }

  /** Only one sign per group: a second '+' in a group is an invalid digit. */
  lemma DoubleSignRejected()
    ensures ParseColor("ff++ff") == Err(ColorParseInt(InvalidDigit))
  {
    var s := "ff++ff";
    assert !AcceptedAt(s, 3);
  }

  /** Lower-casing a colour string works group by group. */
  lemma LowerGroups(s: string)
    requires |s| == 6 || |s| == 8
    ensures |s| == 6 ==> Lower(s) == Lower(s[0..2]) + Lower(s[2..4]) + Lower(s[4..6])
    ensures |s| == 8 ==> Lower(s) == Lower(s[0..2]) + Lower(s[2..4]) + Lower(s[4..6]) + Lower(s[6..8])
  {
    var g0, g1, g2 := s[0..2], s[2..4], s[4..6];
    LowerConcat(g0 + g1, g2);
    LowerConcat(g0, g1);
    assert s[0..4] == g0 + g1;
    assert s[0..6] == s[0..4] + g2;
    if |s| == 6 {
      assert s == s[0..6];
    } else {
      var g3 := s[6..8];
      assert s == s[0..6] + g3;
      LowerConcat(g0 + g1 + g2, g3);
    }
  }

  /** Lower-case hex text is a single ASCII token of hex digits. */
  lemma LowerHexIsWord(s: string)
    requires |s| > 0
    requires forall i :: 0 <= i < |s| ==> IsLowerHexDigit(s[i])
    ensures AllDigits(s, 16) && IsWord(s) && IsAscii(s)
  {
  }

  /** A digit string is a single token. */
  lemma DigitsAreWord(s: string, radix: nat)
    requires 2 <= radix <= 36
    requires |s| > 0 && AllDigits(s, radix)
    ensures IsWord(s) && IsAscii(s)
  {
    forall i | 0 <= i < |s| ensures !IsWhitespace(s[i]) && s[i] < '\U{80}' {
      assert DigitValue(s[i], radix).Some?;
    }
  }

  /** `Display for Pixel`: `PX <x> <y> <color>`, single spaces, decimal coordinates. */
  function FormatPixel(p: Pixel): (s: string)
    ensures IsAscii(s)
  {
    var x, y, c := Decimal(p.coord.x), Decimal(p.coord.y), FormatColor(p.color);
    PixelWords(x, y, c);
    JoinFour("PX", x, y, c);
    "PX" + " " + x + " " + y + " " + c
  }

  /** The four words of a pixel's display are whitespace-free ASCII tokens. */
  lemma PixelWords(x: string, y: string, c: string)
    requires |x| > 0 && AllDigits(x, 10) && |y| > 0 && AllDigits(y, 10)
    requires |c| > 0 && forall i :: 0 <= i < |c| ==> IsLowerHexDigit(c[i])
    ensures AllWords(["PX", x, y, c]) && AllAscii(["PX", x, y, c])
    ensures IsAscii(Join(["PX", x, y, c]))
  {
    var words := ["PX", x, y, c];
    DigitsAreWord(x, 10);
    DigitsAreWord(y, 10);
    LowerHexIsWord(c);
    assert IsWord("PX") && IsAscii("PX");
    JoinAscii(words);
  }

  /** Splitting a pixel's display on whitespace gives back its four words. */
  lemma PixelTokens(p: Pixel)
    ensures Tokens(FormatPixel(p)) == ["PX", Decimal(p.coord.x), Decimal(p.coord.y), FormatColor(p.color)]
  {
    var words := ["PX", Decimal(p.coord.x), Decimal(p.coord.y), FormatColor(p.color)];
    PixelWords(words[1], words[2], words[3]);
    JoinFour(words[0], words[1], words[2], words[3]);
    TokensOfJoin(words, "");
    assert Join(words) + "" == Join(words);
  }

  /**
    `FromStr for Pixel`: exactly four whitespace-separated tokens, of which
    the first is skipped unread; the coordinates are decimal `u32` and the
    fourth token a colour. Tokens are taken and parsed left to right, so a
    bad coordinate is reported before a missing later token.
   */
  function ParsePixel(s: string): (r: Result<Pixel, PixelError>)
    requires IsAscii(s)
    ensures |Tokens(s)| < 2 ==> r == Err(WrongFormat)
    ensures var ts := Tokens(s); |ts| == 2 && ParseU32(ts[1]).Ok? ==> r == Err(WrongFormat)
    ensures r.Ok? ==> |Tokens(s)| == 4
    ensures r.Ok? ==> ParseU32(Tokens(s)[1]) == Ok(r.value.coord.x) && ParseU32(Tokens(s)[2]) == Ok(r.value.coord.y)
    ensures r.Ok? ==> ParseColor(Tokens(s)[3]) == Ok(r.value.color)
    ensures |Tokens(s)| == 4 && r.Err? ==> !r.error.WrongFormat?
    ensures var ts := Tokens(s);
      |ts| >= 2 && ParseU32(ts[1]).Err? ==>
        r == Err(PixelParseInt(ParseU32(ts[1]).error))
    ensures var ts := Tokens(s);
      |ts| >= 3 && ParseU32(ts[1]).Ok? && ParseU32(ts[2]).Err? ==>
        r == Err(PixelParseInt(ParseU32(ts[2]).error))
    ensures var ts := Tokens(s);
      |ts| == 3 && ParseU32(ts[1]).Ok? && ParseU32(ts[2]).Ok? ==>
        r == Err(WrongFormat)
    ensures var ts := Tokens(s);
      |ts| >= 4 && ParseU32(ts[1]).Ok? && ParseU32(ts[2]).Ok? && ParseColor(ts[3]).Err? ==>
        r == Err(PixelParseColor(ParseColor(ts[3]).error))
    ensures var ts := Tokens(s);
      |ts| >= 4 && ParseU32(ts[1]).Ok? && ParseU32(ts[2]).Ok? && ParseColor(ts[3]).Ok? ==>
        r == if |ts| == 4
          then Ok(NewPixel(ParseU32(ts[1]).value, ParseU32(ts[2]).value, ParseColor(ts[3]).value))
          else Err(WrongFormat)
    ensures r.Err? && r.error.PixelParseInt? ==> r.error.kind != Empty
  {
    var ts := Tokens(s);
    // Neither the command word nor the x coordinate present.
    if |ts| < 2 then Err(WrongFormat)
    else
      match ParseU32(ts[1])
      case Err(k) => Err(PixelParseInt(k))
      case Ok(x) =>
        if |ts| < 3 then Err(WrongFormat)
        else
          match ParseU32(ts[2])
          case Err(k) => Err(PixelParseInt(k))
          case Ok(y) =>
            if |ts| < 4 then Err(WrongFormat)
            else
              match ParseColor(ts[3])
              case Err(e) => Err(PixelParseColor(e))
              case Ok(c) =>
                if |ts| > 4 then Err(WrongFormat) else Ok(NewPixel(x, y, c))
  }

  /** Parsing the display of any pixel returns that pixel. */
  lemma PixelRoundTrip(p: Pixel)
    ensures ParsePixel(FormatPixel(p)) == Ok(p)
  {
    PixelTokens(p);
    DecimalRoundTrip(p.coord.x);
    DecimalRoundTrip(p.coord.y);
    ColorRoundTrip(p.color);
  }

  /** A fifth word after a well-formed pixel makes the whole line malformed. */
  lemma TrailingWordRejected(p: Pixel, w: string)
    requires IsWord(w) && IsAscii(w)
    ensures IsAscii(FormatPixel(p) + " " + w)
    ensures ParsePixel(FormatPixel(p) + " " + w) == Err(WrongFormat)
  {
    var words := ["PX", Decimal(p.coord.x), Decimal(p.coord.y), FormatColor(p.color)];
    PixelWords(words[1], words[2], words[3]);
    JoinFour(words[0], words[1], words[2], words[3]);
    JoinSnoc(words, w);
    assert AllWords(words + [w]) && AllAscii(words + [w]);
    JoinAscii(words + [w]);
    TokensOfJoin(words + [w], "");
    assert Join(words + [w]) + "" == FormatPixel(p) + " " + w;
    DecimalRoundTrip(p.coord.x);
    DecimalRoundTrip(p.coord.y);
    ColorRoundTrip(p.color);
  }

  /** Two coordinates without a colour are a malformed pixel, not a bad number. */
  lemma MissingColorRejected(x: u32, y: u32)
    ensures IsAscii("PX" + " " + Decimal(x) + " " + Decimal(y))
    ensures ParsePixel("PX" + " " + Decimal(x) + " " + Decimal(y)) == Err(WrongFormat)
  {
    var line := "PX" + " " + Decimal(x) + " " + Decimal(y);
    QueryTokens(x, y);
    DecimalRoundTrip(x);
    DecimalRoundTrip(y);
    assert Tokens(line)[1] == Decimal(x) && Tokens(line)[2] == Decimal(y);
  }

  /** The query form `PX <x> <y>` splits into its three words. */
  lemma QueryTokens(x: u32, y: u32)
    ensures IsAscii("PX" + " " + Decimal(x) + " " + Decimal(y))
    ensures Tokens("PX" + " " + Decimal(x) + " " + Decimal(y)) == ["PX", Decimal(x), Decimal(y)]
  {
    var words := ["PX", Decimal(x), Decimal(y)];
    DigitsAreWord(words[1], 10);
    DigitsAreWord(words[2], 10);
    assert IsWord("PX") && IsAscii("PX");
    assert AllWords(words) && AllAscii(words);
    JoinThree(words[0], words[1], words[2]);
    JoinAscii(words);
    TokensOfJoin(words, "");
    assert Join(words) + "" == Join(words);
  }

  /** The first token is never inspected: only the tokens after it matter. */
  lemma FirstTokenIgnored(s: string, t: string)
    requires IsAscii(s) && IsAscii(t)
    requires |Tokens(s)| > 0 && |Tokens(t)| > 0
    requires Tokens(s)[1..] == Tokens(t)[1..]
    ensures ParsePixel(s) == ParsePixel(t)
  {
    var ts, tt := Tokens(s), Tokens(t);
    assert |ts| == |tt|;
    assert forall i :: 1 <= i < |ts| ==> ts[i] == ts[1..][i - 1] == tt[i];
  }
}
