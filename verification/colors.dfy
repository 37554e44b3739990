/** `hex_to_rgb`: "#RRGGBB" to an RGB triple on the engine's 0.0–1.0 scale. */
module Colors {
  import opened Wrappers
  import opened Errors
  import Text

  /** An RGB colour as the engine takes it, each component a fraction of 255. */
  datatype Rgb = Rgb(r: real, g: real, b: real)

  predicate InUnitRange(c: Rgb) {
    0.0 <= c.r <= 1.0 && 0.0 <= c.g <= 1.0 && 0.0 <= c.b <= 1.0
  }

  /** The value of one hexadecimal digit, either case. */
  function HexDigit(c: char): (d: Option<nat>)
    ensures d.Some? ==> d.value < 16
  {
    if '0' <= c <= '9' then Some(c as int - '0' as int)
    else if 'a' <= c <= 'f' then Some(c as int - 'a' as int + 10)
    else if 'A' <= c <= 'F' then Some(c as int - 'A' as int + 10)
    else None
  }

  predicate IsHexDigit(c: char) {
    HexDigit(c).Some?
  }

  /** `s.lstrip("#")`: every leading '#' removed, the rest untouched. */
  function LStripHash(s: string): (r: string)
    ensures |r| <= |s| && r == s[|s| - |r|..]
    ensures |r| > 0 ==> r[0] != '#'
    ensures forall i :: 0 <= i < |s| - |r| ==> s[i] == '#'
  {
    if |s| > 0 && s[0] == '#' then LStripHash(s[1..]) else s
  }

  /** Two hex digits as one component value. */
  function HexPair(s: string): (v: Option<nat>)
    requires |s| == 2
    ensures v.Some? <==> IsHexDigit(s[0]) && IsHexDigit(s[1])
    ensures v.Some? ==> v.value < 256
  {
    if IsHexDigit(s[0]) && IsHexDigit(s[1]) then Some(16 * HexDigit(s[0]).value + HexDigit(s[1]).value)
    else None
  }

  /** A component value on the engine's scale (`v / 255.0`). */
  function Channel(v: int): (c: real)
    ensures 0 <= v <= 255 ==> 0.0 <= c <= 1.0
  {
    v as real / 255.0
  }

  /** Six hexadecimal digits, the only shape `hex_to_rgb` is meant to accept
      after its '#' prefix is removed. */
  predicate IsHexColor(h: string) {
    |h| == 6 && forall i :: 0 <= i < 6 ==> IsHexDigit(h[i])
  }

  /** The three pairs of a six-character string parse exactly when all six
      characters are hex digits. */
  lemma HexPairsIff(h: string)
    requires |h| == 6
    ensures HexPair(h[0..2]).Some? && HexPair(h[2..4]).Some? && HexPair(h[4..6]).Some? <==> IsHexColor(h)
  {
    assert h[0..2][0] == h[0] && h[0..2][1] == h[1];
    assert h[2..4][0] == h[2] && h[2..4][1] == h[3];
    assert h[4..6][0] == h[4] && h[4..6][1] == h[5];
  }

  /** `hex_to_rgb` with each two-character slice read as two hex digits. The
      result always lies in the unit cube, and every rejection reports the
      original input. */
  function HexToRgb(s: string): (r: Result<Rgb, Error>)
    ensures r.Ok? <==> IsHexColor(LStripHash(s))
    ensures r.Ok? ==> InUnitRange(r.value)
    ensures r.Err? ==> r.error == InvalidHexColor(s)
  {
    var h := LStripHash(s);
    if |h| != 6 then Err(InvalidHexColor(s))
    else
      var r, g, b := HexPair(h[0..2]), HexPair(h[2..4]), HexPair(h[4..6]);
      HexPairsIff(h);
      if r.Some? && g.Some? && b.Some? then
        Ok(Rgb(Channel(r.value), Channel(g.value), Channel(b.value)))
      else
        Err(InvalidHexColor(s))
  }

  /** The '#' is optional: prefixing one changes nothing. */
  lemma {:induction false} HashOptional(s: string)
    ensures HexToRgb("#" + s) == HexToRgb(s) || HexToRgb("#" + s) == Err(InvalidHexColor("#" + s))
    ensures HexToRgb(s).Ok? ==> HexToRgb("#" + s) == HexToRgb(s)
  {
    assert ("#" + s)[1..] == s;
    assert LStripHash("#" + s) == LStripHash(s);
  }

  /** The upper-case digit for a value below 16. */
  function ToHexDigit(d: nat): (c: char)
    requires d < 16
    ensures HexDigit(c) == Some(d)
  {
    if d < 10 then (d + '0' as int) as char else (d - 10 + 'A' as int) as char
  }

  /** Formats a byte triple as "#RRGGBB", the inverse direction of `HexToRgb`. */
  function FormatHex(r: nat, g: nat, b: nat): string
    requires r < 256 && g < 256 && b < 256
  {
    ['#', ToHexDigit(r / 16), ToHexDigit(r % 16), ToHexDigit(g / 16), ToHexDigit(g % 16),
     ToHexDigit(b / 16), ToHexDigit(b % 16)]
  }

  /** Two formatted digits read back as the byte they came from. */
  lemma HexPairOfFormatted(v: nat)
    requires v < 256
    ensures HexPair([ToHexDigit(v / 16), ToHexDigit(v % 16)]) == Some(v)
  {
  }

  /** Reading a colour whose stripped digits spell the three given bytes. */
  lemma HexToRgbOfPairs(s: string, r: nat, g: nat, b: nat)
    requires |LStripHash(s)| == 6
    requires HexPair(LStripHash(s)[0..2]) == Some(r)
    requires HexPair(LStripHash(s)[2..4]) == Some(g)
    requires HexPair(LStripHash(s)[4..6]) == Some(b)
    ensures HexToRgb(s) == Ok(Rgb(Channel(r), Channel(g), Channel(b)))
  {
  }

  /** Every byte triple survives formatting and parsing: parsing "#RRGGBB"
      yields each byte divided by 255. */
  lemma FormatHexRoundTrip(r: nat, g: nat, b: nat)
    requires r < 256 && g < 256 && b < 256
    ensures HexToRgb(FormatHex(r, g, b)) == Ok(Rgb(Channel(r), Channel(g), Channel(b)))
  {
    var s := FormatHex(r, g, b);
    var h := s[1..];
    assert LStripHash(s) == h by {
      assert s[0] == '#' && h[0] != '#';
      assert LStripHash(s) == LStripHash(h);
    }
    assert HexPair(h[0..2]) == Some(r) by {
      HexPairOfFormatted(r);
      assert h[0..2] == [ToHexDigit(r / 16), ToHexDigit(r % 16)];
    }
    assert HexPair(h[2..4]) == Some(g) by {
      HexPairOfFormatted(g);
      assert h[2..4] == [ToHexDigit(g / 16), ToHexDigit(g % 16)];
    }
    assert HexPair(h[4..6]) == Some(b) by {
      HexPairOfFormatted(b);
      assert h[4..6] == [ToHexDigit(b / 16), ToHexDigit(b % 16)];
    }
    HexToRgbOfPairs(s, r, g, b);
  }

  // ---------------------------------------------------------------------
  // The parse as written: Python's int(h[i:i+2], 16) is more permissive
  // than two hex digits.
  // ---------------------------------------------------------------------

  /** Python's `int(s, 16)` on a two-character ASCII-digit string: two hex
      digits, or one digit with a sign before it or white space on either
      side. The non-ASCII Unicode digits `int()` also accepts are not part of
      this model. */
  function PyIntHexPair(s: string): (v: Option<int>)
    requires |s| == 2
    ensures IsHexDigit(s[0]) && IsHexDigit(s[1]) ==> v == HexPair(s)
  {
    match (HexDigit(s[0]), HexDigit(s[1]))
    case (Some(hi), Some(lo)) => Some(16 * hi + lo)
    case (None, Some(d)) =>
      if s[0] == '-' then Some(-(d as int))
      else if s[0] == '+' || Text.IsSpace(s[0]) then Some(d)
      else None
    case (Some(d), None) => if Text.IsSpace(s[1]) then Some(d) else None
    case (None, None) => None
  }

  /** `hex_to_rgb` exactly as written, with Python's `int(.., 16)`, for
      inputs whose digits are ASCII. */
  function HexToRgbAsWritten(s: string): (r: Result<Rgb, Error>)
    ensures r.Err? ==> r.error == InvalidHexColor(s)
    ensures HexToRgb(s).Ok? ==> r == HexToRgb(s)
  {
    var h := LStripHash(s);
    if |h| != 6 then Err(InvalidHexColor(s))
    else
      var r, g, b := PyIntHexPair(h[0..2]), PyIntHexPair(h[2..4]), PyIntHexPair(h[4..6]);
      if r.Some? && g.Some? && b.Some? then
        Ok(Rgb(Channel(r.value), Channel(g.value), Channel(b.value)))
      else
        Err(InvalidHexColor(s))
  }

  /** The as-written parse accepts "#-F0000" (and "#-d0000" for any non-zero
      hex digit d) and yields a negative red component, outside the 0.0–1.0
      range the function promises; the strict parse rejects the input. */
  lemma NegativeComponentAsWritten(d: char)
    requires IsHexDigit(d) && HexDigit(d).value > 0
    ensures var s := "#-" + [d] + "0000";
      && HexToRgbAsWritten(s) == Ok(Rgb(Channel(-(HexDigit(d).value as int)), 0.0, 0.0))
      && !InUnitRange(HexToRgbAsWritten(s).value)
      && HexToRgb(s) == Err(InvalidHexColor(s))
  {
    var s := "#-" + [d] + "0000";
    var h := s[1..];
    assert LStripHash(s) == LStripHash(h);
    assert h[0] == '-';
    assert LStripHash(h) == h;
    assert h[0..2] == ['-', d];
    assert h[2..4] == "00" && h[4..6] == "00";
    assert PyIntHexPair(['-', d]) == Some(-(HexDigit(d).value as int));
    assert PyIntHexPair("00") == Some(0);
    assert !IsHexDigit('-');
  }
}
