/** The deterministic `Generators`: conversions between hex colour codes and
    red, green, blue (and alpha byte) channels. */
module Generators {
  import opened Errors

  const HexError := "Functions.Generators.hexToRGB: Invalid hex code"
  const HexAlphaError := "Functions.Generators.hexToRGBA: Invalid hex code"

  /** A number as `parseInt` produces it: an integer, or NaN. */
  datatype Num = Int(v: int) | NaN

  /** The array `[r, g, b]` that `hexToRGB` returns. */
  datatype Rgb = Rgb(r: Num, g: Num, b: Num)

  /** The array `[r, g, b, a]` of `hexToRGBA`, with the alpha channel as the
      parsed byte, before its division by 255. */
  datatype Rgba = Rgba(r: Num, g: Num, b: Num, a: Num)

  // ---------------------------------------------------------------------
  // Hex digits

  predicate IsHexDigit(c: char) {
    '0' <= c <= '9' || 'a' <= c <= 'f' || 'A' <= c <= 'F'
  }

  predicate IsLowerHexDigit(c: char) {
    '0' <= c <= '9' || 'a' <= c <= 'f'
  }

  predicate AllHexDigits(s: string) {
    forall i :: 0 <= i < |s| ==> IsHexDigit(s[i])
  }

  /** The value of a hex digit, either case. */
  function DigitValue(c: char): (d: nat)
    requires IsHexDigit(c)
    ensures d < 16
  {
    if c <= '9' then c as int - '0' as int
    else if c <= 'F' then c as int - 'A' as int + 10
    else c as int - 'a' as int + 10
  }

  /** The digit `Number.prototype.toString(16)` writes for `d`: lower case. */
  function DigitChar(d: nat): (c: char)
    requires d < 16
    ensures IsLowerHexDigit(c) && DigitValue(c) == d
  {
    if d < 10 then ('0' as int + d) as char else ('a' as int + d - 10) as char
  }

  function ToLower(c: char): char {
    if 'A' <= c <= 'Z' then (c as int + 32) as char else c
  }

  /** Writing back the value of a digit gives the digit in lower case. */
  lemma DigitCharOfValue(c: char)
    requires IsHexDigit(c)
    ensures DigitChar(DigitValue(c)) == ToLower(c)
  {
  }

  // ---------------------------------------------------------------------
  // parseInt(s, 16), section 19.2.5 of ECMA-262

  /** The WhiteSpace and LineTerminator code points of ECMA-262 (sections
      12.2 and 12.3), which `parseInt` skips at the start of its argument. */
  predicate IsWhiteSpace(c: char) {
    c == '\t' || c == '\n' || c == '\U{000B}' || c == '\U{000C}' || c == '\r'
    || c == ' ' || c == '\U{00A0}' || c == '\U{1680}' || '\U{2000}' <= c <= '\U{200A}'
    || c == '\U{2028}' || c == '\U{2029}' || c == '\U{202F}' || c == '\U{205F}'
    || c == '\U{3000}' || c == '\U{FEFF}'
  }

  /** `s` without its leading white space. */
  function TrimStart(s: string): (t: string)
    ensures |t| <= |s| && t == s[|s| - |t|..]
    ensures t == [] || !IsWhiteSpace(t[0])
  {
    if s != [] && IsWhiteSpace(s[0]) then TrimStart(s[1..]) else s
  }

  /** The length of the longest prefix of `s` made of hex digits. */
  function DigitRun(s: string): (n: nat)
    ensures n <= |s| && AllHexDigits(s[..n])
    ensures n < |s| ==> !IsHexDigit(s[n])
  {
    if s != [] && IsHexDigit(s[0]) then
      var n := 1 + DigitRun(s[1..]);
      assert s[..n] == [s[0]] + s[1..][..n - 1];
      n
    else 0
  }

  /** The value of a string of hex digits, most significant first. */
  function DigitsValue(z: string): nat
    requires AllHexDigits(z)
  {
    if z == [] then 0 else 16 * DigitsValue(z[..|z| - 1]) + DigitValue(z[|z| - 1])
  }

  /** `s` after an optional leading sign. */
  function DropSign(s: string): string {
    if s != [] && (s[0] == '+' || s[0] == '-') then s[1..] else s
  }

  /** `s` after an optional "0x" or "0X" prefix. */
  function DropHexPrefix(s: string): string {
    if 2 <= |s| && s[0] == '0' && (s[1] == 'x' || s[1] == 'X') then s[2..] else s
  }

  /** The longest run of hex digits at the start of `s`, read as a number;
      NaN when there is none. */
  function ReadDigits(s: string): Num {
    var end := DigitRun(s);
    if end == 0 then NaN else Int(DigitsValue(s[..end]))
  }

  /** `parseInt(s, 16)`: skip leading white space, take an optional sign,
      drop a "0x" or "0X" prefix, then read the longest run of hex digits;
      NaN when that run is empty. */
  function ParseHex(s: string): Num {
    var trimmed := TrimStart(s);
    var magnitude := ReadDigits(DropHexPrefix(DropSign(trimmed)));
    if trimmed != [] && trimmed[0] == '-' && magnitude.Int? then Int(-magnitude.v) else magnitude
  }

  /** A string made only of hex digits is read whole. */
  lemma ReadAllDigits(s: string)
    requires 1 <= |s| && AllHexDigits(s)
    ensures ReadDigits(s) == Int(DigitsValue(s))
  {
    assert s[..|s|] == s;
  }

  /** A string that starts with hex digits has no white space, sign or
      "0x" prefix for `parseInt` to skip. */
  lemma DigitsUntouched(s: string)
    requires 1 <= |s| && IsHexDigit(s[0]) && (2 <= |s| ==> IsHexDigit(s[1]))
    ensures TrimStart(s) == s && DropSign(s) == s && DropHexPrefix(s) == s
  {
    HexDigitNotSpace(s[0]);
  }

  /** Hex digits are not white space and not signs. */
  lemma HexDigitNotSpace(c: char)
    requires IsHexDigit(c)
    ensures !IsWhiteSpace(c) && c != '+' && c != '-'
  {
  }

  /** A non-empty run of hex digits is read as its value. */
  lemma ParseHexOfDigits(s: string)
    requires 1 <= |s| && AllHexDigits(s)
    ensures ParseHex(s) == Int(DigitsValue(s))
  {
    DigitsUntouched(s);
    ReadAllDigits(s);
  }

  // ---------------------------------------------------------------------
  // The number side: `<<` and `toString(16)`

  const TwoTo32 := 0x1_0000_0000

  /** ToInt32 of ECMA-262 on an integer: wrap into [-2^31, 2^31). */
  function ToInt32(x: int): (r: int)
    ensures -0x8000_0000 <= r < 0x8000_0000
    ensures (x - r) % TwoTo32 == 0
    ensures -0x8000_0000 <= x < 0x8000_0000 ==> r == x
  {
    var m := x % TwoTo32;
    if m >= 0x8000_0000 then m - TwoTo32 else m
  }

  function Pow2(k: nat): (p: nat)
    ensures 1 <= p
  {
    if k == 0 then 1 else 2 * Pow2(k - 1)
  }

  /** `x << k` on integers: the left operand wrapped to 32 bits, shifted,
      and the result wrapped to 32 bits again. */
  function ShiftLeft(x: int, k: nat): (r: int)
    requires k < 32
    ensures -0x8000_0000 <= r < 0x8000_0000
  {
    ToInt32(ToInt32(x) * Pow2(k))
  }

  function Pow16(w: nat): (p: nat)
    ensures 1 <= p
  {
    if w == 0 then 1 else 16 * Pow16(w - 1)
  }

  /** The base-16 digits of `n`, most significant first, without leading zeros. */
  function HexDigits(n: nat): (s: string)
    ensures 1 <= |s|
    ensures forall i :: 0 <= i < |s| ==> IsLowerHexDigit(s[i])
  {
    if n < 16 then [DigitChar(n)] else HexDigits(n / 16) + [DigitChar(n % 16)]
  }

  /** `Number.prototype.toString(16)` on an integer. */
  function ToHexString(n: int): (s: string)
    ensures 1 <= |s|
    ensures s[0] == '-' <==> n < 0
    ensures forall i :: (if n < 0 then 1 else 0) <= i < |s| ==> IsLowerHexDigit(s[i])
  {
    if n < 0 then "-" + HexDigits(-n) else HexDigits(n)
  }

  /** Reading back the digits of `n` gives `n`. */
  lemma {:induction false} HexDigitsValue(n: nat)
    ensures AllHexDigits(HexDigits(n)) && DigitsValue(HexDigits(n)) == n
  {
    if n >= 16 {
      HexDigitsValue(n / 16);
      var s := HexDigits(n);
      assert s[..|s| - 1] == HexDigits(n / 16);
    }
  }

  /** `parseInt(n.toString(16), 16)` gives `n` back, for every integer. */
  lemma ParseHexOfToHexString(n: int)
    ensures ParseHex(ToHexString(n)) == Int(n)
  {
    var m := if n < 0 then -n else n;
    var digits := HexDigits(m);
    HexDigitsValue(m);
    if n < 0 {
      var s := ToHexString(n);
      assert s == ['-'] + digits;
      assert !IsWhiteSpace('-');
      assert TrimStart(s) == s;
      assert DropSign(s) == digits;
      assert IsHexDigit(digits[0]);
      assert 2 <= |digits| ==> IsLowerHexDigit(digits[1]);
      assert DropHexPrefix(digits) == digits;
      ReadAllDigits(digits);
    } else {
      ParseHexOfDigits(digits);
    }
  }

  /** The last `w` base-16 digits of `n`, with leading zeros. */
  function PaddedHex(n: nat, w: nat): (s: string)
    ensures |s| == w
    ensures forall i :: 0 <= i < |s| ==> IsLowerHexDigit(s[i])
  {
    if w == 0 then [] else PaddedHex(n / 16, w - 1) + [DigitChar(n % 16)]
  }

  /** Dividing 16 * a + n by 16. */
  lemma DivSixteen(a: int, n: int)
    ensures (16 * a + n) / 16 == a + n / 16
    ensures (16 * a + n) % 16 == n % 16
  {
  }

  /** The `(1 << 24)` trick: a leading 1 digit placed above `w` digits makes
      `toString(16)` write all `w` digits, zeros included, after it. */
  lemma {:induction false} LeadingOne(n: nat, w: nat)
    requires n < Pow16(w)
    ensures HexDigits(Pow16(w) + n) == "1" + PaddedHex(n, w)
  {
    if w == 0 {
      assert n == 0;
    } else {
      var x := Pow16(w) + n;
      DivSixteen(Pow16(w - 1), n);
      assert x / 16 == Pow16(w - 1) + n / 16 && x % 16 == n % 16;
      assert n / 16 < Pow16(w - 1);
      LeadingOne(n / 16, w - 1);
    }
  }

  /** Digits of `hi` above `w` digits of `lo`. */
  lemma {:induction false} PaddedHexSplit(hi: nat, lo: nat, v: nat, w: nat)
    requires lo < Pow16(w)
    ensures PaddedHex(hi * Pow16(w) + lo, v + w) == PaddedHex(hi, v) + PaddedHex(lo, w)
  {
    if w == 0 {
      assert lo == 0;
    } else {
      var x := hi * Pow16(w) + lo;
      assert hi * Pow16(w) == 16 * (hi * Pow16(w - 1));
      DivSixteen(hi * Pow16(w - 1), lo);
      assert lo / 16 < Pow16(w - 1);
      PaddedHexSplit(hi, lo / 16, v, w - 1);
    }
  }

  /** Reading back `w` padded digits of a number below 16^w gives it back. */
  lemma {:induction false} PaddedHexValue(n: nat, w: nat)
    requires n < Pow16(w)
    ensures AllHexDigits(PaddedHex(n, w)) && DigitsValue(PaddedHex(n, w)) == n
  {
    if w > 0 {
      assert n / 16 < Pow16(w - 1);
      PaddedHexValue(n / 16, w - 1);
      var s := PaddedHex(n, w);
      assert s[..|s| - 1] == PaddedHex(n / 16, w - 1);
    }
  }

  /** Two padded digits of a byte. */
  lemma ByteDigits(c: nat)
    requires c < 256
    ensures PaddedHex(c, 2) == [DigitChar(c / 16), DigitChar(c % 16)]
  {
    var hi := c / 16;
    assert hi < 16 && hi / 16 == 0 && hi % 16 == hi;
    assert PaddedHex(hi, 1) == PaddedHex(0, 0) + [DigitChar(hi)];
  }

  /** The two digits of a byte are read back as the byte. */
  lemma ParseHexOfByte(c: nat)
    requires c < 256
    ensures ParseHex(PaddedHex(c, 2)) == Int(c)
  {
    PaddedHexValue(c, 2);
    ParseHexOfDigits(PaddedHex(c, 2));
  }

  // ---------------------------------------------------------------------
  // The colour conversions

  /** `Generators.hexToRGB`: a 4-character code "#rgb" doubles each digit,
      a 7-character code "#rrggbb" is cut into pairs; both are read with
      `parseInt(_, 16)`. Any other length throws. The first character is
      not checked. */
  function HexToRGB(hex: string): (r: Result<Rgb>)
    ensures r.Ok? <==> |hex| == 4 || |hex| == 7
    ensures r.Err? ==> r.message == HexError
  {
    if |hex| == 4 then
      Ok(Rgb(ParseHex([hex[1], hex[1]]), ParseHex([hex[2], hex[2]]), ParseHex([hex[3], hex[3]])))
    else if |hex| == 7 then
      Ok(Rgb(ParseHex(hex[1..3]), ParseHex(hex[3..5]), ParseHex(hex[5..7])))
    else
      Err(HexError)
  }

  /** The integer part of `Generators.hexToRGBA`: "#rgba" or "#rrggbbaa",
      with the alpha channel returned as its byte. Any other length throws. */
  function HexToRGBABytes(hex: string): (r: Result<Rgba>)
    ensures r.Ok? <==> |hex| == 5 || |hex| == 9
    ensures r.Err? ==> r.message == HexAlphaError
  {
    if |hex| == 5 then
      Ok(Rgba(ParseHex([hex[1], hex[1]]), ParseHex([hex[2], hex[2]]),
              ParseHex([hex[3], hex[3]]), ParseHex([hex[4], hex[4]])))
    else if |hex| == 9 then
      Ok(Rgba(ParseHex(hex[1..3]), ParseHex(hex[3..5]), ParseHex(hex[5..7]), ParseHex(hex[7..9])))
    else
      Err(HexAlphaError)
  }

  /** `Generators.RGBToHex`: packs the channels under a leading 1 bit,
      `(1 << 24) + (r << 16) + (g << 8) + b`, writes the sum in base 16 and
      drops its first character. */
  function RGBToHex(r: int, g: int, b: int): (code: string)
    ensures 1 <= |code| && code[0] == '#'
  {
    var packed := ShiftLeft(1, 24) + ShiftLeft(r, 16) + ShiftLeft(g, 8) + b;
    "#" + ToHexString(packed)[1..]
  }

  /** The integer part of `Generators.RGBAToHex`: the colour as in
      `RGBToHex`, then `(1 << 8) + alpha` in base 16 without its first
      character, where `alpha` stands for `Math.round(a * 255)`. */
  function RGBAToHex(r: int, g: int, b: int, alpha: int): (code: string)
    ensures RGBToHex(r, g, b) <= code
  {
    RGBToHex(r, g, b) + ToHexString(ShiftLeft(1, 8) + alpha)[1..]
  }

  predicate IsByte(c: int) {
    0 <= c < 256
  }

  lemma PowerValues()
    ensures Pow2(8) == 256 && Pow2(16) == 65536 && Pow2(24) == 16777216
    ensures Pow16(2) == 256 && Pow16(4) == 65536 && Pow16(6) == 16777216
  {
    assert Pow2(4) == 16;
    assert Pow2(8) == 256;
    assert Pow2(12) == 4096;
    assert Pow2(16) == 65536;
    assert Pow2(20) == 1048576;
    assert Pow16(3) == 4096;
  }

  /** A shift that stays below 2^31 is a multiplication. */
  lemma ShiftLeftInRange(x: int, k: nat)
    requires k < 32 && 0 <= x && x * Pow2(k) < 0x8000_0000
    ensures ShiftLeft(x, k) == x * Pow2(k)
  {
    ShiftOfProduct(x, Pow2(k));
  }

  lemma ShiftOfProduct(x: int, p: int)
    requires 0 <= x && 1 <= p && x * p < 0x8000_0000
    ensures ToInt32(ToInt32(x) * p) == x * p
  {
    assert x * p == x + x * (p - 1);
    assert 0 <= x * (p - 1);
  }

  /** `RGBToHex` writes its packed number without the first digit. */
  lemma RGBToHexOfPacked(r: int, g: int, b: int)
    ensures RGBToHex(r, g, b) == "#" + ToHexString(ShiftLeft(1, 24) + ShiftLeft(r, 16) + ShiftLeft(g, 8) + b)[1..]
  {
  }

  /** A non-negative number is written without a sign. */
  lemma HexTailOfEqual(x: int, y: int)
    requires x == y && 0 <= y
    ensures "#" + ToHexString(x)[1..] == "#" + HexDigits(y)[1..]
  {
  }

  /** The packed number of `RGBToHex` for channels in [0, 255]. */
  lemma PackedRGB(r: int, g: int, b: int)
    requires IsByte(r) && IsByte(g) && IsByte(b)
    ensures ShiftLeft(1, 24) + ShiftLeft(r, 16) + ShiftLeft(g, 8) + b
      == 0x100_0000 + ((r * 256 + g) * 256 + b)
    ensures 0 <= 0x100_0000 + ((r * 256 + g) * 256 + b)
  {
    PowerValues();
    ShiftLeftInRange(1, 24);
    ShiftLeftInRange(r, 16);
    ShiftLeftInRange(g, 8);
  }

  /** `RGBToHex` for channels in [0, 255]: the digits of 2^24 plus the
      packed channels, without the first one. */
  lemma RGBToHexUnfold(r: int, g: int, b: int)
    requires IsByte(r) && IsByte(g) && IsByte(b)
    ensures RGBToHex(r, g, b) == "#" + HexDigits(0x100_0000 + ((r * 256 + g) * 256 + b))[1..]
  {
    RGBToHexOfPacked(r, g, b);
    PackedRGB(r, g, b);
    HexTailOfEqual(ShiftLeft(1, 24) + ShiftLeft(r, 16) + ShiftLeft(g, 8) + b,
                   0x100_0000 + ((r * 256 + g) * 256 + b));
  }

  /** The digits of 2^24 plus the packed channels: a 1, then two digits per
      channel. */
  lemma PackedDigits(r: int, g: int, b: int)
    requires IsByte(r) && IsByte(g) && IsByte(b)
    ensures HexDigits(0x100_0000 + ((r * 256 + g) * 256 + b))
      == "1" + PaddedHex(r, 2) + PaddedHex(g, 2) + PaddedHex(b, 2)
  {
    var mid: nat := r * 256 + g;
    var low: nat := mid * 256 + b;
    var packed: nat := 0x100_0000 + low;
    LeadingOneOfSix(low, packed);
    SplitLowByte(mid, b, 4, low);
    SplitLowByte(r, g, 2, mid);
    JoinDigits(HexDigits(packed), PaddedHex(low, 6), PaddedHex(mid, 4),
               PaddedHex(r, 2), PaddedHex(g, 2), PaddedHex(b, 2));
  }

  /** `LeadingOne` for six digits. */
  lemma LeadingOneOfSix(low: nat, packed: nat)
    requires low < 0x100_0000 && packed == 0x100_0000 + low
    ensures HexDigits(packed) == "1" + PaddedHex(low, 6)
  {
    PowerValues();
    LeadingOne(low, 6);
  }

  /** `PaddedHexSplit` for a low part of one byte. */
  lemma SplitLowByte(hi: nat, lo: nat, v: nat, joined: nat)
    requires lo < 256 && joined == hi * 256 + lo
    ensures PaddedHex(joined, v + 2) == PaddedHex(hi, v) + PaddedHex(lo, 2)
  {
    PowerValues();
    PaddedHexSplit(hi, lo, v, 2);
  }

  lemma JoinDigits(all: string, six: string, four: string, x: string, y: string, z: string)
    requires all == "1" + six && six == four + z && four == x + y
    ensures all == "1" + x + y + z
  {
  }

  /** For channels in [0, 255], `RGBToHex` gives "#" and six lower-case
      digits, two per channel with leading zeros. */
  lemma RGBToHexDigits(r: int, g: int, b: int)
    requires IsByte(r) && IsByte(g) && IsByte(b)
    ensures RGBToHex(r, g, b) == "#" + PaddedHex(r, 2) + PaddedHex(g, 2) + PaddedHex(b, 2)
    ensures |RGBToHex(r, g, b)| == 7
    ensures forall i :: 1 <= i < 7 ==> IsLowerHexDigit(RGBToHex(r, g, b)[i])
  {
    RGBToHexUnfold(r, g, b);
    PackedDigits(r, g, b);
    var digits := PaddedHex(r, 2) + PaddedHex(g, 2) + PaddedHex(b, 2);
    assert ("1" + digits)[1..] == digits;
  }

  /** Round trip: channels in [0, 255] survive `RGBToHex` then `hexToRGB`. */
  lemma RGBRoundTrip(r: int, g: int, b: int)
    requires IsByte(r) && IsByte(g) && IsByte(b)
    ensures HexToRGB(RGBToHex(r, g, b)) == Ok(Rgb(Int(r), Int(g), Int(b)))
  {
    RGBToHexDigits(r, g, b);
    var hex := RGBToHex(r, g, b);
    assert hex[1..3] == PaddedHex(r, 2);
    assert hex[3..5] == PaddedHex(g, 2);
    assert hex[5..7] == PaddedHex(b, 2);
    ParseHexOfByte(r);
    ParseHexOfByte(g);
    ParseHexOfByte(b);
  }

  /** Round trip with an alpha byte: `RGBAToHex` then `hexToRGBA` gives the
      channels and the alpha byte back. */
  lemma RGBARoundTrip(r: int, g: int, b: int, alpha: int)
    requires IsByte(r) && IsByte(g) && IsByte(b) && IsByte(alpha)
    ensures HexToRGBABytes(RGBAToHex(r, g, b, alpha)) == Ok(Rgba(Int(r), Int(g), Int(b), Int(alpha)))
  {
    RGBToHexDigits(r, g, b);
    assert Pow2(8) == 256 && Pow16(2) == 256;
    assert ShiftLeft(1, 8) == 256;
    LeadingOne(alpha, 2);
    var tail := ToHexString(256 + alpha)[1..];
    assert tail == PaddedHex(alpha, 2);
    var hex := RGBAToHex(r, g, b, alpha);
    assert hex[1..3] == PaddedHex(r, 2);
    assert hex[3..5] == PaddedHex(g, 2);
    assert hex[5..7] == PaddedHex(b, 2);
    assert hex[7..9] == PaddedHex(alpha, 2);
    ParseHexOfByte(r);
    ParseHexOfByte(g);
    ParseHexOfByte(b);
    ParseHexOfByte(alpha);
  }

  /** The other direction: a code "#" + six hex digits is read as bytes that
      `RGBToHex` writes back as the same code in lower case. */
  lemma HexCanonical(hex: string)
    requires |hex| == 7 && hex[0] == '#' && AllHexDigits(hex[1..])
    ensures HexToRGB(hex).Ok?
    ensures var c := HexToRGB(hex).value;
      c.r.Int? && c.g.Int? && c.b.Int? && IsByte(c.r.v) && IsByte(c.g.v) && IsByte(c.b.v)
      && RGBToHex(c.r.v, c.g.v, c.b.v)
         == ['#', ToLower(hex[1]), ToLower(hex[2]), ToLower(hex[3]),
                  ToLower(hex[4]), ToLower(hex[5]), ToLower(hex[6])]
  {
    forall i | 1 <= i < 7 ensures IsHexDigit(hex[i]) {
      assert hex[1..][i - 1] == hex[i];
    }
    var vr, vg, vb := PairValue(hex[1], hex[2]), PairValue(hex[3], hex[4]), PairValue(hex[5], hex[6]);
    HexToRGBPairs(hex);
    PairParses(hex[1], hex[2]);
    PairParses(hex[3], hex[4]);
    PairParses(hex[5], hex[6]);
    PairWritesBack(hex[1], hex[2]);
    PairWritesBack(hex[3], hex[4]);
    PairWritesBack(hex[5], hex[6]);
    RGBToHexDigits(vr, vg, vb);
    SevenLetters(PaddedHex(vr, 2), PaddedHex(vg, 2), PaddedHex(vb, 2));
  }

  /** A 7-character code is cut into three pairs. */
  lemma HexToRGBPairs(hex: string)
    requires |hex| == 7
    ensures HexToRGB(hex) == Ok(Rgb(ParseHex([hex[1], hex[2]]), ParseHex([hex[3], hex[4]]), ParseHex([hex[5], hex[6]])))
  {
    assert hex[1..3] == [hex[1], hex[2]];
    assert hex[3..5] == [hex[3], hex[4]];
    assert hex[5..7] == [hex[5], hex[6]];
  }

  lemma SevenLetters(x: string, y: string, z: string)
    requires |x| == 2 && |y| == 2 && |z| == 2
    ensures "#" + x + y + z == ['#', x[0], x[1], y[0], y[1], z[0], z[1]]
  {
  }

  /** The byte written by two hex digits. */
  function PairValue(hi: char, lo: char): (v: nat)
    requires IsHexDigit(hi) && IsHexDigit(lo)
    ensures v < 256
  {
    16 * DigitValue(hi) + DigitValue(lo)
  }

  /** Two hex digits are read as their byte. */
  lemma PairParses(hi: char, lo: char)
    requires IsHexDigit(hi) && IsHexDigit(lo)
    ensures ParseHex([hi, lo]) == Int(PairValue(hi, lo))
  {
    var s := [hi, lo];
    assert s[..1] == [hi] && [hi][..0] == [];
    assert DigitsValue([hi]) == DigitValue(hi);
    assert DigitsValue(s) == PairValue(hi, lo);
    ParseHexOfDigits(s);
  }

  /** The byte of two hex digits is written back as the same two digits,
      in lower case. */
  lemma PairWritesBack(hi: char, lo: char)
    requires IsHexDigit(hi) && IsHexDigit(lo)
    ensures PaddedHex(PairValue(hi, lo), 2) == [ToLower(hi), ToLower(lo)]
  {
    var dh, dl := DigitValue(hi), DigitValue(lo);
    var v := PairValue(hi, lo);
    ByteDigits(v);
    DivSixteen(dh, dl);
    assert v / 16 == dh && v % 16 == dl;
    DigitCharOfValue(hi);
    DigitCharOfValue(lo);
  }

  /** A 4-character code doubles each of its three digits. */
  lemma HexToRGBShort(hex: string)
    requires |hex| == 4
    ensures HexToRGB(hex) == Ok(Rgb(ParseHex([hex[1], hex[1]]), ParseHex([hex[2], hex[2]]), ParseHex([hex[3], hex[3]])))
  {
  }

  /** A short code "#rgb" reads each digit d as the byte 17 * d. */
  lemma ShortForm(hex: string)
    requires |hex| == 4 && AllHexDigits(hex[1..])
    ensures HexToRGB(hex) == Ok(Rgb(Int(17 * DigitValue(hex[1])), Int(17 * DigitValue(hex[2])), Int(17 * DigitValue(hex[3]))))
  {
    forall i | 1 <= i < 4 ensures IsHexDigit(hex[i]) {
      assert hex[1..][i - 1] == hex[i];
    }
    HexToRGBShort(hex);
    DoubledDigit(hex[1]);
    DoubledDigit(hex[2]);
    DoubledDigit(hex[3]);
  }

  lemma DoubledDigit(c: char)
    requires IsHexDigit(c)
    ensures ParseHex([c, c]) == Int(17 * DigitValue(c))
  {
    PairParses(c, c);
  }

  /** A short code "#rgb" converts like the long code "#rrggbb". */
  lemma ShortFormDoubles(hex: string)
    requires |hex| == 4
    ensures HexToRGB(hex) == HexToRGB([hex[0], hex[1], hex[1], hex[2], hex[2], hex[3], hex[3]])
  {
    var long := [hex[0], hex[1], hex[1], hex[2], hex[2], hex[3], hex[3]];
    HexToRGBShort(hex);
    HexToRGBPairs(long);
    assert [long[1], long[2]] == [hex[1], hex[1]];
    assert [long[3], long[4]] == [hex[2], hex[2]];
    assert [long[5], long[6]] == [hex[3], hex[3]];
  }

  /** Examples: "#f00" and "#ff0000" are red, "#ff" is
      rejected. */
  lemma HexExamples()
    ensures HexToRGB("#f00") == Ok(Rgb(Int(255), Int(0), Int(0)))
    ensures HexToRGB("#ff0000") == Ok(Rgb(Int(255), Int(0), Int(0)))
    ensures HexToRGB("#ff") == Err(HexError)
  {
    ShortRedExample();
    LongRedExample();
  }

  lemma ShortRedExample()
    ensures HexToRGB("#f00") == Ok(Rgb(Int(255), Int(0), Int(0)))
  {
    var hex := "#f00";
    HexToRGBShort(hex);
    DoubledDigit('f');
    DoubledDigit('0');
  }

  lemma LongRedExample()
    ensures HexToRGB("#ff0000") == Ok(Rgb(Int(255), Int(0), Int(0)))
  {
    HexToRGBPairs("#ff0000");
    DoubledDigit('f');
    DoubledDigit('0');
  }

}
