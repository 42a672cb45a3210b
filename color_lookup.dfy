/**
  The colour front end of the classifier (src/classifier/lookup.rs): the rule
  value found for a file name is read as a `#RRGGBB` hex colour, with
  200/200/200 grey wherever no value, no rule or no readable channel is found.

  Rust strings are UTF-8: `str::len` counts bytes while `chars` yields Unicode
  scalar values. A `string` here is a sequence of scalar values, so the byte
  length is computed from it (`Utf8Len`). The panic of an `expect` is the
  outcome `Panic`.
 */
module ColorLookup {
  import opened Wrappers
  import Regex
  import Config
  import ConfigProofs

  /** Rust's `u8`. */
  newtype u8 = x: int | 0 <= x < 256

  /** `color::Rgb`: one byte per channel. */
  datatype Rgb = Rgb(r: u8, g: u8, b: u8)

  /** What `str_to_rgb` (and so `get_color`) ends in: a colour, or a panic of `expect`. */
  datatype Decoded = Color(rgb: Rgb) | Panic

  /** `DEFAULT_COLOR`, the initial contents of the `rgb` buffer. */
  const DefaultColor: seq<u8> := [200, 200, 200]

  /** `DEFAULT_RGB`: the colour of a file without a usable rule. */
  const DefaultRgb: Rgb := Rgb(DefaultColor[0], DefaultColor[1], DefaultColor[2])

  // ---------------------------------------------------------------------------
  // UTF-8 length
  // ---------------------------------------------------------------------------

  /** The number of bytes UTF-8 uses for `c`. */
  function Utf8Width(c: char): (w: nat)
    ensures 1 <= w <= 4
    ensures w == 1 <==> c as int < 0x80
  {
    if c as int < 0x80 then 1
    else if c as int < 0x800 then 2
    else if c as int < 0x1_0000 then 3
    else 4
  }

  /** `str::len`: the number of bytes of the UTF-8 encoding of `s`. */
  function Utf8Len(s: string): (n: nat)
    ensures |s| <= n <= 4 * |s|
  {
    if s == [] then 0 else Utf8Width(s[0]) + Utf8Len(s[1..])
  }

  predicate IsAscii(s: string)
  {
    forall k | 0 <= k < |s| :: s[k] as int < 0x80
  }

  /** A string is as long in bytes as in characters exactly when it is ASCII. */
  lemma {:induction false} Utf8LenAscii(s: string)
    ensures Utf8Len(s) == |s| <==> IsAscii(s)
  {
    if s != [] {
      Utf8LenAscii(s[1..]);
      assert forall k | 1 <= k < |s| :: s[k] == s[1..][k - 1];
    }
  }

  /** Byte length adds up over concatenation. */
  lemma {:induction false} Utf8LenAppend(a: string, b: string)
    ensures Utf8Len(a + b) == Utf8Len(a) + Utf8Len(b)
  {
    if a == [] {
      assert a + b == b;
    } else {
      assert (a + b)[0] == a[0];
      assert (a + b)[1..] == a[1..] + b;
      Utf8LenAppend(a[1..], b);
    }
  }

  // ---------------------------------------------------------------------------
  // `u8::from_str_radix(_, 16)`
  // ---------------------------------------------------------------------------

  /** `char::to_digit(16)` succeeds: an ASCII decimal digit or a letter `a`-`f` in either case. */
  predicate IsHexDigit(c: char)
  {
    '0' <= c <= '9' || 'a' <= c <= 'f' || 'A' <= c <= 'F'
  }

  /** `char::to_digit(16)`. */
  function HexDigitValue(c: char): (d: nat)
    requires IsHexDigit(c)
    ensures d < 16
  {
    if '0' <= c <= '9' then c as int - '0' as int
    else if 'a' <= c <= 'f' then c as int - 'a' as int + 10
    else c as int - 'A' as int + 10
  }

  predicate AllHex(s: string)
  {
    forall k | 0 <= k < |s| :: IsHexDigit(s[k])
  }

  /** The number the hex digits `s` spell, most significant first. */
  function HexValue(s: string): nat
    requires AllHex(s)
  {
    if s == [] then 0 else 16 * HexValue(s[..|s| - 1]) + HexDigitValue(s[|s| - 1])
  }

  /**
    `u8::from_str_radix(s, 16)`: `None` for an empty string, for a lone sign,
    for a leading `-` (an unsigned type has no sign but `+`), for any character
    that is not a hex digit and for a value above 255.
   */
  function FromStrRadix16(s: string): (r: Option<u8>)
    ensures r.Some? ==> s != [] && (s[0] == '+' || IsHexDigit(s[0]))
    ensures r.Some? && |s| == 1 ==> IsHexDigit(s[0]) && r.value as int == HexDigitValue(s[0])
  {
    assert |s| == 1 && AllHex(s) ==> s[..0] == [] && HexValue(s) == HexDigitValue(s[0]);
    if s == [] then None
    else if (s[0] == '+' || s[0] == '-') && |s| == 1 then None
    else
      var digits := if s[0] == '+' then s[1..] else s;
      if AllHex(digits) && HexValue(digits) < 256 then Some(HexValue(digits) as u8) else None
  }

  /** On the two characters `str_to_rgb` hands it, `from_str_radix` reads two hex digits, or a `+` and one. */
  lemma FromStrRadixPair(c1: char, c2: char)
    ensures FromStrRadix16([c1, c2]) ==
      if IsHexDigit(c1) && IsHexDigit(c2) then Some((16 * HexDigitValue(c1) + HexDigitValue(c2)) as u8)
      else if c1 == '+' && IsHexDigit(c2) then Some(HexDigitValue(c2) as u8)
      else None
  {
    var s := [c1, c2];
    if c1 == '+' {
      assert s[1..] == [c2];
      if IsHexDigit(c2) {
        assert [c2][..0] == [];
        assert HexValue([c2]) == HexDigitValue(c2);
      }
    } else if IsHexDigit(c1) && IsHexDigit(c2) {
      assert s[..1] == [c1];
      assert [c1][..0] == [];
      assert HexValue([c1]) == HexDigitValue(c1);
      assert HexValue(s) == 16 * HexDigitValue(c1) + HexDigitValue(c2);
    } else {
      assert !IsHexDigit(s[0]) || !IsHexDigit(s[1]);
    }
  }

  /** The lower-case hex digit for `n`. */
  function HexChar(n: nat): (c: char)
    requires n < 16
    ensures IsHexDigit(c) && HexDigitValue(c) == n
  {
    if n < 10 then ('0' as int + n) as char else ('a' as int + n - 10) as char
  }

  /** Two lower-case hex digits for a byte, as `#RRGGBB` holds them. */
  function Hex2(x: u8): string
  {
    [HexChar(x as int / 16), HexChar(x as int % 16)]
  }

  /** `from_str_radix` reads back every byte written as two hex digits. */
  lemma Hex2RoundTrip(x: u8)
    ensures FromStrRadix16(Hex2(x)) == Some(x)
  {
    FromStrRadixPair(HexChar(x as int / 16), HexChar(x as int % 16));
  }

  // ---------------------------------------------------------------------------
  // `str_to_rgb`
  // ---------------------------------------------------------------------------

  /** Channel `i` of a `#RRGGBB` string: characters `2i+1` and `2i+2` in base 16, or 200 when they do not parse. */
  function Channel(input: string, i: nat): u8
    requires i < 3 && 2 * i + 2 < |input|
  {
    match FromStrRadix16(input[2 * i + 1..2 * i + 3])
    case Some(v) => v
    case None => DefaultColor[i]
  }

  /**
    What `str_to_rgb` yields: grey unless the input is at least 7 bytes long and
    starts with `#`; a panic when those 7 bytes are fewer than 7 characters;
    otherwise the three channels, each falling back to 200 on its own.
   */
  function DecodeColor(input: string): (d: Decoded)
    ensures d.Color? && d.rgb != DefaultRgb ==> |input| >= 7 && input[0] == '#'
  {
    if Utf8Len(input) < 7 || input[0] != '#' then Color(DefaultRgb)
    else if |input| < 7 then Panic
    else Color(Rgb(Channel(input, 0), Channel(input, 1), Channel(input, 2)))
  }

  /**
    `str_to_rgb`: a three-byte buffer starts as `DEFAULT_COLOR` and, after the
    length and `#` checks, each channel consumes the next two characters of the
    `letters` iterator and overwrites its byte when they parse.
   */
  method StrToRgb(input: string) returns (d: Decoded)
    ensures d == DecodeColor(input)
  {
    var rgb := new u8[3];
    rgb[0], rgb[1], rgb[2] := DefaultColor[0], DefaultColor[1], DefaultColor[2];
    if Utf8Len(input) >= 7 {
      var next := 0;   // the position of the `letters` iterator
      var first := input[next];
      next := next + 1;
      if first == '#' {
        for i := 0 to 3
          invariant next == 2 * i + 1 < |input| + 1
          invariant 2 * i < |input|
          invariant forall k | 0 <= k < 3 :: rgb[k] == if k < i then Channel(input, k) else DefaultColor[k]
        {
          if next == |input| {
            return Panic;
          }
          var hi := input[next];
          next := next + 1;
          if next == |input| {
            return Panic;
          }
          var lo := input[next];
          next := next + 1;
          assert input[2 * i + 1..2 * i + 3] == [hi, lo];
          var num := FromStrRadix16([hi, lo]);
          if num.Some? {
            rgb[i] := num.value;
          }
        }
      }
    }
    return Color(Rgb(rgb[0], rgb[1], rgb[2]));
  }

  /** `#RRGGBB` with each byte as two lower-case hex digits. */
  function Encode(c: Rgb): string
  {
    "#" + Hex2(c.r) + Hex2(c.g) + Hex2(c.b)
  }

  /** Every colour written as `#RRGGBB` decodes back to itself. */
  lemma DecodeEncode(c: Rgb)
    ensures DecodeColor(Encode(c)) == Color(c)
  {
    var s := Encode(c);
    assert |s| == 7;
    assert IsAscii(s) by {
      assert forall k | 0 <= k < |Hex2(c.r)| :: IsHexDigit(Hex2(c.r)[k]);
      assert forall k | 0 <= k < |Hex2(c.g)| :: IsHexDigit(Hex2(c.g)[k]);
      assert forall k | 0 <= k < |Hex2(c.b)| :: IsHexDigit(Hex2(c.b)[k]);
    }
    Utf8LenAscii(s);
    assert s[1..3] == Hex2(c.r) && s[3..5] == Hex2(c.g) && s[5..7] == Hex2(c.b);
    Hex2RoundTrip(c.r);
    Hex2RoundTrip(c.g);
    Hex2RoundTrip(c.b);
  }

  /** ASCII input of fewer than 7 characters, or not starting with `#`, is grey. */
  lemma DecodeDefault(input: string)
    requires IsAscii(input)
    requires |input| < 7 || input[0] != '#'
    ensures DecodeColor(input) == Color(DefaultRgb)
  {
    Utf8LenAscii(input);
  }

  /** `#ffaa00` is 255/170/0. */
  lemma DecodeExample()
    ensures DecodeColor("#ffaa00") == Color(Rgb(255, 170, 0))
  {
    assert Hex2(255) == "ff" && Hex2(170) == "aa" && Hex2(0) == "00";
    assert Encode(Rgb(255, 170, 0)) == "#ffaa00";
    DecodeEncode(Rgb(255, 170, 0));
  }

  /** Seven ASCII characters starting with `#` decode channel by channel. */
  lemma DecodeSeven(s: string)
    requires |s| == 7 && s[0] == '#' && IsAscii(s)
    ensures DecodeColor(s) == Color(Rgb(
      Channel(s, 0),
      Channel(s, 1),
      Channel(s, 2)))
  {
    Utf8LenAscii(s);
  }

  /** A channel that does not parse keeps 200 while the others still decode: `#gg0000` is 200/0/0. */
  lemma DecodeFaultTolerant()
    ensures DecodeColor("#gg0000") == Color(Rgb(200, 0, 0))
  {
    var s := "#gg0000";
    DecodeSeven(s);
    assert s[1..3] == ['g', 'g'] && s[3..5] == ['0', '0'] && s[5..7] == ['0', '0'];
    FromStrRadixPair('g', 'g');
    FromStrRadixPair('0', '0');
  }

  /** A leading `+` is accepted by `from_str_radix`: `#+f+f+f` is 15/15/15. */
  lemma DecodePlusSign()
    ensures DecodeColor("#+f+f+f") == Color(Rgb(15, 15, 15))
  {
    var s := "#+f+f+f";
    DecodeSeven(s);
    assert s[1..3] == ['+', 'f'] && s[3..5] == ['+', 'f'] && s[5..7] == ['+', 'f'];
    FromStrRadixPair('+', 'f');
  }

  /** Characters after the seventh are never read. */
  lemma DecodeIgnoresTail(input: string, rest: string)
    requires |input| >= 7
    ensures DecodeColor(input + rest) == DecodeColor(input)
  {
    Utf8LenAppend(input, rest);
    var s := input + rest;
    assert s[1..3] == input[1..3] && s[3..5] == input[3..5] && s[5..7] == input[5..7];
  }

  /** On ASCII input the length check guarantees the seven characters: `str_to_rgb` never panics. */
  lemma DecodeAsciiTotal(input: string)
    requires IsAscii(input)
    ensures DecodeColor(input).Color?
  {
    Utf8LenAscii(input);
  }

  /** A panic needs a multi-byte character: `#ééé` is 7 bytes but only 4 characters. */
  lemma DecodePanics()
    ensures DecodeColor("#ééé") == Panic
  {
    var s := "#ééé";
    assert s[1..][1..][1..][1..] == [];
  }

  // ---------------------------------------------------------------------------
  // `ConfigurationLookup`
  // ---------------------------------------------------------------------------

  /** What `get_color` makes of the answer of `get_value`: the decoded value, or grey when there is none or a rule is invalid. */
  function ColorOf(answer: Result<Option<string>, Regex.Error>): (d: Decoded)
    ensures d.Color? && d.rgb != DefaultRgb ==> answer.Ok? && answer.value.Some? && |answer.value.value| >= 7
  {
    match answer
    case Ok(Some(hex)) => DecodeColor(hex)
    case Ok(None) => Color(DefaultRgb)
    case Err(_) => Color(DefaultRgb)
  }

  /** The colour the classifier gives the file name `key` under the rules `es`. */
  function ColorFor(es: seq<Config.Entry>, key: string, re: Regex.Engine): Decoded
  {
    ColorOf(Config.FindValue(es, key, re))
  }

  /** `ConfigurationLookup`: the colour front end over the rule store. */
  class ConfigurationLookup {
    const config: Config.Configuration

    /** `ConfigurationLookup::new`: opens the rule store. */
    constructor (disk: Config.ConfFile)
      ensures fresh(config) && config.file == disk
      ensures disk.contents.Some? ==> config.entries == Config.LoadEntries(disk.contents.value) && !config.dirty
      ensures disk.contents.None? ==> config.entries == Config.DefaultEntries() && config.dirty
    {
      config := new Config.Configuration(disk);
    }

    /** `get_color`: the decoded value of the first matching rule, or grey. */
    method GetColor(file: string, re: Regex.Engine) returns (c: Decoded)
      ensures c == ColorFor(config.entries, file, re)
    {
      var answer := config.GetValue(file, re);
      match answer {
        case Ok(Some(hex)) =>
          c := StrToRgb(hex);
        case Ok(None) =>
          c := Color(DefaultRgb);
        case Err(_) =>
          // the diagnostic `println!` is not modelled
          c := Color(DefaultRgb);
      }
    }
  }

  /** The colour is the decoded value of the earliest pair whose pattern matches the file name. */
  lemma ColorFirstMatch(es: seq<Config.Entry>, key: string, re: Regex.Engine, i: int)
    requires ConfigProofs.FirstStop(es, key, re, i) && re.compiles(es[i].pattern)
    ensures ColorFor(es, key, re) == DecodeColor(es[i].value)
  {
    ConfigProofs.FindValueAt(es, key, re, i);
  }

  /** A file name that no pattern matches is grey. */
  lemma ColorNoMatch(es: seq<Config.Entry>, key: string, re: Regex.Engine)
    requires forall j | 0 <= j < |es| :: Config.PassesOver(es[j], key, re)
    ensures ColorFor(es, key, re) == Color(DefaultRgb)
  {
    ConfigProofs.FindValueNone(es, key, re);
  }

  /** A pattern that does not compile, reached before any match, makes the file grey. */
  lemma ColorInvalidRule(es: seq<Config.Entry>, key: string, re: Regex.Engine, i: int)
    requires ConfigProofs.FirstStop(es, key, re, i) && !re.compiles(es[i].pattern)
    ensures ColorFor(es, key, re) == Color(DefaultRgb)
  {
    ConfigProofs.FindValueAt(es, key, re, i);
  }

  /** With ASCII rule values the lookup never panics. */
  lemma ColorAsciiTotal(es: seq<Config.Entry>, key: string, re: Regex.Engine)
    requires forall e | e in es && e.Pair? :: IsAscii(e.value)
    ensures ColorFor(es, key, re).Color?
  {
    ConfigProofs.FindValueSound(es, key, re);
    var answer := Config.FindValue(es, key, re);
    if answer.Ok? && answer.value.Some? {
      var i :| ConfigProofs.FirstStop(es, key, re, i) && answer == ConfigProofs.Stop(es[i], re);
      assert es[i] in es;
      DecodeAsciiTotal(es[i].value);
    }
  }

  /** Every value shorter than 7 bytes is grey, so `yellow` and `orange` are. */
  lemma DefaultValuesAreGrey()
    ensures DecodeColor("yellow") == Color(DefaultRgb)
    ensures DecodeColor("orange") == Color(DefaultRgb)
  {
    assert "yellow"[1..][1..][1..][1..][1..][1..] == [];
    assert "orange"[1..][1..][1..][1..][1..][1..] == [];
  }

  /** Under the default rules every file, `.js` and `.java` ones included, is grey. */
  lemma DefaultRulesAreGrey(key: string, re: Regex.Engine)
    ensures ColorFor(Config.DefaultEntries(), key, re) == Color(DefaultRgb)
  {
    var answer := Config.FindValue(Config.DefaultEntries(), key, re);
    if answer.Ok? && answer.value.Some? {
      assert answer.value.value in {"yellow", "orange"};
      DefaultValuesAreGrey();
    }
  }
}
