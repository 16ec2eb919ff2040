/** The colour-list parser: `hex2rgba` for one token and `hexs2rgba` for a whole
    colon-separated argument (main.py lines 11-35). */
module Colors {
  import opened Wrappers
  import opened Hex
  import opened Tokens

  /** An RGBA colour as the program handles it: a 4-tuple of Python integers. The
      parser only ever produces channels in [0, 255] (see `IsByteColor`); in the
      three-digit form the colour channels are even below 16. */
  datatype Rgba = Rgba(r: nat, g: nat, b: nat, a: nat)

  predicate IsByteColor(c: Rgba) {
    c.r < 256 && c.g < 256 && c.b < 256 && c.a < 256
  }

  /** The alpha given to colours written without one. */
  const Opaque: nat := 255

  const Hash: char := '#'

  /** The ValueErrors the parser raises: a token whose digit count is not 3, 6 or
      8 (carrying the digits after the hashes, as `ValueError(hex)` does), and a
      channel literal that `int(_, 16)` rejects. */
  datatype ParseError = BadLength(digits: string) | NotHex(literal: string)

  /** `s.lstrip('#')`. */
  function StripHashes(s: string): string
  {
    if |s| > 0 && s[0] == Hash then StripHashes(s[1..]) else s
  }

  /** `lstrip` removes EVERY leading hash, not just one, and nothing else: the
      result is a suffix of the token, everything cut off is a hash, and the
      result does not start with one. */
  lemma {:induction false} StripHashesSpec(s: string)
    ensures var h := StripHashes(s);
            |h| <= |s| && h == s[|s| - |h|..] &&
            (forall i :: 0 <= i < |s| - |h| ==> s[i] == Hash) &&
            (|h| > 0 ==> h[0] != Hash)
  {
    if |s| > 0 && s[0] == Hash {
      StripHashesSpec(s[1..]);
      var h := StripHashes(s);
      assert s[1..][|s| - 1 - |h|..] == s[|s| - |h|..];
      forall i | 1 <= i < |s| - |h|
        ensures s[i] == Hash
      {
        assert s[i] == s[1..][i - 1];
      }
    }
  }

  /** `k` hash characters. */
  function Hashes(k: nat): (s: string)
    ensures |s| == k
  {
    if k == 0 then "" else [Hash] + Hashes(k - 1)
  }

  /** Any run of leading hashes is stripped, and nothing after it. */
  lemma {:induction false} StripHashesPrefix(k: nat, h: string)
    requires |h| == 0 || h[0] != Hash
    ensures StripHashes(Hashes(k) + h) == h
  {
    if k > 0 {
      assert (Hashes(k) + h)[1..] == Hashes(k - 1) + h;
      StripHashesPrefix(k - 1, h);
    } else {
      assert Hashes(k) + h == h;
    }
  }

  predicate SupportedLength(n: nat) {
    n == 3 || n == 6 || n == 8
  }

  /** One `int(literal, 16)` call of `hex2rgba`. */
  function ParseChannel(literal: string): Result<nat, ParseError>
  {
    match ParseInt16(literal)
    case Some(v) => Success(v)
    case None => Failure(NotHex(literal))
  }

  /** The slices `hex2rgba` hands to `int(_, 16)`, in evaluation order: single
      digits for the short form, digit pairs otherwise. */
  function ChannelLiterals(h: string): (lits: seq<string>)
    requires SupportedLength(|h|)
    ensures |lits| == (if |h| == 8 then 4 else 3)
    ensures forall k :: 0 <= k < |lits| ==> |lits[k]| == (if |h| == 3 then 1 else 2)
  {
    if |h| == 3 then [h[0..1], h[1..2], h[2..3]]
    else if |h| == 6 then [h[0..2], h[2..4], h[4..6]]
    else [h[0..2], h[2..4], h[4..6], h[6..8]]
  }

  /** `hex2rgba`. The channel literals are parsed left to right and the first one
      `int` rejects is the error; alpha is `Opaque` unless eight digits are given. */
  function Hex2Rgba(token: string): (r: Result<Rgba, ParseError>)
    ensures r.Success? <==> SupportedLength(|StripHashes(token)|) && AllHex(StripHashes(token))
    ensures !SupportedLength(|StripHashes(token)|) ==> r == Failure(BadLength(StripHashes(token)))
    ensures r.Success? ==> IsByteColor(r.value)
  {
    FromDigitsOutcome(StripHashes(token));
    FromDigits(StripHashes(token))
  }

  /** The length dispatch of `hex2rgba`, applied to the digits after the hashes. */
  function FromDigits(h: string): Result<Rgba, ParseError>
  {
    if !SupportedLength(|h|) then Failure(BadLength(h))
    else
      match MapAll(ParseChannel, ChannelLiterals(h))
      case Failure(e) => Failure(e)
      case Success(v) =>
        if |v| == 4 then Success(Rgba(v[0], v[1], v[2], v[3]))
        else Success(Rgba(v[0], v[1], v[2], Opaque))
  }

  /** The value of a two-digit channel. */
  function PairValue(hi: char, lo: char): nat
    requires IsHexDigit(hi) && IsHexDigit(lo)
  {
    16 * DigitValue(hi) + DigitValue(lo)
  }

  /** The digits are all hex exactly when every channel literal is. */
  lemma LiteralsAllHex(h: string)
    requires SupportedLength(|h|)
    ensures AllHex(h) <==> forall k :: 0 <= k < |ChannelLiterals(h)| ==> AllHex(ChannelLiterals(h)[k])
  {
    var lits := ChannelLiterals(h);
    if forall k :: 0 <= k < |lits| ==> AllHex(lits[k]) {
      forall i | 0 <= i < |h|
        ensures IsHexDigit(h[i])
      {
        var w := if |h| == 3 then 1 else 2;
        var k := i / w;
        assert lits[k] == h[k * w..k * w + w];
        assert lits[k][i - k * w] == h[i];
      }
    }
  }

  lemma SliceAllHex(h: string, i: nat, j: nat)
    requires AllHex(h) && i <= j <= |h|
    ensures AllHex(h[i..j])
  {
    forall k | 0 <= k < j - i
      ensures IsHexDigit(h[i..j][k])
    {
      assert h[i..j][k] == h[i + k];
    }
  }

  /** `int` of one digit of `h`. */
  lemma ParseDigitAt(h: string, i: nat)
    requires AllHex(h) && i < |h|
    ensures ParseChannel(h[i..i + 1]) == Success(DigitValue(h[i]))
  {
    SliceAllHex(h, i, i + 1);
    OneDigit(h[i..i + 1]);
  }

  /** `int` of the digit pair of `h` starting at `i`. */
  lemma ParsePairAt(h: string, i: nat)
    requires AllHex(h) && i + 2 <= |h|
    ensures ParseChannel(h[i..i + 2]) == Success(PairValue(h[i], h[i + 1]))
    ensures PairValue(h[i], h[i + 1]) < 256
  {
    SliceAllHex(h, i, i + 2);
    TwoDigits(h[i..i + 2]);
  }

  lemma FromDigitsShort(h: string)
    requires |h| == 3 && AllHex(h)
    ensures FromDigits(h) == Success(Rgba(DigitValue(h[0]), DigitValue(h[1]), DigitValue(h[2]), Opaque))
  {
    ParseDigitAt(h, 0);
    ParseDigitAt(h, 1);
    ParseDigitAt(h, 2);
    var lits := ChannelLiterals(h);
    assert lits == [h[0..1], h[1..2], h[2..3]];
    MapAllSuccess(ParseChannel, lits, [DigitValue(h[0]), DigitValue(h[1]), DigitValue(h[2])]);
  }

  lemma FromDigitsSix(h: string)
    requires |h| == 6 && AllHex(h)
    ensures FromDigits(h) == Success(Rgba(PairValue(h[0], h[1]), PairValue(h[2], h[3]), PairValue(h[4], h[5]), Opaque))
    ensures IsByteColor(FromDigits(h).value)
  {
    ParsePairAt(h, 0);
    ParsePairAt(h, 2);
    ParsePairAt(h, 4);
    var lits := ChannelLiterals(h);
    assert lits == [h[0..2], h[2..4], h[4..6]];
    MapAllSuccess(ParseChannel, lits, [PairValue(h[0], h[1]), PairValue(h[2], h[3]), PairValue(h[4], h[5])]);
  }

  lemma FromDigitsEight(h: string)
    requires |h| == 8 && AllHex(h)
    ensures FromDigits(h) == Success(Rgba(PairValue(h[0], h[1]), PairValue(h[2], h[3]), PairValue(h[4], h[5]), PairValue(h[6], h[7])))
    ensures IsByteColor(FromDigits(h).value)
  {
    var lits := ChannelLiterals(h);
    var vs := [PairValue(h[0], h[1]), PairValue(h[2], h[3]), PairValue(h[4], h[5]), PairValue(h[6], h[7])];
    assert lits == [h[0..2], h[2..4], h[4..6], h[6..8]];
    forall k | 0 <= k < 4
      ensures ParseChannel(lits[k]) == Success(vs[k])
    {
      ParsePairAt(h, 2 * k);
    }
    MapAllSuccess(ParseChannel, lits, vs);
    assert FromDigits(h) == Success(Rgba(vs[0], vs[1], vs[2], vs[3]));
  }

  /** Three digits: each colour channel is the LITERAL value of one digit, in
      [0, 15]. Nothing is replicated or scaled, so `fff` is (15, 15, 15, 255). */
  lemma Hex2RgbaShort(token: string)
    requires var h := StripHashes(token); |h| == 3 && AllHex(h)
    ensures var h := StripHashes(token);
            Hex2Rgba(token) == Success(Rgba(DigitValue(h[0]), DigitValue(h[1]), DigitValue(h[2]), Opaque))
    ensures var c := Hex2Rgba(token).value; c.r < 16 && c.g < 16 && c.b < 16 && IsByteColor(c)
  {
    FromDigitsShort(StripHashes(token));
  }

  /** Six digits: three two-digit channels and an opaque alpha. */
  lemma Hex2RgbaSix(token: string)
    requires var h := StripHashes(token); |h| == 6 && AllHex(h)
    ensures var h := StripHashes(token);
            Hex2Rgba(token) == Success(Rgba(PairValue(h[0], h[1]), PairValue(h[2], h[3]), PairValue(h[4], h[5]), Opaque))
    ensures IsByteColor(Hex2Rgba(token).value)
  {
    FromDigitsSix(StripHashes(token));
  }

  /** Eight digits: four two-digit channels, alpha from digits 6 and 7. */
  lemma Hex2RgbaEight(token: string)
    requires var h := StripHashes(token); |h| == 8 && AllHex(h)
    ensures var h := StripHashes(token);
            Hex2Rgba(token) == Success(Rgba(PairValue(h[0], h[1]), PairValue(h[2], h[3]), PairValue(h[4], h[5]), PairValue(h[6], h[7])))
    ensures IsByteColor(Hex2Rgba(token).value)
  {
    FromDigitsEight(StripHashes(token));
  }

  lemma FromDigitsOutcome(h: string)
    ensures FromDigits(h).Success? <==> SupportedLength(|h|) && AllHex(h)
    ensures !SupportedLength(|h|) ==> FromDigits(h) == Failure(BadLength(h))
    ensures SupportedLength(|h|) && !AllHex(h) ==>
              var lits := ChannelLiterals(h);
              exists k :: 0 <= k < |lits| && FromDigits(h) == Failure(NotHex(lits[k])) &&
                          !AllHex(lits[k]) &&
                          forall j :: 0 <= j < k ==> AllHex(lits[j])
    ensures FromDigits(h).Success? ==> IsByteColor(FromDigits(h).value)
  {
    if SupportedLength(|h|) {
      LiteralsAllHex(h);
      if AllHex(h) {
        if |h| == 3 {
          FromDigitsShort(h);
        } else if |h| == 6 {
          FromDigitsSix(h);
        } else {
          FromDigitsEight(h);
        }
      }
    }
  }

  /** Which channel literal a rejected token is reported with, the one thing
      `Hex2Rgba`'s own contract leaves open: for a supported length with a
      non-hex character, the error names the first channel literal `int`
      rejects, every literal before it being hex. */
  lemma Hex2RgbaOutcome(token: string)
    ensures var h := StripHashes(token);
            SupportedLength(|h|) && !AllHex(h) ==>
              var lits := ChannelLiterals(h);
              exists k :: 0 <= k < |lits| && Hex2Rgba(token) == Failure(NotHex(lits[k])) &&
                          !AllHex(lits[k]) &&
                          forall j :: 0 <= j < k ==> AllHex(lits[j])
  {
    FromDigitsOutcome(StripHashes(token));
  }

  /** `hexs2rgba`: `hex2rgba` over the tokens of `split_str`, in order; the first
      failing token's error aborts the whole list. */
  function Hexs2Rgba(arg: string): (r: Result<seq<Rgba>, ParseError>)
    ensures r.Success? <==> forall i :: 0 <= i < |SplitStr(arg)| ==> Hex2Rgba(SplitStr(arg)[i]).Success?
    ensures r.Success? ==>
              |r.value| == |SplitStr(arg)| &&
              forall i :: 0 <= i < |r.value| ==>
                r.value[i] == Hex2Rgba(SplitStr(arg)[i]).value && IsByteColor(r.value[i])
  {
    MapAll(Hex2Rgba, SplitStr(arg))
  }

  /** What `Hexs2Rgba`'s own contract leaves open: the acceptance condition in
      terms of the digits of each token, and, on failure, that the error is the
      one of the first token that fails, every token before it parsing. */
  lemma Hexs2RgbaOutcome(arg: string)
    ensures var toks := SplitStr(arg);
            Hexs2Rgba(arg).Success? <==>
              forall i :: 0 <= i < |toks| ==>
                SupportedLength(|StripHashes(toks[i])|) && AllHex(StripHashes(toks[i]))
    ensures var toks := SplitStr(arg); var res := Hexs2Rgba(arg);
            res.Failure? ==>
              exists k :: 0 <= k < |toks| && Hex2Rgba(toks[k]) == Failure(res.error) &&
                          forall j :: 0 <= j < k ==> Hex2Rgba(toks[j]).Success?
  {
  }

  /** An argument with no tokens parses to no colours. */
  lemma Hexs2RgbaEmpty()
    ensures Hexs2Rgba("") == Success([])
    ensures Hexs2Rgba(":::") == Success([])
  {
    SplitStrOnlySeps("");
    SplitStrOnlySeps(":::");
  }

  /** The canonical eight-digit spelling `#rrggbbaa` of a byte-sized colour. */
  function FormatRgba(c: Rgba): (s: string)
    requires IsByteColor(c)
    ensures |s| == 9 && s[0] == Hash && AllHex(s[1..])
  {
    [Hash] + ToHex(c.r, 2) + ToHex(c.g, 2) + ToHex(c.b, 2) + ToHex(c.a, 2)
  }

  /** The short spelling `#rgb` of an opaque colour whose channels are below 16. */
  function FormatShort(c: Rgba): (s: string)
    requires c.r < 16 && c.g < 16 && c.b < 16 && c.a == Opaque
    ensures |s| == 4 && s[0] == Hash && AllHex(s[1..])
  {
    [Hash] + ToHex(c.r, 1) + ToHex(c.g, 1) + ToHex(c.b, 1)
  }

  lemma FromDigitsFormatted(c: Rgba)
    requires IsByteColor(c)
    ensures FromDigits(FormatRgba(c)[1..]) == Success(c)
  {
    var h := FormatRgba(c)[1..];
    var r, g, b, a := ToHex(c.r, 2), ToHex(c.g, 2), ToHex(c.b, 2), ToHex(c.a, 2);
    assert h == r + g + b + a;
    assert h[0..2] == r && h[2..4] == g && h[4..6] == b && h[6..8] == a by {
      assert forall i :: 0 <= i < 2 ==> h[i] == r[i] && h[2 + i] == g[i] && h[4 + i] == b[i] && h[6 + i] == a[i];
    }
    var lits := ChannelLiterals(h);
    assert lits == [r, g, b, a];
    ParseToHex(c.r, 2);
    ParseToHex(c.g, 2);
    ParseToHex(c.b, 2);
    ParseToHex(c.a, 2);
    MapAllSuccess(ParseChannel, lits, [c.r, c.g, c.b, c.a]);
  }

  /** Parsing undoes formatting, however many hashes precede the digits. */
  lemma ParseFormatRgba(c: Rgba, hashes: nat)
    requires IsByteColor(c)
    ensures Hex2Rgba(Hashes(hashes) + FormatRgba(c)[1..]) == Success(c)
    ensures Hex2Rgba(FormatRgba(c)) == Success(c)
  {
    var s := FormatRgba(c);
    var h := s[1..];
    assert s == Hashes(1) + h;
    StripHashesPrefix(1, h);
    StripHashesPrefix(hashes, h);
    FromDigitsFormatted(c);
  }

  /** Parsing undoes the short spelling: a short token denotes small channel
      values, not the scaled colour. */
  lemma ParseFormatShort(c: Rgba)
    requires c.r < 16 && c.g < 16 && c.b < 16 && c.a == Opaque
    ensures Hex2Rgba(FormatShort(c)) == Success(c)
  {
    var s := FormatShort(c);
    var h := s[1..];
    assert s == Hashes(1) + h;
    StripHashesPrefix(1, h);
    var r, g, b := ToHex(c.r, 1), ToHex(c.g, 1), ToHex(c.b, 1);
    assert h == r + g + b;
    assert h[0..1] == r && h[1..2] == g && h[2..3] == b by {
      assert h[0] == r[0] && h[1] == g[0] && h[2] == b[0];
    }
    var lits := ChannelLiterals(h);
    assert lits == [r, g, b];
    ParseToHex(c.r, 1);
    ParseToHex(c.g, 1);
    ParseToHex(c.b, 1);
    MapAllSuccess(ParseChannel, lits, [c.r, c.g, c.b]);
  }

  /** The colon-separated eight-digit spelling of a colour list. */
  function FormatList(cs: seq<Rgba>): (s: string)
    requires forall i :: 0 <= i < |cs| ==> IsByteColor(cs[i])
  {
    Join(seq(|cs|, i requires 0 <= i < |cs| => FormatRgba(cs[i])))
  }

  /** A formatted colour is a valid token: non-empty and free of separators. */
  lemma FormatRgbaIsToken(c: Rgba)
    requires IsByteColor(c)
    ensures FormatRgba(c) != "" && Sep !in FormatRgba(c)
  {
    var t := FormatRgba(c);
    forall j | 0 <= j < |t|
      ensures t[j] != Sep
    {
      if j > 0 {
        assert t[j] == t[1..][j - 1];
      }
    }
  }

  /** Round trip of the whole parser: formatting a list and parsing it again
      gives the same colours in the same order. */
  lemma ParseFormatList(cs: seq<Rgba>)
    requires forall i :: 0 <= i < |cs| ==> IsByteColor(cs[i])
    ensures Hexs2Rgba(FormatList(cs)) == Success(cs)
  {
    var toks := seq(|cs|, i requires 0 <= i < |cs| => FormatRgba(cs[i]));
    forall i | 0 <= i < |toks|
      ensures toks[i] != "" && Sep !in toks[i]
      ensures Hex2Rgba(toks[i]) == Success(cs[i])
    {
      FormatRgbaIsToken(cs[i]);
      ParseFormatRgba(cs[i], 1);
    }
    SplitStrJoin(toks);
    MapAllSuccess(Hex2Rgba, toks, cs);
  }

  /** The three-digit form keeps literal nibbles: `#fff` is not white, and it
      differs from `#ffffff`. Any number of leading hashes is accepted. */
  lemma ShortFormExample()
    ensures Hex2Rgba("#fff") == Success(Rgba(15, 15, 15, 255))
    ensures Hex2Rgba("##ffffff") == Success(Rgba(255, 255, 255, 255))
    ensures Hex2Rgba("#fff") != Hex2Rgba("#ffffff")
  {
    StripHashesPrefix(1, "fff");
    assert Hashes(1) + "fff" == "#fff";
    FromDigitsShort("fff");
    StripHashesPrefix(2, "ffffff");
    assert Hashes(2) + "ffffff" == "##ffffff";
    StripHashesPrefix(1, "ffffff");
    assert Hashes(1) + "ffffff" == "#ffffff";
    FromDigitsSix("ffffff");
  }

  /** Eight digits carry their own alpha. */
  lemma AlphaExample()
    ensures Hex2Rgba("ff000080") == Success(Rgba(255, 0, 0, 128))
  {
    StripHashesPrefix(0, "ff000080");
    assert Hashes(0) + "ff000080" == "ff000080";
    FromDigitsEight("ff000080");
  }

  /** Unsupported lengths, counted after the hashes, are rejected with the digits. */
  lemma BadLengthExamples()
    ensures Hex2Rgba("12345") == Failure(BadLength("12345"))
    ensures Hex2Rgba("#1") == Failure(BadLength("1"))
    ensures Hex2Rgba("#") == Failure(BadLength(""))
  {
    StripHashesPrefix(0, "12345");
    assert Hashes(0) + "12345" == "12345";
    StripHashesPrefix(1, "1");
    assert Hashes(1) + "1" == "#1";
    StripHashesPrefix(1, "");
    assert Hashes(1) + "" == "#";
  }

  /** A supported length with a non-hex character fails on the first literal. */
  lemma NotHexExample()
    ensures Hex2Rgba("xyz123") == Failure(NotHex("xy"))
  {
    StripHashesPrefix(0, "xyz123");
    assert Hashes(0) + "xyz123" == "xyz123";
    var lits := ChannelLiterals("xyz123");
    assert lits[0] == "xy";
    assert !IsHexDigit('x');
    assert ParseChannel("xy") == Failure(NotHex("xy"));
  }

  /** A single six-digit token with one leading hash. */
  lemma HashSixExample(d: string)
    requires |d| == 6 && AllHex(d)
    ensures Hex2Rgba([Hash] + d) == Success(Rgba(PairValue(d[0], d[1]), PairValue(d[2], d[3]), PairValue(d[4], d[5]), Opaque))
  {
    StripHashesPrefix(1, d);
    assert Hashes(1) + d == [Hash] + d;
    FromDigitsSix(d);
  }

  lemma RedToken()
    ensures Hex2Rgba("#ff0000") == Success(Rgba(255, 0, 0, 255))
  {
    var d := "ff0000";
    assert AllHex(d) by {
      assert forall i :: 0 <= i < 6 ==> d[i] == 'f' || d[i] == '0';
    }
    HashSixExample(d);
    assert [Hash] + d == "#ff0000";
    assert DigitValue('f') == 15 && DigitValue('0') == 0;
    assert d[0] == 'f' && d[1] == 'f' && d[2] == '0' && d[3] == '0' && d[4] == '0' && d[5] == '0';
  }

  lemma GreenToken()
    ensures Hex2Rgba("#00ff00") == Success(Rgba(0, 255, 0, 255))
  {
    var d := "00ff00";
    assert AllHex(d) by {
      assert forall i :: 0 <= i < 6 ==> d[i] == 'f' || d[i] == '0';
    }
    HashSixExample(d);
    assert [Hash] + d == "#00ff00";
    assert DigitValue('f') == 15 && DigitValue('0') == 0;
    assert d[0] == '0' && d[1] == '0' && d[2] == 'f' && d[3] == 'f' && d[4] == '0' && d[5] == '0';
  }

  /** Two six-digit colours separated by a colon. */
  lemma TwoColorsExample()
    ensures Hexs2Rgba("#ff0000:#00ff00") == Success([Rgba(255, 0, 0, 255), Rgba(0, 255, 0, 255)])
  {
    var toks := ["#ff0000", "#00ff00"];
    assert Join(toks) == "#ff0000:#00ff00";
    SplitStrJoin(toks);
    RedToken();
    GreenToken();
    MapAllSuccess(Hex2Rgba, toks, [Rgba(255, 0, 0, 255), Rgba(0, 255, 0, 255)]);
  }
}
