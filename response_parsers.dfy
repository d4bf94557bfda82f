/**
 * The helpers the main process applies to what the adapter or the ECU sends
 * back: `hexToASCII` for identification strings, `parseSpeed` and
 * `parseCoolant` for OBD-II mode 01 replies, and `parseDTC` for a stored
 * trouble-code list.  All but `hexToASCII` first cut the reply into tokens
 * with `data.match(/[0-9A-F]{2}/g)`.
 */
module Responses {
  import opened Wrappers
  import opened Hex

  // Tokens

  /** A token: two upper-case hex digits. */
  predicate IsToken(t: string)
  {
    |t| == 2 && IsUpperHexChar(t[0]) && IsUpperHexChar(t[1])
  }

  type Token = t: string | IsToken(t) witness "00"

  /** `parseInt(token, 16)`. */
  function TokenValue(t: Token): (b: int)
    ensures IsByte(b)
  {
    PairValue(t[0], t[1])
  }

  /**
   * `data.match(/[0-9A-F]{2}/g)`, with `null` read as no tokens: the
   * pattern is tried at each position from the left; on a match it resumes
   * after the pair, otherwise one character further on.
   */
  function Tokens(data: string): (ts: seq<Token>)
    ensures |ts| <= |data| / 2
    decreases |data|
  {
    if |data| < 2 then []
    else if IsUpperHexChar(data[0]) && IsUpperHexChar(data[1]) then [data[..2]] + Tokens(data[2..])
    else Tokens(data[1..])
  }

  /** A pair of upper-case digits at the front is the first token, and scanning resumes after it. */
  lemma TokenFirst(t: Token, rest: string)
    ensures Tokens(t + rest) == [t] + Tokens(rest)
  {
    assert (t + rest)[..2] == t;
    assert (t + rest)[2..] == rest;
  }

  /** A character that is not an upper-case digit starts no token and is skipped. */
  lemma SkipSeparator(c: char, rest: string)
    requires !IsUpperHexChar(c)
    ensures Tokens([c] + rest) == Tokens(rest)
  {
    if rest != [] {
      assert ([c] + rest)[1..] == rest;
    }
  }

  /** The tokens of `bytesToHex` output are its bytes, one token each, in order. */
  lemma {:induction false} TokensOfHex(bs: seq<int>)
    requires IsBytes(bs)
    ensures var ts := Tokens(BytesToHex(bs));
            |ts| == |bs| && forall i :: 0 <= i < |bs| ==> TokenValue(ts[i]) == bs[i]
    decreases |bs|
  {
    if bs != [] {
      TokenFirst(ByteToHex(bs[0]), BytesToHex(bs[1..]));
      TokensOfHex(bs[1..]);
      var ts := Tokens(BytesToHex(bs));
      forall i | 0 <= i < |bs|
        ensures TokenValue(ts[i]) == bs[i]
      {
        if i > 0 {
          assert ts[i] == Tokens(BytesToHex(bs[1..]))[i - 1];
        }
      }
    }
  }

  /**
   * Tokens do not overlap, and lower-case pairs are not tokens: "ABC" has
   * the single token "AB", and "0c" has none.
   */
  lemma TokenExamples()
    ensures Tokens("ABC") == ["AB"]
    ensures Tokens("0c") == []
  {
    TokenFirst("AB", "C");
    assert "AB" + "C" == "ABC";
    assert "0c"[1..] == "c";
  }

  /** An adapter reply with spaces between the bytes reads as the same tokens. */
  lemma SpacedReply()
    ensures Tokens("41 0D 32") == ["41", "0D", "32"]
  {
    TokenFirst("32", "");
    SkipSeparator(' ', "32");
    TokenFirst("0D", " 32");
    SkipSeparator(' ', "0D 32");
    TokenFirst("41", " 0D 32");
    assert "32" + "" == "32";
    assert [' '] + "32" == " 32";
    assert "0D" + " 32" == "0D 32";
    assert [' '] + "0D 32" == " 0D 32";
    assert "41" + " 0D 32" == "41 0D 32";
  }

  // hexToASCII

  predicate IsPrintable(code: int)
  {
    32 <= code <= 126
  }

  /** What one `parseInt(chunk, 16)` contributes: its character when printable, nothing otherwise (NaN included). */
  function CharOf(code: Option<int>): (s: string)
    ensures |s| <= 1 && forall k :: 0 <= k < |s| ==> IsPrintable(s[k] as int)
  {
    if code.Some? && IsPrintable(code.value) then [code.value as char] else []
  }

  /** The chunk `hex.substr(0, 2)`. */
  function FirstChunk(hex: string): string
  {
    if |hex| >= 2 then hex[..2] else hex
  }

  /** The text after the first chunk. */
  function AfterChunk(hex: string): string
  {
    if |hex| >= 2 then hex[2..] else []
  }

  /** A one-character chunk is never printable: it is a sign alone (NaN), or a digit worth at most 15. */
  lemma OneCharNotPrintable(c: char)
    ensures CharOf(ParseIntHex([c])) == []
  {
    if c == '-' || c == '+' {
      assert [c][1..] == [];
      assert ParseUnsignedHex([]) == None;
    } else if IsHexChar(c) {
      assert HexRun([c]) == 1;
      assert [c][..1] == [c];
      assert DigitsValue([c]) == DigitValue(c);
    } else {
      assert HexRun([c]) == 0;
    }
  }

  /**
   * What `hexToASCII` makes of `hex`: each two-character chunk parsed, the
   * printable ones kept in order. An odd last chunk adds nothing, so the text
   * is at most half as long as the hex.
   */
  function AsciiText(hex: string): (s: string)
    ensures |s| <= |hex| / 2
    ensures forall k :: 0 <= k < |s| ==> IsPrintable(s[k] as int)
    decreases |hex|
  {
    if hex == [] then []
    else
      LastChunkNotPrintable(hex);
      CharOf(ParseIntHex(FirstChunk(hex))) + AsciiText(AfterChunk(hex))
  }

  /** The chunk of a one-character text adds nothing. */
  lemma LastChunkNotPrintable(hex: string)
    ensures |hex| == 1 ==> CharOf(ParseIntHex(FirstChunk(hex))) == []
  {
    if |hex| == 1 {
      assert FirstChunk(hex) == [hex[0]];
      OneCharNotPrintable(hex[0]);
    }
  }

  /** `hexToASCII`: a loop over the chunks that appends each printable character. */
  method HexToAscii(hex: string) returns (str: string)
    ensures str == AsciiText(hex)
  {
    str := "";
    var i := 0;
    while i < |hex|
      invariant 0 <= i <= |hex| + 1
      invariant str + AsciiText(Remaining(hex, i)) == AsciiText(hex)
      decreases |hex| - i
    {
      var chunk := hex[i..if i + 2 <= |hex| then i + 2 else |hex|];
      ChunkStep(hex, i);
      var charCode := ParseIntHex(chunk);
      ghost var before := str;
      if charCode.Some? && 32 <= charCode.value <= 126 {
        str := str + [charCode.value as char];
      }
      assert str == before + CharOf(charCode);
      AsciiStep(hex, i, before);
      i := i + 2;
    }
  }

  /** One chunk more: what is already converted plus its character, then the rest, is still the whole text. */
  lemma AsciiStep(hex: string, i: int, done: string)
    requires 0 <= i < |hex|
    requires done + AsciiText(Remaining(hex, i)) == AsciiText(hex)
    ensures (done + CharOf(ParseIntHex(hex[i..if i + 2 <= |hex| then i + 2 else |hex|])))
            + AsciiText(Remaining(hex, i + 2)) == AsciiText(hex)
  {
    ChunkStep(hex, i);
    var piece := CharOf(ParseIntHex(hex[i..if i + 2 <= |hex| then i + 2 else |hex|]));
    var tail := AsciiText(Remaining(hex, i + 2));
    Regroup(done, piece, tail, AsciiText(hex));
  }

  lemma Regroup<T>(a: seq<T>, b: seq<T>, c: seq<T>, whole: seq<T>)
    requires a + (b + c) == whole
    ensures (a + b) + c == whole
  {
    assert (a + b) + c == a + (b + c);
  }

  /** The text from position `i` on, empty once past the end. */
  function Remaining(hex: string, i: int): string
    requires 0 <= i
  {
    if i <= |hex| then hex[i..] else []
  }

  /** The chunk at `i` is the first chunk of what remains, and after it `i + 2` remains. */
  lemma ChunkStep(hex: string, i: int)
    requires 0 <= i < |hex|
    ensures hex[i..if i + 2 <= |hex| then i + 2 else |hex|] == FirstChunk(Remaining(hex, i))
    ensures AsciiText(Remaining(hex, i))
            == CharOf(ParseIntHex(FirstChunk(Remaining(hex, i)))) + AsciiText(Remaining(hex, i + 2))
  {
    var rest := hex[i..];
    if i + 2 <= |hex| {
      assert rest[2..] == hex[i + 2..];
    }
    assert AfterChunk(rest) == Remaining(hex, i + 2);
  }

  /** The printable bytes of `bs` as characters, in order; the others dropped. */
  function Printable(bs: seq<int>): (s: string)
    ensures |s| <= |bs|
  {
    if bs == [] then [] else (if IsPrintable(bs[0]) then [bs[0] as char] else []) + Printable(bs[1..])
  }

  /** `parseInt` reads a byte's two digits back as the byte. */
  lemma ParseByteHex(b: int)
    requires IsByte(b)
    ensures ParseIntHex(ByteToHex(b)) == Some(b)
  {
    var s := ByteToHex(b);
    assert HexRun(s[2..]) == 0;
    assert HexRun(s) == 2;
    assert s[..2] == s;
    assert s[..1] == [s[0]];
    assert DigitsValue(s[..1]) == DigitValue(s[0]);
  }

  /** On `bytesToHex` output, `hexToASCII` keeps exactly the printable bytes, in order. */
  lemma {:induction false} AsciiOfBytes(bs: seq<int>)
    requires IsBytes(bs)
    ensures AsciiText(BytesToHex(bs)) == Printable(bs)
    decreases |bs|
  {
    if bs != [] {
      var hex := BytesToHex(bs);
      assert FirstChunk(hex) == ByteToHex(bs[0]);
      assert AfterChunk(hex) == BytesToHex(bs[1..]);
      ParseByteHex(bs[0]);
      AsciiOfBytes(bs[1..]);
    }
  }

  /** Printable text survives the trip through hex: a VIN sent as bytes reads back as itself. */
  lemma {:induction false} AsciiRoundTrip(text: string)
    requires forall k :: 0 <= k < |text| ==> IsPrintable(text[k] as int)
    ensures var codes := seq(|text|, k requires 0 <= k < |text| => text[k] as int);
            IsBytes(codes) && AsciiText(BytesToHex(codes)) == text
    decreases |text|
  {
    var codes := seq(|text|, k requires 0 <= k < |text| => text[k] as int);
    AsciiOfBytes(codes);
    PrintableAll(text);
  }

  /** `Printable` of the codes of printable text is the text. */
  lemma {:induction false} PrintableAll(text: string)
    requires forall k :: 0 <= k < |text| ==> IsPrintable(text[k] as int)
    ensures Printable(seq(|text|, k requires 0 <= k < |text| => text[k] as int)) == text
    decreases |text|
  {
    if text != [] {
      var codes := seq(|text|, k requires 0 <= k < |text| => text[k] as int);
      assert codes[1..] == seq(|text[1..]|, k requires 0 <= k < |text[1..]| => text[1..][k] as int);
      PrintableAll(text[1..]);
      assert text == [text[0]] + text[1..];
    }
  }

  // parseSpeed and parseCoolant

  /** `parseSpeed`: the third token's value (km/h), or 0 when there are fewer than three tokens. */
  function ParseSpeed(data: string): (speed: int)
    ensures 0 <= speed <= 255
    ensures |Tokens(data)| < 3 ==> speed == 0
  {
    var bytes := Tokens(data);
    if |bytes| >= 3 then TokenValue(bytes[2]) else 0
  }

  /** `parseCoolant`: the third token's value less 40 (°C), or 0 when there are fewer than three tokens. */
  function ParseCoolant(data: string): (temperature: int)
    ensures -40 <= temperature <= 215
    ensures |Tokens(data)| < 3 ==> temperature == 0
  {
    var bytes := Tokens(data);
    if |bytes| >= 3 then TokenValue(bytes[2]) - 40 else 0
  }

  /** A mode 01 reply `41 pid A` carries its value in A: the speed is A, the coolant temperature A - 40. */
  lemma ReplyValues(bs: seq<int>)
    requires IsBytes(bs) && |bs| >= 3
    ensures ParseSpeed(BytesToHex(bs)) == bs[2]
    ensures ParseCoolant(BytesToHex(bs)) == bs[2] - 40
  {
    TokensOfHex(bs);
  }

  /** The adapter's spaced reply "41 0D 32" is 50 km/h. */
  lemma SpeedExample()
    ensures ParseSpeed("41 0D 32") == 0x32
  {
    SpacedReply();
  }

  // parseDTC

  /** The letter of the system a code belongs to: powertrain, chassis, body, network. */
  function SystemLetter(k: int): char
    requires 0 <= k < 4
  {
    "PCBU"[k]
  }

  /**
   * A trouble code from its two bytes, as SAE J2012 writes it: the top two
   * bits pick the letter, the next two are a digit 0-3, then the low nibble
   * and the second byte in hex ("P0133" for 01 33).
   */
  function DtcCode(b0: int, b1: int): (code: string)
    requires IsByte(b0) && IsByte(b1)
    ensures |code| == 5
  {
    [SystemLetter(b0 / 64), ('0' as int + (b0 / 16) % 4) as char, HexDigit(b0 % 16)] + ByteToHex(b1)
  }

  /** The position of a system letter in "PCBU". */
  function SystemIndex(c: char): (k: int)
    requires c in "PCBU"
    ensures 0 <= k < 4 && SystemLetter(k) == c
  {
    if c == 'P' then 0 else if c == 'C' then 1 else if c == 'B' then 2 else 3
  }

  /** Reads a trouble code back into its two bytes; `None` when it is not of that form. */
  function DecodeDtc(code: string): Option<(int, int)>
  {
    if |code| == 5 && code[0] in "PCBU" && '0' <= code[1] <= '3'
       && IsUpperHexChar(code[2]) && IsUpperHexChar(code[3]) && IsUpperHexChar(code[4])
    then Some((SystemIndex(code[0]) * 64 + (code[1] as int - '0' as int) * 16 + DigitValue(code[2]),
               PairValue(code[3], code[4])))
    else None
  }

  /** A byte is its top two bits, the next two and the low nibble. */
  lemma JoinByte(system: int, digit: int, low: int)
    requires 0 <= system < 4 && 0 <= digit < 4 && 0 <= low < 16
    ensures var b := system * 64 + digit * 16 + low;
            IsByte(b) && b / 64 == system && (b / 16) % 4 == digit && b % 16 == low
  {
  }

  /** Two upper-case digits are what `ByteToHex` renders for the byte they denote. */
  lemma PairDigits(hi: char, lo: char)
    requires IsUpperHexChar(hi) && IsUpperHexChar(lo)
    ensures ByteToHex(PairValue(hi, lo)) == [hi, lo]
  {
    var h, l := DigitValue(hi), DigitValue(lo);
    assert PairValue(hi, lo) == h * 16 + l;
    assert (h * 16 + l) / 16 == h && (h * 16 + l) % 16 == l;
    DigitRoundTrip(hi);
    DigitRoundTrip(lo);
  }

  /** Every pair of bytes has its own code: decoding gives the pair back. */
  lemma DtcRoundTrip(b0: int, b1: int)
    requires IsByte(b0) && IsByte(b1)
    ensures DecodeDtc(DtcCode(b0, b1)) == Some((b0, b1))
  {
    var c := DtcCode(b0, b1);
    var system, digit, low := b0 / 64, (b0 / 16) % 4, b0 % 16;
    assert b0 == system * 64 + digit * 16 + low;
    assert c[0] == SystemLetter(system) && c[0] in "PCBU";
    assert SystemIndex(c[0]) == system;
    assert '0' <= c[1] <= '3' && c[1] as int - '0' as int == digit;
    assert IsUpperHexChar(c[2]) && DigitValue(c[2]) == low;
    assert c[3..] == ByteToHex(b1);
    assert IsUpperHexChar(c[3]) && IsUpperHexChar(c[4]) && PairValue(c[3], c[4]) == b1;
  }

  /** Every well-formed code names exactly one pair of bytes, and is the code of that pair. */
  lemma DtcCanonical(code: string)
    requires DecodeDtc(code).Some?
    ensures IsByte(DecodeDtc(code).value.0) && IsByte(DecodeDtc(code).value.1)
    ensures DtcCode(DecodeDtc(code).value.0, DecodeDtc(code).value.1) == code
  {
    var system, digit, low := SystemIndex(code[0]), code[1] as int - '0' as int, DigitValue(code[2]);
    JoinByte(system, digit, low);
    DigitRoundTrip(code[2]);
    PairDigits(code[3], code[4]);
    var b0, b1 := system * 64 + digit * 16 + low, PairValue(code[3], code[4]);
    assert DecodeDtc(code) == Some((b0, b1));
    assert DtcCode(b0, b1) == [code[0], code[1], code[2]] + [code[3], code[4]];
  }

  /**
   * `parseDTCCode` as written, given the two tokens it is called with: it
   * indexes the characters of the joined four-digit string where the bytes
   * were meant, so the letter is always 'P', the digit always 0, the third
   * part `hex[0][1]` is undefined, and the last two characters are digits
   * 1 and 2 of the string.
   */
  function DtcCodeAsWritten(t0: Token, t1: Token): string
  {
    var hex := t0 + t1;
    var digit := DigitValue(hex[0]);
    [SystemLetter(digit / 64), ('0' as int + (digit / 16) % 4) as char] + "undefined" + hex[1..3]
  }

  /** The as-written code drops the letter, the digit and the last character of every code. */
  lemma DtcCodeAsWrittenLosesCode(t0: Token, t1: Token)
    ensures DtcCodeAsWritten(t0, t1) == "P0undefined" + [t0[1], t1[0]]
  {
    assert (t0 + t1)[1..3] == [t0[1], t1[0]];
  }

  /** For the bytes 01 33 the as-written code is "P0undefined13" where "P0133" was meant. */
  lemma DtcCodeAsWrittenExample()
    ensures DtcCodeAsWritten("01", "33") == "P0undefined13"
    ensures DtcCode(0x01, 0x33) == "P0133"
  {
    DtcCodeAsWrittenLosesCode("01", "33");
    assert "P0undefined" + ['1', '3'] == "P0undefined13";
    assert ByteToHex(0x33) == "33";
    assert ['P', '0', '1'] + "33" == "P0133";
  }

  /** Code `i` of a list: from the tokens at 1 + 2i and 2 + 2i. */
  function CodeAt(tokens: seq<Token>, i: nat): (code: string)
    requires 2 + 2 * i < |tokens|
  {
    DtcCode(TokenValue(tokens[1 + 2 * i]), TokenValue(tokens[2 + 2 * i]))
  }

  /** The codes of the first `n` token pairs after the count. */
  function CodesUpTo(tokens: seq<Token>, n: nat): (codes: seq<string>)
    requires 2 * n < |tokens|
    ensures |codes| == n
    ensures forall i :: 0 <= i < n ==> codes[i] == CodeAt(tokens, i)
  {
    if n == 0 then [] else CodesUpTo(tokens, n - 1) + [CodeAt(tokens, n - 1)]
  }

  /**
   * The codes `parseDTC` returns for a token list: the count in the first
   * token, as far as whole pairs follow it. Each pair is composed with the
   * corrected `DtcCode`, not with `DtcCodeAsWritten`, which the source calls.
   */
  function DtcCodes(tokens: seq<Token>): (codes: seq<string>)
  {
    if |tokens| > 2 then
      var count, pairs := TokenValue(tokens[0]), (|tokens| - 1) / 2;
      CodesUpTo(tokens, if count < pairs then count else pairs)
    else []
  }

  /**
   * `parseDTC` with the corrected `parseDTCCode`: for each of the announced
   * codes, the two tokens after the count, skipped when a token is missing.
   */
  method ParseDtc(data: string) returns (dtcCodes: seq<string>)
    ensures dtcCodes == DtcCodes(Tokens(data))
  {
    dtcCodes := [];
    var bytes := Tokens(data);
    if |bytes| > 2 {
      var numCodes := TokenValue(bytes[0]);
      ghost var pairs := (|bytes| - 1) / 2;
      for i := 0 to numCodes
        invariant dtcCodes == CodesUpTo(bytes, if i < pairs then i else pairs)
      {
        var offset := 1 + i * 2;
        DtcStep(bytes, i);
        if offset + 1 < |bytes| {
          var code := DtcCode(TokenValue(bytes[offset]), TokenValue(bytes[offset + 1]));
          assert code == CodeAt(bytes, i);
          dtcCodes := dtcCodes + [code];
        }
      }
    }
  }

  /** One announced code more: a whole pair at `1 + 2i` adds its code, a missing one leaves the codes as they are. */
  lemma DtcStep(tokens: seq<Token>, i: nat)
    requires |tokens| > 2
    ensures var pairs := (|tokens| - 1) / 2;
            if 2 + 2 * i < |tokens| then
              i < pairs && CodesUpTo(tokens, i + 1) == CodesUpTo(tokens, i) + [CodeAt(tokens, i)]
            else pairs <= i
  {
  }

  /**
   * The codes `parseDTC` returns: none for fewer than three tokens; at most
   * as many as the first token announces, and no more than whole pairs
   * follow it.
   */
  lemma DtcCodesCount(tokens: seq<Token>)
    ensures |tokens| < 3 ==> DtcCodes(tokens) == []
    ensures |tokens| >= 3 ==> |DtcCodes(tokens)| <= TokenValue(tokens[0]) && 2 * |DtcCodes(tokens)| < |tokens|
  {
  }

  /** Code i decodes to the values of the tokens at 1 + 2i and 2 + 2i. */
  lemma DtcCodesDecode(tokens: seq<Token>, i: int)
    requires 0 <= i < |DtcCodes(tokens)|
    ensures DecodeDtc(DtcCodes(tokens)[i]) == Some((TokenValue(tokens[1 + 2 * i]), TokenValue(tokens[2 + 2 * i])))
  {
    DtcRoundTrip(TokenValue(tokens[1 + 2 * i]), TokenValue(tokens[2 + 2 * i]));
  }

  /** A stored-code reply rendered by `bytesToHex`: its count byte, then two bytes per code. */
  lemma DtcCodesOfBytes(bs: seq<int>)
    requires IsBytes(bs) && |bs| >= 3
    ensures var codes := DtcCodes(Tokens(BytesToHex(bs)));
            |codes| == (if bs[0] < (|bs| - 1) / 2 then bs[0] else (|bs| - 1) / 2)
            && forall i :: 0 <= i < |codes| ==> codes[i] == DtcCode(bs[1 + 2 * i], bs[2 + 2 * i])
  {
    var ts := Tokens(BytesToHex(bs));
    TokensOfHex(bs);
  }
}
