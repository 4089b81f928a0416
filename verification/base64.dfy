/** Base64 as defined in section 4 of RFC 4648 (alphabet `A-Z a-z 0-9 + /`,
    `=` padding), a decoder for it, and the tree's variant that writes `_`
    where the standard alphabet has `/`. */
module Base64 {
  import opened Wrappers
  import opened Text

  type byte = x: int | 0 <= x < 256
  type sextet = x: int | 0 <= x < 64

  /** The alphabet symbol for a 6-bit value. */
  function Symbol(v: sextet): (c: char)
    ensures SymbolValue(c) == Some(v)
  {
    if v < 26 then ('A' as int + v) as char
    else if v < 52 then ('a' as int + (v - 26)) as char
    else if v < 62 then ('0' as int + (v - 52)) as char
    else if v == 62 then '+'
    else '/'
  }

  /** The 6-bit value of an alphabet symbol; None for any other character,
      in particular for the pad `=`. */
  function SymbolValue(c: char): Option<sextet> {
    if 'A' <= c <= 'Z' then Some(c as int - 'A' as int)
    else if 'a' <= c <= 'z' then Some(c as int - 'a' as int + 26)
    else if '0' <= c <= '9' then Some(c as int - '0' as int + 52)
    else if c == '+' then Some(62)
    else if c == '/' then Some(63)
    else None
  }

  /** A character that may appear in standard encoder output. */
  predicate IsEncodingChar(c: char) {
    SymbolValue(c).Some? || c == '='
  }

  /** Standard base64 with padding: every three bytes become four symbols. */
  function Encode(b: seq<byte>): (s: string)
    ensures |s| == 4 * ((|b| + 2) / 3)
    ensures forall i :: 0 <= i < |s| ==> IsEncodingChar(s[i])
    decreases |b|
  {
    if |b| == 0 then
      []
    else if |b| == 1 then
      [Symbol(b[0] / 4), Symbol(b[0] % 4 * 16), '=', '=']
    else if |b| == 2 then
      [Symbol(b[0] / 4), Symbol(b[0] % 4 * 16 + b[1] / 16), Symbol(b[1] % 16 * 4), '=']
    else
      [Symbol(b[0] / 4), Symbol(b[0] % 4 * 16 + b[1] / 16),
       Symbol(b[1] % 16 * 4 + b[2] / 64), Symbol(b[2] % 64)] + Encode(b[3..])
  }

  /** The bytes a group of symbol values stands for: four values give three
      bytes, three give two and two give one (the rest being padding). */
  function Bytes3(v0: sextet, v1: sextet, v2: sextet, v3: sextet): seq<byte> {
    [v0 * 4 + v1 / 16, v1 % 16 * 16 + v2 / 4, v2 % 4 * 64 + v3]
  }

  function Bytes2(v0: sextet, v1: sextet, v2: sextet): seq<byte> {
    [v0 * 4 + v1 / 16, v1 % 16 * 16 + v2 / 4]
  }

  function Bytes1(v0: sextet, v1: sextet): seq<byte> {
    [v0 * 4 + v1 / 16]
  }

  /** Standard base64 decoding; None for text that is not a padded encoding,
      including a final group whose unused low bits are not zero (section 3.5
      of RFC 4648 lets a decoder reject such text, and doing so makes each
      byte sequence have exactly one encoding). */
  function Decode(s: string): Option<seq<byte>>
    decreases |s|
  {
    if |s| == 0 then
      Some([])
    else if |s| < 4 then
      None
    else
      var v0, v1, v2, v3 := SymbolValue(s[0]), SymbolValue(s[1]), SymbolValue(s[2]), SymbolValue(s[3]);
      if v0.None? || v1.None? then
        None
      else if |s| == 4 && s[2] == '=' && s[3] == '=' then
        if v1.value % 16 == 0 then Some(Bytes1(v0.value, v1.value)) else None
      else if v2.None? then
        None
      else if |s| == 4 && s[3] == '=' then
        if v2.value % 4 == 0 then Some(Bytes2(v0.value, v1.value, v2.value)) else None
      else if v3.None? then
        None
      else
        match Decode(s[4..])
        case None => None
        case Some(rest) => Some(Bytes3(v0.value, v1.value, v2.value, v3.value) + rest)
  }

  lemma GroupArithmetic(b0: byte, b1: byte, b2: byte)
    ensures Bytes3(b0 / 4, b0 % 4 * 16 + b1 / 16, b1 % 16 * 4 + b2 / 64, b2 % 64) == [b0, b1, b2]
    ensures Bytes2(b0 / 4, b0 % 4 * 16 + b1 / 16, b1 % 16 * 4) == [b0, b1]
    ensures Bytes1(b0 / 4, b0 % 4 * 16) == [b0]
  {
  }

  lemma DecodeEncodeOne(b: seq<byte>)
    requires |b| == 1
    ensures Decode(Encode(b)) == Some(b)
  {
    var s := Encode(b);
    var v0, v1 := b[0] / 4, b[0] % 4 * 16;
    assert SymbolValue(s[0]) == Some(v0) && SymbolValue(s[1]) == Some(v1);
    GroupArithmetic(b[0], 0, 0);
    assert [b[0]] == b;
  }

  lemma DecodePairOf(s: string, b: seq<byte>)
    requires |s| == 4 && |b| == 2 && s[3] == '='
    requires SymbolValue(s[0]) == Some(b[0] / 4)
    requires SymbolValue(s[1]) == Some(b[0] % 4 * 16 + b[1] / 16)
    requires SymbolValue(s[2]) == Some(b[1] % 16 * 4)
    ensures Decode(s) == Some(b)
  {
    assert s[2] != '=';
    assert Decode(s) == Some(Bytes2(b[0] / 4, b[0] % 4 * 16 + b[1] / 16, b[1] % 16 * 4));
    GroupArithmetic(b[0], b[1], 0);
    assert [b[0], b[1]] == b;
  }

  lemma DecodeEncodeTwo(b: seq<byte>)
    requires |b| == 2
    ensures Decode(Encode(b)) == Some(b)
  {
    var s := Encode(b);
    assert s == [Symbol(b[0] / 4), Symbol(b[0] % 4 * 16 + b[1] / 16), Symbol(b[1] % 16 * 4), '='];
    DecodePairOf(s, b);
  }

  lemma DecodeFullGroup(s: string)
    requires |s| >= 4
    requires SymbolValue(s[0]).Some? && SymbolValue(s[1]).Some?
    requires SymbolValue(s[2]).Some? && SymbolValue(s[3]).Some?
    ensures Decode(s).Some? <==> Decode(s[4..]).Some?
    ensures Decode(s).Some? ==>
              Decode(s).value == Bytes3(SymbolValue(s[0]).value, SymbolValue(s[1]).value,
                                        SymbolValue(s[2]).value, SymbolValue(s[3]).value) + Decode(s[4..]).value
  {
    assert s[2] != '=' && s[3] != '=';
  }

  lemma EncodeGroup(b: seq<byte>)
    requires |b| >= 3
    ensures Encode(b)[4..] == Encode(b[3..])
    ensures SymbolValue(Encode(b)[0]) == Some(b[0] / 4)
    ensures SymbolValue(Encode(b)[1]) == Some(b[0] % 4 * 16 + b[1] / 16)
    ensures SymbolValue(Encode(b)[2]) == Some(b[1] % 16 * 4 + b[2] / 64)
    ensures SymbolValue(Encode(b)[3]) == Some(b[2] % 64)
  {
  }

  lemma DecodeGroupOf(s: string, b: seq<byte>)
    requires |s| >= 4 && |b| >= 3
    requires SymbolValue(s[0]) == Some(b[0] / 4)
    requires SymbolValue(s[1]) == Some(b[0] % 4 * 16 + b[1] / 16)
    requires SymbolValue(s[2]) == Some(b[1] % 16 * 4 + b[2] / 64)
    requires SymbolValue(s[3]) == Some(b[2] % 64)
    ensures Decode(s).Some? <==> Decode(s[4..]).Some?
    ensures Decode(s).Some? ==> Decode(s).value == b[..3] + Decode(s[4..]).value
  {
    DecodeFullGroup(s);
    GroupArithmetic(b[0], b[1], b[2]);
    assert [b[0], b[1], b[2]] == b[..3];
  }

  lemma DecodeEncodeGroup(b: seq<byte>)
    requires |b| >= 3
    ensures Decode(Encode(b)).Some? <==> Decode(Encode(b[3..])).Some?
    ensures Decode(Encode(b)).Some? ==> Decode(Encode(b)).value == b[..3] + Decode(Encode(b[3..])).value
  {
    EncodeGroup(b);
    DecodeGroupOf(Encode(b), b);
  }

  /** Decoding undoes encoding. */
  lemma {:induction false} DecodeEncode(b: seq<byte>)
    ensures Decode(Encode(b)) == Some(b)
    decreases |b|
  {
    if |b| == 1 {
      DecodeEncodeOne(b);
    } else if |b| == 2 {
      DecodeEncodeTwo(b);
    } else if |b| >= 3 {
      DecodeEncode(b[3..]);
      DecodeEncodeGroup(b);
      assert b[..3] + b[3..] == b;
    }
  }

  /** Each alphabet symbol is the symbol of its own value. */
  lemma SymbolOfValue(c: char)
    requires SymbolValue(c).Some?
    ensures Symbol(SymbolValue(c).value) == c
  {
  }

  /** Re-encoding the bytes of a group of symbol values gives those values
      back; for a padded group this needs the unused low bits to be zero. */
  lemma GroupInverse(v0: sextet, v1: sextet, v2: sextet, v3: sextet)
    ensures var x := Bytes3(v0, v1, v2, v3);
            && x[0] / 4 == v0 && x[0] % 4 * 16 + x[1] / 16 == v1
            && x[1] % 16 * 4 + x[2] / 64 == v2 && x[2] % 64 == v3
  {
  }

  lemma PairInverse(v0: sextet, v1: sextet, v2: sextet)
    requires v2 % 4 == 0
    ensures var x := Bytes2(v0, v1, v2);
            && x[0] / 4 == v0 && x[0] % 4 * 16 + x[1] / 16 == v1 && x[1] % 16 * 4 == v2
  {
  }

  lemma SingleInverse(v0: sextet, v1: sextet)
    requires v1 % 16 == 0
    ensures var x := Bytes1(v0, v1);
            x[0] / 4 == v0 && x[0] % 4 * 16 == v1
  {
  }

  lemma EncodeSingleOf(s: string)
    requires |s| == 4 && s[2] == '=' && s[3] == '='
    requires SymbolValue(s[0]).Some? && SymbolValue(s[1]).Some?
    requires SymbolValue(s[1]).value % 16 == 0
    ensures Encode(Bytes1(SymbolValue(s[0]).value, SymbolValue(s[1]).value)) == s
  {
    SymbolOfValue(s[0]);
    SymbolOfValue(s[1]);
    SingleInverse(SymbolValue(s[0]).value, SymbolValue(s[1]).value);
  }

  lemma EncodePairOf(s: string)
    requires |s| == 4 && s[3] == '='
    requires SymbolValue(s[0]).Some? && SymbolValue(s[1]).Some? && SymbolValue(s[2]).Some?
    requires SymbolValue(s[2]).value % 4 == 0
    ensures Encode(Bytes2(SymbolValue(s[0]).value, SymbolValue(s[1]).value, SymbolValue(s[2]).value)) == s
  {
    SymbolOfValue(s[0]);
    SymbolOfValue(s[1]);
    SymbolOfValue(s[2]);
    PairInverse(SymbolValue(s[0]).value, SymbolValue(s[1]).value, SymbolValue(s[2]).value);
  }

  lemma EncodeGroupOf(s: string, rest: seq<byte>)
    requires |s| >= 4
    requires SymbolValue(s[0]).Some? && SymbolValue(s[1]).Some?
    requires SymbolValue(s[2]).Some? && SymbolValue(s[3]).Some?
    requires Encode(rest) == s[4..]
    ensures Encode(Bytes3(SymbolValue(s[0]).value, SymbolValue(s[1]).value,
                          SymbolValue(s[2]).value, SymbolValue(s[3]).value) + rest) == s
  {
    var v0, v1, v2, v3 := SymbolValue(s[0]).value, SymbolValue(s[1]).value, SymbolValue(s[2]).value, SymbolValue(s[3]).value;
    var b := Bytes3(v0, v1, v2, v3) + rest;
    SymbolOfValue(s[0]);
    SymbolOfValue(s[1]);
    SymbolOfValue(s[2]);
    SymbolOfValue(s[3]);
    GroupInverse(v0, v1, v2, v3);
    assert b[3..] == rest;
    assert Encode(b) == [s[0], s[1], s[2], s[3]] + s[4..];
    assert s == s[..4] + s[4..];
  }

  /** A text the decoder accepts is the encoding of what it decodes to: every
      byte sequence has exactly one encoding, and Encode produces it. */
  lemma {:induction false} EncodeDecode(s: string)
    requires Decode(s).Some?
    ensures Encode(Decode(s).value) == s
    decreases |s|
  {
    if |s| > 0 {
      if |s| == 4 && s[2] == '=' && s[3] == '=' {
        EncodeSingleOf(s);
      } else if |s| == 4 && s[3] == '=' {
        EncodePairOf(s);
      } else {
        DecodeFullGroup(s);
        EncodeDecode(s[4..]);
        EncodeGroupOf(s, Decode(s[4..]).value);
      }
    }
  }

  /** The test vectors of section 10 of RFC 4648 ("f" is 102, "o" 111,
      "b" 98, "a" 97, "r" 114). */
  lemma TestVectors()
    ensures Encode([]) == ""
    ensures Encode([102]) == "Zg=="
    ensures Encode([102, 111]) == "Zm8="
    ensures Encode([102, 111, 111]) == "Zm9v"
    ensures Encode([102, 111, 111, 98]) == "Zm9vYg=="
    ensures Encode([102, 111, 111, 98, 97]) == "Zm9vYmE="
    ensures Encode([102, 111, 111, 98, 97, 114]) == "Zm9vYmFy"
  {
    assert [102, 111, 111, 98][3..] == [98];
    assert [102, 111, 111, 98, 97][3..] == [98, 97];
    assert [102, 111, 111, 98, 97, 114][3..] == [98, 97, 114];
  }

  /** The tree's Base64Encode: the UTF-8 bytes of `plainText` (the encoding
      is a parameter) in standard base64, with every `/` written as `_`. */
  function Base64Encode(plainText: string, utf8: string -> seq<byte>): (r: string)
    ensures |r| == 4 * ((|utf8(plainText)| + 2) / 3)
    ensures '/' !in r && '|' !in r
    ensures Replace(r, '_', '/') == Encode(utf8(plainText))
    ensures Decode(Replace(r, '_', '/')) == Some(utf8(plainText))
  {
    var standard := Encode(utf8(plainText));
    assert '_' !in standard by {
      assert forall i :: 0 <= i < |standard| ==> IsEncodingChar(standard[i]);
    }
    ReplaceRemoves(standard, '/', '_');
    ReplaceUndo(standard, '/', '_');
    DecodeEncode(utf8(plainText));
    Replace(standard, '/', '_')
  }
}
