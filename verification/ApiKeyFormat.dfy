/** The text of an API key: emb_<key id>_<secret>, with the two encodings of RFC 4648 it uses (sections 8 and 5). */
module ApiKeyFormat {
  import opened Collections

  type Byte = b: int | 0 <= b < 256 witness 0

  const PREFIX := ['e', 'm', 'b', '_']
  const KEY_ID_LEN := 12
  const SECRET_BYTES := 32
  const SEPARATOR := '_'

  datatype Generated = Generated(plaintext: string, keyId: string, hash: seq<Byte>)
  datatype Parsed = Parsed(keyId: string, secret: string)
  datatype Malformed = Malformed

  // ------------------------------------------------------------- base 16

  function HexDigit(n: int): char
    requires 0 <= n < 16
  {
    if n < 10 then ('0' as int + n) as char else ('a' as int + n - 10) as char
  }

  /** Upper and lower case are both read. */
  function HexValue(c: char): Option<int> {
    if '0' <= c <= '9' then Some(c as int - '0' as int)
    else if 'a' <= c <= 'f' then Some(c as int - 'a' as int + 10)
    else if 'A' <= c <= 'F' then Some(c as int - 'A' as int + 10)
    else None
  }

  function HexEncode(bytes: seq<Byte>): string {
    if bytes == [] then [] else [HexDigit(bytes[0] / 16), HexDigit(bytes[0] % 16)] + HexEncode(bytes[1..])
  }

  predicate AllHex(s: string) {
    forall i :: 0 <= i < |s| ==> HexValue(s[i]).Some?
  }

  function HexDecode(s: string): Option<seq<Byte>> {
    if s == [] then Some([])
    else if |s| == 1 || HexValue(s[0]).None? || HexValue(s[1]).None? then None
    else
      match HexDecode(s[2..])
      case None => None
      case Some(rest) =>
        var b := 16 * HexValue(s[0]).value + HexValue(s[1]).value;
        Some([b] + rest)
  }

  lemma {:induction false} HexRoundTrip(bytes: seq<Byte>)
    ensures |HexEncode(bytes)| == 2 * |bytes| && AllHex(HexEncode(bytes))
    ensures HexDecode(HexEncode(bytes)) == Some(bytes)
  {
    if bytes != [] {
      var rest := HexEncode(bytes[1..]);
      HexRoundTrip(bytes[1..]);
      HexDigits(bytes[0]);
      TwoDigits(HexDigit(bytes[0] / 16), HexDigit(bytes[0] % 16), rest);
      assert [bytes[0]] + bytes[1..] == bytes;
    }
  }

  /** Two digits before a text that decodes are one byte before its bytes. */
  lemma TwoDigits(a: char, b: char, rest: string)
    requires HexValue(a).Some? && HexValue(b).Some? && HexDecode(rest).Some? && AllHex(rest)
    ensures HexDecode([a, b] + rest) == Some([16 * HexValue(a).value + HexValue(b).value] + HexDecode(rest).value)
    ensures AllHex([a, b] + rest)
  {
    assert ([a, b] + rest)[2..] == rest;
  }

  lemma HexDigits(b: Byte)
    ensures HexValue(HexDigit(b / 16)) == Some(b / 16)
    ensures HexValue(HexDigit(b % 16)) == Some(b % 16)
    ensures 16 * (b / 16) + b % 16 == b
  {
  }

  /** A text decodes exactly when its length is even and all its characters are hexadecimal digits. */
  lemma {:induction false} HexDecodes(s: string)
    ensures HexDecode(s).Some? <==> |s| % 2 == 0 && AllHex(s)
  {
    if |s| >= 2 {
      HexDecodes(s[2..]);
      assert s == [s[0], s[1]] + s[2..];
    }
  }

  // ------------------------------------------------------------- base 64, URL alphabet, no padding

  function Base64Digit(n: int): char
    requires 0 <= n < 64
  {
    if n < 26 then ('A' as int + n) as char
    else if n < 52 then ('a' as int + n - 26) as char
    else if n < 62 then ('0' as int + n - 52) as char
    else if n == 62 then '-' else '_'
  }

  function Base64Value(c: char): Option<int> {
    if 'A' <= c <= 'Z' then Some(c as int - 'A' as int)
    else if 'a' <= c <= 'z' then Some(c as int - 'a' as int + 26)
    else if '0' <= c <= '9' then Some(c as int - '0' as int + 52)
    else if c == '-' then Some(62)
    else if c == '_' then Some(63)
    else None
  }

  lemma Base64Digits(n: int)
    requires 0 <= n < 64
    ensures Base64Value(Base64Digit(n)) == Some(n)
  {
  }

  /** Six-bit groups of a byte string, the last one filled with zero bits. */
  function Sextets(bytes: seq<Byte>): (r: seq<int>)
    ensures forall i :: 0 <= i < |r| ==> 0 <= r[i] < 64
  {
    if |bytes| == 0 then []
    else if |bytes| == 1 then [bytes[0] / 4, bytes[0] % 4 * 16]
    else if |bytes| == 2 then [bytes[0] / 4, bytes[0] % 4 * 16 + bytes[1] / 16, bytes[1] % 16 * 4]
    else
      [bytes[0] / 4, bytes[0] % 4 * 16 + bytes[1] / 16, bytes[1] % 16 * 4 + bytes[2] / 64, bytes[2] % 64]
      + Sextets(bytes[3..])
  }

  function Bytes(sextets: seq<int>): seq<Byte>
    requires forall i :: 0 <= i < |sextets| ==> 0 <= sextets[i] < 64
  {
    if |sextets| < 2 then []
    else
      var first := sextets[0] * 4 + sextets[1] / 16;
      if |sextets| == 2 then [first]
      else
        var second := sextets[1] % 16 * 16 + sextets[2] / 4;
        if |sextets| == 3 then [first, second]
        else [first, second, sextets[2] % 4 * 64 + sextets[3]] + Bytes(sextets[4..])
  }

  function Base64Encode(bytes: seq<Byte>): string {
    var s := Sextets(bytes);
    seq(|s|, i requires 0 <= i < |s| => Base64Digit(s[i]))
  }

  function Base64Decode(s: string): Option<seq<Byte>> {
    if exists i :: 0 <= i < |s| && Base64Value(s[i]).None? then None
    else Some(Bytes(seq(|s|, i requires 0 <= i < |s| => Base64Value(s[i]).value)))
  }

  lemma {:induction false} SextetsRoundTrip(bytes: seq<Byte>)
    ensures Bytes(Sextets(bytes)) == bytes
    ensures bytes != [] ==> Sextets(bytes) != []
  {
    if |bytes| >= 3 {
      SextetsRoundTrip(bytes[3..]);
      var s := Sextets(bytes);
      assert s[4..] == Sextets(bytes[3..]);
      ThreeBytes(bytes[0], bytes[1], bytes[2]);
      assert bytes == [bytes[0], bytes[1], bytes[2]] + bytes[3..];
    } else if |bytes| == 2 {
      ThreeBytes(bytes[0], bytes[1], 0);
    } else if |bytes| == 1 {
      ThreeBytes(bytes[0], 0, 0);
    }
  }

  lemma ThreeBytes(a: Byte, b: Byte, c: Byte)
    ensures a / 4 * 4 + (a % 4 * 16 + b / 16) / 16 == a
    ensures (a % 4 * 16 + b / 16) % 16 * 16 + (b % 16 * 4 + c / 64) / 4 == b
    ensures (b % 16 * 4 + c / 64) % 4 * 64 + c % 64 == c
  {
  }

  lemma Base64RoundTrip(bytes: seq<Byte>)
    ensures Base64Decode(Base64Encode(bytes)) == Some(bytes)
    ensures bytes != [] ==> Base64Encode(bytes) != []
  {
    var s, text := Sextets(bytes), Base64Encode(bytes);
    forall i | 0 <= i < |text| ensures Base64Value(text[i]) == Some(s[i]) {
      Base64Digits(s[i]);
    }
    assert seq(|text|, i requires 0 <= i < |text| => Base64Value(text[i]).value) == s;
    SextetsRoundTrip(bytes);
  }

  /** Test vectors of section 10 of RFC 4648. */
  lemma HexVectors()
    ensures HexEncode([102, 111, 111]) == ['6', '6', '6', 'f', '6', 'f']
    ensures HexEncode([98, 97, 114]) == ['6', '2', '6', '1', '7', '2']
  {
    HexOfThree(102, 111, 111);
    HexOfThree(98, 97, 114);
  }

  lemma HexOfThree(a: Byte, b: Byte, c: Byte)
    ensures HexEncode([a, b, c])
         == [HexDigit(a / 16), HexDigit(a % 16), HexDigit(b / 16), HexDigit(b % 16), HexDigit(c / 16), HexDigit(c % 16)]
  {
    HexOfFirst(c, []);
    HexOfFirst(b, [c]);
    HexOfFirst(a, [b, c]);
    assert [a] + [b, c] == [a, b, c] && [b] + [c] == [b, c] && [c] + [] == [c];
  }

  lemma HexOfFirst(b: Byte, rest: seq<Byte>)
    ensures HexEncode([b] + rest) == [HexDigit(b / 16), HexDigit(b % 16)] + HexEncode(rest)
  {
    assert ([b] + rest)[1..] == rest;
  }

  /** Test vectors of the same section for base 64, and one for the two characters of the URL alphabet. */
  lemma Base64Vectors()
    ensures Base64Encode([102]) == ['Z', 'g']
    ensures Base64Encode([102, 111]) == ['Z', 'm', '8']
    ensures Base64Encode([102, 111, 111]) == ['Z', 'm', '9', 'v']
    ensures Base64Encode([251, 255]) == ['-', '_', '8']
  {
    assert Sextets([102]) == [25, 32];
    assert Sextets([102, 111]) == [25, 38, 60];
    assert Sextets([102, 111, 111]) == [25, 38, 61, 47];
    assert Sextets([251, 255]) == [62, 63, 60];
  }

  /** Every digit is where the alphabets of RFC 4648 put it: sections 8 (in lower case) and 5. */
  lemma Alphabets(n: int)
    requires 0 <= n < 64
    ensures n < 10 ==> HexDigit(n) == ['0', '1', '2', '3', '4', '5', '6', '7', '8', '9'][n]
    ensures 10 <= n < 16 ==> HexDigit(n) == ['a', 'b', 'c', 'd', 'e', 'f'][n - 10]
    ensures n < 26 ==> 'A' <= Base64Digit(n) <= 'Z' && Base64Digit(n) as int == 65 + n
    ensures 26 <= n < 52 ==> 'a' <= Base64Digit(n) <= 'z' && Base64Digit(n) as int == 97 + n - 26
    ensures 52 <= n < 62 ==> '0' <= Base64Digit(n) <= '9' && Base64Digit(n) as int == 48 + n - 52
    ensures n == 62 ==> Base64Digit(n) == '-'
    ensures n == 63 ==> Base64Digit(n) == '_'
  {
  }

  // ------------------------------------------------------------- keys

  /** A new key from random bytes; `hash` is the digest that is stored. */
  function Generate(idBytes: seq<Byte>, secretBytes: seq<Byte>, hash: string -> seq<Byte>): Generated {
    var keyId, secret := HexEncode(idBytes), Base64Encode(secretBytes);
    Generated(PREFIX + keyId + [SEPARATOR] + secret, keyId, hash(secret))
  }

  function IndexOf(s: string, c: char): (i: nat)
    ensures i <= |s|
    ensures i < |s| ==> s[i] == c
    ensures forall j :: 0 <= j < i ==> s[j] != c
  {
    if s == [] || s[0] == c then 0 else 1 + IndexOf(s[1..], c)
  }

  /** Splits at the first separator after the prefix. */
  function Parse(plaintext: string): Result<Parsed, Malformed> {
    if !(PREFIX <= plaintext) then Err(Malformed)
    else
      var rest := plaintext[|PREFIX|..];
      var at := IndexOf(rest, SEPARATOR);
      if at == |rest| then Err(Malformed)
      else
        var keyId, secret := rest[..at], rest[at + 1..];
        if |keyId| != KEY_ID_LEN || secret == [] then Err(Malformed)
        else if HexDecode(keyId).None? then Err(Malformed)
        else Ok(Parsed(keyId, secret))
  }

  /** Parse accepts exactly the texts that are prefix, twelve hexadecimal characters, separator, and a secret that is
      not empty; and what it returns prints back to the text. */
  lemma ParseIsExact(s: string, keyId: string, secret: string)
    ensures Parse(s) == Ok(Parsed(keyId, secret))
       <==> && s == ['e', 'm', 'b', '_'] + keyId + ['_'] + secret && |keyId| == 12 && secret != []
            && forall i :: 0 <= i < 12 ==> '0' <= keyId[i] <= '9' || 'a' <= keyId[i] <= 'f' || 'A' <= keyId[i] <= 'F'
  {
    HexDecodes(keyId);
    var text := PREFIX + keyId + [SEPARATOR] + secret;
    if s == text && |keyId| == KEY_ID_LEN && AllHex(keyId) && secret != [] {
      SplitsAtFirst(keyId, secret);
      assert s[|PREFIX|..] == keyId + [SEPARATOR] + secret;
    }
    if Parse(s) == Ok(Parsed(keyId, secret)) {
      var rest := s[|PREFIX|..];
      assert s == PREFIX + rest;
      assert rest == keyId + [SEPARATOR] + secret;
    }
  }

  lemma SplitsAtFirst(keyId: string, secret: string)
    requires AllHex(keyId)
    ensures var rest := keyId + [SEPARATOR] + secret;
            var at := IndexOf(rest, SEPARATOR);
            at == |keyId| && rest[..at] == keyId && rest[at + 1..] == secret
  {
    var rest := keyId + [SEPARATOR] + secret;
    var at := IndexOf(rest, SEPARATOR);
    assert rest[|keyId|] == SEPARATOR;
    forall i | 0 <= i < |keyId| ensures rest[i] != SEPARATOR {
      assert HexValue(keyId[i]).Some?;
    }
  }

  /** Parse undoes Generate, whatever the bytes, and the secret it finds has the stored digest. */
  lemma ParseUndoesGenerate(idBytes: seq<Byte>, secretBytes: seq<Byte>, hash: string -> seq<Byte>)
    requires |idBytes| == KEY_ID_LEN / 2 && |secretBytes| == SECRET_BYTES
    ensures var g := Generate(idBytes, secretBytes, hash);
            var p := Parse(g.plaintext);
      && p.Ok? && p.value.keyId == g.keyId && hash(p.value.secret) == g.hash
      && HexDecode(p.value.keyId) == Some(idBytes) && Base64Decode(p.value.secret) == Some(secretBytes)
  {
    HexRoundTrip(idBytes);
    Base64RoundTrip(secretBytes);
    var g := Generate(idBytes, secretBytes, hash);
    ParseIsExact(g.plaintext, HexEncode(idBytes), Base64Encode(secretBytes));
  }
}
