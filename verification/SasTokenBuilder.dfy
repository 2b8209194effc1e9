/** construct_sas_token of sastoken.c: decoding the key, signing with HMAC-SHA256, encoding twice and laying out. */
module SasTokenBuilder {
  import opened Bytes
  import opened Fips180
  import opened Hmac
  import opened Numbers
  import opened SasToken
  import opened Wrappers
  import Base64
  import HashRuns
  import Lists
  import UrlCodec

  const LF: byte := 0x0A

  // Bytes as the characters of a string.
  function Text(bytes: seq<byte>): (s: string)
    ensures |s| == |bytes|
  {
    seq(|bytes|, i requires 0 <= i < |bytes| => CharOf(bytes[i]))
  }

  function DigitByte(c: char): byte {
    if '0' <= c <= '9' then 0x30 + ((c as int - '0' as int) as byte) else 0
  }

  // The characters of a decimal numeral as bytes.
  function NumeralBytes(s: string): (bytes: seq<byte>)
    ensures |bytes| == |s|
  {
    seq(|s|, i requires 0 <= i < |s| => DigitByte(s[i]))
  }

  // What is signed: the scope and the expiry on two lines.
  function ToBeHashed(scope: seq<byte>, expiry: nat): seq<byte> {
    scope + [LF] + NumeralBytes(Decimal(expiry))
  }

  function Signature(key: seq<byte>, scope: seq<byte>, expiry: nat): seq<byte> {
    UrlCodec.Encode(Base64.Encode(HmacBits(SHA256, key, ToBeHashed(scope, expiry), [])))
  }

  /** HMACSHA256_ComputeHash: no hash for an empty key or payload. */
  method ComputeHash(key: seq<byte>, payload: seq<byte>) returns (hash: Option<seq<byte>>)
    requires |key| <= INT_MAX && |payload| <= INT_MAX
    ensures hash == if key == [] || payload == [] then None else Some(HmacBits(SHA256, key, payload, []))
  {
    hide HmacBits;
    if key == [] || payload == [] {
      return None;
    }
    assert Lists.Concat([payload]) == payload by {
      OnePart(payload);
    }
    var code, mac := HashRuns.HmacDigest(SHA256, key, [payload]);
    hash := Some(mac);
  }

  lemma OnePart(payload: seq<byte>)
    ensures Lists.Concat([payload]) == payload
  {
    assert [payload][..0] == [];
    assert [] + payload == payload;
  }

  // A size_t has at most twenty decimal digits.
  lemma {:induction false} DecimalShort(n: nat, k: nat, bound: nat)
    requires n < bound && k > 0 && bound == Tens(k)
    ensures |Decimal(n)| <= k
    decreases k
  {
    if n >= 10 {
      assert k > 1 && bound == 10 * Tens(k - 1);
      DecimalShort(n / 10, k - 1, Tens(k - 1));
    }
  }

  function Tens(k: nat): nat {
    if k == 0 then 1 else 10 * Tens(k - 1)
  }

  lemma SizeFits(n: nat, k: nat)
    requires n <= ULLONG_MAX && k == 20
    ensures |Decimal(n)| <= k
  {
    TensAdd(k, 10);
    TensAt10(10);
    DecimalShort(n, k, Tens(k));
  }

  lemma {:induction false} TensAdd(k: nat, j: nat)
    requires j <= k
    ensures Tens(k) == Tens(k - j) * Tens(j)
    decreases j
  {
    if j > 0 {
      TensAdd(k - 1, j - 1);
    }
  }

  lemma TensAt10(k: nat)
    requires k == 10
    ensures Tens(k) == 10_000_000_000
  {
    assert Tens(k - 10) == 1;
    assert Tens(k - 9) == 10;
    assert Tens(k - 8) == 100;
    assert Tens(k - 6) == 10_000;
    assert Tens(k - 4) == 1_000_000;
    assert Tens(k - 2) == 100_000_000;
  }

  lemma DecodeLenBound(key: seq<byte>)
    requires |key| % 4 == 0
    ensures Base64.DecodeLen(key) <= |key|
  {
  }

  // The expiry in a buffer that is always large enough.
  method ExpirationTime(expiry: nat) returns (time: string)
    requires expiry <= ULLONG_MAX
    ensures time == Decimal(expiry) && |time| <= 20
  {
    hide Decimal;
    var tokenExpirationTime := new char[32];
    SizeFits(expiry, 20);
    var converted := SizeTToString(tokenExpirationTime, expiry);
    var n := |Decimal(expiry)|;
    assert tokenExpirationTime[..n] == tokenExpirationTime[..n + 1][..n];
    time := tokenExpirationTime[..n];
  }

  // The three steps from the key to the text of the signature.
  method Sign(key: seq<byte>, scope: seq<byte>, ghost expiry: nat, time: string) returns (signature: Option<seq<byte>>)
    requires |key| <= INT_MAX && |scope| <= INT_MAX - 21 && |time| <= 20 && time == Decimal(expiry)
    ensures signature == if key == [] then None else Some(Signature(key, scope, expiry))
  {
    hide HmacBits, Base64.Encode, UrlCodec.Encode, Decimal, NumeralBytes;
    var hash := ComputeHash(key, scope + [LF] + NumeralBytes(time));
    if hash.None? {
      return None;
    }
    var base64Signature := Base64.EncodeInternal(hash.value);
    var urlEncodedSignature := UrlCodec.UrlEncode(base64Signature[..base64Signature.Length - 1], true);
    signature := Some(urlEncodedSignature[..urlEncodedSignature.Length - 1]);
  }

  method LayOut(scope: seq<byte>, signature: seq<byte>, time: string, keyName: seq<byte>, named: bool, ghost expiry: nat)
    returns (result: string)
    requires time == Decimal(expiry)
    ensures result == Token(Text(scope), Text(signature), expiry, Text(keyName), named)
  {
    hide Decimal, Text;
    result := PREFIX;
    result := result + Text(scope);
    result := result + "&sig=";
    result := result + Text(signature);
    result := result + "&se=";
    result := result + time;
    if named {
      result := result + "&skn=";
      result := result + Text(keyName);
    }
  }

  /**
   A token, or nothing when the key is no base 64 string, decodes to nothing, or memory runs out. `decoded` is
   the key used for signing; a key that encodes k is decoded to k.
   */
  method ConstructSasToken(key: seq<byte>, scope: seq<byte>, keyName: seq<byte>, named: bool, expiry: nat,
                           keyMemory: bool, memory: bool)
    returns (token: Option<string>, ghost decoded: seq<byte>)
    requires expiry <= ULLONG_MAX && |key| <= INT_MAX && |scope| <= INT_MAX - 21
    ensures token.Some? <==> |key| % 4 == 0 && Base64.DecodeLen(key) > 0 && keyMemory && memory
    ensures token.Some? ==>
              token.value == Token(Text(scope), Text(Signature(decoded, scope, expiry)), expiry, Text(keyName), named)
    ensures token.Some? ==> forall k | key == Base64.Encode(k) :: decoded == k
  {
    hide HmacBits, Base64.Encode, UrlCodec.Encode, Base64.DecodeChars, Base64.AlphabetPrefix;
    decoded := [];
    var decodedKey := Base64.Decoder(key, keyMemory);
    if decodedKey == null {
      return None, decoded;
    }
    decoded := decodedKey[..];
    forall k | key == Base64.Encode(k)
      ensures decoded == k
    {
      Base64.DecodeEncode(k);
    }
    hide Token, Signature, Decimal;
    var tokenExpirationTime := ExpirationTime(expiry);
    if !memory {
      return None, decoded;
    }
    DecodeLenBound(key);
    var signature := Sign(decodedKey[..], scope, expiry, tokenExpirationTime);
    if signature.None? {
      return None, decoded;
    }
    var text := LayOut(scope, signature.value, tokenExpirationTime, keyName, named, expiry);
    token := Some(text);
  }

  /** What is signed is the scope, a line feed, and the expiry in decimal. */
  lemma PayloadIs(scope: seq<byte>, expiry: nat)
    ensures Text(ToBeHashed(scope, expiry)) == Text(scope) + "\n" + Decimal(expiry)
  {
    var d := Decimal(expiry);
    forall i | 0 <= i < |d|
      ensures Text(NumeralBytes(d))[i] == d[i]
    {
      assert d[i] in d && InBase(d[i], 10);
      DigitByteIs(d[i]);
    }
    assert Text([LF]) == "\n";
    hide DigitByte;
  }

  lemma DigitByteIs(c: char)
    ensures InBase(c, 10) ==> CharOf(DigitByte(c)) == c
  {
  }

  // ----- The tokens built are valid ones -----

  lemma SignatureShape(key: seq<byte>, scope: seq<byte>, expiry: nat)
    ensures var s := Text(Signature(key, scope, expiry)); |s| >= 44 && '=' !in s
  {
    hide HmacBits;
    var hash := HmacBits(SHA256, key, ToBeHashed(scope, expiry), []);
    Base64.EncodeLength(hash);
    var base64 := Base64.Encode(hash);
    UrlCodec.EncodingIsSafe(base64);
    var url := UrlCodec.Encode(base64);
    hide Base64.Encode, UrlCodec.Encode;
    forall i | 0 <= i < |url|
      ensures Text(url)[i] != '='
    {
      SafeIsNoEquals(url[i]);
    }
  }

  lemma SafeIsNoEquals(c: byte)
    requires UrlCodec.Safe(c)
    ensures CharOf(c) != '='
  {
    assert c != 0x3D;
    assert c as int == 61 ==> c == 0x3D;
  }

  /**
   For every key, the token built for a scope and an expiry is accepted until it expires, if and only if the
   scope has at least two characters; neither the scope nor the key's name may look like a field name.
   */
  lemma BuiltTokenIsAccepted(key: seq<byte>, scope: seq<byte>, keyName: seq<byte>, named: bool, expiry: nat, now: int)
    requires FreeOfNames(Text(scope)) && (named ==> FreeOfNames(Text(keyName)))
    ensures Validates(Token(Text(scope), Text(Signature(key, scope, expiry)), expiry, Text(keyName), named), now) <==>
            |scope| >= 2 && expiry > 0 && expiry >= now
  {
    SignatureShape(key, scope, expiry);
    hide Signature, Text, FreeOfNames, Validates, Token;
    BuilderAndValidatorAgree(Text(scope), Text(Signature(key, scope, expiry)), expiry, Text(keyName), named, now);
  }
}
