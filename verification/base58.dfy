/**
 Base58 with the Bitcoin alphabet, as the `bs58` crate encodes and decodes
 address payloads.

 A byte string is read as a big-endian number and written in base 58; every
 leading zero byte becomes one leading '1' (the alphabet's zero digit).
 Decoding reverses this and fails on the first character outside the
 alphabet.
 */
module Base58 {
  import opened Wrappers
  import opened Bytes
  import opened Digits

  /** The characters `first`, `first + 1`, ..., `n` of them, all ASCII. */
  function Run(first: char, n: nat): (s: string)
    requires first as int + n <= 0x80
  {
    seq(n, i requires 0 <= i < n => (first as int + i) as char)
  }

  /**
   The Bitcoin alphabet: the digits and letters without '0', 'I', 'O' and
   'l', in ASCII order. `AlphabetSpelled` spells it out.
   */
  const Alphabet: string :=
    Run('1', 9) + Run('A', 8) + Run('J', 5) + Run('P', 11) + Run('a', 11) + Run('m', 14)

  const Radix: nat := 58

  lemma AlphabetSpelled()
    ensures Alphabet == "123456789" + "ABCDEFGH" + "JKLMN" + "PQRSTUVWXYZ" + "abcdefghijk" + "mnopqrstuvwxyz"
  {
    assert Run('1', 9) == "123456789";
    assert Run('A', 8) == "ABCDEFGH";
    assert Run('J', 5) == "JKLMN";
    assert Run('P', 11) == "PQRSTUVWXYZ";
    assert Run('a', 11) == "abcdefghijk";
    assert Run('m', 14) == "mnopqrstuvwxyz";
  }

  /** The alphabet has 58 characters and its zero digit is '1'. */
  lemma AlphabetShape()
    ensures |Alphabet| == Radix
    ensures Alphabet[0] == '1' && DigitValue('1') == Some(0)
  {}

  datatype Base58Error = InvalidCharacter(character: char)

  /** The decoding table: the position of `c` in the alphabet, if it is there. */
  function DigitValue(c: char): Option<nat>
  {
    if '1' <= c <= '9' then Some(c as int - '1' as int)
    else if 'A' <= c <= 'H' then Some(c as int - 'A' as int + 9)
    else if 'J' <= c <= 'N' then Some(c as int - 'J' as int + 17)
    else if 'P' <= c <= 'Z' then Some(c as int - 'P' as int + 22)
    else if 'a' <= c <= 'k' then Some(c as int - 'a' as int + 33)
    else if 'm' <= c <= 'z' then Some(c as int - 'm' as int + 44)
    else None
  }

  /** The decoding table inverts the alphabet. */
  lemma DigitValueOfAlphabet(i: nat)
    requires i < |Alphabet|
    ensures DigitValue(Alphabet[i]) == Some(i)
  {}

  /** Only alphabet characters decode, and each to its own position. */
  lemma AlphabetOfDigitValue(c: char)
    requires DigitValue(c).Some?
    ensures DigitValue(c).value < |Alphabet| && Alphabet[DigitValue(c).value] == c
  {}

  /** Alphabet characters are printable ASCII, so never NUL and one UTF-8 byte each. */
  lemma AlphabetIsAscii(i: nat)
    requires i < |Alphabet|
    ensures '1' <= Alphabet[i] <= 'z'
  {}

  /** The number of leading elements of `s` equal to `x`. */
  function LeadingCount<T(==)>(s: seq<T>, x: T): (k: nat)
    ensures k <= |s|
    ensures forall i :: 0 <= i < k ==> s[i] == x
    ensures k < |s| ==> s[k] != x
  {
    if |s| == 0 || s[0] != x then 0 else 1 + LeadingCount(s[1..], x)
  }

  function DigitsToChars(d: seq<nat>): (s: string)
    requires IsDigits(d, Radix)
  {
    assert |Alphabet| == Radix by { AlphabetShape(); }
    seq(|d|, i requires 0 <= i < |d| => Alphabet[d[i]])
  }

  /** Base58 encoding of `data` (`bs58::encode(..).into_string()`). */
  function Encode(data: seq<byte>): string
  {
    var zeros := LeadingCount(data, 0);
    var digits := ToDigits(FromDigits(data, 256), Radix);
    AlphabetShape();
    Repeat('1', zeros) + DigitsToChars(digits)
  }

  /** The digit values of `s`, or the first character outside the alphabet. */
  function DecodeDigits(s: string): (r: Result<seq<nat>, Base58Error>)
    ensures r.Success? ==> |r.value| == |s| && IsDigits(r.value, Radix)
    ensures r.Success? ==> forall i :: 0 <= i < |s| ==> DigitValue(s[i]) == Some(r.value[i])
    ensures r.Failure? <==> exists i :: 0 <= i < |s| && DigitValue(s[i]).None?
  {
    if |s| == 0 then Success([])
    else
      match DigitValue(s[0])
      case None => Failure(InvalidCharacter(s[0]))
      case Some(v) =>
        AlphabetOfDigitValue(s[0]);
        match DecodeDigits(s[1..])
        case Failure(e) => Failure(e)
        case Success(rest) =>
          assert forall i :: 1 <= i < |s| ==> s[i] == s[1..][i - 1];
          Success([v] + rest)
  }

  /** Base58 decoding of `s` (`bs58::decode(..).into_vec()`). */
  function Decode(s: string): Result<seq<byte>, Base58Error>
  {
    match DecodeDigits(s)
    case Failure(e) => Failure(e)
    case Success(digits) =>
      var zeros := LeadingCount(s, '1');
      var body := ToDigits(FromDigits(digits, Radix), 256);
      Success(Repeat<nat>(0, zeros) + body)
  }

  /** Decoding fails exactly when some character is outside the alphabet. */
  lemma DecodeFailure(s: string)
    ensures Decode(s).Failure? <==> exists i :: 0 <= i < |s| && s[i] !in Alphabet
  {
    forall c | c in Alphabet
      ensures DigitValue(c).Some?
    {
      var k :| 0 <= k < |Alphabet| && Alphabet[k] == c;
      DigitValueOfAlphabet(k);
    }
    forall c | DigitValue(c).Some?
      ensures c in Alphabet
    {
      AlphabetOfDigitValue(c);
    }
  }

  /** The leading-run length is the first position that differs from `x`. */
  lemma LeadingCountIs<T>(s: seq<T>, x: T, k: nat)
    requires k <= |s|
    requires forall i :: 0 <= i < k ==> s[i] == x
    requires k < |s| ==> s[k] != x
    ensures LeadingCount(s, x) == k
  {}

  /** A string decodes digit by digit when all its characters are in the alphabet. */
  lemma DecodeDigitsOf(s: string, d: seq<nat>)
    requires |d| == |s|
    requires forall i :: 0 <= i < |s| ==> DigitValue(s[i]) == Some(d[i])
    ensures DecodeDigits(s) == Success(d)
  {
    assert DecodeDigits(s).value == d;
  }

  /** The characters of an encoding decode to zero digits for the leading
      zero bytes followed by the base-58 digits of the number. */
  lemma EncodingDigits(data: seq<byte>)
    ensures DecodeDigits(Encode(data)) ==
      Success(Repeat<nat>(0, LeadingCount(data, 0)) + ToDigits(FromDigits(data, 256), Radix))
    ensures LeadingCount(Encode(data), '1') == LeadingCount(data, 0)
  {
    var z := LeadingCount(data, 0);
    var digits := ToDigits(FromDigits(data, 256), Radix);
    var s := Encode(data);
    AlphabetShape();
    assert s == Repeat('1', z) + DigitsToChars(digits);
    var ds := Repeat<nat>(0, z) + digits;
    forall i | 0 <= i < |s|
      ensures DigitValue(s[i]) == Some(ds[i])
    {
      if i >= z {
        DigitValueOfAlphabet(digits[i - z]);
      }
    }
    DecodeDigitsOf(s, ds);
    if z < |s| {
      DigitValueOfAlphabet(digits[0]);
    }
    LeadingCountIs(s, '1', z);
  }

  /** Decoding an encoding gives back the bytes: bs58 decode after encode is the identity. */
  lemma DecodeEncode(data: seq<byte>)
    ensures Decode(Encode(data)) == Success(data)
  {
    var z := LeadingCount(data, 0);
    var n := FromDigits(data, 256);
    var digits := ToDigits(n, Radix);
    EncodingDigits(data);
    FromDigitsLeadingZeros(z, digits, Radix);
    FromToDigits(n, Radix);
    assert FromDigits(Repeat<nat>(0, z) + digits, Radix) == n;
    BytesAfterLeadingZeros(data);
    assert data == Repeat<nat>(0, z) + data[z..];
  }

  /** The bytes after the leading zeros are the shortest base-256 digit string of the whole number. */
  lemma BytesAfterLeadingZeros(data: seq<byte>)
    ensures ToDigits(FromDigits(data, 256), 256) == data[LeadingCount(data, 0)..]
  {
    var z := LeadingCount(data, 0);
    var tail: seq<nat> := data[z..];
    assert data == Repeat<nat>(0, z) + tail;
    FromDigitsLeadingZeros(z, tail, 256);
    ToFromDigits(tail, 256);
  }

  /** The digit values of a decodable string: zeros for its leading ones, then
      a digit string without leading zero. */
  lemma DecodedDigitsShape(s: string)
    requires DecodeDigits(s).Success?
    ensures var ds := DecodeDigits(s).value; var z := LeadingCount(s, '1');
      ds == Repeat<nat>(0, z) + ds[z..] && NoLeadingZero(ds[z..])
  {
    var ds := DecodeDigits(s).value;
    var z := LeadingCount(s, '1');
    LeadingOnesAreZeroDigits(s, ds, z);
    FirstDigitAfterOnes(s, ds, z);
    SplitZeros(ds, z);
  }

  lemma SplitZeros(ds: seq<nat>, z: nat)
    requires z <= |ds|
    requires forall i :: 0 <= i < z ==> ds[i] == 0
    ensures ds == Repeat<nat>(0, z) + ds[z..]
  {}

  lemma LeadingOnesAreZeroDigits(s: string, ds: seq<nat>, z: nat)
    requires DecodeDigits(s) == Success(ds)
    requires z == LeadingCount(s, '1')
    ensures forall i :: 0 <= i < z ==> ds[i] == 0
  {
    AlphabetShape();
  }

  lemma FirstDigitAfterOnes(s: string, ds: seq<nat>, z: nat)
    requires DecodeDigits(s) == Success(ds)
    requires z == LeadingCount(s, '1')
    ensures NoLeadingZero(ds[z..])
  {
    if z < |s| && ds[z] == 0 {
      AlphabetOfDigitValue(s[z]);
      AlphabetShape();
      assert false;
    }
  }

  /** Encoding the result of a successful decode gives back the string: every decodable string is canonical. */
  lemma EncodeDecode(s: string)
    requires Decode(s).Success?
    ensures Encode(Decode(s).value) == s
  {
    var ds := DecodeDigits(s).value;
    var z := LeadingCount(s, '1');
    var n := FromDigits(ds, Radix);
    var body := ToDigits(n, 256);
    var data := Decode(s).value;
    assert data == Repeat<nat>(0, z) + body;
    DecodedDigitsShape(s);
    var rest := ds[z..];
    FromDigitsLeadingZeros(z, rest, Radix);
    LeadingCountIs(data, 0, z);
    FromDigitsLeadingZeros(z, body, 256);
    FromToDigits(n, 256);
    ToFromDigits(rest, Radix);
    EncodedChars(s, z, rest);
  }

  lemma EncodedChars(s: string, z: nat, rest: seq<nat>)
    requires DecodeDigits(s).Success?
    requires z <= |s| && rest == DecodeDigits(s).value[z..]
    requires forall i :: 0 <= i < z ==> s[i] == '1'
    ensures IsDigits(rest, Radix)
    ensures Repeat('1', z) + DigitsToChars(rest) == s
  {
    var e := Repeat('1', z) + DigitsToChars(rest);
    forall i | z <= i < |s|
      ensures e[i] == s[i]
    {
      AlphabetOfDigitValue(s[i]);
    }
  }

  /** A payload without leading zero whose number is below `58^k` encodes to at most `k` characters. */
  lemma EncodeLength(data: seq<byte>, k: nat)
    requires |data| > 0 && data[0] != 0
    requires FromDigits(data, 256) < Pow(Radix, k)
    ensures |Encode(data)| <= k
  {
    LeadingCountIs(data, 0, 0);
    ToDigitsLength(FromDigits(data, 256), Radix, k);
  }

  /** Every character of an encoding is in the alphabet. */
  lemma EncodeInAlphabet(data: seq<byte>)
    ensures forall i :: 0 <= i < |Encode(data)| ==> Encode(data)[i] in Alphabet
  {
    AlphabetShape();
  }
}
