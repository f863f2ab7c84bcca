/**
 The address codec of the native library: `fuego_generate_address` and
 `fuego_validate_address`.

 An address is a text prefix followed by the Base58 encoding of a 69-byte
 payload: the network byte 0x1E, the 32-byte public spend key, the 32-byte
 public view key, and the first 4 bytes of SHA-256 over those 65 bytes.
 Validation only checks the hard-coded "FUEGO" prefix, that the rest
 decodes, and that the last 4 decoded bytes are the checksum of the others;
 it does not check the payload length or the network byte.
 */
module Address {
  import opened Wrappers
  import opened Bytes
  import opened Digits
  import opened Ffi
  import Base58

  /** The mainnet network byte placed first in every generated payload. */
  const NetworkByte: byte := 0x1E

  /** Length of the raw payload (`ADDRESS_SIZE`). */
  const PayloadSize: nat := 69

  const ChecksumSize: nat := 4

  /** The text prefix `fuego_validate_address` insists on. */
  const ValidatedPrefix: string := "FUEGO"

  /** Fewest decoded bytes validation accepts: one data byte and the checksum. */
  const MinDecodedSize: nat := ChecksumSize + 1

  /** The first four bytes of SHA-256 over `data`. */
  function Checksum(h: HashSuite, data: seq<byte>): (c: seq<byte>)
    ensures |c| == ChecksumSize
  {
    h.sha256(data)[..ChecksumSize]
  }

  /** The raw address payload built from the two public keys. */
  function Payload(h: HashSuite, spend: Key, view: Key): (p: seq<byte>)
    ensures |p| == PayloadSize
    ensures p[0] == NetworkByte
    ensures p[1..33] == spend && p[33..65] == view
    ensures p[65..] == Checksum(h, p[..65])
  {
    var body := [NetworkByte] + spend + view;
    assert body == (body + Checksum(h, body))[..65];
    body + Checksum(h, body)
  }

  /** Distinct key pairs give distinct payloads: the keys can be read back from a payload. */
  lemma PayloadInjective(h: HashSuite, spend: Key, view: Key, spend': Key, view': Key)
    ensures Payload(h, spend, view) == Payload(h, spend', view') <==> spend == spend' && view == view'
  {
  }

  /** The reasons `fuego_generate_address` returns -1. */
  datatype GenerateError =
    | PrefixNotUtf8    // the prefix argument is not valid UTF-8
    | InteriorNul      // `CString::new` found a NUL inside the text
    | BufferTooSmall   // the text and its NUL do not fit in `max_len` bytes

  /**
   `fuego_generate_address`: the address text copied to the output buffer,
   or the reason the call returned -1 without writing anything.
   */
  function GenerateAddress(h: HashSuite, spend: Key, view: Key, prefix: CArg, maxLen: nat)
    : (r: Result<string, GenerateError>)
    ensures prefix.NotUtf8? ==> r == Failure(PrefixNotUtf8)
    ensures prefix.Utf8? ==>
      var text := prefix.text + Base58.Encode(Payload(h, spend, view));
      && (r.Success? <==> Utf8Length(text) + 1 <= maxLen)
      && (r.Success? ==> r.value == text)
      && (r.Failure? ==> r.error == BufferTooSmall)
  {
    match prefix
    case NotUtf8 => Failure(PrefixNotUtf8)
    case Utf8(text) =>
      var full := text + Base58.Encode(Payload(h, spend, view));
      EncodingIsAscii(Payload(h, spend, view));
      if '\0' in full then Failure(InteriorNul)
      else if Utf8Length(full) + 1 > maxLen then Failure(BufferTooSmall)
      else Success(full)
  }

  /** Base58 text is ASCII from '1' to 'z': no NUL, one byte per character. */
  lemma EncodingIsAscii(data: seq<byte>)
    ensures forall i :: 0 <= i < |Base58.Encode(data)| ==> '1' <= Base58.Encode(data)[i] <= 'z'
    ensures Utf8Length(Base58.Encode(data)) == |Base58.Encode(data)|
  {
    var s := Base58.Encode(data);
    Base58.EncodeInAlphabet(data);
    forall i | 0 <= i < |s|
      ensures '1' <= s[i] <= 'z'
    {
      var k :| 0 <= k < |Base58.Alphabet| && Base58.Alphabet[k] == s[i];
      Base58.AlphabetIsAscii(k);
    }
    Utf8LengthAscii(s);
  }

  /** Whether `text` starts with "FUEGO" (`str::starts_with`). */
  predicate HasValidatedPrefix(text: string) {
    |text| >= |ValidatedPrefix| && text[..|ValidatedPrefix|] == ValidatedPrefix
  }

  /** Whether the trailing four bytes of `decoded` are the checksum of the bytes before them. */
  predicate ChecksumMatches(h: HashSuite, decoded: seq<byte>)
    requires |decoded| >= ChecksumSize
  {
    decoded[|decoded| - ChecksumSize..] == Checksum(h, decoded[..|decoded| - ChecksumSize])
  }

  /** `fuego_validate_address`: 1 for a valid address, 0 otherwise. */
  function ValidateAddress(h: HashSuite, address: CArg): (r: int)
    ensures r == 0 || r == 1
    ensures address.NotUtf8? ==> r == 0
    ensures address.Utf8? && !HasValidatedPrefix(address.text) ==> r == 0
    ensures address.Utf8? && HasValidatedPrefix(address.text) ==>
      var decoded := Base58.Decode(address.text[|ValidatedPrefix|..]);
      && (decoded.Failure? ==> r == 0)
      && (decoded.Success? && |decoded.value| < MinDecodedSize ==> r == 0)
      && (decoded.Success? && |decoded.value| >= MinDecodedSize ==>
            (r == 1 <==> ChecksumMatches(h, decoded.value)))
  {
    match address
    case NotUtf8 => 0
    case Utf8(text) =>
      if !HasValidatedPrefix(text) then 0
      else
        match Base58.Decode(text[|ValidatedPrefix|..])
        case Failure(_) => 0
        case Success(decoded) =>
          if |decoded| < MinDecodedSize then 0
          else if ChecksumMatches(h, decoded) then 1
          else 0
  }

  /**
   Round trip: an address generated with the "FUEGO" prefix validates, for
   every pair of public keys and every buffer large enough to receive it.
   */
  lemma GenerateThenValidate(h: HashSuite, spend: Key, view: Key, maxLen: nat)
    requires GenerateAddress(h, spend, view, Utf8(ValidatedPrefix), maxLen).Success?
    ensures ValidateAddress(h, Utf8(GenerateAddress(h, spend, view, Utf8(ValidatedPrefix), maxLen).value)) == 1
  {
    var p := Payload(h, spend, view);
    var text := ValidatedPrefix + Base58.Encode(p);
    assert text[..|ValidatedPrefix|] == ValidatedPrefix;
    assert text[|ValidatedPrefix|..] == Base58.Encode(p);
    Base58.DecodeEncode(p);
    assert p[..|p| - ChecksumSize] == p[..65];
  }

  /** The text of an address whose decoded bytes are `data` followed by its checksum. */
  function ChecksummedText(h: HashSuite, data: seq<byte>): string {
    ValidatedPrefix + Base58.Encode(data + Checksum(h, data))
  }

  /** Whatever validation accepts is "FUEGO" and the encoding of some non-empty data with its checksum. */
  lemma ValidatedIsChecksummed(h: HashSuite, address: CArg)
    requires ValidateAddress(h, address) == 1
    ensures address.Utf8?
    ensures exists data: seq<byte> :: |data| >= 1 && address.text == ChecksummedText(h, data)
  {
    var rest := address.text[|ValidatedPrefix|..];
    var decoded := Base58.Decode(rest).value;
    var data := decoded[..|decoded| - ChecksumSize];
    assert decoded == data + Checksum(h, data);
    Base58.EncodeDecode(rest);
    assert address.text == ValidatedPrefix + rest;
    assert address.text == ChecksummedText(h, data);
  }

  /** Every "FUEGO" address carrying non-empty data and its checksum validates, whatever the data's length. */
  lemma ChecksummedIsValidated(h: HashSuite, data: seq<byte>, address: CArg)
    requires |data| >= 1 && address == Utf8(ChecksummedText(h, data))
    ensures ValidateAddress(h, address) == 1
  {
    var decoded := data + Checksum(h, data);
    Base58.DecodeEncode(decoded);
    assert address.text[|ValidatedPrefix|..] == Base58.Encode(decoded);
    assert decoded[..|decoded| - ChecksumSize] == data;
  }

  /**
   What validation accepts, exactly: "FUEGO" followed by the Base58 encoding
   of some non-empty data with its checksum appended. Neither the length of
   the data nor its first byte is constrained.
   */
  lemma ValidateAddressAccepts(h: HashSuite, address: CArg)
    ensures ValidateAddress(h, address) == 1 <==>
      address.Utf8? && exists data: seq<byte> :: |data| >= 1 && address.text == ChecksummedText(h, data)
  {
    if ValidateAddress(h, address) == 1 {
      ValidatedIsChecksummed(h, address);
    }
    if address.Utf8? && exists data: seq<byte> :: |data| >= 1 && address.text == ChecksummedText(h, data) {
      var data: seq<byte> :| |data| >= 1 && address.text == ChecksummedText(h, data);
      ChecksummedIsValidated(h, data, address);
    }
  }

  /** A one-byte payload with a correct checksum passes validation: the 69-byte layout is not enforced. */
  lemma ValidateAcceptsShortPayload(h: HashSuite, b: byte, address: CArg)
    requires address == Utf8(ChecksummedText(h, [b]))
    ensures ValidateAddress(h, address) == 1
    ensures ValidateAddressStrict(h, address) == 0
  {
    ChecksummedIsValidated(h, [b], address);
    var decoded := [b] + Checksum(h, [b]);
    Base58.DecodeEncode(decoded);
    assert address.text[|ValidatedPrefix|..] == Base58.Encode(decoded);
  }

  /** 31 * 256^68 < 58^94, by way of 58^7 >= 2^41 and 58^3 >= 2^17. */
  lemma PayloadNumberBound()
    ensures 31 * Pow(256, 68) < Pow(Base58.Radix, 94)
  {
    assert Pow(58, 7) == 2207984167552;
    assert Pow(58, 3) == 195112;
    assert Pow(2, 8) == 256;
    assert Pow(256, 5) == 1099511627776;
    PowPow(2, 8, 5);
    PowAdd(2, 40, 1);
    assert Pow(2, 41) == 2199023255552;
    PowPow(2, 8, 2);
    PowAdd(2, 16, 1);
    assert Pow(2, 17) == 131072;
    PowBaseMonotone(Pow(2, 41), Pow(58, 7), 13);
    PowPow(2, 41, 13);
    PowPow(58, 7, 13);
    PowAdd(58, 91, 3);
    PowAdd(2, 533, 17);
    MulBothMonotone(Pow(2, 533), Pow(2, 17), Pow(58, 91), Pow(58, 3));
    PowPow(2, 8, 68);
    PowAdd(2, 544, 6);
    assert Pow(2, 6) == 64;
  }

  /** The Base58 text of any generated payload has at most 94 characters. */
  lemma EncodedPayloadLength(h: HashSuite, spend: Key, view: Key)
    ensures |Base58.Encode(Payload(h, spend, view))| <= 94
  {
    var p := Payload(h, spend, view);
    assert p == [p[0]] + p[1..];
    FromDigitsLeadingBound(p[0], p[1..], 256);
    PayloadNumberBound();
    Base58.EncodeLength(p, 94);
  }

  /**
   With the "FUEGO" prefix, a 100-byte buffer always suffices: 5 prefix
   bytes, at most 94 Base58 characters and the NUL.
   */
  lemma HundredByteBufferSuffices(h: HashSuite, spend: Key, view: Key, maxLen: nat)
    requires maxLen >= 100
    ensures GenerateAddress(h, spend, view, Utf8(ValidatedPrefix), maxLen).Success?
  {
    var e := Base58.Encode(Payload(h, spend, view));
    EncodedPayloadLength(h, spend, view);
    EncodingIsAscii(Payload(h, spend, view));
    Utf8LengthAppend(ValidatedPrefix, e);
    assert Utf8Length(ValidatedPrefix) == 5;
  }

  /** The library's own address test: keys 32 x 0x12 and 32 x 0x34, prefix "FUEGO", 100-byte buffer. */
  lemma AddressGenerationTest(h: HashSuite)
    ensures GenerateAddress(h, Repeat(0x12, KeySize), Repeat(0x34, KeySize), Utf8(ValidatedPrefix), 100).Success?
  {
    HundredByteBufferSuffices(h, Repeat(0x12, KeySize), Repeat(0x34, KeySize), 100);
  }

  /**
   Validation as the address format intends it: the decoded payload must
   also be exactly 69 bytes and start with the network byte.
   */
  function ValidateAddressStrict(h: HashSuite, address: CArg): (r: int)
    ensures r == 0 || r == 1
    ensures r == 1 ==> ValidateAddress(h, address) == 1
    ensures r == 1 ==> |Base58.Decode(address.text[|ValidatedPrefix|..]).value| == PayloadSize
  {
    if ValidateAddress(h, address) == 0 then 0
    else
      var decoded := Base58.Decode(address.text[|ValidatedPrefix|..]).value;
      if |decoded| == PayloadSize && decoded[0] == NetworkByte then 1 else 0
  }

  /** The address text generated from a key pair with the "FUEGO" prefix. */
  function AddressOf(h: HashSuite, spend: Key, view: Key): string {
    ValidatedPrefix + Base58.Encode(Payload(h, spend, view))
  }

  /** A payload of the right size, network byte and checksum is the payload of the keys it holds. */
  lemma PayloadOfParts(h: HashSuite, d: seq<byte>)
    requires |d| == PayloadSize && d[0] == NetworkByte
    requires ChecksumMatches(h, d)
    ensures d == Payload(h, d[1..33], d[33..65])
  {
    var body := [NetworkByte] + d[1..33] + d[33..65];
    assert body == d[..65];
    assert d == d[..65] + d[65..];
  }

  /** Whatever strict validation accepts is the address of some key pair. */
  lemma StrictValidatedIsGenerated(h: HashSuite, address: CArg)
    requires ValidateAddressStrict(h, address) == 1
    ensures exists spend: Key, view: Key :: address.text == AddressOf(h, spend, view)
  {
    var rest := address.text[|ValidatedPrefix|..];
    var d := Base58.Decode(rest).value;
    PayloadOfParts(h, d);
    Base58.EncodeDecode(rest);
    assert address.text == ValidatedPrefix + rest;
    assert address.text == AddressOf(h, d[1..33], d[33..65]);
  }

  /** The address of every key pair passes strict validation. */
  lemma GeneratedIsStrictValidated(h: HashSuite, spend: Key, view: Key, address: CArg)
    requires address == Utf8(AddressOf(h, spend, view))
    ensures ValidateAddressStrict(h, address) == 1
  {
    var p := Payload(h, spend, view);
    assert address.text[..|ValidatedPrefix|] == ValidatedPrefix;
    assert address.text[|ValidatedPrefix|..] == Base58.Encode(p);
    Base58.DecodeEncode(p);
    assert p[..|p| - ChecksumSize] == p[..65];
  }

  /** Strict validation accepts exactly the addresses generated from some pair of public keys. */
  lemma ValidateAddressStrictAccepts(h: HashSuite, address: CArg)
    ensures ValidateAddressStrict(h, address) == 1 <==>
      address.Utf8? && exists spend: Key, view: Key :: address.text == AddressOf(h, spend, view)
  {
    if ValidateAddressStrict(h, address) == 1 {
      StrictValidatedIsGenerated(h, address);
    }
    if address.Utf8? && exists spend: Key, view: Key :: address.text == AddressOf(h, spend, view) {
      var spend: Key, view: Key :| address.text == AddressOf(h, spend, view);
      GeneratedIsStrictValidated(h, spend, view, address);
    }
  }
}
