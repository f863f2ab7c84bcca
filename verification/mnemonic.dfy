/**
 BIP-0039 mnemonic phrases as the native library uses them:
 `fuego_key_to_mnemonic`, `fuego_mnemonic_to_key` and
 `fuego_validate_mnemonic`, built on `Mnemonic::from_entropy_in`,
 `Mnemonic::parse_in_normalized`, `Mnemonic::to_entropy` and the `Display`
 of a mnemonic.

 Entropy of 16, 20, 24, 28 or 32 bytes is followed by its first
 (bytes / 4) SHA-256 bits and the bit string is cut into 11-bit word
 indices. A phrase is read back by splitting it at whitespace, looking each
 word up in a 2048-word list, regrouping the index bits into bytes and
 checking the trailing checksum bits. The wordlist is a parameter: only its
 shape matters (2048 distinct words without whitespace or NUL).
 */
module Mnemonic {
  import opened Wrappers
  import opened Bytes
  import opened Digits
  import opened BitPacking
  import opened Ffi
  import opened Text

  /** Bits per word index. */
  const WordBits: nat := 11

  /** A position in the 2048-word list. */
  type WordIndex = i: nat | i < 2048

  /** A wordlist: the word at each index. */
  datatype Wordlist = Wordlist(word: WordIndex -> string)

  /** The shape of the English list: every word a whitespace-free token without NUL, no word twice. */
  predicate WellFormed(wl: Wordlist) {
    && (forall i: WordIndex :: IsToken(wl.word(i)) && '\0' !in wl.word(i))
    && (forall i: WordIndex, j: WordIndex :: wl.word(i) == wl.word(j) ==> i == j)
  }

  /** Word counts a phrase may have: 12, 15, 18, 21 or 24. */
  predicate ValidWordCount(n: nat) {
    12 <= n <= 24 && n % 3 == 0
  }

  /** Entropy sizes `from_entropy_in` accepts: a multiple of 32 bits from 128 to 256 bits. */
  predicate ValidEntropyLength(bytes: nat) {
    (bytes * 8) % 32 == 0 && 128 <= bytes * 8 <= 256
  }

  /** Number of entropy bytes a phrase of `n` words carries. */
  function EntropyBytes(n: nat): nat {
    n / 3 * 4
  }

  /** A sequence of word indices. */
  datatype Phrase = Phrase(words: seq<WordIndex>)

  /** A `bip39::Mnemonic`: a phrase whose word count is valid. */
  type Mnemonic = m: Phrase | ValidWordCount(|m.words|) witness Phrase(seq(12, _ => 0))

  /** The errors of the BIP-0039 implementation that these entry points can meet. */
  datatype Bip39Error =
    | BadEntropyBitCount(bits: nat)
    | BadWordCount(count: nat)
    | UnknownWord(position: nat)
    | InvalidChecksum

  lemma PowFacts()
    ensures Pow(2, 8) == 256
    ensures Pow(2, WordBits) == 2048
  {
    PowAdd(2, 8, 3);
  }

  lemma WordCountArith(n: nat)
    requires ValidWordCount(n)
    ensures ValidEntropyLength(EntropyBytes(n))
    ensures n * WordBits == EntropyBytes(n) * 8 + n / 3
    ensures EntropyBytes(n) / 4 == n / 3
    ensures EntropyBytes(n) >= KeySize <==> n == 24
  {
    if n == 12 {} else if n == 15 {} else if n == 18 {} else if n == 21 {} else {}
  }

  lemma EntropyArith(b: nat)
    requires ValidEntropyLength(b)
    ensures b * 8 + b / 4 == (b / 4 * 3) * WordBits
    ensures ValidWordCount(b / 4 * 3)
    ensures EntropyBytes(b / 4 * 3) == b
  {
    if b == 16 {} else if b == 20 {} else if b == 24 {} else if b == 28 {} else {}
  }

  /** The first |e| / 4 bits of SHA-256(e), most significant first. */
  function ChecksumBits(h: HashSuite, e: seq<byte>): (cs: seq<nat>)
    requires |e| <= 1024
    ensures |cs| == |e| / 4
    ensures IsDigits(cs, 2)
  {
    Unpack(h.sha256(e), 8)[..|e| / 4]
  }

  /** The entropy bytes a mnemonic carries (`Mnemonic::to_entropy`). */
  function ToEntropy(m: Mnemonic): (e: seq<byte>)
    ensures |e| == EntropyBytes(|m.words|)
  {
    var n := |m.words|;
    WordCountArith(n);
    var bits := Unpack(m.words, WordBits);
    ModMultiple(EntropyBytes(n), 8);
    PowFacts();
    Pack(bits[..EntropyBytes(n) * 8], 8)
  }

  /** The checksum bits a mnemonic carries after its entropy. */
  function StoredChecksum(m: Mnemonic): (cs: seq<nat>)
    ensures |cs| == |m.words| / 3
  {
    WordCountArith(|m.words|);
    Unpack(m.words, WordBits)[EntropyBytes(|m.words|) * 8..]
  }

  /** Whether the stored checksum bits are the checksum of the stored entropy. */
  predicate ChecksumValid(h: HashSuite, m: Mnemonic) {
    StoredChecksum(m) == ChecksumBits(h, ToEntropy(m))
  }

  /** `Mnemonic::from_entropy_in`: the mnemonic of `e`, or the bit count it rejects. */
  function FromEntropy(h: HashSuite, e: seq<byte>): (r: Result<Mnemonic, Bip39Error>)
    ensures r.Success? <==> ValidEntropyLength(|e|)
    ensures r.Failure? ==> r.error == BadEntropyBitCount(|e| * 8)
    ensures r.Success? ==> EntropyBytes(|r.value.words|) == |e|
  {
    if !ValidEntropyLength(|e|) then Failure(BadEntropyBitCount(|e| * 8))
    else
      EntropyArith(|e|);
      PowFacts();
      var bits := Unpack(e, 8) + ChecksumBits(h, e);
      assert IsDigits(bits, 2) by {
        forall i | 0 <= i < |bits| ensures bits[i] < 2 {
          if i < |Unpack(e, 8)| { assert bits[i] == Unpack(e, 8)[i]; }
          else { assert bits[i] == ChecksumBits(h, e)[i - |Unpack(e, 8)|]; }
        }
      }
      var words: seq<WordIndex> := Pack(bits, WordBits);
      Success(Phrase(words))
  }

  /** The words of a phrase, spelled with the wordlist. */
  function Words(wl: Wordlist, p: Phrase): (ws: seq<string>)
    ensures |ws| == |p.words|
    ensures forall i :: 0 <= i < |ws| ==> ws[i] == wl.word(p.words[i])
  {
    seq(|p.words|, i requires 0 <= i < |p.words| => wl.word(p.words[i]))
  }

  /** `Display` of a mnemonic: its words separated by single spaces. */
  function Render(wl: Wordlist, p: Phrase): (text: string)
    ensures WellFormed(wl) ==> SplitWhitespace(text) == Words(wl, p)
  {
    var ws := Words(wl, p);
    if WellFormed(wl) then
      SplitJoin(ws);
      Join(ws)
    else
      Join(ws)
  }

  /** With a well-formed wordlist a rendered phrase never contains NUL. */
  lemma RenderAvoidsNul(wl: Wordlist, p: Phrase)
    ensures WellFormed(wl) ==> '\0' !in Render(wl, p)
  {
    if WellFormed(wl) {
      JoinAvoids(Words(wl, p), '\0');
    }
  }

  /** `Language::find_word` from index `start` on. */
  function FindFrom(wl: Wordlist, token: string, start: nat): (r: Option<WordIndex>)
    requires start <= 2048
    ensures r.Some? ==> start <= r.value && wl.word(r.value) == token
    ensures r.None? ==> forall i: WordIndex :: start <= i ==> wl.word(i) != token
    decreases 2048 - start
  {
    if start == 2048 then None
    else if wl.word(start) == token then Some(start)
    else FindFrom(wl, token, start + 1)
  }

  /** `Language::find_word`: the index of `token` in the wordlist, if it is there. */
  function FindWord(wl: Wordlist, token: string): (r: Option<WordIndex>)
    ensures r.Some? ==> wl.word(r.value) == token
    ensures r.None? <==> forall i: WordIndex :: wl.word(i) != token
  {
    FindFrom(wl, token, 0)
  }

  /** Every token looked up in order; the position of the first unknown one on failure. */
  function LookupWords(wl: Wordlist, tokens: seq<string>): (r: Result<seq<WordIndex>, nat>)
    ensures r.Success? ==> |r.value| == |tokens|
    ensures r.Success? ==> forall i :: 0 <= i < |tokens| ==> wl.word(r.value[i]) == tokens[i]
    ensures r.Failure? ==> r.error < |tokens| && FindWord(wl, tokens[r.error]).None?
    ensures r.Failure? ==> forall i :: 0 <= i < r.error ==> FindWord(wl, tokens[i]).Some?
  {
    if |tokens| == 0 then Success([])
    else
      match FindWord(wl, tokens[0])
      case None => Failure(0)
      case Some(k) =>
        match LookupWords(wl, tokens[1..])
        case Failure(i) => Failure(i + 1)
        case Success(ks) => Success([k] + ks)
  }

  /**
   `Mnemonic::parse_in_normalized`: the word count is checked first, then
   every word must be in the list, then the checksum must match.
   */
  function Parse(h: HashSuite, wl: Wordlist, phrase: string): (r: Result<Mnemonic, Bip39Error>)
    ensures !ValidWordCount(|SplitWhitespace(phrase)|) ==> r == Failure(BadWordCount(|SplitWhitespace(phrase)|))
    ensures r.Success? ==> ChecksumValid(h, r.value) && Words(wl, r.value) == SplitWhitespace(phrase)
    ensures r.Failure? && r.error.UnknownWord? ==>
      var tokens := SplitWhitespace(phrase);
      r.error.position < |tokens| && FindWord(wl, tokens[r.error.position]).None?
  {
    var tokens := SplitWhitespace(phrase);
    if !ValidWordCount(|tokens|) then Failure(BadWordCount(|tokens|))
    else
      match LookupWords(wl, tokens)
      case Failure(i) => Failure(UnknownWord(i))
      case Success(ws) =>
        var m: Mnemonic := Phrase(ws);
        if ChecksumValid(h, m) then Success(m) else Failure(InvalidChecksum)
  }

  /** The reasons `fuego_key_to_mnemonic` returns -1. */
  datatype OutputError = InteriorNul | BufferTooSmall

  /**
   `fuego_key_to_mnemonic`: the 24-word phrase of a 32-byte key, if it fits
   with its NUL in `maxLen` bytes. A 32-byte key is always valid entropy, so
   the random fallback of the source never runs and is not modelled.
   */
  function KeyToMnemonic(h: HashSuite, wl: Wordlist, key: Key, maxLen: nat): (r: Result<string, OutputError>)
    ensures ValidEntropyLength(|key|)
    ensures r.Success? ==> r.value == Render(wl, FromEntropy(h, key).value) && '\0' !in r.value
    ensures WellFormed(wl) ==>
      (r.Success? <==> Utf8Length(Render(wl, FromEntropy(h, key).value)) + 1 <= maxLen)
  {
    var text := Render(wl, FromEntropy(h, key).value);
    RenderAvoidsNul(wl, FromEntropy(h, key).value);
    if '\0' in text then Failure(InteriorNul)
    else if Utf8Length(text) + 1 > maxLen then Failure(BufferTooSmall)
    else Success(text)
  }

  /** The reasons `fuego_mnemonic_to_key` returns -1. */
  datatype KeyError = PhraseNotUtf8 | Rejected(cause: Bip39Error) | ShortEntropy(bytes: nat)

  /**
   `fuego_mnemonic_to_key`: the key a phrase carries. Only a phrase with 32
   bytes of entropy (24 words) yields a key.
   */
  function MnemonicToKey(h: HashSuite, wl: Wordlist, phrase: CArg): (r: Result<Key, KeyError>)
    ensures phrase.NotUtf8? ==> r == Failure(PhraseNotUtf8)
    ensures phrase.Utf8? && Parse(h, wl, phrase.text).Failure? ==>
      r == Failure(Rejected(Parse(h, wl, phrase.text).error))
    ensures phrase.Utf8? && Parse(h, wl, phrase.text).Success? ==>
      var m := Parse(h, wl, phrase.text).value;
      && (r.Success? <==> |m.words| == 24)
      && (r.Success? ==> r.value == ToEntropy(m))
      && (r.Failure? ==> r.error == ShortEntropy(EntropyBytes(|m.words|)))
  {
    match phrase
    case NotUtf8 => Failure(PhraseNotUtf8)
    case Utf8(text) =>
      match Parse(h, wl, text)
      case Failure(e) => Failure(Rejected(e))
      case Success(m) =>
        var entropy := ToEntropy(m);
        WordCountArith(|m.words|);
        if |entropy| < KeySize then Failure(ShortEntropy(|entropy|))
        else Success(entropy[..KeySize])
  }

  /** `fuego_validate_mnemonic`: 1 when the phrase parses, 0 otherwise. */
  function ValidateMnemonic(h: HashSuite, wl: Wordlist, phrase: CArg): (r: int)
    ensures r == 0 || r == 1
    ensures r == 1 <==> phrase.Utf8? && Parse(h, wl, phrase.text).Success?
  {
    match phrase
    case NotUtf8 => 0
    case Utf8(text) => if Parse(h, wl, text).Success? then 1 else 0
  }

  /** Encoding entropy and reading it back gives the entropy, with a valid checksum. */
  lemma ToFromEntropy(h: HashSuite, e: seq<byte>)
    requires ValidEntropyLength(|e|)
    ensures ToEntropy(FromEntropy(h, e).value) == e
    ensures ChecksumValid(h, FromEntropy(h, e).value)
  {
    EntropyArith(|e|);
    PowFacts();
    var m := FromEntropy(h, e).value;
    var bits := Unpack(e, 8) + ChecksumBits(h, e);
    assert IsDigits(bits, 2) by {
      forall i | 0 <= i < |bits| ensures bits[i] < 2 {
        if i < |Unpack(e, 8)| { assert bits[i] == Unpack(e, 8)[i]; }
        else { assert bits[i] == ChecksumBits(h, e)[i - |Unpack(e, 8)|]; }
      }
    }
    assert m.words == Pack(bits, WordBits);
    UnpackPack(bits, WordBits);
    assert Unpack(m.words, WordBits) == bits;
    var cut := EntropyBytes(|m.words|) * 8;
    assert bits[..cut] == Unpack(e, 8);
    assert bits[cut..] == ChecksumBits(h, e);
    PackUnpack(e, 8);
  }

  /** A mnemonic with a valid checksum is the encoding of the entropy it carries. */
  lemma FromToEntropy(h: HashSuite, m: Mnemonic)
    requires ChecksumValid(h, m)
    ensures FromEntropy(h, ToEntropy(m)) == Success(m)
  {
    var n := |m.words|;
    WordCountArith(n);
    PowFacts();
    var e := ToEntropy(m);
    var bits := Unpack(m.words, WordBits);
    var cut := EntropyBytes(n) * 8;
    ModMultiple(EntropyBytes(n), 8);
    assert e == Pack(bits[..cut], 8);
    UnpackPack(bits[..cut], 8);
    assert Unpack(e, 8) + ChecksumBits(h, e) == bits[..cut] + bits[cut..] == bits;
    PackUnpack(m.words, WordBits);
  }

  /**
   Encoding is a bijection between entropy of a valid size and mnemonics
   with a valid checksum: different entropy gives different mnemonics.
   */
  lemma FromEntropyInjective(h: HashSuite, e1: seq<byte>, e2: seq<byte>)
    requires ValidEntropyLength(|e1|) && ValidEntropyLength(|e2|)
    ensures FromEntropy(h, e1) == FromEntropy(h, e2) <==> e1 == e2
  {
    ToFromEntropy(h, e1);
    ToFromEntropy(h, e2);
  }

  /** Looking up the spelled words of known indices gives those indices back. */
  lemma {:induction false} LookupSpelled(wl: Wordlist, tokens: seq<string>, ws: seq<WordIndex>)
    requires WellFormed(wl)
    requires |tokens| == |ws|
    requires forall i :: 0 <= i < |ws| ==> tokens[i] == wl.word(ws[i])
    ensures LookupWords(wl, tokens) == Success(ws)
    decreases |ws|
  {
    if |ws| > 0 {
      var found := FindWord(wl, tokens[0]);
      assert wl.word(ws[0]) == tokens[0];
      assert found.Some?;
      assert found.value == ws[0];
      LookupSpelled(wl, tokens[1..], ws[1..]);
      assert [ws[0]] + ws[1..] == ws;
    }
  }

  /** Parsing a rendered mnemonic with a valid checksum gives the mnemonic back. */
  lemma ParseRender(h: HashSuite, wl: Wordlist, m: Mnemonic)
    requires WellFormed(wl)
    requires ChecksumValid(h, m)
    ensures Parse(h, wl, Render(wl, m)) == Success(m)
  {
    SplitJoin(Words(wl, m));
    LookupSpelled(wl, Words(wl, m), m.words);
  }

  /**
   What `parse_in_normalized` accepts, exactly: phrases whose words are the
   words of the encoding of some entropy of a valid size, whatever the
   whitespace between them.
   */
  lemma ParseAccepts(h: HashSuite, wl: Wordlist, phrase: string)
    requires WellFormed(wl)
    ensures Parse(h, wl, phrase).Success? <==>
      exists e: seq<byte> :: ValidEntropyLength(|e|) &&
        SplitWhitespace(phrase) == Words(wl, FromEntropy(h, e).value)
  {
    if Parse(h, wl, phrase).Success? {
      var m := Parse(h, wl, phrase).value;
      FromToEntropy(h, m);
      assert SplitWhitespace(phrase) == Words(wl, FromEntropy(h, ToEntropy(m)).value);
    }
    if exists e: seq<byte> :: ValidEntropyLength(|e|) &&
        SplitWhitespace(phrase) == Words(wl, FromEntropy(h, e).value) {
      var e: seq<byte> :| ValidEntropyLength(|e|) &&
        SplitWhitespace(phrase) == Words(wl, FromEntropy(h, e).value);
      var m := FromEntropy(h, e).value;
      ToFromEntropy(h, e);
      LookupSpelled(wl, SplitWhitespace(phrase), m.words);
    }
  }

  /** Round trip through the library: a key written as a mnemonic is read back from it. */
  lemma KeyMnemonicRoundTrip(h: HashSuite, wl: Wordlist, key: Key, maxLen: nat)
    requires WellFormed(wl)
    requires KeyToMnemonic(h, wl, key, maxLen).Success?
    ensures MnemonicToKey(h, wl, Utf8(KeyToMnemonic(h, wl, key, maxLen).value)) == Success(key)
  {
    var m := FromEntropy(h, key).value;
    ToFromEntropy(h, key);
    ParseRender(h, wl, m);
  }

  /**
   A phrase yields a key exactly when it validates and has 24 words: every
   shorter valid phrase is accepted by validation and refused as a key.
   */
  lemma KeyNeedsTwentyFourWords(h: HashSuite, wl: Wordlist, phrase: CArg)
    ensures MnemonicToKey(h, wl, phrase).Success? <==>
      ValidateMnemonic(h, wl, phrase) == 1 && |SplitWhitespace(phrase.text)| == 24
  {
  }

  /** A 12-word phrase made from 16 bytes of entropy validates but gives no key. */
  lemma TwelveWordsValidateButGiveNoKey(h: HashSuite, wl: Wordlist, e: seq<byte>, phrase: CArg)
    requires WellFormed(wl)
    requires |e| == 16
    requires phrase == Utf8(Render(wl, FromEntropy(h, e).value))
    ensures |SplitWhitespace(phrase.text)| == 12
    ensures ValidateMnemonic(h, wl, phrase) == 1
    ensures MnemonicToKey(h, wl, phrase) == Failure(ShortEntropy(16))
  {
    var m := FromEntropy(h, e).value;
    ToFromEntropy(h, e);
    ParseRender(h, wl, m);
    SplitJoin(Words(wl, m));
  }

  /**
   The checksum is determined by the entropy: two mnemonics that carry the
   same entropy and both pass the checksum are the same mnemonic, so a
   phrase whose checksum bits were altered is refused.
   */
  lemma ChecksumDetermined(h: HashSuite, m1: Mnemonic, m2: Mnemonic)
    requires ToEntropy(m1) == ToEntropy(m2)
    requires ChecksumValid(h, m1)
    ensures ChecksumValid(h, m2) <==> m1 == m2
  {
    FromToEntropy(h, m1);
    if ChecksumValid(h, m2) {
      FromToEntropy(h, m2);
    }
  }

  /** A phrase with a word outside the list is refused, by validation and by key recovery. */
  lemma UnknownWordRejected(h: HashSuite, wl: Wordlist, phrase: CArg, i: nat)
    requires phrase.Utf8?
    requires i < |SplitWhitespace(phrase.text)|
    requires FindWord(wl, SplitWhitespace(phrase.text)[i]).None?
    ensures ValidateMnemonic(h, wl, phrase) == 0
    ensures MnemonicToKey(h, wl, phrase).Failure?
  {
  }

  /**
   Validation as the key recovery needs it: 1 exactly for the phrases from
   which `fuego_mnemonic_to_key` recovers a key.
   */
  function ValidateMnemonicStrict(h: HashSuite, wl: Wordlist, phrase: CArg): (r: int)
    ensures r == 0 || r == 1
    ensures r == 1 ==> ValidateMnemonic(h, wl, phrase) == 1
    ensures r == 1 <==> MnemonicToKey(h, wl, phrase).Success?
  {
    match phrase
    case NotUtf8 => 0
    case Utf8(text) =>
      var parsed := Parse(h, wl, text);
      if parsed.Success? && |parsed.value.words| == 24 then 1 else 0
  }

  /** Strict validation refuses the 12-word phrase that plain validation accepts. */
  lemma StrictRefusesTwelveWords(h: HashSuite, wl: Wordlist, e: seq<byte>, phrase: CArg)
    requires WellFormed(wl)
    requires |e| == 16
    requires phrase == Utf8(Render(wl, FromEntropy(h, e).value))
    ensures ValidateMnemonic(h, wl, phrase) == 1
    ensures ValidateMnemonicStrict(h, wl, phrase) == 0
  {
    TwelveWordsValidateButGiveNoKey(h, wl, e, phrase);
  }
}
