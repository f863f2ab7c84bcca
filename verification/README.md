# Fuego wallet core in Dafny

A model of two pieces of the Fuego wallet, with proofs about them.

**The native crypto library.** This is the Rust library that the
Dart/Flutter wallet calls over a C interface. The model covers:

- key derivation: the view key from the spend key, public keys, and the key image;
- the SHA-512 entry point;
- the address codec: Base58 with a 4-byte SHA-256 checksum, and a text prefix;
- BIP-0039 mnemonic phrases for the 32-byte spend key.

**The wallet's `StarkProofService`.** This is the bookkeeping of STARK proof
generation for burn transactions: per transaction, a status, a progress
percentage, an error message and an optional prover process.

## Modelling choices

- The hash primitives are parameters. SHA-256 and SHA-512 are the two fields
  of a `Bytes.HashSuite` value. The only thing known about them is their
  output length.
- Ed25519 key derivation is a parameter `ed: Key -> Key`.
- A C string argument is a `Ffi.CArg`. It is either the UTF-8 text
  `CStr::to_str` returns, which cannot contain NUL, or the UTF-8 error.
- Output strings are copied with their NUL into a `max_len`-byte buffer. So
  their size is counted in UTF-8 bytes (`Ffi.Utf8Length`).
- Each C entry point is a function. How its return code appears depends on the entry point:
  - Three entry points can return -1: `fuego_generate_address`, `fuego_key_to_mnemonic` and `fuego_mnemonic_to_key`. Their functions return a `Result`. A `Failure` names the reason for -1. A `Success` carries what is written to the output buffer when 0 is returned.
  - The two validators, `fuego_validate_address` and `fuego_validate_mnemonic`, return the same 0/1 `int` as the source.
  - The others always return 0: `fuego_generate_keys`, `fuego_private_to_public`, `fuego_generate_key_image` and `fuego_hash`. Their functions return directly what the entry point writes to its output buffers.
- Base58 uses the Bitcoin alphabet. It is written as positional-number
  conversion (module `Digits`):
  - each leading zero byte becomes a `'1'`;
  - the rest is the base-58 numeral of the big-endian value.
- BIP-0039 follows the `bip39` crate's `from_entropy_in`,
  `parse_in_normalized`, `to_entropy` and `Display`. The bit string is cut
  into 11-bit indices by `BitPacking`.
  - The phrase is split with Rust's `split_whitespace` (module `Text`).
  - The 2048-word list is a parameter (`Mnemonic.Wordlist`). The lemmas assume
    only that its words are distinct, non-empty, and free of whitespace and
    NUL, which holds for the English list.
- `StarkProofService` is an immutable record of maps, with one function per
  slot. The signals it emits and the jobs it queues go to an effect log.

### Where the code and the design description disagree (the model follows the code)

- **Address validation length.** Validation accepts any decoded payload of
  at least 5 bytes whose last 4 bytes are the SHA-256 checksum of the rest.
  - It checks neither the 69-byte length nor the network byte.
  - `Address.ValidateAddressAccepts` characterises exactly what passes.
  - `Address.ValidateAcceptsShortPayload` shows a 1-byte payload passing.
- **Address checksum hash.** The address checksum is SHA-256, not the
  512-bit hash.
- **Mnemonic random fallback.** `fuego_key_to_mnemonic` keeps a fallback
  that substitutes random 16-byte entropy when encoding fails. It can never
  run: a 32-byte key is always accepted (`Mnemonic.KeyToMnemonic` proves
  this), so the model has no random branch.
- **12-word phrases.** `fuego_validate_mnemonic` accepts every phrase that
  parses, including 12- to 21-word ones, but `fuego_mnemonic_to_key` refuses
  them (`Mnemonic.TwelveWordsValidateButGiveNoKey`).

## Model

| member | source | states |
|---|---|---|
| Base58.Encode | native/crypto/src/lib.rs:147 | `bs58::encode` with the Bitcoin alphabet. It has no contract of its own; Base58.DecodeEncode, Base58.EncodeDecode, Base58.EncodeInAlphabet and Base58.EncodeLength describe it |
| Base58.Decode | native/crypto/src/lib.rs:193 | `bs58::decode`. It has no contract of its own; Base58.DecodeFailure, Base58.EncodeDecode and Base58.DecodeEncode describe it |
| Base58.DecodeEncode | native/crypto/src/lib.rs:147 | Decoding the Base58 text of any byte string gives back that byte string, leading zero bytes included |
| Base58.EncodeDecode | native/crypto/src/lib.rs:192-196 | Every text that decodes is the canonical encoding of the bytes it decodes to |
| Base58.DecodeFailure | native/crypto/src/lib.rs:192-196 | Decoding fails exactly when some character is outside the 58-character alphabet |
| Base58.EncodeInAlphabet | native/crypto/src/lib.rs:147 | Every character of an encoding is in the alphabet |
| Base58.EncodeLength | native/crypto/src/lib.rs:147 | Data starting with a non-zero byte whose value is below 58^k encodes to at most k characters |
| Address.Checksum | native/crypto/src/lib.rs:139-144 | The address checksum is defined as the first 4 bytes of SHA-256 of the data |
| Address.Payload | native/crypto/src/lib.rs:128-144 | The payload is 69 bytes: 0x1E, the spend key, the view key, then the checksum of the first 65 bytes |
| Address.PayloadInjective | native/crypto/src/lib.rs:128-144 | Two payloads are equal exactly when both key pairs are equal |
| Address.GenerateAddress | native/crypto/src/lib.rs:101-170 | Fails on a non-UTF-8 prefix; otherwise yields prefix + Base58(payload) exactly when that text and its NUL fit in max_len bytes, and otherwise fails for lack of room |
| Address.EncodingIsAscii | native/crypto/src/lib.rs:151-155 | Base58 text is ASCII without NUL, one byte per character, so the `CString::new` failure is unreachable |
| Address.ValidateAddress | native/crypto/src/lib.rs:174-215 | Returns 0 for non-UTF-8 text, a missing "FUEGO" prefix, a failed decode or fewer than 5 decoded bytes; otherwise returns 1 exactly when the last 4 decoded bytes are the checksum of the others |
| Address.GenerateThenValidate | native/crypto/src/lib.rs:101-215 | Every address generated with the "FUEGO" prefix validates |
| Address.ValidatedIsChecksummed | native/crypto/src/lib.rs:183-213 | Any address that validates is "FUEGO" + Base58(data + checksum(data)) for some non-empty data |
| Address.ChecksummedIsValidated | native/crypto/src/lib.rs:183-213 | "FUEGO" + Base58(data + checksum(data)) validates for every non-empty data |
| Address.ValidateAddressAccepts | native/crypto/src/lib.rs:174-215 | An address validates if and only if it is "FUEGO" followed by the encoding of non-empty data with its checksum |
| Address.ValidateAcceptsShortPayload | native/crypto/src/lib.rs:198-201 | A 1-byte payload with its checksum validates, because neither the 69-byte length nor the network byte is checked; strict validation refuses it |
| Address.ValidateAddressStrict | native/crypto/src/lib.rs:174-215 | Corrected validation: accepts only what the code accepts, and only 69-byte payloads |
| Address.PayloadOfParts | native/crypto/src/lib.rs:128-144 | A 69-byte payload with the network byte and a matching checksum is the payload of the two keys it holds |
| Address.StrictValidatedIsGenerated | native/crypto/src/lib.rs:128-213 | Whatever strict validation accepts is the address of some key pair |
| Address.GeneratedIsStrictValidated | native/crypto/src/lib.rs:128-213 | The address of every key pair passes strict validation |
| Address.ValidateAddressStrictAccepts | native/crypto/src/lib.rs:128-213 | Strict validation accepts an address if and only if it is generated from some key pair with the "FUEGO" prefix |
| Address.EncodedPayloadLength | native/crypto/src/lib.rs:128-147 | The Base58 text of any payload is at most 94 characters |
| Address.HundredByteBufferSuffices | native/crypto/src/lib.rs:157-161 | With the "FUEGO" prefix, every key pair's address fits in a 100-byte buffer |
| Address.AddressGenerationTest | native/crypto/src/lib.rs:497-512 | The library's test case succeeds: keys 32×0x12 and 32×0x34, prefix "FUEGO", 100-byte buffer |
| Keys.Hash | native/crypto/src/lib.rs:352-370 | `fuego_hash` writes a 64-byte digest |
| Keys.ViewPrivateKey | native/crypto/src/lib.rs:33-41 | The private view key is defined as the first 32 bytes of the SHA-512 digest (`fuego_hash`) of spend ‖ "view_key"; SHA-512 is opaque, so this is a definition, not a derived property |
| Keys.PrivateToPublic | native/crypto/src/lib.rs:73-97 | The public key is defined as the Ed25519 derivation `ed` of the private key; Ed25519 is opaque, so this is a definition, not a derived property |
| Keys.KeyImage | native/crypto/src/lib.rs:293-332 | The key image is defined as the first 32 bytes of the SHA-512 digest (`fuego_hash`) of public ‖ private; SHA-512 is opaque, so this is a definition, not a derived property |
| Keys.GenerateKeys | native/crypto/src/lib.rs:19-71 | The private spend key is the seed, and the four keys are consistent: view derived from spend, each public key derived from its private key |
| Keys.RestoreFromSpendKey | native/crypto/src/lib.rs:26-44 | A set of keys is consistent if and only if it is what key generation produces from its spend key, so the spend key alone restores the wallet |
| Text.SplitJoin | native/crypto/src/lib.rs:435 | Splitting at whitespace a space-joined list of tokens gives the tokens back |
| Mnemonic.FromEntropy | native/crypto/src/lib.rs:391 | Encoding accepts exactly entropy of 128 to 256 bits in steps of 32, otherwise reports the bit count, and yields 3 words per 4 bytes |
| Mnemonic.ToEntropy | native/crypto/src/lib.rs:440 | A phrase of n words carries n/3·4 entropy bytes |
| Mnemonic.Parse | native/crypto/src/lib.rs:435-438 | An invalid word count is reported first; an unknown word is reported with its position; an accepted phrase has a valid checksum and its words are the phrase's tokens |
| Mnemonic.FindWord | native/crypto/src/lib.rs:435 | Word lookup finds the index of a listed word and reports absence exactly when no index spells the token |
| Mnemonic.LookupWords | native/crypto/src/lib.rs:435 | Each token is looked up in order; the first unknown token's position is reported |
| Mnemonic.ToFromEntropy | native/crypto/src/lib.rs:391-440 | Encoding valid entropy and reading the entropy back gives the entropy, with a valid checksum |
| Mnemonic.FromToEntropy | native/crypto/src/lib.rs:391-440 | A mnemonic with a valid checksum is the encoding of its own entropy |
| Mnemonic.FromEntropyInjective | native/crypto/src/lib.rs:391 | Different entropy gives different mnemonics |
| Mnemonic.ChecksumDetermined | native/crypto/src/lib.rs:435-438 | Among mnemonics carrying the same entropy only one passes the checksum |
| Mnemonic.LookupSpelled | native/crypto/src/lib.rs:435 | Looking up the spelled words of known indices gives the indices back |
| Mnemonic.ParseRender | native/crypto/src/lib.rs:399-435 | Parsing the rendered text of a checksum-valid mnemonic gives the mnemonic back |
| Mnemonic.ParseAccepts | native/crypto/src/lib.rs:435-438 | A phrase parses if and only if its tokens are the words of the encoding of some valid-size entropy |
| Mnemonic.Render | native/crypto/src/lib.rs:399 | `mnemonic.to_string()` writes the words separated by single spaces; with a well-formed wordlist, splitting the text at whitespace gives back exactly the mnemonic's words |
| Mnemonic.RenderAvoidsNul | native/crypto/src/lib.rs:399-404 | A rendered phrase contains no NUL, so the `CString::new` failure is unreachable |
| Mnemonic.KeyToMnemonic | native/crypto/src/lib.rs:374-420 | A 32-byte key is always valid entropy; the result is the rendered phrase, and it succeeds exactly when the phrase and its NUL fit in max_len bytes |
| Mnemonic.MnemonicToKey | native/crypto/src/lib.rs:424-453 | Non-UTF-8 text and parse errors are refused; a parsed phrase yields its entropy as the key exactly when it has 24 words, and otherwise fails for short entropy |
| Mnemonic.ValidateMnemonic | native/crypto/src/lib.rs:457-471 | Returns 1 exactly when the text is UTF-8 and parses |
| Mnemonic.KeyMnemonicRoundTrip | native/crypto/src/lib.rs:374-453 | Recovering the key from the phrase written for a key gives back that key |
| Mnemonic.KeyNeedsTwentyFourWords | native/crypto/src/lib.rs:435-447 | A phrase yields a key if and only if it validates and has 24 words |
| Mnemonic.TwelveWordsValidateButGiveNoKey | native/crypto/src/lib.rs:440-444 | The 12-word phrase of 16 bytes of entropy validates but yields no key |
| Mnemonic.UnknownWordRejected | native/crypto/src/lib.rs:435-438 | A phrase with a word outside the list fails both validation and key recovery |
| Mnemonic.ValidateMnemonicStrict | native/crypto/src/lib.rs:457-471 | Corrected validation: returns 1 exactly when key recovery succeeds |
| Mnemonic.StrictRefusesTwelveWords | native/crypto/src/lib.rs:457-471 | The 12-word phrase that validation accepts is refused by the corrected validation |
| StarkProofService.Initial | src/StarkProofService.cpp:27-31 | A new service is enabled and tracks nothing |
| StarkProofService.IsBurnTransaction | src/StarkProofService.cpp:55-61 | No transaction is recognised as a burn |
| StarkProofService.IsEnabled | src/StarkProofService.cpp:82-84 | Reports the enabled flag. That flag is true for a new service (StarkProofService.Initial) and equals the last value set (StarkProofService.SetEnabled) |
| StarkProofService.SetEnabled | src/StarkProofService.cpp:82-88 | `isEnabled` then reports the value set; nothing else changes |
| StarkProofService.GenerateStarkProof | src/StarkProofService.cpp:63-80 | When disabled, the service is unchanged; when enabled, exactly "started" and the queued job are appended, and no map changes |
| StarkProofService.OnProofGenerationCompleted | src/StarkProofService.cpp:90-106 | Success gives "completed", progress 100 and no error; failure gives "failed" and the message, with progress unchanged; other transactions are untouched; the completion is emitted |
| StarkProofService.RetryProofGeneration | src/StarkProofService.cpp:108-118 | Status "pending", progress 0, no error; other transactions are untouched; "started" is emitted |
| StarkProofService.GetProofProgress | src/StarkProofService.cpp:120-123 | The recorded progress, 0 when none is recorded |
| StarkProofService.GetProofErrorMessage | src/StarkProofService.cpp:125-128 | The recorded message, empty when none is recorded |
| StarkProofService.GetProofStatus | src/StarkProofService.cpp:130-150 | A tracked non-null process that is running gives "running"; one that has finished gives "completed" or "failed" by exit code; otherwise the recorded status, "none" when none is recorded |
| StarkProofService.StoreProcess | src/StarkProofService.cpp:152-156 | The process is tracked and the status becomes "running"; other transactions are untouched |
| StarkProofService.RemoveProcess | src/StarkProofService.cpp:158-161 | Only the process entry is removed; the recorded status stays |
| StarkProofService.OnlyTheGivenKeyChanges | src/StarkProofService.cpp:90-161 | A call about one transaction never changes what the three queries report for another |
| StarkProofService.ReachableReports | src/StarkProofService.cpp:90-150 | After any sequence of calls, progress is reported as 0 or 100 and the status is one of none, pending, running, completed and failed |
| StarkProofService.CompletionReported | src/StarkProofService.cpp:96-99 | With no live process tracked, a successful completion is reported as "completed", 100 and no error |
| StarkProofService.FailureReported | src/StarkProofService.cpp:100-103 | With no live process tracked, a failure is reported as "failed" with its message, and progress is unchanged |
| StarkProofService.RetryAfterFailure | src/StarkProofService.cpp:108-118 | Retrying after a failure reports "pending", 0 and no error |
| StarkProofService.ProcessOverridesCompletion | src/StarkProofService.cpp:133-146 | A live tracked process decides the status even after a completion is recorded |
| StarkProofService.RemovedProcessStillRunning | src/StarkProofService.cpp:152-161 | After a process is stored and then removed, the status stays "running" |
| StarkProofService.DisabledIgnoresRequests | src/StarkProofService.cpp:63-68 | While disabled, any number of proof requests leaves the service exactly as it was |

## Findings

| source | as written | input that shows it | evidently intended | confidence | as-written member | corrected member |
|---|---|---|---|---|---|---|
| native/crypto/src/lib.rs:198-201 | Validation accepts any decoded payload of at least 5 bytes whose last 4 bytes are its checksum | "FUEGO" + Base58 of the bytes [b] + SHA-256([b])[..4], for any byte b: a 1-byte payload that validates | Accept only 69-byte payloads that start with 0x1E, which are exactly the generated addresses | medium, not executed | Address.ValidateAcceptsShortPayload | Address.ValidateAddressStrictAccepts |
| native/crypto/src/lib.rs:467-470 | Mnemonic validation accepts every phrase that parses, including 12- to 21-word phrases | The 12-word phrase of any 16 bytes of entropy: validation returns 1, key recovery returns -1 | Validation accepts exactly the phrases key recovery accepts | medium, not executed | Mnemonic.TwelveWordsValidateButGiveNoKey | Mnemonic.ValidateMnemonicStrict |

The model keeps both validators as written. The corrected ones sit beside them.

## Left out

- Ed25519 internals, `fuego_sign` and `fuego_verify_signature` are not modelled. Ed25519 key derivation is a parameter function; signing and verification are elliptic-curve arithmetic outside this model.
- SHA-256 and SHA-512 internals are not modelled. They are parameters whose only known property is their output length, so probabilistic claims (for example that a flipped bit breaks the checksum) are not stated.
- Randomness is not modelled: `OsRng` in key generation is replaced by the `seed` parameter. `fuego_random_bytes` is left out, because its output is random bytes and nothing else.
- The random 16-byte entropy fallback of `fuego_key_to_mnemonic` is not modelled, because it is unreachable for 32-byte keys.
- The FFI plumbing is not modelled: unsafe memory access, copying into caller buffers, and `zeroize` of the key copy.
- The contents of the English wordlist are not modelled. Words are indices into a parameter list, and only its shape is assumed.
- The bs58 crate's distinction between non-ASCII and invalid characters is not modelled. Both are one `InvalidCharacter` error, and validation maps either to 0.
- Keys.GenerateKeys: does not state the test's claim that the private keys are not all zero, because that depends on the random source.
- The Qt machinery of `StarkProofService` is not modelled: the singleton, the worker thread, the mutex, signal delivery, and the `QProcess` life cycle. Processes are values with a state and an exit code, and emitted signals and queued jobs are entries of the effect log.
- What `ProofGenerationWorker` does with a queued job is not modelled, because that code is not part of this model.
- Progress signals relayed from the worker are not modelled. They never update the stored progress, so that too is not modelled.
- cryptonote/src/Common/MemoryInputStream.h is not modelled, because it is context only and not part of the core.
