# gophkeeper helpers, modelled in Dafny

A Dafny model of the integrity and identity helpers of the gophkeeper
credential-management client (`pkg/helpers/helpers.go`), with proofs of what
they promise:

- **Version deduplication** (`OnlyOne` and `included`, module `Versions`,
  file `versions.dfy`): the nested loop that collapses a version history to one
  record per content hash, kept as a method with loop invariants and proved
  against a specification function `Deduplicated`. The lemmas show that there
  is exactly one entry per distinct hash, in order of first appearance. A group
  with a record after the zero time is emitted with its hash and its latest
  date; a group with none is emitted as the zero `Version`.
- **Command lookup** (`FindCommand` and the `cmds` table, module `Commands`,
  file `commands.dfy`): the scan of the TUI vocabulary with early return, proved
  against `FirstMatch`, the first vocabulary entry (in list order) that occurs
  in the input.
- **Digests** (`GenHash`, `CompareHash`, module `Digest`, file `digest.dfy`):
  the `%x` rendering of a SHA-256 digest and the case-insensitive comparison.
  `CompareHash(h, c)` holds exactly when `h`, read as hexadecimal of either
  case, is the digest of `c`.
- **Claim extraction** (`GetNameFromToken`, `GetExpirationFromToken`, module
  `Tokens`, file `tokens.dfy`): split on `.`, exactly three segments (the
  compact serialization of section 7.1 of RFC 7515), decode the middle segment,
  unmarshal the claims. The payload decoder, Go's `base64.RawStdEncoding`
  (module `Base64`, file `base64.dfy`), is modelled concretely. It uses the
  standard alphabet of section 4 of RFC 4648 without padding (section 3.2 of
  RFC 4648), not the URL-safe alphabet. It skips line breaks, rejects a final
  single character and ignores unused trailing bits. It succeeds exactly on
  such text, and decoding the output of an encoder gives the bytes back.

`common.dfy` (module `Common`) holds the shared `byte`, `Option` and `Result`
types.

Modelling choices:

- A `time.Time` is an integer instant. Go's zero value is `ZeroTime` (0), and
  `After` is strict `>`.
- SHA-256 (FIPS 180-4) is not modelled. The hash function is a parameter of
  `GenHash` and `CompareHash`: any total function from content to 32 bytes.
- `json.Unmarshal` is not modelled. It is a parameter of the extractors: a
  partial function from payload bytes to the claims (`name`, `exp` as `int64`).
- `GetExpirationFromToken` returns `time.Unix(exp, 0)`. The model returns that
  instant as its Unix seconds, `exp`.
- Errors are `Result` values. The extractors fail with `InvalidToken`
  (`errors.New("invalid token")`), `PayloadDecodeError` (the base64 error) or
  `ClaimsDecodeError` (the JSON error).
- The two extractors repeat the same parse in the Go code. The model shares it
  as `Tokens.ParseClaims`.

In `OnlyOne`, `latest` and `timestamp` are assigned only when some record of
a group is strictly after the zero time. So a group whose dates are all at or
before the zero time is emitted as `Version{Hash: "", Date: zero}`, and a
single record comes back unchanged only when its date is after the zero time
(`Versions.DeduplicatedSingle`, `Versions.DeduplicatedZero`).

## Model

| member | source | states |
|---|---|---|
| `Versions.OnlyOne` | pkg/helpers/helpers.go:174-196 | the result is `Deduplicated(vs)`: for each distinct hash, in order of first appearance, the entry the inner loop builds for that hash |
| `Versions.Included` | pkg/helpers/helpers.go:198-205 | true if and only if `hash` is an element of `hashes` |
| `Versions.FirstSeen` | pkg/helpers/helpers.go:177-181 | the `checked` list holds no duplicates, holds every hash of the input, and holds nothing else |
| `Versions.FirstIndex` | pkg/helpers/helpers.go:177-181 | the position of the first record with a given hash: that record has the hash and no earlier one does |
| `Versions.Latest` | pkg/helpers/helpers.go:182-191 | the final `timestamp` is at or after the zero time, at or after every date in the group, and when after the zero time it is the date of some record in the group |
| `Versions.Entry` | pkg/helpers/helpers.go:182-193 | the record built for a hash: with a record of the group after the zero time, it has that hash and the group's maximum date; with none, it is `{Hash: "", Date: zero}` |
| `Versions.FirstSeenOrdered` | pkg/helpers/helpers.go:177-181 | earlier entries of `checked` first occur earlier in the input |
| `Versions.DeduplicatedOnePerHash` | pkg/helpers/helpers.go:177-193 | every input hash has an entry, no non-empty hash appears in two entries, and there are no more entries than records |
| `Versions.DeduplicatedOrder` | pkg/helpers/helpers.go:177-193 | entries come out in the order in which their hashes first appear in the input |
| `Versions.DeduplicatedLatest` | pkg/helpers/helpers.go:182-193 | a group with a record after the zero time is emitted with its hash and the maximum date of the group |
| `Versions.DeduplicatedZero` | pkg/helpers/helpers.go:182-193 | a group with no record after the zero time is emitted as `{Hash: "", Date: zero}` |
| `Versions.DeduplicatedEmpty` | pkg/helpers/helpers.go:174-195 | an empty history gives an empty result |
| `Versions.DeduplicatedSingle` | pkg/helpers/helpers.go:174-195 | a single record comes back unchanged if it is after the zero time, and as the zero `Version` otherwise |
| `Versions.DeduplicatedLaterWins` | pkg/helpers/helpers.go:184-193 | `[{h1,t1},{h1,t3},{h2,t2}]` with `t1 < t3` gives `[{h1,t3},{h2,t2}]` |
| `Versions.DeduplicatedTie` | pkg/helpers/helpers.go:186-189 | two records of one hash with equal dates give that date once |
| `Versions.DeduplicatedKeepsHashes` | pkg/helpers/helpers.go:182-193 | when every record is after the zero time, every entry has its own hash and a date after the zero time |
| `Versions.FirstSeenOfDistinct` | pkg/helpers/helpers.go:177-181 | on a history whose hashes are already distinct, `checked` ends up as those hashes in order |
| `Versions.DeduplicatedIdempotent` | pkg/helpers/helpers.go:174-195 | when every record is after the zero time, deduplicating twice gives the same result as once |
| `Commands.FirstMatch` | pkg/helpers/helpers.go:100-107 | none is returned exactly when no command occurs in the input; otherwise the value is the first command, in list order, that occurs in it |
| `Commands.FindCommand` | pkg/helpers/helpers.go:100-107 | returns `(cmd, true)` with `cmd` the first vocabulary entry occurring in the input, or `("", false)` when none does |
| `Commands.Contains` | pkg/helpers/helpers.go:102 | `strings.Contains`: a prefix is contained; whatever is contained is no longer than the input and has all its characters in it |
| `Commands.VocabularyWellFormed` | pkg/helpers/helpers.go:23-36 | the `cmds` table has twelve distinct non-empty entries, from `get` to `timemachine` |
| `Commands.ListOrderWins` | pkg/helpers/helpers.go:23-36 | priority follows the vocabulary's order, not the position in the input: `"edit get"` selects `get` |
| `Digest.Hex` | pkg/helpers/helpers.go:61 | `%x` writes two lower-case hex digits per byte |
| `Digest.UnhexHex` | pkg/helpers/helpers.go:61 | reading the `%x` rendering back gives the bytes, so the rendering loses nothing |
| `Digest.EqualFoldHex` | pkg/helpers/helpers.go:69 | a string equals a digest's rendering up to case if and only if it reads back as that digest |
| `Digest.EqualFold` | pkg/helpers/helpers.go:69 | `strings.EqualFold` on ASCII: true if and only if the two strings are equal once lower-cased |
| `Digest.EqualFoldEquivalence` | pkg/helpers/helpers.go:69 | case-insensitive equality is reflexive, symmetric and transitive |
| `Digest.GenHash` | pkg/helpers/helpers.go:57-62 | the digest string has 64 characters, all lower-case hex, and reads back as the SHA-256 digest of the content |
| `Digest.CompareHash` | pkg/helpers/helpers.go:65-70 | true if and only if `hashed`, read as hex of either case, is the SHA-256 digest of the content |
| `Digest.CompareOwnHash` | pkg/helpers/helpers.go:57-70 | a generated digest verifies its own content |
| `Digest.CompareUpperHash` | pkg/helpers/helpers.go:65-70 | the upper-cased digest verifies the content too |
| `Digest.GenHashInjective` | pkg/helpers/helpers.go:57-62 | two contents get the same digest string if and only if SHA-256 gives them the same digest |
| `Digest.CompareHashNamesDigest` | pkg/helpers/helpers.go:57-70 | the digest string of `a` verifies `b` if and only if `a` and `b` have the same SHA-256 digest |
| `Base64.StripNewlines` | pkg/helpers/helpers.go:121 | the decoder's input after dropping line breaks: no '\r' or '\n' remains |
| `Base64.StripNewlinesAppend` | pkg/helpers/helpers.go:121 | dropping line breaks distributes over concatenation, so the other characters keep their order and number |
| `Base64.StripNewlinesChar` | pkg/helpers/helpers.go:121 | a single line break is dropped and any other single character kept |
| `Base64.DecodeGroups` | pkg/helpers/helpers.go:121 | decoding succeeds only when no final group of one character is left, and yields three bytes per four characters |
| `Base64.DecodeString` | pkg/helpers/helpers.go:121 | `RawStdEncoding.DecodeString` succeeds if and only if, with line breaks dropped, the text is all standard alphabet and does not end in a group of one character |
| `Base64.DecodeGroupsSucceeds` | pkg/helpers/helpers.go:121 | group decoding succeeds if and only if the text is all alphabet and its length is not 1 modulo 4 |
| `Base64.TrailingBitsIgnored` | pkg/helpers/helpers.go:121 | the decoder is not strict: `"QR"`, with non-zero unused bits, decodes like `"QQ"` to the byte 65 |
| `Base64.DecodeEncode` | pkg/helpers/helpers.go:121 | decoding the unpadded standard encoding of any bytes gives those bytes back |
| `Base64.RejectsOutsideAlphabet` | pkg/helpers/helpers.go:121-125 | any character outside the standard alphabet other than a line break, including '=', '-' and '_', makes decoding fail |
| `Tokens.Split` | pkg/helpers/helpers.go:116 | `strings.Split` gives one more segment than there are separators, and no segment contains the separator |
| `Tokens.JoinSplit` | pkg/helpers/helpers.go:116 | joining the segments with '.' gives the token back |
| `Tokens.SplitJoin` | pkg/helpers/helpers.go:116 | splitting the join of '.'-free segments gives those segments |
| `Tokens.SplitCompact` | pkg/helpers/helpers.go:116-117 | `header.payload.signature` with '.'-free parts splits into exactly those three segments |
| `Tokens.ParseClaims` | pkg/helpers/helpers.go:116-131 | the parse fails with "invalid token" if and only if the token does not contain exactly two dots |
| `Tokens.GetNameFromToken` | pkg/helpers/helpers.go:110-133 | fails with "invalid token" if and only if the token does not contain exactly two dots |
| `Tokens.GetExpirationFromToken` | pkg/helpers/helpers.go:136-160 | fails with "invalid token" if and only if the token does not contain exactly two dots |
| `Tokens.InvalidTokenIffNotThreeSegments` | pkg/helpers/helpers.go:116-120 | both extractors fail with "invalid token" if and only if the token does not split into three segments |
| `Tokens.ExtractorsAgree` | pkg/helpers/helpers.go:110-160 | the two extractors succeed together and fail together, with the same error |
| `Tokens.ExtractFromSegment` | pkg/helpers/helpers.go:116-159 | a token of three '.'-free segments whose middle segment decodes to bytes that unmarshal to claims yields their `name` and their `exp`, whatever its header and signature |
| `Tokens.ExtractFromCompact` | pkg/helpers/helpers.go:116-159 | in particular when the middle segment is the unpadded standard base64 of the claims bytes |
| `Tokens.PayloadDecodeErrorIff` | pkg/helpers/helpers.go:121-125 | a three-segment token fails with the base64 error, in both extractors, if and only if its middle segment does not decode |
| `Tokens.ClaimsDecodeErrorIff` | pkg/helpers/helpers.go:126-131 | a three-segment token fails with the JSON error, in both extractors, if and only if its middle segment decodes but does not unmarshal |
| `Tokens.SignatureIgnored` | pkg/helpers/helpers.go:116-131 | the signature segment is never checked: replacing it does not change the result |
| `Tokens.UrlSafePayloadRejected` | pkg/helpers/helpers.go:121-125 | a payload segment containing '-', '_' or '=' fails with the base64 error |

## Left out

- `GenSecretKey` (pkg/helpers/helpers.go:41-48): its only content is a call to `crypto/rand`, and randomness is not modelled.
- `FileExists`, `ReadSecret`, `SaveTermState`, `RestoreTermState` (pkg/helpers/helpers.go:51-97): file-system and terminal I/O and the process-wide `termState`.
- `IsFlagPassed` (pkg/helpers/helpers.go:163-171): depends on the global state of Go's `flag` package.
- The SHA-256 compression function: the digest function is a parameter, so nothing is proved about collisions or about any particular digest value.
- `json.Unmarshal`: a parameter. Its behaviour (missing fields become zero values, unknown fields are ignored, keys match without regard to case) belongs to the library.
- The `zerolog` debug logging on every failure path of the extractors: a side effect with no effect on results.
- `strings.EqualFold` is modelled with ASCII case folding only. Go also folds some non-ASCII letters (for example the Kelvin sign with `k`), but none of them folds to a hex digit. So `CompareHash`, whose second operand is always lower-case hex, gives the same answer.
- Go's decoder returns the bytes decoded before an error together with the error. Both callers discard them, so the model returns only the error.
- Go strings are byte sequences, while the model's strings are character sequences. A non-ASCII character in a payload segment is rejected by both, since none of its UTF-8 bytes is in the alphabet.
- The monotonic-clock reading and location of a `time.Time` are not modelled. `After` compares instants only.
