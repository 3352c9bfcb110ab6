# Citadel end-to-end test helpers, modelled in Dafny

The Citadel end-to-end suite drives a custody web application through Playwright. It relies on
a few pieces of pure string and bit logic, and this project models them and proves what they
promise:

- **`base32ToHex`** (`utils/otp-helpers.ts`) turns the Base32 TOTP secret shown on the 2FA
  settings page into the hexadecimal key handed to `otplib`. It cleans the secret (removes
  whitespace, removes a trailing run of `=`, upper-cases it). It then shifts each character's
  5-bit alphabet index into a 32-bit accumulator and writes each completed byte as two
  lowercase hex digits. The loop is modelled imperatively (`Base32.Base32ToHex`), with
  JavaScript's 32-bit `value` kept as its bit pattern:
  - `<<5` is multiplication by 32 modulo 2^32;
  - OR-ing `indexOf`'s -1 sets every bit;
  - `>>>` and `& 0xff` are division by 2^k and remainder by 256.

  The method is proved equal to a functional decoder, `Base32.DecodeToHex`, that keeps only
  the pending bits. That decoder is in turn proved to be the bit-packing of RFC 4648
  section 6 and the inverse of an unpadded reference encoder.
- **The quote-doubling escape** and the two SQL statements of `utils/db-helpers.ts`. The
  partner of the escape is an independent reader of SQL character string literals
  (ISO/IEC 9075-2, `<character string literal>`). Reading an escaped value back between
  quotes gives exactly the original value and the rest of the statement.
- **`AccountsPage._extractAccountIdFromUrl`**, as a function of the URL. The regular
  expression `/\/accounts\/([^/?#]+)/` is modelled as a leftmost search followed by a greedy
  run. The thrown error is a `Failure` that carries the message.
- **The test data of `tests/user/happy_path.spec.ts`**: the sanitised and truncated username,
  the lower-cased email, the fixed password, and the tag and account names. The values that
  faker generates are parameters.

Modules:
- `Wrappers`: `Option`, `Result`.
- `Ascii`: character classes and case mapping.
- `Pow2Arith`: powers of two and division lemmas.
- `Hex`: `toString(16)`, `padStart`, and hex encoding with its decoder.
- `Base32`: the decoder and the loop.
- `Base32Bits`: bit strings, the reference encoder and the round trip.
- `SqlLiteral`: the literal reader.
- `DbHelpers`, `AccountsPage`, `HappyPath`.

What `base32ToHex` does with input that is not canonical Base32:
- **Characters outside the alphabet.** The function never throws. Such a character has index
  -1, and `(value << 5) | -1` sets every bit, so its bits and the pending bits decode as ones
  (`Base32.InvalidCharSetsAllBits`). A decoder that follows section 3.3 of RFC 4648 would
  reject such input instead.
- **Short secrets.** An empty secret, or one with fewer than eight bits, gives `""`
  (`Base32.OutputLength`).
- **Padding.** Whitespace is removed first, and then only the trailing run of `=`. So an `=`
  followed only by whitespace is removed. An `=` followed anywhere later by a character
  that is neither whitespace nor `=` stays in the input and decodes like any other character outside
  the alphabet (`Base32.InnerPaddingKept`).

## Model

| member | source | states |
|---|---|---|
| Ascii.ToUpper | utils/otp-helpers.ts:12 | `toUpperCase` over ASCII: same length; each lower-case letter becomes its upper-case letter and every other character is kept |
| Ascii.ToLower | tests/user/happy_path.spec.ts:43 | `toLowerCase` over ASCII: same length; each upper-case letter becomes its lower-case letter and every other character is kept |
| Hex.ToString16 | utils/otp-helpers.ts:18 | `toString(16)` gives at least one lowercase hex digit, and exactly one iff the number is below 16 |
| Hex.PadStart | utils/otp-helpers.ts:18 | `padStart(len, '0')` has length max(len, \|s\|), ends with s, and everything before s is `0` |
| Hex.ByteToHex | utils/otp-helpers.ts:18 | a byte is written as exactly two digits, the high nibble's then the low nibble's |
| Hex.EncodeIsHex | utils/otp-helpers.ts:17-18 | the emitted text uses only `0-9a-f` |
| Hex.DecodeEncode | utils/otp-helpers.ts:18 | the hex text decodes back to exactly the emitted bytes |
| Hex.EncodeInjective | utils/otp-helpers.ts:18 | different byte sequences give different hex text |
| Base32.IndexOf | utils/otp-helpers.ts:15 | `indexOf` gives -1 or a position inside the alphabet |
| Base32.IndexOfSpec | utils/otp-helpers.ts:15 | `indexOf` gives the first occurrence, and -1 exactly when the character does not occur |
| Base32.IndexOfSymbol | utils/otp-helpers.ts:11-15 | the k-th alphabet symbol has index k |
| Base32.RemoveSpaces | utils/otp-helpers.ts:12 | `replace(/\s/g, '')` leaves no whitespace and does not lengthen the text; the lemmas below show it keeps every other character, in order |
| Base32.RemoveSpacesConcat | utils/otp-helpers.ts:12 | removing whitespace from a concatenation removes it from each part separately |
| Base32.RemoveSpacesOfNoSpaces | utils/otp-helpers.ts:12 | a text without whitespace is unchanged |
| Base32.RemoveSpacesKeeps | utils/otp-helpers.ts:12 | each character that is not whitespace appears in the result |
| Base32.RemoveSpacesOfSpaces | utils/otp-helpers.ts:12 | a text of whitespace only is removed entirely |
| Base32.StripTrailingPad | utils/otp-helpers.ts:12 | `replace(/=+$/, '')` keeps a prefix, removes only `=`, and leaves no trailing `=` |
| Base32.Clean | utils/otp-helpers.ts:12 | the cleaned secret has no whitespace, no lower-case letter and no trailing `=` |
| Base32.ShiftIn | utils/otp-helpers.ts:15 | after shifting in five bits the pending value is below 2^(bits+5) |
| Base32.Feed | utils/otp-helpers.ts:15-20 | one iteration keeps at most 7 pending bits, leaves (bits+5) mod 8 of them, emits a byte iff bits+5 >= 8, and keeps the earlier bytes |
| Base32.Run | utils/otp-helpers.ts:14-21 | after n characters, 8·(bytes emitted) + (bits pending) = 5n |
| Base32.ShiftInMod | utils/otp-helpers.ts:15 | the 32-bit `(value << 5) \| i` stays below 2^32, and its low bits+5 bits are the pending value times 32 plus i, or all ones for i = -1 |
| Base32.ShiftInAgrees | utils/otp-helpers.ts:15 | the 32-bit update leaves in its low bits exactly the reduced decoder's new pending value |
| Base32.EmitAgrees | utils/otp-helpers.ts:18-19 | `(value >>> (bits - 8)) & 0xff` and the remaining low bits depend only on the low `bits` bits of `value` |
| Base32.AgreesEmit | utils/otp-helpers.ts:15-20 | an iteration of the code that emits a byte keeps the 32-bit state in agreement with the reduced decoder and emits that decoder's byte |
| Base32.AgreesKeep | utils/otp-helpers.ts:15-16 | an iteration of the code that emits nothing keeps the agreement and the bytes |
| Base32.AbsorbAgrees | utils/otp-helpers.ts:15-20 | one iteration of the code extends `hex` by exactly the reduced decoder's next byte, if any |
| Base32.Absorb | utils/otp-helpers.ts:15-20 | the loop body keeps `bits` and `value` in agreement with the reduced decoder, and `hex` equal to the encoding of its bytes |
| Base32.Base32ToHex | utils/otp-helpers.ts:10-23 | the loop as written returns exactly the hex encoding of the reduced decoder's bytes for the cleaned secret |
| Base32.OutputLength | utils/otp-helpers.ts:14-22 | n cleaned characters give exactly 2·⌊5n/8⌋ hex digits; an empty cleaned secret gives "" |
| Base32.OutputIsLowerHex | utils/otp-helpers.ts:18 | the result has even length and uses only `0-9a-f` |
| Base32.InvalidCharSetsAllBits | utils/otp-helpers.ts:15 | a character outside the alphabet sets every pending bit, and a byte it completes is 255 |
| Base32.InvalidOnlyDecodesToOnes | utils/otp-helpers.ts:15-20 | a secret made only of characters outside the alphabet decodes to bytes that are all 255 and never fails |
| Base32.WhitespaceIgnored | utils/otp-helpers.ts:12 | inserting whitespace anywhere changes neither the cleaned secret nor the result |
| Base32.CaseIgnored | utils/otp-helpers.ts:12 | secrets equal up to letter case give the same cleaned secret and the same result |
| Base32.StripPadding | utils/otp-helpers.ts:12 | stripping a trailing run of `=` ignores any number of extra trailing `=` |
| Base32.TrailingPaddingIgnored | utils/otp-helpers.ts:12 | appending any number of `=` changes neither the cleaned secret nor the result |
| Base32.InnerPaddingKept | utils/otp-helpers.ts:12 | an `=` followed later by a non-space, non-`=` character survives cleaning at its position |
| Base32Bits.SymbolValueIsIndex | utils/otp-helpers.ts:11-15 | for an alphabet symbol, `indexOf` gives its RFC 4648 value |
| Base32Bits.FeedIsBitPacking | utils/otp-helpers.ts:15-20 | one iteration appends the symbol's five bits to (emitted bits ++ pending bits) |
| Base32Bits.EmitBits | utils/otp-helpers.ts:17-19 | emitting a byte moves the top eight pending bits, unchanged and in order, to the output |
| Base32Bits.RunIsBitPacking | utils/otp-helpers.ts:14-21 | for alphabet input, the symbols' 5-bit indices concatenated are the emitted bytes' bits followed by the pending bits |
| Base32Bits.DecodeIsBitPacking | utils/otp-helpers.ts:15-19 | output byte k is bits 8k..8k+7 of the concatenated 5-bit indices |
| Base32Bits.Encode | utils/otp-helpers.ts:3-9 | the unpadded RFC 4648 encoding of n bytes has ⌈8n/5⌉ alphabet symbols |
| Base32Bits.EncodeBits | utils/otp-helpers.ts:3-9 | the encoding's symbols carry the bytes' bits followed by fewer than five zero bits |
| Base32Bits.CleanOfAlphabet | utils/otp-helpers.ts:12 | cleaning leaves a text over the alphabet unchanged |
| Base32Bits.DecodeEncode | utils/otp-helpers.ts:10-23 | decoding the unpadded encoding of any bytes gives those bytes back |
| Base32Bits.DecodeToHexOfEncoding | utils/otp-helpers.ts:10-23 | `base32ToHex` of an encoding with any trailing padding is the hex of the encoded bytes |
| DbHelpers.EscapeLength | utils/db-helpers.ts:16 | the escaped text is longer by exactly the number of `'` |
| DbHelpers.EscapeOfQuoteFree | utils/db-helpers.ts:16 | a text without `'` is left unchanged |
| DbHelpers.EscapeUnchangedIff | utils/db-helpers.ts:16 | the escape leaves a text unchanged exactly when the text holds no `'` |
| DbHelpers.EscapeKeepsOthers | utils/db-helpers.ts:40 | leaving the quotes out, the escaped text has the same characters in the same order |
| DbHelpers.QuoteRunsEven | utils/db-helpers.ts:15-16 | every run of `'` in an escaped text has even length |
| DbHelpers.ReadEscaped | utils/db-helpers.ts:16-18 | escaped text followed by a closing quote reads back as the original text, followed by what comes after the quote |
| DbHelpers.Quoted | utils/db-helpers.ts:18 | the escaped text between quotes is two characters longer than the escaped text |
| DbHelpers.LiteralRoundTrip | utils/db-helpers.ts:16-18 | `'<escaped>'` read under quote doubling is exactly one literal denoting the original text, followed by the untouched rest |
| DbHelpers.EscapeInjective | utils/db-helpers.ts:16 | different texts have different escapes |
| DbHelpers.Fill | utils/db-helpers.ts:18 | a template with one quoted slot keeps its text before the slot, reads back the value in the slot, and ends with its text after the slot |
| DbHelpers.VerifyEmailQuery | utils/db-helpers.ts:18 | the UPDATE statement is its fixed text up to `email = `, then one literal denoting exactly the email, then `;` |
| DbHelpers.VerifyEmailQueryInjective | utils/db-helpers.ts:16-18 | different emails give different statements |
| DbHelpers.AssetIdNeedsNoEscape | utils/db-helpers.ts:27 | the ETH Sepolia asset id needs no escaping |
| DbHelpers.FundMiddleShape | utils/db-helpers.ts:44-46 | the text after the asset id starts with `,` and ends with `LOWER(` |
| DbHelpers.FundTailShape | utils/db-helpers.ts:46-47 | the text after the address starts with `)` |
| DbHelpers.FundPrefix | utils/db-helpers.ts:42-46 | the INSERT statement's fixed head is followed by one literal denoting exactly the asset id, then the amount and text up to `LOWER(` |
| DbHelpers.FundAccountQuery | utils/db-helpers.ts:40-47 | after that prefix comes one literal denoting exactly the address, followed by the fixed tail with the amount |
| AccountsPage.IdRun | page-objects/user/AccountsPage.ts:104 | `[^/?#]+` is greedy: the longest prefix without `/`, `?` or `#` |
| AccountsPage.Search | page-objects/user/AccountsPage.ts:104 | the match found is at the leftmost position where `/accounts/` is followed by an id character; none is found only when there is no such position |
| AccountsPage.ExtractAccountId | page-objects/user/AccountsPage.ts:102-109 | it fails iff `/accounts/` followed by an id character occurs nowhere, with the message `Cannot extract account ID from URL: ` + url; a returned id is nonempty and has no `/`, `?` or `#` |
| AccountsPage.ExtractedIdLocated | page-objects/user/AccountsPage.ts:104-108 | a returned id follows `/accounts/` at the leftmost match and runs up to the end of the URL or to the next `/`, `?` or `#` |
| AccountsPage.SearchFindsFirst | page-objects/user/AccountsPage.ts:104 | the search returns the first position where the pattern matches |
| AccountsPage.ExtractFromAccountUrl | page-objects/user/AccountsPage.ts:104-108 | a URL built as text + `/accounts/` + id + (nothing, or `/`, `?` or `#` ...) gives back that id when the leading text holds no match |
| AccountsPage.IdRunOfRun | page-objects/user/AccountsPage.ts:104 | the greedy run stops exactly at the first `/`, `?` or `#`, or at the end of the text |
| HappyPath.Sanitize | tests/user/happy_path.spec.ts:40 | the replace keeps length and positions: `[a-zA-Z0-9_]` characters are untouched, every other character becomes `_` |
| HappyPath.SanitizeOfWord | tests/user/happy_path.spec.ts:40 | a text already in `[a-zA-Z0-9_]*` is unchanged |
| HappyPath.SanitizeIdempotent | tests/user/happy_path.spec.ts:40 | sanitising twice is sanitising once |
| HappyPath.Take | tests/user/happy_path.spec.ts:42 | `slice(0, n)` is the prefix of length min(len, n) |
| HappyPath.Username | tests/user/happy_path.spec.ts:40-42 | the username is the first min(len, 20) characters of the sanitised text, all in `[a-zA-Z0-9_]` |
| HappyPath.UsernameOfValid | tests/user/happy_path.spec.ts:40-42 | a valid username of at most 20 characters is its own username |
| HappyPath.MakeTestUser | tests/user/happy_path.spec.ts:41-45 | the user has the sanitised username, the email lower-cased character by character, and the fixed password |
| HappyPath.PasswordPolicy | tests/user/happy_path.spec.ts:44 | the password has at least 8 characters, an upper-case letter, a lower-case letter and a digit |
| HappyPath.NamesFor | tests/user/happy_path.spec.ts:48-52 | each name is its fixed prefix followed by the shared suffix, and the four names are pairwise distinct |
| HappyPath.NamesDetermineSuffix | tests/user/happy_path.spec.ts:48-52 | two runs that share any one name have the same suffix |

## Left out

- `generateTOTPCode` (utils/otp-helpers.ts:32-35) is not modelled. It calls into `otplib`
  (HMAC-SHA1 and the truncation of RFC 4226 and RFC 6238), reads the clock and sets the global
  `totp.options`.
- The `execSync` docker/psql invocations (utils/db-helpers.ts:20-23, 49-52) are process I/O and
  are not modelled. The model says nothing about how the shell treats the statement inside
  `-c "..."`: a `"`, `$`, backtick or `\` in a value is not escaped for the shell.
- The literal reader treats a backslash as an ordinary character, as PostgreSQL does while
  `standard_conforming_strings` is on (its default). With that setting off, `\'` escapes a
  quote, and doubling quotes no longer keeps a value inside its literal. The model does not
  cover that mode.
- `ethAmount` is a JavaScript number rendered into the statement. The model takes it as an
  already rendered string and proves nothing about number formatting.
- `getVerificationToken` and `isEmailVerified`, which some specs import, are not part of this
  model: utils/db-helpers.ts does not define them.
- `page.url()` and every other Playwright interaction of the page objects are left out.
  `_extractAccountIdFromUrl` takes the URL as a parameter.
- Behaviour that the specs assert about the remote server is left out, for example OTP
  lockout and secret invalidation.
- faker's random username, email and suffix are parameters. Nothing is assumed about their
  shape.
- Base32.RemoveSpaces: JavaScript `\s` also matches Unicode spaces such as U+00A0, U+FEFF and
  the line separators. The model removes only the ASCII whitespace characters.
- Ascii.ToUpper and Ascii.ToLower map only ASCII letters. JavaScript's `toUpperCase` and
  `toLowerCase` also map other letters, some of them to more than one character.
- HappyPath.Sanitize works on characters. JavaScript works on UTF-16 code units, so a
  character outside the Basic Multilingual Plane becomes two `_` there and one here.
