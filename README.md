# DUO tester: masking and report assembly

A Dafny model of the self-contained logic of the DUO configuration check page
for REDCap (`DuoTester` in `index.php`). The page builds a Duo authorization
URL, decodes the JWT inside it and lists a report for an administrator. The
model covers the three parts the page computes itself:

- `maskString`, which redacts a configured secret for display. It keeps the
  first `showStart` and last `showEnd` characters and puts a `•` in place of
  every character between them.
- `printError`, which formats a caught exception as `message (code)`.
- The seven-entry `$data` array that `run` returns, including what
  `decodeJWT` stores when the JWT library throws.

Two modules:

- `Php` (`php.dfy`) models the PHP 8 built-ins those parts call, at the
  character level: `substr` with its clamping of offsets and lengths,
  `str_repeat` (which throws a `ValueError` for a negative count), and the
  decimal text of an integer.
- `DuoTester` (`duo_tester.dfy`) models the page's own functions.

Strings are `seq<char>`. PHP's `strlen` and `substr` count bytes, and `•` is
three bytes in UTF-8. So "the output has the secret's length" holds in
characters, not in bytes. For ASCII secrets, the counts `maskString` works
with are the same in both. For a secret with a multibyte character the PHP
counts differ from the model's.

`maskString` takes arbitrary integer counts, as the PHP function does, but
they are unbounded here. When the
secret's length minus both counts is negative, `str_repeat` throws in PHP 8.
The model returns `Err(StrRepeatTimesError)` in that case, so no `requires`
is needed. `run` masks both keys with (3, 3), so it throws unless both keys
have at least six characters. Clamping the hidden count to zero would be the
defensive choice. The code does not clamp, and the model follows the code.

Exceptions are modelled as `Throwable(message, code)` values inside a
`Result`. The values `run` gets from the host and from the Duo SDK are
parameters of `RunReport`: the configuration, the user name, the session
state, the prompt URI and the outcome of `JWT::decode`.

## Model

| member | source | states |
|---|---|---|
| `DuoTester.MaskString` | index.php:67-74 | For any integer counts, masking succeeds exactly when `showStart + showEnd` is at most the secret's length. Otherwise it fails with the `ValueError` that `str_repeat` throws for a negative count. |
| `DuoTester.MaskStringShape` | index.php:68-73 | For non-negative counts that fit, the result is the secret's first `showStart` characters, then as many bullets as the secret's length minus both counts, then the secret's last `showEnd` characters. |
| `DuoTester.MaskStringRedacts` | index.php:67-74 | Seen position by position, the result equals `Redacted`: the character at position i is the secret's own character when i is among the first `showStart` or last `showEnd` positions, and a bullet otherwise. |
| `DuoTester.MaskStringLength` | index.php:69-72 | When the counts fit, the output has as many characters as the secret. |
| `DuoTester.MaskStringKeepsPrefix` | index.php:70-72 | The first `showStart` characters of the output are those of the secret. |
| `DuoTester.MaskStringKeepsSuffix` | index.php:71-72 | The last `showEnd` characters of the output are those of the secret. |
| `DuoTester.MaskStringHidesMiddle` | index.php:69-72 | Every output position from `showStart` up to, but not including, the secret's length minus `showEnd` is a bullet. |
| `DuoTester.MaskStringRevealsOnlyEnds` | index.php:67-74 | Two secrets of one length that agree on their first `showStart` and last `showEnd` characters mask to the same result, whether or not the counts fit. So at most `showStart + showEnd` characters, plus the length, are revealed. |
| `DuoTester.MaskStringDefault` | index.php:67-72 | With the default counts (0, 0), the output is one bullet per character of the secret, and the empty secret maps to the empty string. |
| `DuoTester.MaskStringNonPositiveCounts` | index.php:68-72 | A zero or negative count skips its `substr` branch. Negative counts add to the number of bullets, so the output is all bullets, and its length is the secret's length minus both counts. |
| `DuoTester.MaskKeyFailsIff` | index.php:113-114 | Masking with (3, 3), as `run` does for both keys, fails exactly when the key has fewer than six characters. |
| `DuoTester.MaskStringExample` | index.php:67-74 | `maskString("12345678", 3, 3)` is `"123••678"`. |
| `DuoTester.PrintErrorLayout` | index.php:76-78 | The formatted text is the message, then `" ("`, then the decimal code (which reads back as the code), then `")"`. |
| `DuoTester.PrintErrorRoundTrip` | index.php:76-78 | The formatted text loses nothing: `ParseError`, which reads the code from the end, recovers both the message and the code. |
| `Php.Substr` | index.php:70-72 | `substr` as PHP 8 defines it: the result is never longer than the string, and it is empty when the offset is past the end or the length is zero. |
| `Php.SubstrFromStart` | index.php:70 | `substr($s, 0, $n)` with `$n >= 0`, the form the page uses for the prefix, is the first `$n` characters, or all of `$s` when it is shorter. |
| `Php.SubstrLast` | index.php:71 | `substr($s, -$n, $n)` with `$n > 0`, the form the page uses for the suffix, is the last `$n` characters, or all of `$s` when it is shorter. |
| `Php.StrRepeat` | index.php:69-72 | `str_repeat` succeeds exactly for a count of zero or more, giving that many copies of the character. A negative count gives PHP 8's `ValueError`. |
| `Php.IntToString` | index.php:77 | The `%s` text of an integer is a minus sign for a negative value, then canonical decimal digits with no leading zero unless the value is zero. |
| `Php.IntRoundTrip` | index.php:77 | The decimal text that `%s` writes for the integer code reads back as the same integer, negative codes included. |
| `DuoTester.DecodeJwt` | index.php:91-98 | A successful decode is stored as exactly the decoded claims. A caught exception is stored as exactly its `printError` text, from which `ParseError` recovers the exception. |
| `DuoTester.RunReport` | index.php:112-121 | Given the values `run` obtains at index.php:101-110, the report is produced exactly when both keys have at least six characters. Otherwise the array literal throws the `str_repeat` error. |
| `DuoTester.RunReportLayout` | index.php:112-120 | The report's keys are exactly the seven given keys, distinct and in the given order. Under each key is what `run` puts there: both keys as `maskString(·, 3, 3)`, the hostname, user name, state and prompt URI unchanged, and the `decodeJWT` value. |
| `DuoTester.RunReportRevealsOnlyKeyEnds` | index.php:112-121 | Two configurations with the same hostname, whose keys have equal lengths and agree on three characters at each end, produce the same report (or the same error). |

## Left out

- `extractJWT` (index.php:80-89): `parse_url` and `parse_str` are PHP built-ins whose percent-decoding and array-parameter rules are not modelled. Its result enters the model only through the outcome of `JWT::decode`.
- `JWT::decode` and `Key` from the Firebase JWT library (index.php:91-98): this is foreign cryptographic code. Its outcome is the `Decoding` parameter of `DecodeJwt`.
- Building the authorization URL with `createAuthUrl`, and the `Duo`/`DuoStore` session and state objects (index.php:54-65, 105-108): these are calls into the Duo SDK and the host. The state and the prompt URI are parameters. The state comes from the user id and the HTTP referer (index.php:55-56), not from the keys. The prompt URI and the decoding outcome are produced from the configured keys, so `RunReportRevealsOnlyKeyEnds` holds only for a given URI and decoding outcome.
- Reading the configuration from the database, and the constants `USERID` and `SUPER_USER` (index.php:44, 47, 129): this is host state. The configuration and the user name are parameters, and the admin check is not modelled.
- The top-level `try`/`catch` that shows a thrown message (index.php:135-140), and the `catch` in `extractJWT` (index.php:86-88): this is exception plumbing. Only the `str_repeat` error from the array literal (index.php:113-114) appears as the `Err` of `RunReport`. Throws from the constructor (index.php:44-47) and from the SDK and host calls at index.php:105-108 are outside the model, because their results are parameters.
- The HTML header, footer and list rendering (index.php:126-213): this is presentation.
- Byte-level UTF-8 accounting: the bullet is one character here. In PHP it is three bytes, so the masked string's `strlen` exceeds the secret's by twice the number of bullets.
- Integer width: counts are unbounded here. When PHP's 64-bit arithmetic in `strlen($secret)-$showStart-$showEnd` overflows to a float, `str_repeat` throws a `TypeError`, and that is not modelled. The page only passes (3, 3) and the defaults (0, 0).
- PHP 7 behaviour: before PHP 8, `str_repeat` with a negative count only warned and returned null. `maskString` then returned the prefix followed by the suffix, so `maskString("abcd", 3, 3)` gave "abcbcd" and showed the whole key. The model follows PHP 8, where the call throws.
- `Php.StrRepeat` models `str_repeat` only for the one-character string the page repeats.
