# cookie-rs core in Dafny

A model of the core of the `cookie` crate (servo's cookie-rs, `src/lib.rs`):
the `Cookie` value, `Cookie::new`, `Cookie::parse` with its nested `split`,
`Cookie::pair`, and the two `fmt::Show` impls that write an `AttrVal`
(`name=value`) and a whole `Cookie` (the `Set-Cookie` header text).

Text is a sequence of bytes (`Bytes.Bytes`, one `char` below 256 per
byte), so Rust's `&str`, `String` and the byte slices given to the `url`
crate share one type. Three of the crate calls are parameters, gathered
in `Cookies.Crates`: `time::strptime`, `Tm::rfc822` and
`url::DEFAULT_ENCODE_SET`, and the codec works with any choice of these.
`url::percent_encode` and `url::percent_decode` are not parameters: the
module `Percent` writes them out as a byte-wise `%XX` codec.

Modules:

- `Cookies` (`cookie.dfy`) holds the entity, `New`, the parser and the
  formatter.
  - The parser is the method `Parse` with a `while` loop over the
    attribute segments. One loop turn is `ParseAttr` and the inner `match`
    is `ParsePair`.
  - `Parse` is proved against `Parsed`, a function of its input.
    `Parsed` splits the trimmed text at `;`, reads the first segment as the
    pair and folds `Apply` over the kinds (`Classify`) of the remaining
    segments.
  - The formatter is `Format`: the pair, then the attribute texts
    (`AttributeTexts`), each behind `; `.
- `ParseProperties` (`parse_properties.dfy`) covers what `parse` promises:
  - exactly when it fails;
  - what each attribute does, and that it touches nothing else;
  - that the last writer of a field wins;
  - what fields no attribute mentions keep;
  - that the name and value are the decoded pair;
  - that surrounding whitespace is ignored.
- `RoundTrip` (`round_trip.dfy`) proves that `parse` reads back what
  `fmt` writes, and under which conditions.
- `WorkedCases` (`worked_cases.dfy`) derives the cases of the crate's unit
  tests from the general lemmas: the parse of `foo=bar` and of
  `foo=b%2Fr`, the pair of a new cookie, and the full header text of the
  cookie the parse test builds.
- Support modules:
  - `Bytes`: `trim`, `to_ascii_lower`, `split`, `splitn`;
  - `Percent`: `percent_encode`, `percent_decode`;
  - `Utf8`: `String::from_utf8`;
  - `Decimal`: `from_str::<u64>` and `{}` on a `u64`;
  - `Time`: the `Expires` format cascade;
  - `Ordered`: the key order of the `TreeMap` behind `custom`.

Behaviour of the code that the model keeps as written:

- `parse` starts from `Cookie::new("", "")`. A parsed cookie without a
  `Path` attribute therefore has the path `/`, not an unset path
  (`ParseProperties.ParsedDefaultPath`).
- `Secure` and `HttpOnly` are flags only when the trimmed segment is
  exactly that word, in any letter case. `Secure=1` goes into `custom`
  under the key `Secure` (`ParseProperties.ValuedFlagIsCustom`).
- Custom values are stored as written, with no percent-decoding. `fmt`
  percent-encodes them, so a value with an escaped byte comes back in its
  encoded form (`RoundTrip.FormatThenParse`).
- `fmt` writes the name as it is, unencoded, and only the value
  percent-encoded. `parse` percent-decodes the name, so a `%` followed by
  two hex digits in the name is decoded on reading and does not read back
  as written.
- An empty `Domain=` value makes `v.char_at(0)` panic. The model records
  this outcome as `Failure(DomainPanic)`, distinct from `Err(())`, which
  is `Failure(Invalid)`.

## Model

| member | source | states |
|---|---|---|
| Cookies.New | src/lib.rs:33-45 | the cookie has the given name and value and the path `/`; expires, max-age and domain are unset, both flags are off, and custom is empty |
| Cookies.SplitPair | src/lib.rs:101-104 | fails exactly when the trimmed text has no `=`; otherwise the trimmed text is key, `=`, value, and the key holds no `=` (the cut is at the first `=`) |
| Cookies.SplitTrimmed | src/lib.rs:101-104 | `split` applied to an already trimmed segment is the cut at its first `=`, so trimming twice changes nothing |
| Cookies.Parse | src/lib.rs:47-105 | the method's result is `Parsed`: the trimmed input cut at every `;`; the first piece must `split` and both halves must decode to valid UTF-8; then the attributes are applied in order from `Cookie::new` and the first failure is the result |
| Cookies.ParseAttr | src/lib.rs:61-67 | one turn of the loop: the trimmed segment in lower case equal to `secure` or `httponly` sets that flag; a segment without `=` fails; any other segment goes to the inner match; the result is `Apply` of the segment's kind |
| Cookies.ParsePair | src/lib.rs:68-93 | the inner match on the lower-cased key: `max-age` needs a `u64`; `domain` drops one leading `.` and lower-cases, panicking on an empty value; `path` is kept; `expires` takes the first format that reads it; any other key is stored in custom |
| Cookies.FailureSticks | src/lib.rs:61-97 | once an attribute has failed, the attributes after it change nothing: there is no partial cookie |
| Cookies.ApplyAllStep | src/lib.rs:61-97 | the loop after k+1 attributes is the loop after k attributes followed by one more turn, unless it has already failed |
| Cookies.Pair | src/lib.rs:107-109 | the pair holds the cookie's name and value |
| Cookies.AttrVal.Show | src/lib.rs:112-119 | `AttrVal`'s `fmt` writes the name as it is, then `=`, then text that decodes back to the value when the encode set escapes every `%` of the value (partners: `Percent.DecodeEncode`, `RoundTrip.PairShow`) |
| Cookies.Format | src/lib.rs:122-148 | `Cookie`'s `fmt` writes the pair first, and writes nothing after it exactly when no flag, no optional field and no custom attribute is set (partners: `RoundTrip.FormatThenParse` reads the text back; `WorkedCases.FormatEvery` gives the attribute order when every attribute is set, and `WorkedCases.FormatFull` the order for a cookie without expiry and with one custom attribute) |
| Cookies.AttributeTextsEmpty | src/lib.rs:125-146 | `fmt` writes no attribute text exactly when both flags are off, path, domain, max-age and expires are unset and custom is empty |
| ParseProperties.ApplyFailsIff | src/lib.rs:61-96 | an attribute fails exactly when it is rejected, whatever the cookie. Rejected means: neither a flag nor `k=v`, a `Max-Age` that is not a `u64`, an empty `Domain`, or an `Expires` no format reads. The panic comes only from `Domain` |
| ParseProperties.ApplyTouchesOnlyItsField | src/lib.rs:61-96 | an attribute that applies keeps the name and the value and leaves every field except its own as it was |
| ParseProperties.PairIsNoFlag | src/lib.rs:63-67 | a segment holding `=` never lowers to `secure` or `httponly` |
| ParseProperties.ClassifySegment | src/lib.rs:62-67 | `secure` or `httponly` in any case, with any surrounding whitespace, is that flag; a segment that splits is dispatched on its key and value alone |
| ParseProperties.ClassifyUnpaired | src/lib.rs:62-67 | a segment is unpaired (`split` fails) exactly when it is neither flag and its trimmed text has no `=` |
| ParseProperties.ClassifyPairKinds | src/lib.rs:68-93 | each recognised kind arises exactly when the lower-cased key is its name; custom arises exactly when the key is none of the four; the value is passed on unchanged |
| ParseProperties.ClassifiedCustom | src/lib.rs:93 | the key of a custom attribute never lowers to `max-age`, `domain`, `path` or `expires` |
| ParseProperties.ClassifiedNamed | src/lib.rs:68-92 | a segment whose key lowers to one of the four names is that attribute, carrying the value `split` gave |
| ParseProperties.MaxAgeEffect | src/lib.rs:69 | `Max-Age=v` sets max-age to the `u64` that `v` reads as, and fails when `v` is not one |
| ParseProperties.DomainEffect | src/lib.rs:70-77 | `Domain=v` panics on an empty `v`; otherwise it stores `v`, without one leading `.`, in lower case; the stored domain is in lower case |
| ParseProperties.PathEffect | src/lib.rs:78 | `Path=v` stores `v` as written |
| ParseProperties.ExpiresEffect | src/lib.rs:79-92 | `Expires=v` fails exactly when none of the four formats reads `v`; otherwise it stores what the earliest format that reads `v` gives |
| ParseProperties.ExpiresApplied | src/lib.rs:83-91 | the format cascade for `Expires`: failure exactly when every format fails, else the result of the first format that succeeds |
| ParseProperties.CustomEffect | src/lib.rs:93 | any other key is inserted into custom with its casing and its undecoded value, replacing an earlier value for that key |
| ParseProperties.ValuedFlagIsCustom | src/lib.rs:63-93 | `Secure=…` or `HttpOnly=…` is not a flag but a custom attribute under the key as written |
| ParseProperties.ApplyAllAppend | src/lib.rs:61-97 | the loop over two stretches of attributes is the loop over the first, then the loop over the second from where the first ended |
| ParseProperties.ApplyAllFailsIff | src/lib.rs:61-97 | the loop fails exactly when some attribute is rejected |
| ParseProperties.ApplyAllKeepsPair | src/lib.rs:52-97 | the attributes never change the name or the value |
| ParseProperties.UntouchedField | src/lib.rs:52-97 | a field no attribute sets keeps the value it had before the loop |
| ParseProperties.LastWriterWins | src/lib.rs:61-96 | a field set by several attributes holds what the last of them set |
| ParseProperties.MaxAgeLastWins | src/lib.rs:69 | after a successful parse, max-age is the value of the last `Max-Age` attribute |
| ParseProperties.CustomLastWins | src/lib.rs:93 | after a successful parse, a custom key holds the value of its last occurrence |
| ParseProperties.KindsOfSegments | src/lib.rs:93 | every custom attribute read from text has a key that is none of the four recognised names |
| ParseProperties.ApplyAllKeepsCustomUnrecognised | src/lib.rs:93 | the loop never puts a recognised name into custom when it starts without one |
| ParseProperties.ParsedFailsIff | src/lib.rs:47-105 | `parse` fails exactly when any of these holds: the first segment has no `=`; either half of the pair is not valid UTF-8 once decoded; some attribute segment is rejected |
| ParseProperties.ParsedSuccess | src/lib.rs:52-97 | a parsed cookie's name and value are the percent-decoded halves of the first segment, cut at its first `=`; every field no attribute sets is as `Cookie::new` sets it; no custom key is a recognised name |
| ParseProperties.ParsedDefaultPath | src/lib.rs:52 | a parsed cookie without a `Path` attribute has the path `/`, never an unset path |
| ParseProperties.ParsedWithoutAttributes | src/lib.rs:52-61 | text without `;` that parses is a pair that `split` cuts, and its result is `Cookie::new` of the percent-decoded key and value |
| ParseProperties.ParsedIgnoresSurroundingWhitespace | src/lib.rs:53 | whitespace around the whole text changes nothing |
| ParseProperties.EmptySegmentRejected | src/lib.rs:67 | an empty attribute segment is rejected, because `split` fails on it |
| ParseProperties.TrailingSemicolonFails | src/lib.rs:53-67 | text ending in `;` cannot be parsed: its last segment is empty |
| Bytes.Trim | src/lib.rs:53 | the result has no whitespace at either end and is no longer than the input; that it is the input less its whitespace ends is `Bytes.TrimIsMiddle` |
| Bytes.TrimIsMiddle | src/lib.rs:53 | the trimmed text is the stretch of the input after its leading whitespace, and only whitespace precedes and follows that stretch |
| Bytes.TrimIdempotent | src/lib.rs:102 | trimming a trimmed text changes nothing |
| Bytes.TrimAfterWhitespace | src/lib.rs:62 | a whitespace byte in front makes no difference to the trimmed text |
| Bytes.ToAsciiLowerAt | src/lib.rs:63 | lowering works byte by byte: upper-case ASCII letters become lower case, and every other byte is kept |
| Bytes.ToAsciiLowerIdempotent | src/lib.rs:76 | lowering a lowered text changes nothing |
| Bytes.SplitOnce | src/lib.rs:102-103 | `splitn(1, sep)` with two `next()`s: fails exactly when `sep` is absent; otherwise the text is before, `sep`, after, with no `sep` before |
| Bytes.SplitOnceOf | src/lib.rs:102-103 | cutting `a`, `sep`, `b` at the first `sep`, where `a` holds none, gives back `a` and `b` |
| Bytes.SplitOn | src/lib.rs:53 | `split(sep)`: at least one piece, no piece holds `sep`, and joining the pieces with `sep` gives the text back |
| Bytes.SplitOnJoin | src/lib.rs:53 | splitting `a`, `sep`, `b`, where `a` holds no `sep`, gives `a` followed by the pieces of `b` |
| Bytes.SplitOnNone | src/lib.rs:53 | text without `sep` is one piece |
| Percent.Encode | src/lib.rs:117-118 | the encoded text is empty exactly when the input is; it holds every unescaped input byte and no escaped one except as `%` and hex digits; its last byte comes from the input's last byte |
| Percent.DecodeWithoutPercent | src/lib.rs:56-57 | text without `%` decodes to itself |
| Percent.EncodeUnescaped | src/lib.rs:117-118 | text without a byte to escape is written as it is |
| Percent.DecodeEncode | src/lib.rs:56-57 | decoding undoes encoding when every `%` of the text is escaped |
| Utf8.AsciiIsValid | src/lib.rs:58-59 | ASCII text is valid UTF-8, so `from_utf8` accepts it |
| Utf8.StrayByteIsInvalid | src/lib.rs:58-59 | text that starts with a continuation byte or an overlong lead byte is rejected |
| Decimal.ParseU64 | src/lib.rs:69 | `from_str::<u64>` succeeds exactly on a nonempty run of ASCII digits whose value is below 2^64, and gives that value |
| Decimal.AccumulateFrom | src/lib.rs:69 | the digit loop of `from_str::<u64>`, with a checked `acc * 10 + d` step, continued from a digit prefix holding that prefix's value, ends with the value of the whole text exactly when every byte is a digit and the value is below 2^64 |
| Decimal.Render | src/lib.rs:136 | `{}` on a number: nonempty digits with that value; the first digit is `0` only for the single digit of 0, so there are no leading zeros |
| Decimal.ParseRender | src/lib.rs:136 | reading a written `u64` gives it back |
| Time.FirstMatchIsEarliest | src/lib.rs:83-90 | the `or_else` chain fails exactly when every format fails; otherwise it gives the result of the earliest format that succeeds |
| Ordered.Ascending | src/lib.rs:144 | `TreeMap` iteration order: every key once, in strictly ascending byte order |
| RoundTrip.PairShow | src/lib.rs:112-119 | `AttrVal` of the cookie writes name, `=`, value when no byte of the value needs escaping |
| RoundTrip.SpacedClassify | src/lib.rs:62 | the space written after each `;` is trimmed away before dispatch |
| RoundTrip.SplitWritten | src/lib.rs:122-148 | the header text splits at `;` into the pair and each attribute text behind one space |
| RoundTrip.KindsOfHttpOnly | src/lib.rs:125 | the written `HttpOnly` reads back as the httponly flag |
| RoundTrip.KindsOfSecure | src/lib.rs:126 | the written `Secure` reads back as the secure flag |
| RoundTrip.KindsOfPath | src/lib.rs:127-130 | the written `Path=v` reads back as the path attribute with value `v` |
| RoundTrip.KindsOfDomain | src/lib.rs:131-134 | the written `Domain=v` reads back as the domain attribute with value `v` |
| RoundTrip.KindsOfMaxAge | src/lib.rs:135-138 | the written `Max-Age=n` reads back as the max-age attribute with the digits of `n` |
| RoundTrip.KindsOfExpires | src/lib.rs:139-142 | the written `Expires=t` reads back as the expires attribute with the rfc822 text of `t` |
| RoundTrip.KindsOfCustoms | src/lib.rs:144-146 | each written custom `k=v` reads back as a custom attribute with key `k` and the encoded `v` |
| RoundTrip.KindsOfWritten | src/lib.rs:122-148 | the attribute texts `fmt` writes are read back as the kinds in the order written |
| RoundTrip.ApplyWritten | src/lib.rs:61-96 | applying those kinds from `Cookie::new` of the pair rebuilds the cookie, with its custom values encoded and a missing path as `/` |
| RoundTrip.ParsedText | src/lib.rs:47-105 | the text `n=v`, then `; ` and each attribute, is parsed as the decoded pair with those attributes applied |
| RoundTrip.FormatThenParse | src/lib.rs:122-148 | `parse` of the text `fmt` writes for a writable cookie gives the cookie back, with a missing path as `/` and custom values percent-encoded |
| RoundTrip.FormatParseRoundTrip | src/lib.rs:122-148 | a writable cookie with a path and with custom values that need no escaping is read back exactly |
| RoundTrip.FormatWithoutPath | src/lib.rs:127-130 | a writable cookie without a path is read back with the path `/` |
| Ordered.AscendingSingle | src/lib.rs:144 | a map with one key is iterated as just that key |
| WorkedCases.FormatFull | src/lib.rs:122-148 | a cookie with both flags, a path, a domain, a maximum age, no expiry and one custom attribute is written as the pair, then `; HttpOnly`, `; Secure`, `; Path=`, `; Domain=`, `; Max-Age=` with their values, then `; ` and the custom pair |
| WorkedCases.FormatEvery | src/lib.rs:122-148 | a cookie with both flags, a path, a domain, a maximum age and an expiry is written as the pair, then `; HttpOnly`, `; Secure`, `; Path=`, `; Domain=`, `; Max-Age=`, `; Expires=` with their values in that order, then `; ` and one `name=value` per custom attribute, the keys in the ascending order of `Ordered.Ascending` |
| WorkedCases.ParseFooBar | src/lib.rs:163-164 | `Cookie::parse("foo=bar")` is `Cookie::new("foo", "bar")`, whatever the crates' functions |
| WorkedCases.DecodeOddCharacters | src/lib.rs:192-193 | `percent_decode` turns `b%2Fr` into `b/r` |
| WorkedCases.ParseOddCharacters | src/lib.rs:192-193 | `Cookie::parse("foo=b%2Fr")` is `Cookie::new("foo", "b/r")` |
| WorkedCases.PairFooBar | src/lib.rs:198-199 | the pair of `Cookie::new("foo", "bar")` is written `foo=bar` when the encode set leaves letters alone |
| WorkedCases.FormatTestCookie | src/lib.rs:163-187 | the cookie the parse test builds is written `foo=bar; HttpOnly; Secure; Path=/foo; Domain=foo.com; Max-Age=4; wut=lol` when the encode set leaves letters alone |

## Left out

- `CookieJar` and the rest of `src/jar.rs` are not part of this model.
- `impl FromStr for Cookie` (src/lib.rs:151-155) is left out. It is `Cookie::parse` with the error dropped.
- `time::strptime`, `Tm::rfc822` and `url::DEFAULT_ENCODE_SET` are parameters.
- `url::percent_encode` and `url::percent_decode` are modelled as the byte-wise `%XX` codec of `Percent`, written from their documented behaviour. An escaped byte becomes `%` and two upper-case hex digits. Decoding reads `%` and two hex digits of either case, and keeps any other `%` as it is. The round-trip lemmas hold for this codec.
  - Calendar arithmetic and the contents of the default encode set are not modelled.
  - `strptime`'s error is reduced to `None`.
  - `Tm` is an opaque record of fields.
- The `fmt::Formatter` is not modelled. `Format` produces the text, and a write error of the formatter cannot arise.
- The panic of `v.char_at(0)` on an empty `Domain=` value is modelled as the outcome `Failure(DomainPanic)`, not as an unwinding.
- Bytes.Trim: its own ensures give only the ends of the result and its length. That the result is the input with only its leading and trailing whitespace removed is the separate lemma `Bytes.TrimIsMiddle`, so that these quantified facts are not in scope in every proof that mentions `Trim`.
- `trim` removes only ASCII whitespace: space and bytes 9 to 13. Rust's `trim` also removes non-ASCII Unicode white space, which the byte model leaves out.
- RoundTrip.FormatThenParse: the round trip holds only for cookies meeting `Writable`. The conditions:
  - a name that is valid UTF-8 and holds no `=`, `;`, `%` and no leading whitespace;
  - a value that is valid UTF-8, whose every `%` and `;` is escaped by the encode set, and whose last byte is escaped if it is whitespace;
  - a path without `;` and without trailing whitespace;
  - a non-empty, lower-case domain without a leading `.`, without `;` and without trailing whitespace;
  - an expiry time that reads back from its rfc822 text, and whose text holds no `;` and no trailing whitespace;
  - custom keys without `=`, `;` or leading whitespace that are not recognised names once lower-cased;
  - custom values whose every `;` is escaped by the encode set, and whose last byte is escaped if it is whitespace.

  Outside these conditions, `fmt` and `parse` are not guaranteed to be inverse.
- Decimal.ParseU64: `from_str::<u64>` is taken to accept plain ASCII digits only, with no sign.
