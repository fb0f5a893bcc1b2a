# Encoder — a verified model of the PHP character-set encoder

`saparot/encoder` is one PHP class, `Encoder\Encoder`. It converts byte strings,
and arbitrarily nested arrays of them, between a fixed catalog of nine
encodings. The encodings are ASCII, UTF-8, ISO-8859-1, ISO-8859-15,
ISO-8859-5, Windows-1251, Windows-1252, KOI8-R and KOI8-U. When the caller
gives no source encoding, the encoder detects one within an *encoding group*
(LATIN, CYRILLIC or KOI8). Each group has a candidate order for detection, a
default encoding and a list of member encodings. The detected encoding is
written back to the caller through the by-reference `$decodeWith` argument,
and every later conversion of the same call uses it.

The model is split into these modules:

- `Outcomes` holds `Option`, `Result`, and one error constructor per kind of
  failure. The two throw sites for an unknown group (in `convertString` and
  in `detectEncoding`) share `UnknownGroup`. `Error.Code` gives the exception
  codes 1001, 5001, 6001 and 6002.
- `Utf8` holds byte strings and the UTF-8 syntax of section 4 of RFC 3629.
  That syntax is what the PCRE `/u` check of `detectEncoding` accepts. The
  module proves that the syntax decodes to scalar values and that it has
  exactly one encoding per scalar value.
- `Registry` holds the constants, the group table, the catalog, the
  configuration value `Config`, and the invariant `ValidConfig` that every
  encoder instance keeps. It also holds `setDefaultEncoding` on that value.
- `Detection` holds `detectEncoding` as the function `Detect`. It resolves the
  group, asks a candidate matcher, then applies the UTF-8 malformed-input
  override and the ISO-8859-1 disambiguation by byte ranges.
- `Conversion` holds `convertString` and `convertArray` as functions. Each
  returns its outcome together with the hint as the caller holds it
  afterwards. PHP arrays are modelled as ordered sequences of key/value
  entries, and `$array[$k] = …` is modelled as `Put`.
- `Encoder` holds the class `Encoder`, with the two mutable fields of the
  PHP object. Its methods are proved equal to the functions above.
  `ConvertArray` keeps the source's `foreach` loop and writes into a working
  copy of the original array.

`mb_detect_encoding` is a parameter of type `Matcher`: any function that fails
or answers one of the candidates it is given. `mb_convert_encoding` is a
parameter of type `Transcoder`: any function from bytes and two encoding
names to bytes. Both are PHP runtime code, outside the repository.

## Model

| member | source | states |
|---|---|---|
| `Outcomes.Error.Code` | src/Encoder.php:81-158 | every error carries one of the codes 1001, 5001, 6001, 6002, and 6002 is shared exactly by a failed detection and an unsupported source hint |
| `Encoder.Encoder.constructor` | src/Encoder.php:79-84 | a new instance holds the built-in group table and the requested default group, and satisfies the instance invariant |
| `Encoder.Encoder.Create` | src/Encoder.php:79-84 | construction fails with 1001 exactly when the default group is not in the group table; otherwise the instance is fresh, valid and holds the initial configuration |
| `Registry.Initial` | src/Encoder.php:29-84 | the initial configuration exists exactly for LATIN, CYRILLIC and KOI8, fails with 1001 otherwise, and satisfies the instance invariant |
| `Registry.ValidConfig` | src/Encoder.php:35-70 | the instance invariant: the table keys are exactly LATIN, CYRILLIC and KOI8 (so neither GLOBAL nor `_default_` is a group), each group is the built-in one except for a catalog default encoding, and the default group is a key |
| `Registry.InitialGroupsValid` | src/Encoder.php:35-70 | the built-in group table and catalog satisfy the instance invariant: every default encoding and detect-order candidate is a catalog key |
| `Registry.ResolveGroup` | src/Encoder.php:120-126 | the `_default_` marker stands for the instance default group and every other name for itself; in a valid instance a name resolves to a table group exactly when it is the marker or a table key, so the marker never leads to 6001 |
| `Registry.SetDefault` | src/Encoder.php:198-207 | accepted exactly when the group is in the table and the encoding is a catalog key; on acceptance only that group's default encoding changes, otherwise nothing changes |
| `Registry.SetDefaultKeepsValid` | src/Encoder.php:198-207 | setting a default encoding preserves the instance invariant |
| `Registry.SetDefaultAcceptsAnyCatalogEncoding` | src/Encoder.php:202-205 | a default encoding is not checked against the group's own encodings: Windows-1251 and UTF-8 are accepted for LATIN |
| `Registry.ValidConfigFacts` | src/Encoder.php:35-54 | in a valid configuration every group's default encoding and candidates are catalog keys, its detect order is never marked modified, and its order and encodings are the built-in ones |
| `Encoder.Encoder.SetDefaultEncoding` | src/Encoder.php:198-207 | the method's answer and new state are those of `SetDefault` on the old state, and the instance invariant is kept |
| `Encoder.Encoder.IsGroupSupported` | src/Encoder.php:216-218 | exactly LATIN, CYRILLIC and KOI8 are supported; GLOBAL and `_default_` are not |
| `Encoder.Encoder.GetEncodingGroups` | src/Encoder.php:223-225 | the group names in table order, each once, and exactly the keys of the group table |
| `Encoder.Encoder.GetEncodingsByGroup` | src/Encoder.php:232-237 | nothing for an unsupported group; otherwise the group's built-in encodings, each of which the catalog files under that group |
| `Utf8.CharLength` | src/Encoder.php:162-168 | the length of the leading UTF-8 char is at most 4 and within the input, uses no forbidden octet, and is 1 exactly for an ASCII lead byte |
| `Utf8.CodePoint` | src/Encoder.php:162-168 | every UTF-8 char decodes to a Unicode scalar value whose range fixes the char's length, so there is no overlong form |
| `Utf8.EncodeDecode` | src/Encoder.php:162-168 | every scalar value has a well-formed encoding that decodes back to it |
| `Utf8.DecodeEncode` | src/Encoder.php:162-168 | every UTF-8 char is exactly the encoding of the value it decodes to |
| `Utf8.AsciiIsWellFormed` | src/Encoder.php:162-168 | ASCII text passes the malformed-input check |
| `Utf8.ForbiddenOctetIsIllFormed` | src/Encoder.php:162-168 | a string holding C0, C1 or F5..FF fails the malformed-input check |
| `Utf8.WellFormed` | src/Encoder.php:164-166 | the input passes the UTF-8 check exactly when it is a sequence of RFC 3629 chars; such input never starts with a continuation or forbidden octet and never ends inside a multi-octet char |
| `Detection.Detect` | src/Encoder.php:147-190 | an unknown group fails with 6001; detection fails with 6002 exactly when the matcher finds nothing; any answer is a candidate, the group default, Windows-1252 or ISO-8859-15, and is a catalog key in a valid configuration |
| `Detection.GroupResolution` | src/Encoder.php:149-155 | detecting with `_default_` equals detecting with the instance default group, and every other name outside the table, GLOBAL among them, fails with 6001 |
| `Detection.Utf8Override` | src/Encoder.php:161-170 | a UTF-8 answer becomes the group default exactly when the malformed check is on and the input is not well-formed UTF-8 |
| `Detection.AsciiStaysUtf8` | src/Encoder.php:161-170 | ASCII input that the matcher calls UTF-8 stays UTF-8 |
| `Detection.ForbiddenOctetFallsBack` | src/Encoder.php:161-170 | input called UTF-8 that holds an octet UTF-8 never uses falls back to the group default |
| `Detection.HasByteIn` | src/Encoder.php:173-180 | the byte-class match: some byte lies in the range; a one-byte class is plain membership and an empty range never matches |
| `Detection.Latin1Disambiguation` | src/Encoder.php:171-187 | an ISO-8859-1 answer becomes Windows-1252 if a byte lies in 0x7F..0x9F; otherwise it becomes ISO-8859-15 if 0xA4 occurs; otherwise it stays ISO-8859-1 |
| `Detection.OtherAnswersKept` | src/Encoder.php:188-189 | any other matcher answer is returned unchanged |
| `Detection.DetectUtf8Umlauts` | tests/EncoderTest.php:72-74 | "öääüß" in UTF-8, detected with the default group LATIN, is UTF-8 |
| `Detection.DetectLatin1Umlauts` | tests/EncoderTest.php:75-76 | the same text in Latin-1 bytes is ISO-8859-1 |
| `Detection.DetectEuroWindows1252` | tests/EncoderTest.php:78-80 | the Euro sign as 0x80 is Windows-1252 |
| `Detection.DetectEuroIso885915` | tests/EncoderTest.php:82-84 | the Euro sign as 0xA4 is ISO-8859-15 |
| `Conversion.Falsy` | src/Encoder.php:128 | `!$decodeWith` holds for null, "" and "0"; no catalog encoding name is falsy, so a written-back detected hint stops further detection |
| `Conversion.ConvertString` | src/Encoder.php:111-135 | empty input is returned as is; a truthy hint is never changed; a success on non-empty input transcodes from a catalog hint to a catalog target; on failure the hint is untouched; a changed hint is settled, and a settled hint cannot fail |
| `Conversion.CheckOrder` | src/Encoder.php:112-126 | the empty check comes first, then the target check (5001), then the group check (6001) |
| `Conversion.DetectedHintWrittenBack` | src/Encoder.php:128-134 | a falsy hint is replaced by the encoding detected for the resolved group with the malformed check on, and the outcome is the transcoding from it; a failed detection leaves the hint alone |
| `Conversion.GivenHintUsedAsIs` | src/Encoder.php:128-134 | a truthy hint is used without detection, so the matcher is irrelevant, and a hint outside the catalog fails with 6002 |
| `Conversion.ConvertUmlautsScenario` | tests/EncoderTest.php:31-36 | "äöüß" in UTF-8 with the hint UTF-8 converts to the transcoder's Windows-1252 bytes, and the hint stays UTF-8 |
| `Conversion.Lookup` | src/Encoder.php:92-95 | reading a key of an ordered array finds a value exactly when the key is present |
| `Conversion.Put` | src/Encoder.php:92-95 | writing a key sets its value and leaves every other key alone; an existing key keeps its position, and a new key is appended; an array with distinct keys keeps them distinct |
| `Conversion.VisitEntry` | src/Encoder.php:88-96 | one iteration keeps a truthy hint and, in a valid configuration, leaves the hint alone on failure and can change it only to a settled hint; it writes an entry exactly when the value is a string or an array |
| `Conversion.Walk` | src/Encoder.php:86-99 | a walk keeps the hint facts of one iteration, and a successful walk loses no key of the original array |
| `Conversion.ConvertArray` | src/Encoder.php:86-99 | the whole-array conversion keeps a truthy hint, leaves the hint alone on failure in a valid instance, cannot fail from a settled hint, loses no original key, and keeps keys distinct |
| `Conversion.WalkKeepsDistinct` | src/Encoder.php:92-95 | a successful walk over an array with distinct keys yields distinct keys: colliding converted keys overwrite, never duplicate |
| `Conversion.WalkStep` | src/Encoder.php:87-97 | a successful iteration writes its converted entry into the working copy left by the previous iterations, or leaves that copy alone when it writes nothing |
| `Conversion.PrefixOk` | src/Encoder.php:87-97 | a walk that succeeds got through every shorter prefix |
| `Conversion.WalkStopsAtError` | src/Encoder.php:87-97 | the first failing iteration ends the walk: later iterations change nothing |
| `Conversion.LastWriteWins` | src/Encoder.php:92-95 | when converted keys collide, a key holds the value of the last iteration that wrote it |
| `Conversion.UnwrittenKeyUntouched` | src/Encoder.php:86-98 | a key that no iteration wrote keeps its original value, or stays absent; original entries are not removed, and non-string scalars are left as they are |
| `Conversion.VisitWrites` | src/Encoder.php:88-96 | an iteration writes under the converted key; a string becomes its transcoding with the iteration's final hint, and an array is walked with keys converted even when the outer call does not convert keys |
| `Conversion.HintStaysOnceTruthy` | src/Encoder.php:89-95 | once the hint is truthy, every later iteration keeps it |
| `Conversion.WalkIgnoresMatcher` | src/Encoder.php:86-99 | with a truthy hint no detection happens anywhere in the walk, nested arrays included |
| `Conversion.VisitIgnoresMatcher` | src/Encoder.php:88-96 | with a truthy hint no detection happens in one iteration |
| `Conversion.ConvertFromUtf8` | src/Encoder.php:128-134 | with the hint UTF-8, a request to Windows-1252 with the `_default_` group transcodes every non-empty string from UTF-8 |
| `Conversion.ConvertArrayScenario` | tests/EncoderTest.php:46-65 | {"äö": "üß", "ab": "ac"} converted with the hint UTF-8 holds the converted pair and "ab" => "ac", keeps the original UTF-8 entry, and ends with the hint UTF-8 |
| `Encoder.Encoder.ConvertString` | src/Encoder.php:111-135 | the method's outcome and written-back hint are those of `Conversion.ConvertString` on the instance state |
| `Encoder.Encoder.ConvertEntry` | src/Encoder.php:88-96 | one loop iteration of the method yields what `Conversion.VisitEntry` says |
| `Encoder.Encoder.ConvertArray` | src/Encoder.php:86-99 | the `foreach` loop's outcome and written-back hint are those of `Conversion.ConvertArray` on the instance state |

## Left out

- `mb_convert_encoding` is not modelled. It is the `Transcoder` parameter, a total function, so a transcoding failure or warning of the PHP runtime is not represented.
- `mb_detect_encoding` is not modelled. It is the `Matcher` parameter, which may answer any candidate of the order it is given, or nothing. Which candidate the runtime picks for given bytes is left open, so the test scenarios take the matcher's answer as a premise.
- PCRE is not modelled. The `preg_match("/.*/u")` and `preg_last_error` pair is modelled as well-formedness under section 4 of RFC 3629. The `preg_match` byte-range tests are modelled as `HasByteIn`.
- Exception messages and the exception class are left out. Only the code and the kind of failure of each exception are modelled; the two 6001 throw sites share one constructor.
- Integer array keys, PHP's key coercion (numeric strings becoming integers), and null input to `convertString` are left out. Keys and strings are byte sequences, and values other than strings and arrays are the opaque `Other` scalar.
- A `$decodeWith` that is neither null nor a string is left out. The hint is `Option<string>`, and falsy means null, "" or "0".
- `detectEncoding` is not a method of the class `Encoder`. It reads the instance only, so it is `Detection.Detect` over `Encoder.State()`.
- Default argument values are not modelled. Every argument is explicit.
- `Encoder.Encoder.Create`: the PHP constructor throws 1001 on an unknown group. The model splits this into a factory that returns `Err(UnknownDefaultGroup)` and a constructor that requires a known group.
