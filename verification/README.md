# mailto-link-formatter in Dafny

A model of the `MailTo` class of stevegrunwell/mailto-link-formatter: a small
value object holding recipients, headers and a body, and the `getLink`
method that renders them as a `mailto:` URI of the form
`mailto:addr,addr?hfield=hvalue&...` (section 2 of RFC 6068).

The class mutates itself; the model is a value. `Formatter.MailTo` is the
object's state, and every setter is a function from a state to the updated
state. A getter is a function of the state, so `GetLink` cannot change it.

Modules:

- `Wrappers`: `Option`, which stands for PHP's `null`.
- `Text`: the PHP string functions the class uses.
  - `explode`/`implode` on one character: `Split`/`Join`.
  - `trim` with PHP's default set of space, `\t`, `\n`, `\r`, `\0` and `\x0B`: `Trim`.
  - `strtolower` in its ASCII-only form, as in PHP 8.2 and later (or the C locale): `ToLower`.
- `OrderedMap`: PHP's insertion-ordered arrays with string keys, as association lists. Writing an existing key replaces its value in place; writing a new key appends it.
- `Url`: `rawurlencode` and `http_build_query(..., PHP_QUERY_RFC3986)`.
  - Every byte outside the unreserved set of section 2.3 of RFC 3986 becomes `%XX` with upper-case hex (section 2.1).
  - A strict percent-decoder serves as the encoder's inverse.
- `Formatter`: the class itself.
  - `SanitizeEmail` (`FILTER_SANITIZE_EMAIL`).
  - `SetRecipients`/`GetRecipients`, `SetHeader`/`SetHeaders`/`GetHeaders`/`GetHeader`, `SetBody`/`GetBody`.
  - `New` (the constructor), `Parameters` (the flattened map `getLink` encodes) and `GetLink`.
  - `Valid`: the invariant every setter preserves.
- `LinkParse`: a reader that takes the address part of a `mailto:` link verbatim up to the first `?` and percent-decodes only the header fields. It is the partner of `GetLink`: reading a rendered link back gives the recipients and every parameter. It is not an RFC 6068 client, which would also percent-decode the addresses and end the link at `#`.
- `Examples`: the scenarios of the repository's test suite, generalised over the strings that do not matter.

Strings are Dafny strings, that is, Unicode text. PHP holds the same text as UTF-8 bytes. `trim`, `strtolower` (as PHP 8.2 and later, or the C locale, define it), `explode(',')` and the sanitiser only ever look at ASCII bytes. Under UTF-8 those bytes never occur inside a multi-byte character. The model therefore applies these operations to characters. `rawurlencode` does see the bytes, so `Url.RawUrlEncode` encodes the UTF-8 form of its argument.

Recipients are inserted into the link without encoding, and the sanitiser keeps `?`, `&` and `=`. A recipient such as `a?subject=x` is therefore rendered exactly like the recipient `a` with a subject `x`. `Examples.QuestionMarkInRecipientIsAmbiguous` exhibits two valid states with the same link. The round trip `LinkParse.ParseGetLink` therefore requires that no recipient holds `?`.

The same holds for `%`, `#`, `[` and `]`. The sanitiser keeps them, and section 2 of RFC 6068 requires them to be percent-encoded in an address, but `getLink` emits them raw. A standard client therefore misreads such a recipient:
- it percent-decodes `a%40b` to `a@b`;
- it ends the URI at `#`, so `a#b` becomes the address `a` followed by a fragment.

`LinkParse` reads addresses verbatim, so its round trip is unaffected. `Examples.PercentInRecipientIsMisread` exhibits the `%` case.

In `getLink` the body is added when it is truthy in PHP's sense, so a body of `"0"` is dropped like an empty one. The model follows the code here, which is narrower than "added when non-empty".

## Model

| member | source | states |
|---|---|---|
| Formatter.SanitizeEmail | src/MailTo.php:226-229 | every character of the result is a letter, a digit or one of ``!#$%&'*+-=?^_`{\|}~@.[]``, and the result is no longer than the input |
| Formatter.SanitizeKeepsAllowed | src/MailTo.php:226-229 | every allowed character occurs in the result exactly as often as in the input |
| Formatter.SanitizeIsSubsequence | src/MailTo.php:226-229 | the result is the input with characters deleted, order kept |
| Formatter.SanitizeFixedPoint | src/MailTo.php:226-229 | an address is returned unchanged if and only if all its characters are allowed |
| Formatter.SanitizeIdempotent | src/MailTo.php:226-229 | sanitising twice is sanitising once |
| Formatter.SanitizeConcat | src/MailTo.php:226-229 | the filter works character by character: it distributes over concatenation |
| Formatter.SanitizedHasNoComma | src/MailTo.php:226-229 | a sanitised address never holds a comma |
| Formatter.SetRecipients | src/MailTo.php:93-100 | recipient i is `sanitizeEmail` of exploded piece i (string) or of list item i (list), one per piece or item; each is a fixed point of the sanitiser with no comma; headers and body untouched; the invariant is preserved |
| Formatter.SetRecipientsFromString | src/MailTo.php:95-99 | a comma-joined string of comma-free addresses sets the same recipients as the list of those addresses |
| Formatter.SetRecipientsReplaces | src/MailTo.php:99 | a second call leaves no trace of the first |
| Formatter.GetRecipients | src/MailTo.php:107-110 | in a valid state every returned address is sanitised and comma-free |
| Formatter.TrimEach | src/MailTo.php:135 | same number of pieces, piece i trimmed |
| Formatter.Normalize | src/MailTo.php:132-136 | a subject and any list are kept as given; another header's string becomes its comma-separated pieces, each trimmed, one item per piece |
| Formatter.SetHeader | src/MailTo.php:130-139 | the value is stored under the lower-cased name, normalised; every other header keeps its value; an existing name keeps its position, a new one is appended; recipients and body untouched; the invariant is preserved |
| Formatter.SetHeaderTwice | src/MailTo.php:138 | setting a header twice equals setting it once to the second value |
| Formatter.SetHeaderOverwrites | src/MailTo.php:138 | after an overwrite the name occurs exactly once, at the first write's position, holding the second value |
| Formatter.SetHeaders | src/MailTo.php:117-122 | every given name, lower-cased, is present afterwards; no name is lost; recipients and body untouched; the invariant is preserved |
| Formatter.SetHeadersAppend | src/MailTo.php:119-121 | the loop over a concatenation is the loop over each part in turn |
| Formatter.SetHeadersFrame | src/MailTo.php:117-122 | a header that none of the given names lower-cases to keeps its prior value |
| Formatter.SetHeadersLastWins | src/MailTo.php:119-121 | the last pair naming a header decides its value |
| Formatter.GetHeaders | src/MailTo.php:146-149 | in a valid state the names are unique and lower-case |
| Formatter.GetHeader | src/MailTo.php:160-163 | the stored value when the name is present, looked up without lower-casing, otherwise the default |
| Formatter.GetHeaderAfterSet | src/MailTo.php:160-163 | reading a header under its lower-cased name gives what setHeader stored |
| Formatter.SetBody | src/MailTo.php:170-173 | the stored body is the input minus a run of trim characters at each end, has none left at either end, and trimming it again changes nothing; the invariant is preserved |
| Formatter.GetBody | src/MailTo.php:180-183 | in a valid state the body has no surrounding whitespace |
| Formatter.New | src/MailTo.php:42-47 | the result is valid, and its recipients, headers and body are what the three setters produce from an empty state; the defaults `''`, `[]`, `''` are passed explicitly as `Str("")`, `[]`, `""` |
| Formatter.Flatten | src/MailTo.php:196-198 | a subject string passes through; any list, the empty one and items holding commas included, becomes its `implode(',')`; a list of comma-free items can be exploded back into exactly those items |
| Formatter.Truthy | src/MailTo.php:201 | a string is truthy exactly when it has two or more characters, or is one character other than `0` |
| Formatter.Parameters | src/MailTo.php:192-203 | the header names in order, with `body` appended only when the body is truthy and no `body` header exists; header values flattened; a truthy body under `body`; empty exactly when there are no headers and no truthy body |
| Formatter.GetLink | src/MailTo.php:190-217 | the link starts with `mailto:` and the comma-joined recipients; it is exactly that when there are no headers and no truthy body; otherwise it continues with `?` and the query |
| Formatter.StripQuestionMark | src/MailTo.php:211-214 | stripping a trailing `?` from `prefix?query`, where the query holds no `?`, removes the `?` exactly when the query is empty |
| Url.RawUrlEncode | src/MailTo.php:208 | the result is a well-formed encoded component of unreserved characters and `%XX`; an all-unreserved input comes back unchanged |
| Url.DecodeRawUrlEncode | src/MailTo.php:208 | percent-decoding the encoding gives back the UTF-8 bytes of the input |
| Url.DecodeEncodeBytes | src/MailTo.php:208 | percent-decoding undoes the byte encoding for every byte string |
| Url.RawUrlEncodeConcat | src/MailTo.php:208 | the encoding distributes over concatenation |
| Url.NoDelimiters | src/MailTo.php:208 | an encoded component holds none of `?`, `&`, `=`, `,` |
| Url.BuildQuery | src/MailTo.php:205-209 | the query never holds `?`, and it is empty exactly when there are no parameters |
| LinkParse.ParseGetLink | src/MailTo.php:205-216 | when no recipient holds `?`, reading the link back gives the comma-joined recipients and every parameter, in order, as UTF-8 bytes |
| LinkParse.RecipientsFromLink | src/MailTo.php:205-207 | in a valid state with recipients and no `?` among them, the address part of the link explodes into exactly the stored recipients |
| Text.Split | src/MailTo.php:96 | at least one piece; no piece holds the separator; joining the pieces gives the input back |
| Text.Join | src/MailTo.php:197 | `implode`, here and for the recipients at line 207: no parts give `""`; otherwise the result starts with the first part |
| Text.JoinSingle | src/MailTo.php:197 | `implode` of one part is that part |
| Text.JoinAppend | src/MailTo.php:197 | `implode` of two non-empty lists one after the other is the two implodes with one separator between them, whatever the parts hold; with `Text.JoinSingle` this fixes `implode` on every list |
| Text.SplitJoin | src/MailTo.php:96 | exploding the join of separator-free pieces gives those pieces back |
| Text.Trim | src/MailTo.php:172 | the result neither starts nor ends with a trim character and is the input minus a run of trim characters at each end |
| Text.TrimOfPadded | src/MailTo.php:172 | whatever is wrapped in trim characters and has none at its ends is exactly what trim returns |
| Text.TrimFixedPoint | src/MailTo.php:172 | trim leaves a string alone if and only if it has no trim character at either end |
| Text.TrimIdempotent | src/MailTo.php:172 | trimming twice is trimming once |
| Text.ToLower | src/MailTo.php:132 | same length, no upper-case ASCII letter left, each character kept or lowered from `A`..`Z` |
| Text.ToLowerFixedPoint | src/MailTo.php:132 | lower-casing leaves a string alone if and only if it has no upper-case ASCII letter |
| Text.ToLowerIdempotent | src/MailTo.php:132 | lower-casing twice is lower-casing once |
| OrderedMap.Put | src/MailTo.php:138 | the key maps to the new value; every other key keeps its value; an existing key keeps the key order, a new key is appended; no other entry moves; unique keys stay unique |
| OrderedMap.PutPut | src/MailTo.php:138 | writing a key twice equals writing only the second value |
| OrderedMap.PutNew | src/MailTo.php:202 | writing a key that is not there appends one entry at the end |
| OrderedMap.PutSingleEntry | src/MailTo.php:138 | after a write to a map with unique keys, the key occurs once, at its original position |
| OrderedMap.Lookup | src/MailTo.php:162 | absent exactly when the key is not among the keys; otherwise the value stored with it |
| OrderedMap.MapValues | src/MailTo.php:196-198 | the same keys in the same order, each value transformed |
| OrderedMap.LookupMapValues | src/MailTo.php:196-198 | looking up a transformed map gives the transformed value |
| Examples.SanitizeKeepsCleanAddress | tests/MailToTest.php:287-295 | `test@example.com` is returned unchanged |
| Examples.SanitizeDropsSpacesAndBackslash | tests/MailToTest.php:287-295 | two spaces around and a backslash inside a clean address are deleted |
| Examples.SanitizeDropsParentheses | tests/MailToTest.php:287-295 | `()` between a clean local part and a clean domain is deleted |
| Examples.RecipientsFromCommaString | tests/MailToTest.php:40-49 | `a, b` with clean `a` and `b` sets the recipients `[a, b]` |
| Examples.RecipientWithSpaces | tests/MailToTest.php:51-59 | ` a b ` with clean `a` and `b` sets the single recipient `ab` |
| Examples.RecipientsFromList | tests/MailToTest.php:61-72 | a list of clean addresses is stored as given |
| Examples.SubjectIsNotSplit | tests/MailToTest.php:105-113 | a subject holding commas is read back as given |
| Examples.HeaderValueSplit | tests/MailToTest.php:126-136 | any header other than subject, given one trimmed comma-free string, holds a one-item list under its lower-cased name |
| Examples.CommaSeparatedHeader | tests/MailToTest.php:154-165 | `a, b` for a header other than subject becomes the list `[a, b]` |
| Examples.BodyIsTrimmed | tests/MailToTest.php:209-215 | any body with no trim character at its ends, given with two leading spaces and a trailing newline, is stored without them |
| Examples.LinkWithSingleRecipient | tests/MailToTest.php:225-230 | one clean recipient and nothing else renders as `mailto:` and the address |
| Examples.LinkWithRecipients | tests/MailToTest.php:232-239 | clean recipients and nothing else render as `mailto:` and the comma-joined addresses |
| Examples.LinkWithHeaders | tests/MailToTest.php:241-252 | a subject and a cc render as `?subject=..&cc=..` with both values encoded, in that order |
| Examples.LinkWithBody | tests/MailToTest.php:254-270 | a truthy body set after construction renders as `?body=` and the encoded trimmed body |
| Examples.LinkWithListHeader | tests/MailToTest.php:272-285 | a two-item cc renders as `?cc=` and the encoding of the comma-joined items |
| Examples.EncodeMySubject | tests/MailToTest.php:248-251 | `My Subject` encodes to `My%20Subject` |
| Examples.EncodeAddress | tests/MailToTest.php:248-251 | an address with an unreserved local part and domain encodes only its `@`, as `%40` |
| Examples.EncodeCommaJoined | tests/MailToTest.php:281-284 | two comma-joined values encode to their encodings joined by `%2C` |
| Examples.QuestionMarkInRecipientIsAmbiguous | src/MailTo.php:205-207 | a recipient holding `?subject=v` and a plain recipient with subject `v` are two valid states with the same link |
| Examples.PercentInRecipientIsMisread | src/MailTo.php:205-207 | a valid recipient `local%40domain` appears unencoded in the link, and percent-decoding it, as an RFC 6068 client does with the address part, gives the bytes of the different address `local@domain` |
| Examples.DefaultConstructor | src/MailTo.php:42-47 | `new MailTo()` with its default arguments stores the single recipient `""`, no headers and an empty body, and renders `mailto:` |
| Examples.FlattenThreeItems | src/MailTo.php:196-198 | a list header `[a, b, c]` flattens to `a,b,c` for any items, commas inside them included |

## Left out

- The magic `__set`/`__get` dispatch (src/MailTo.php:58-86): it chooses a method by reflection at run time, and the typed setters and getters it forwards to are all modelled.
- PHP type juggling. Recipients and header values are modelled as a string or a list of strings.
  - Not modelled: other scalars, the `(array)` cast of a scalar at src/MailTo.php:197, integer array keys, and the type errors PHP raises for ill-typed arguments.
- Byte strings that are not valid UTF-8: they cannot be written as Dafny strings. `trim`, `strtolower` and the sanitiser act on ASCII only, so on valid UTF-8 the character view and the byte view agree.
- Locale-dependent `strtolower`: the ASCII-only behaviour of PHP 8.2 and later (or the C locale) is modelled. Under PHP 8.0 and 8.1 with another `LC_CTYPE` locale, bytes of 0x80 and above may also change.
- Formatter.GetHeader: the default is an optional header value (`None` for `null`), not an arbitrary PHP value.
- Formatter.SetHeaders: it takes a sequence of name/value pairs, which may repeat a name. A PHP array cannot repeat a key, but two keys can still collide after lower-casing, so the sequence covers every array the method can receive.
- Object identity and in-place mutation: the state is a value and each setter returns the new state.
- The state before the constructor runs (`body` still `null`): the model starts from `Formatter.Empty` and always applies the constructor's three setters.
- Default arguments of `__construct` (src/MailTo.php:42): Dafny functions take every argument, so `new MailTo()` is `Formatter.New(Str(""), [], "")`. Exploding `''` gives one empty piece, so it stores the single recipient `""` and renders `mailto:` (`Examples.DefaultConstructor`).
- Error conditions: the class signals none of its own, so the model has no error path.
