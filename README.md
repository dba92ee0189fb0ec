# pg-ruid core in Dafny

pg-ruid is a PostgreSQL extension that adds a 16-byte identifier type, the
RUID. This project models the core of `src/ruid.c`:

- the text output function `ruid_out`. It frames the 16 bytes with a zero
  byte on each side, base64-encodes the 18 bytes, and keeps the 22
  characters between the first and the last. In those it swaps `+` for `-`
  and `/` for `_`.
- the text input function `string_to_ruid`. It takes two forms:
  - a 22-character string goes through the compact branch, which inverts
    the output function;
  - any other string goes through the hexadecimal branch. That branch takes
    32 hex digits, with optional hyphens and optional braces.
- the binary wire codec `ruid_send` / `ruid_recv`.
- the comparator `ruid_internal_cmp`, a `memcmp` of the 16 bytes, and the
  seven SQL operators and support functions built on it: `ruid_lt`, `le`,
  `eq`, `ge`, `gt`, `ne` and `ruid_cmp`.
- the hash support function `ruid_hash`.

Modules:

- `Wrappers`: `Option`. It stands for a call that may raise `ereport(ERROR)`.
- `Bytes`: the `byte` type.
- `RuidTypes`: a `Ruid` is a sequence of exactly `RUID_LEN` = 16 bytes.
- `Base64`: base64 from section 4 of RFC 4648, on whole 3-byte groups.
  - It specifies the output of `b64_ntop` and `b64_pton`, which the source
    only declares.
  - Proved: `Encode` and `Decode` are inverse.
  - Proved: `Decode` fails exactly on characters outside the alphabet.
- `RuidCompact`: the compact form as functions.
  - `Format` specifies `ruid_out`. `ParseCompact` specifies the 22-character
    branch.
  - Proved: the round trip `ParseCompact(Format(v)) == Some(v)`.
  - Proved: `Format` is injective.
  - Proved: an exact description of which strings are canonical output.
  - Proved: the parser is lossy. It ignores the top two bits of the first
    character and the low two bits of the last, so distinct strings such as
    `AAAA…A` and `QAAA…A` name the same RUID.
- `RuidHex`: the hexadecimal form.
  - `ReadOctets` is the octet loop of `string_to_ruid` written recursively.
    `ParseHex` is the whole branch.
  - `Layout` is a separate reference grammar of the same language.
  - Proved against the grammar: completeness (every well-formed text parses
    to its digits' value) and soundness (whatever parses is such a text).
  - Proved: hyphens do not change the value.
  - Proved: trailing text and a missing closing brace are rejected.
  - Proved: accepted texts are 32 to 41 characters long.
  - Proved: every accepted hyphen sits between two hex digits.
- `RuidText`: the imperative C functions as methods, each proved equal to
  the function that specifies it.
  - `RuidOut` fills an 18-byte array and an output string.
  - `CompactToRuid` fills a 24-character array.
  - `HexToRuid` walks the input with a position and fills a 16-byte array.
  - Proved: the output parses back to the same value.
  - Proved: the compact text and the UUID-style hex text of a value parse to
    the same RUID.
- `RuidWire`: the `StringInfo` message buffer as a class with a byte
  sequence and a read cursor.
  - `pq_sendbytes` and `pq_getmsgbytes` are its methods.
  - `ruid_send` and `ruid_recv` are built on them.
  - Proved: bytes sent are received unchanged and in order.
- `RuidOrder`: `memcmp` as a recursive function.
  - Proved: its sign is the order of the 16 bytes read as a big-endian
    number, which is also the lexicographic byte order.
  - Proved: it is zero exactly on equal values.
  - The operators are functions whose contracts state the order they test.
  - `ruid_hash` takes `hash_any` as a function parameter. It agrees on equal
    values.

The code disagrees with its own comment in one place, and the model follows
the code. The comment at `src/ruid.c:115-116` says the 8-4-4-4-12 hex form
is the only one used for output. The code at `src/ruid.c:76-110` writes the
compact form, which is what `Format` models.

The comment at `src/ruid.c:112-114` allows a hyphen after each group of four
hex digits. The code at `src/ruid.c:176` agrees: one optional hyphen after
every odd octet but the last, that is after octets 1, 3, 5, 7, 9, 11 and 13,
never after the last group. `RuidHex.HyphenSlot` states that rule, and the
8-4-4-4-12 text puts its hyphens after octets 3, 5, 7 and 9 of those.

## Model

| member | source | states |
|---|---|---|
| Base64.DecodeEncode | src/ruid.c:25-26 | decoding the base64 text of whole 3-byte groups gives the bytes back |
| Base64.EncodeDecode | src/ruid.c:25-26 | every decodable text of whole 4-character groups is the encoding of what it decodes to |
| RuidCompact.Format | src/ruid.c:76-110 | the output is exactly 22 characters, all letters, digits, `-` or `_` |
| RuidCompact.ParseCompact | src/ruid.c:127-154 | a 22-character string is accepted exactly when every character is a letter, digit, `-` or `_` |
| RuidCompact.UrlSafeInverse | src/ruid.c:102-107 | the output substitution of `+`/`/` and the input substitution of `-`/`_` undo each other on their alphabets |
| RuidCompact.EncodedEnds | src/ruid.c:87-101 | the zero framing bytes make the first and the last of the 24 base64 characters `A`, so dropping them loses nothing |
| RuidCompact.FormatThenParse | src/ruid.c:127-154 | the compact branch reads the output of `ruid_out` back to the same RUID |
| RuidCompact.FormatInjective | src/ruid.c:76-110 | two RUIDs have the same compact text exactly when they are equal |
| RuidCompact.ParseThenFormat | src/ruid.c:132-151 | printing what a valid compact string parses to gives the string with its first character's top two bits and its last character's low two bits cleared |
| RuidCompact.NormalizeFixed | src/ruid.c:132-151 | a valid compact string is its own normal form exactly when its first character's value is below 16 and its last character's value is a multiple of 4 |
| RuidCompact.FormatImage | src/ruid.c:132-151 | a valid compact string is reproduced by parse-then-print exactly when its first character's value is below 16 and its last character's value is a multiple of 4 |
| RuidCompact.ParseCompactCollision | src/ruid.c:132-151 | two valid compact strings parse to the same RUID exactly when they agree after clearing those bits |
| RuidCompact.FormatZero | src/ruid.c:76-110 | the all-zero RUID prints as 22 `A`s |
| RuidCompact.ZeroCollision | src/ruid.c:132-151 | both 22 `A`s and `Q` followed by 21 `A`s parse to the all-zero RUID |
| RuidCompact.NormalizeLeadingQ | src/ruid.c:132-151 | those two distinct valid strings have the same normal form |
| RuidHex.HexValue | src/ruid.c:174 | a hex digit's value is below 16, so an octet's value fits a byte |
| RuidHex.HexDigitCaseInsensitive | src/ruid.c:169-174 | the upper- and lower-case forms of each letter digit `a`-`f` are both hex digits and have the same value |
| RuidHex.ReadBody | src/ruid.c:163-178 | the octet loop reads any well-formed run of digit pairs and allowed hyphens, whatever follows, and stops right after it |
| RuidHex.ReadOctetsSound | src/ruid.c:163-178 | whatever the octet loop reads is hex digit pairs with hyphens only in allowed slots |
| RuidHex.DigitsValueAppend | src/ruid.c:173-174 | each digit pair adds one octet, high digit times 16 plus low digit, at the end of the value |
| RuidHex.ParseHexComplete | src/ruid.c:156-189 | every text of 32 hex digits with hyphens only in allowed slots, bare or in braces, parses to its digits' value |
| RuidHex.ParseHexSound | src/ruid.c:156-189 | every text the hex branch accepts is such a layout, and its value is the digits' value |
| RuidHex.ParseHexIff | src/ruid.c:156-189 | the hex branch yields `v` exactly when the text is a well-formed layout of digits whose value is `v` |
| RuidHex.HyphensIgnored | src/ruid.c:176-177 | hyphens and braces do not change the parsed value |
| RuidHex.TrailingRejected | src/ruid.c:186-187 | any non-empty text after a well-formed hex text makes it invalid |
| RuidHex.UnclosedBraceRejected | src/ruid.c:180-182 | an opening brace without its closing brace is rejected |
| RuidHex.ParseHexLength | src/ruid.c:156-189 | an accepted hex text is between 32 and 41 characters long |
| RuidHex.AcceptedHyphensInside | src/ruid.c:176-177 | in an accepted hex text every hyphen sits between two hex digits, never at either end |
| RuidHex.ToHexDigitsValue | src/ruid.c:169-174 | writing each byte as two hex digits and reading them back gives the bytes |
| RuidHex.UuidTextParses | src/ruid.c:112-117 | the 8-4-4-4-12 hyphenated text of any RUID parses to that RUID |
| RuidText.RuidOut | src/ruid.c:76-110 | the array-and-loop encoder returns exactly the compact text `Format` |
| RuidText.CompactToRuid | src/ruid.c:127-154 | the 22-character branch, with its early exit on a bad character, returns exactly `ParseCompact` |
| RuidText.HexToRuid | src/ruid.c:156-195 | the pointer-walking hex branch returns exactly `ParseHex`, with every syntax error as `None` |
| RuidText.StringToRuid | src/ruid.c:118-196 | the input function returns exactly `Parse`: the compact branch for length 22, the hex branch otherwise |
| RuidText.RoundTrip | src/ruid.c:61-110 | `ruid_in` reads the output of `ruid_out` back to the same RUID |
| RuidText.ParseHexText | src/ruid.c:118-189 | a well-formed hex text is never 22 characters long, so the input function sends it to the hex branch and returns its value |
| RuidText.TextFormsAgree | src/ruid.c:112-117 | the compact text and the 8-4-4-4-12 hex text of a RUID parse to the same value |
| RuidText.ParseAccepts | src/ruid.c:118-196 | the input function accepts exactly the 22-character compact strings and the well-formed hex layouts |
| RuidOrder.MemCmpIsNumericOrder | src/ruid.c:228-232 | the sign of `memcmp` is the order of the bytes read as big-endian unsigned numbers |
| RuidOrder.MemCmpZeroIff | src/ruid.c:228-232 | `memcmp` is zero exactly when the byte strings are equal |
| RuidOrder.MemCmpIsLexicographic | src/ruid.c:228-232 | `memcmp` is negative exactly when the first differing byte of the first argument is smaller |
| RuidOrder.InternalCmp | src/ruid.c:228-232 | the comparator is zero exactly on equal RUIDs, negative exactly when the first is numerically smaller, positive exactly when larger |
| RuidOrder.CmpAntisymmetric | src/ruid.c:302-310 | swapping the arguments flips the sign of the comparison |
| RuidOrder.CmpTransitive | src/ruid.c:302-310 | the comparison is transitive, both strictly and non-strictly |
| RuidOrder.CmpTotal | src/ruid.c:302-310 | any two RUIDs are equal or one is below the other |
| RuidOrder.Lt | src/ruid.c:236-243 | `<` holds exactly when the first RUID is numerically smaller |
| RuidOrder.Le | src/ruid.c:247-254 | `<=` holds exactly when the first RUID is not numerically larger |
| RuidOrder.Eq | src/ruid.c:258-265 | `=` holds exactly when the 16 bytes are equal |
| RuidOrder.Ge | src/ruid.c:269-276 | `>=` holds exactly when the first RUID is not numerically smaller |
| RuidOrder.Gt | src/ruid.c:280-287 | `>` holds exactly when the first RUID is numerically larger |
| RuidOrder.Ne | src/ruid.c:291-298 | `<>` holds exactly when the RUIDs differ |
| RuidOrder.Cmp | src/ruid.c:302-310 | the btree support function is negative, zero or positive exactly when `<`, `=` or `>` holds |
| RuidOrder.OperatorsConsistent | src/ruid.c:236-298 | `<=` is `<` or `=`, `>=` is `>` or `=`, `<>` is not `=`, `<` is `>` swapped, and exactly one of `<`, `=`, `>` holds |
| RuidOrder.Hash | src/ruid.c:315-321 | the hash of a RUID is `hash_any` of its bytes, so equal RUIDs hash alike |
| RuidWire.MessageBuffer.Empty | src/ruid.c:221 | a new outgoing message is empty |
| RuidWire.MessageBuffer.Received | src/ruid.c:203 | an incoming message starts with its cursor at the first byte |
| RuidWire.MessageBuffer.SendBytes | src/ruid.c:222 | sending appends the bytes to the message and leaves the read cursor alone |
| RuidWire.MessageBuffer.GetMsgBytes | src/ruid.c:208 | reading `n` bytes returns the next `n` unread bytes and advances the cursor, or fails without moving it when fewer remain |
| RuidWire.RuidSend | src/ruid.c:215-225 | the binary form is the 16 bytes in order |
| RuidWire.RuidRecv | src/ruid.c:200-211 | receiving takes the next 16 bytes of the message unchanged, or fails when fewer remain |
| RuidWire.WireRoundTrip | src/ruid.c:200-225 | what `ruid_send` writes, `ruid_recv` reads back as the same RUID |
| RuidWire.WireSequence | src/ruid.c:200-225 | two RUIDs sent one after another in one message are received in the same order |

## Left out

- The PostgreSQL function-call glue is not modelled: `PG_FUNCTION_ARGS`, `PG_GETARG_*`, `PG_RETURN_*`, `palloc` and `ruid_in`'s wrapper. Each C function is modelled on its arguments and its result.
- `ereport(ERROR, …)` is modelled as the result `None`. The error code and the message quoting the input are not modelled. `pq_getmsgbytes`'s "insufficient data left in message" error is modelled the same way.
- The framing of a `bytea` by `pq_begintypsend` / `pq_endtypsend` is not modelled, including its length word. `RuidSend` returns the payload bytes.
- The internals of `StringInfo` are not modelled: allocation, growth and the NUL terminator. The model keeps its bytes and read cursor.
- RuidOrder.Hash: `hash_any` is a parameter, since its code is not part of this model. The contract states only that the result is `hash_any` of the 16 bytes.
- RuidOrder.MemCmp: the magnitude of `memcmp`'s result is implementation-defined. The model returns the difference of the first differing bytes, and contracts state only the sign.
- The C strings are modelled as the characters before the terminating NUL, so `strlen` is the sequence length. A `'\0'` inside the sequence is treated as an ordinary invalid character.
- `isalpha`, `isdigit` and `isxdigit` are taken in the C locale: ASCII letters and digits only. Other locales are not modelled.
- `b64_ntop` and `b64_pton` are modelled only on whole groups, which is all `src/ruid.c` uses: 18 bytes out and 24 characters in.
  - Their handling of padding, whitespace and undersized buffers is not modelled.
  - The length check at `src/ruid.c:147` can never fail once every character has passed the check at `src/ruid.c:138`. `CompactToRuid` proves this with an assertion instead of keeping a dead branch.
- The `(unsigned char)` casts and the `strtoul` call at `src/ruid.c:169-174` are modelled by their effect on two hex digits: `OctetValue`.
