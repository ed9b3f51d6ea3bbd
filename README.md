# Authenticator: a verified model

This project models the `Authenticator` class of a small C# library for time-based
one-time passcodes. The class holds four things:

- an optional secret key;
- a passcode length, 6 by default;
- an expiry in seconds, 30 by default;
- a replay cache of the hash codes of accepted passcodes, each stamped with the second it
  was accepted.

It does four things:

- It derives the passcode for a timestamp. The source seeds `System.Random` with the first
  four bytes of HMAC-SHA256(secret, timestamp), then draws `Length` digits with
  `Next(0, 9)`.
- It verifies a passcode. A code of the wrong length is refused at once. Otherwise the
  expired cache records are removed in place, and a code whose hash is still cached is
  refused. Then every second of `[now - Expire, now)` is tried, oldest first, and the
  first match is recorded and accepted.
- It clears the cache.
- It exports and imports the secret together with a name and a description. The byte
  layout is the magic `41 55 54 48` ("AUTH"), then, for the name, the description and the
  secret in that order, a little-endian int32 length followed by the bytes.

The modules follow the program's structure:

- `Results`: the exceptions as `Failure` values, plus `Option` for the nullable secret.
- `Binary`: bytes, `int` and the little-endian form that `BinaryWriter` and `BinaryReader`
  use.
- `Utf8`: `Encoding.UTF8.GetBytes`, `GetString`, and `string.Length` counted in UTF-16
  code units.
- `Passcode`: the digit draw.
- `ReplayCache`: the hash records and the prune, as a reference function.
- `Codec`: the export layout (as written, and with byte-count prefixes), the read
  functions, the `BinaryWriter` and `BinaryReader` cursors, and a strict decoder that
  refuses a field shorter than its prefix.
- `Authenticators`: the class itself. Its fields update in place, and its methods carry
  the source's loops.

Verify's two loops are the methods `PruneAndLookUp` and `ScanWindow`, and `Verify` calls
them in the source's order. Each loop is proved against a function:

- the prune against `ReplayCache.Prune`;
- the window scan against `InWindow`, which says some second of the window derives the
  code.

## Model

| member | source | states |
|---|---|---|
| Authenticators.Authenticator.constructor | Authenticator.cs:8-19 | no secret, length 6, expiry 30, empty cache |
| Authenticators.Authenticator.WithSecret | Authenticator.cs:25-28 | the given secret, default length and expiry, empty cache |
| Authenticators.Authenticator.WithLengthExpire | Authenticator.cs:35-39 | no secret, the given length and expiry, empty cache |
| Authenticators.Authenticator.WithSecretLength | Authenticator.cs:46-50 | the given secret and length, default expiry, empty cache |
| Authenticators.Authenticator.WithSecretLengthExpire | Authenticator.cs:58-63 | the given secret, length and expiry, empty cache |
| Passcode.Next | Authenticator.cs:115 | `Random.Next(min, max)` returns at least `min` and below the exclusive `max`, or `min` when the range is empty |
| Passcode.DigitIndex | Authenticator.cs:115 | the drawn index lies in 0..8, so it never reaches the last entry of the ten-digit table |
| Passcode.Code | Authenticator.cs:111-118 | the reference passcode: one table digit per position. Its own contract is only the length (`Length`, or none when `Length <= 0`); the digit range is `Passcode.CodeShape` |
| Passcode.CodeShape | Authenticator.cs:111-118 | a passcode has `Length` characters (none when `Length <= 0`), each one of '0' to '8': the digit '9' never appears |
| Passcode.CodeUtf16Length | Authenticator.cs:113-118 | a passcode's `string.Length` is `Length` (0 when `Length <= 0`), so for `Length >= 0` every passcode passes the length check at line 144 |
| Authenticators.Authenticator.GetCode | Authenticator.cs:77-120 | fails when no secret is set; otherwise the digit-by-digit loop builds exactly the passcode `Code` defines for the timestamp |
| Authenticators.Authenticator.Clear | Authenticator.cs:125-128 | the cache is empty afterwards |
| ReplayCache.Prune | Authenticator.cs:155-166 | the reference for the removal loop: the fresh records in their order. Its own contract is only that the list does not grow; what survives is `ReplayCache.PruneKeepsExactlyFresh` |
| ReplayCache.PruneKeepsExactlyFresh | Authenticator.cs:155-166 | every survivor of a prune is fresh (`now - time <= expire`), and a record survives exactly when it was present and fresh |
| ReplayCache.PruneAppend | Authenticator.cs:155-166 | pruning distributes over concatenation: survivors keep their relative order |
| ReplayCache.PruneSnoc | Authenticator.cs:157-161 | visiting one more record keeps it exactly when it is fresh |
| ReplayCache.ContainsSnoc | Authenticator.cs:162-165 | the `used` lookup over a list grown by one record is the old lookup or a match on that record |
| ReplayCache.PruneIdempotent | Authenticator.cs:155-166 | a second prune at the same time changes nothing |
| ReplayCache.RecordSurvivesPrune | Authenticator.cs:155-166 | a record still fresh at `now` is found by the lookup after the prune |
| Authenticators.Authenticator.PruneAndLookUp | Authenticator.cs:152-166 | the in-place removal loop (`RemoveAt(i); i--`) leaves exactly `Prune` of the old cache, and `used` holds exactly when a surviving record carries the code's hash |
| Authenticators.Authenticator.ScanWindow | Authenticator.cs:173-187 | with expiry <= 0 nothing is tried; with no secret, deriving fails; otherwise the result is whether some second of `[now - expire, now)` derives the code, and one record `(hash, now)` is appended exactly on acceptance |
| Authenticators.Authenticator.Verify | Authenticator.cs:142-188 | a wrong-length code gives `false` with the cache untouched; otherwise the cache becomes its prune, then a cached hash gives `false`, an empty window gives `false`, a missing secret fails, and otherwise the code is accepted exactly when the window derives it, with the acceptance record appended |
| Authenticators.Authenticator.WindowAcceptance | Authenticator.cs:142-188 | with `Length >= 0` and a secret set, a code derived for some second of `[now - expire, now)`, whose hash is not cached after the prune, is accepted, and the cache becomes the prune plus its record |
| Authenticators.Authenticator.ReplayIsRejected | Authenticator.cs:155-183 | once a code is accepted at `now`, verifying any code with the same hash within `expire` seconds gives `false` |
| Binary.Int32ToLe | Authenticator.cs:210 | `BinaryWriter.Write(int)` gives four bytes whose top bit is the sign |
| Binary.LeToInt32OfInt32ToLe | Authenticator.cs:246-248 | `ReadInt32` gives back what `Write(int)` wrote, for every int |
| Binary.Int32ToLeOfLeToInt32 | Authenticator.cs:246-248 | every four bytes are the form of exactly one int |
| Binary.LeToInt32 | Authenticator.cs:246-248 | `ReadInt32`'s decoding: negative exactly when the top bit of the last byte is set; the inverse lemmas pin the value |
| Utf8.EncodeChar | Authenticator.cs:211 | one scalar value takes 1 to 4 UTF-8 bytes, and one byte exactly when it is ASCII |
| Utf8.Encode | Authenticator.cs:211-217 | `GetBytes`. Its own contract is only that there are at least as many bytes as characters; `Utf8.DecodeEncode` and `Utf8.EncodeAscii` state what it means |
| Utf8.Decode | Authenticator.cs:246-247 | `GetString`, replacing each ill-formed subpart with U+FFFD: never more characters than bytes |
| Utf8.Utf16Length | Authenticator.cs:210-216 | `string.Length` as UTF-16 code units, as the prefixes here and the length gate of Verify use it. Its own contract is only that it is at least the character count; `Utf8.Utf16LengthVersusUtf8` relates it to the UTF-8 size |
| Utf8.DecodeEncode | Authenticator.cs:246-247 | `GetString` undoes `GetBytes` for every string |
| Utf8.Utf16LengthVersusUtf8 | Authenticator.cs:210-217 | `string.Length` never exceeds the UTF-8 byte count, and equals it exactly on ASCII text |
| Utf8.EncodeAscii | Authenticator.cs:211 | on ASCII text UTF-8 copies each character's code into one byte |
| Codec.Encode | Authenticator.cs:205-225 | the corrected layout, whose text prefixes are byte counts (Export writes `Codec.EncodeAsWritten` instead): 16 bytes plus the three field lengths, magic first |
| Codec.EncodeLayout | Authenticator.cs:205-225 | where each part of the corrected layout `Codec.Encode` sits: with n and m the byte counts of name and description, the name's prefix at offset 4 and its bytes at 8, the description's prefix at 8 + n and its bytes at 12 + n, the secret's prefix at 12 + n + m and the secret from 16 + n + m to the end |
| Codec.EncodeAsWritten | Authenticator.cs:205-225 | the layout with the `string.Length` prefixes the source writes: the same size, and the magic first |
| Codec.ReadBytesAt | Authenticator.cs:242-248 | `ReadBytes(count)` fails on a negative count, and otherwise returns the next `min(count, remaining)` bytes and moves past them |
| Codec.ReadInt32At | Authenticator.cs:246-248 | `ReadInt32` fails exactly when fewer than 4 bytes remain, and otherwise decodes the next four |
| Codec.ReadFieldAt | Authenticator.cs:246-248 | `ReadBytes(ReadInt32())`: on success the read moves past the 4-byte prefix and stays within the data |
| Codec.Decode | Authenticator.cs:234-256 | an import reports "not an export" exactly when the first (up to) four bytes are not the magic |
| Codec.ReadField | Authenticator.cs:246-248 | a field written at any position is read back whole from there |
| Codec.RoundTrip | Authenticator.cs:194-256 | the corrected byte-count layout `Codec.Encode` is read back whole by the import, name, description and secret, for all text. The layout Export writes is not (see Findings) |
| Codec.ReadExactAt | Authenticator.cs:246-248 | the corrected byte read: fails exactly when the count is negative or runs past the data (a `Truncated` error for the latter), and otherwise returns exactly `count` bytes, the same ones `ReadBytesAt` returns |
| Codec.ReadFieldExactAt | Authenticator.cs:246-248 | the corrected field read: where the lenient read succeeds, this one succeeds exactly when the field has as many bytes as its prefix says, fails with `Truncated` otherwise, and agrees with the lenient result when it succeeds |
| Codec.DecodeStrict | Authenticator.cs:234-256 | the corrected import: "not an export" exactly on a wrong header; whatever it accepts, `Codec.Decode` accepts with the same result; and where `Codec.Decode` succeeds but it fails, the error is `Truncated` |
| Codec.ReadFieldExact | Authenticator.cs:246-248 | a field written at any position is read back whole by the strict read |
| Codec.StrictRoundTrip | Authenticator.cs:194-256 | the corrected byte-count layout `Codec.Encode` is read back whole by the strict import as well, for all text |
| Codec.ShortField | Authenticator.cs:248 | a field whose prefix promises more bytes than remain: `ReadBytes(ReadInt32())` returns the bytes that are left, the strict read fails with `Truncated` |
| Codec.LeadingFields | Authenticator.cs:246-247 | the name and description fields of an export are read back whole, whatever follows them |
| Codec.TruncatedSecretAccepted | Authenticator.cs:246-248 | for every name and description, an export whose secret prefix promises more bytes than follow is imported with the bytes that are there as the secret |
| Codec.StrictRejectsTruncatedSecret | Authenticator.cs:246-248 | the strict import refuses every such export with `Truncated` |
| Codec.AsWrittenAgreesOnAscii | Authenticator.cs:210-217 | on ASCII names and descriptions the as-written layout is the correct one |
| Codec.AsWrittenBreaksNonAsciiImport | Authenticator.cs:210-217 | exporting the name "é" as written and importing it fails at the end of the stream |
| Codec.BinaryWriter.constructor | Authenticator.cs:198-200 | a fresh writer has written nothing |
| Codec.BinaryWriter.Write | Authenticator.cs:205 | writing bytes appends them to the stream |
| Codec.BinaryWriter.WriteInt32 | Authenticator.cs:210 | writing an int appends its four little-endian bytes |
| Codec.BinaryReader.constructor | Authenticator.cs:238-240 | a fresh reader stands at position 0 of the array |
| Codec.BinaryReader.ReadBytes | Authenticator.cs:242 | the cursor form of `ReadBytesAt`: the same bytes or error, and the position moves past them |
| Codec.BinaryReader.ReadInt32 | Authenticator.cs:246-248 | the cursor form of `ReadInt32At` |
| Authenticators.Authenticator.Export | Authenticator.cs:194-228 | fails when no secret is set; otherwise the writes, with `string.Length` as each text prefix, produce exactly `Codec.EncodeAsWritten` of the details and the secret |
| Authenticators.Authenticator.Import | Authenticator.cs:234-256 | a wrong header gives `false`, empty details and no change; a failed read raises its error and leaves the secret alone; a complete read returns `true` and the decoded details, and replaces the secret |
| Authenticators.Authenticator.TransferSecret | Authenticator.cs:194-256 | for an ASCII name and description, importing one object's export into another restores the details and gives it the same secret (on other text the pair can fail, e.g. for the name "é", see Findings) |

## Left out

- HMAC-SHA256, `BitConverter` and `System.Random`'s sample sequence are not modelled. The
  class takes them as one function, `draw`, that gives the i-th raw sample for (secret,
  timestamp). Derivation is proved against that function, so the passcode is stated in
  terms of it.
- Passcode.Next: the raw sample is reduced by a modulo, where .NET scales a floating-point
  sample instead. The promised range, `[min, max)`, is the same.
- `string.GetHashCode` is the function `hashOf`, so two codes may collide; ReplayIsRejected
  is stated for any code with the same hash.
- The clock (`DateTimeOffset.Now`) is the parameter `now`. Verify reads the clock twice,
  at line 146 and at line 180. The model uses one value for both reads.
- The parameterless `GetCode()` at lines 133-136 is `GetCode(now)` and has no member of
  its own.
- Authenticators.Authenticator.Verify: 64-bit wrap-around of `timestamp - Expire` and of
  `timestamp - Time` is not modelled, because times are unbounded integers.
- Authenticators.Authenticator.Export requires every field to be shorter than 2^31 bytes,
  since no .NET array is longer.
- Codec.Encode requires every field to be shorter than 2^31 bytes, for the same reason.
- Authenticators.Authenticator.TransferSecret requires an ASCII name and description,
  because only there does the `string.Length` prefix Export writes match the byte count
  Import reads (see Findings).
- Authenticators.Authenticator.TransferSecret gives the target the same secret, but the
  passcode generator `draw` belongs to each object. Equal passcodes on the two objects are
  therefore not stated.
- Import models the source's lenient `ReadBytes`. The strict decoder
  `Codec.DecodeStrict` is not used by any method of the class.
- The secret is a value. Aliasing of the caller's `byte[]` with the `Secret` field is not
  modelled.
- Authenticators.Authenticator.Import does not state its `details` out-parameter when a
  read fails. In the source it is the caller's variable, passed by reference, so it may be
  left partly written (empty details, or the name already set) when a later read throws.
- Exception messages, `using`/`Dispose`, and the `MemoryStream` itself are not modelled.
  The stream is the `written` and `data` sequences of the writer and reader.
- A Dafny `char` is a Unicode scalar value, so strings holding lone surrogates, which
  `GetBytes` replaces with U+FFFD, are not modelled.
- Codec.ReadBytesAt: the .NET allocation limits are not modelled. `BinaryReader.ReadBytes`
  allocates `new byte[count]` before reading, so a count above the largest byte-array
  length (0x7FFFFFC7) throws `OutOfMemoryException`. `Codec.ReadBytesAt`,
  `Codec.BinaryReader.ReadBytes`, `Codec.Decode` and Import instead return the remaining
  bytes for such a count. In the same way, Export's `MemoryStream` throws `IOException`
  once the total length passes that limit, while `Codec.Encodable` bounds each field and
  not their sum.
- `Random.Next` throws when `min > max`. The only call passes `(0, 9)`, so `Next` requires
  `min <= max` instead.
- Program.cs, the command-line demo, is not part of this model.

## Findings

| source | as written | input that shows it | evidently intended | confidence | as-written member | corrected member |
|---|---|---|---|---|---|---|
| Authenticator.cs:210-217 | the length prefix of the name and of the description is `string.Length`, a count of UTF-16 code units, but the bytes after it are UTF-8 | name "é": the prefix says 1 but two bytes follow. Import takes one byte, then reads `A9 00 00 00` = 169 as the description length, and the final `ReadInt32` hits the end of the stream | the prefix is the UTF-8 byte count, so that Import reads back what Export wrote | high (not executed) | Codec.AsWrittenBreaksNonAsciiImport | Codec.RoundTrip |
| Authenticator.cs:246-248 | `ReadBytes` returns fewer bytes than its count when the data runs out, and Import accepts the short result | any export whose secret prefix exceeds the bytes left, e.g. a prefix of 5 followed by 2 bytes: Import returns `true` with the 2-byte secret `[1, 2]` | a length prefix that runs past the end of the data is a format error, not a shorter field | medium (not executed) | Codec.TruncatedSecretAccepted | Codec.DecodeStrict |
