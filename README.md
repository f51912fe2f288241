# MailForwarder in Dafny

MailForwarder polls an IMAP inbox. It forwards every message addressed to
`MailTo` to `FowardTo`. The forwarded copy gets a Sender Rewriting Scheme (SRS)
sender address, so the receiving side can reply. It also sends every message
addressed to a rewritten SRS address back to the original sender, once the SRS
check accepts that address.

This project models the two parts of `MailForwarder.Lib` that make those
decisions, and proves properties of the model.

- **The `SRS` class** (`SRS.cs`):
  - Helpers:
    - `GetBytes` splits an int into little-endian bytes.
    - `Encode` is a custom base32 bit packer. It packs bits least significant first, puts each symbol in front of the ones before it, and takes an optional bit limit.
    - `Decode` is the unpacker. It reads the string from its end, skips characters outside the alphabet, and fills an array sized `ceil(5n/8)`, n counted in characters.
  - Tags:
    - The 2-character timestamp tag is a 10-bit day counter.
    - The 3-character hash tag is a prefix of the encoded HMAC-SHA1 digest.
  - `BuildSRSAddress` builds the address. It applies six `Replace` calls, one after the other, to the configured or the default template.
- **The `MailForwarder` class** (`MailForwarder.cs`):
  - One pass of `ProcessMails` over the messages the search returned;
  - the two rules that classify each message (forward, return);
  - the in-place rewrites `ForwardMessage` and `SendBackMessage`;
  - the copy to the sent folder and the move to the archive in `SendMessage`.

## Modules

| file | module | what it holds |
|---|---|---|
| `wrappers.dfy` | `Wrappers` | `Option`; `GetOr` is C#'s `??` |
| `seqs.dfy` | `Seqs` | small sequence lemmas |
| `bits.dfy` | `Bits` | powers of two, the bit values of shifts, bit strings, `|` on disjoint bits |
| `codec.dfy` | `Codec` | `GetBytes`, `Encode` and `Decode` as methods that follow the C# loops, against the functions `LittleEndian`, `Encoded` and `Decoded` |
| `codec_laws.dfy` | `CodecLaws` | lengths, alphabet, skipping and round trips of the codec |
| `strings.dfy` | `Strings` | `string.Contains` and `string.Replace`, compared ordinally |
| `configuration.dfy` | `Configuration` | the settings and the defaults the code falls back on |
| `srs.dfy` | `Srs` | timestamp tag, hash tag, `BuildSRSAddress` |
| `mime.dfy` | `Mime` | mailbox and group addresses, headers, local part and domain |
| `forwarding.dfy` | `Forwarding` | the `Message` and `MailForwarder` classes and the pass |

**How the forwarder is modelled**
- Message headers:
  - A fetched message is a `Message` object with sequence fields.
  - `ForwardMessage` and `SendBackMessage` reassign those fields in place.
  - `HandleMessage` calls them on the same object, so the return rule sees the To list as the forward left it.
- The mail transport is an event log that `SendMessage` appends to: `Sent`, `Appended`, `Moved`.
- Each method is proved against a function on header values:
  - `SendEvents`, `Forward`, `SendBack` and `Handle` for one message;
  - `Process`, built on `Run` and `Steps`, for the pass.
- Exceptions end the pass:
  - `Cast<MailboxAddress>()` throws on a group address.
  - `From.First()` throws on an empty From list.
  - The outcome `Aborted(i)` records either case; the events already logged stay.

Differences between the code and descriptions of the system; the model follows the code:
- The SRS sender's new domain and local part come from the To address that matched, which is `MailTo` (MailForwarder.cs:154). They do not come from `FowardTo`.
- The code replaces six placeholders, including `{newSenderLocalPart}`. The default template does not contain that one, so it is never used there (SRS.cs:31-37).
- The code reads `MailToName`, `FowardToName` and `SRSSearchTerm`, but `MailForwarderConfiguration` does not declare them. The model treats them as optional strings; the defaults are `""` or `"+SRS="` (MailForwarder.cs:62, 118, 142).
- `BuildSRSAddress` reaches the forwarder through `Forwarding.SrsObject`. It is the `Srs.Address` function, with the HMAC and the day counter fixed.

## Model

| member | source | states |
|---|---|---|
| Codec.GetBytes | MailForwarder.Lib/SRS.cs:61-70 | a fresh array of `size` bytes whose byte i is `(byte)(value >> (8i mod 32))`, C#'s shift-count masking included |
| Codec.LittleEndianValue | MailForwarder.Lib/SRS.cs:61-70 | for up to 4 bytes and a value that fits, the bytes of GetBytes read back little-endian are the value |
| Codec.Encode | MailForwarder.Lib/SRS.cs:73-104 | the loop's output is `Encoded(data, bitsAmount)`: the kept bits cut into 5-bit groups, least significant first, the last group padded on the right, each symbol put in front |
| Codec.Decode | MailForwarder.Lib/SRS.cs:106-132 | the array is `Decoded(base32)`: the symbols read from the end, 5 bits each, packed into bytes, then zeros to the capacity `ceil(5n/8)` |
| CodecLaws.EncodedLength | MailForwarder.Lib/SRS.cs:73-104 | the output has `ceil(min(bitsAmount, 8n)/5)` characters |
| CodecLaws.EncodedAlphabet | MailForwarder.Lib/SRS.cs:16-104 | every output character is from `ABCDEFGHIJKLMNOPQRSTUVWXYZ234567` |
| CodecLaws.RenderAt | MailForwarder.Lib/SRS.cs:89-102 | character k of the output is the symbol emitted k-th from last, so the first character is the last group emitted |
| CodecLaws.TwoBytesTenBits | MailForwarder.Lib/SRS.cs:55-102 | two bytes with the 10-bit limit give exactly two characters: `alph[(v>>5)&31]` then `alph[v&31]` for v the little-endian value |
| CodecLaws.DecodedLength | MailForwarder.Lib/SRS.cs:109-110 | the array always has `ceil(5n/8)` bytes, n the number of characters (Unicode scalar values) of the string |
| CodecLaws.DecodedZeros | MailForwarder.Lib/SRS.cs:109-129 | the array starts with the decoded bytes and every slot after them is 0 |
| CodecLaws.PaddingNotInAlphabet | MailForwarder.Lib/SRS.cs:115 | `=` is not a symbol |
| CodecLaws.DecodeSkips | MailForwarder.Lib/SRS.cs:115 | a character outside the alphabet changes nothing but the capacity: the bytes are those of the string without it, followed by zeros |
| CodecLaws.EncodeDecode | MailForwarder.Lib/SRS.cs:73-132 | decoding what Encode made of a multiple of 5 bytes gives the bytes back |
| CodecLaws.EncodeDecodeIff | MailForwarder.Lib/SRS.cs:73-132 | that round trip holds exactly when the length is a multiple of 5 |
| CodecLaws.RoundTripLength | MailForwarder.Lib/SRS.cs:73-132 | otherwise decoding gives one byte too many |
| CodecLaws.DecodeEncode | MailForwarder.Lib/SRS.cs:73-132 | a string of alphabet characters whose length is a multiple of 8 decodes to 5/8 as many bytes, which encode back to the string |
| CodecLaws.TenBitRoundTrip | MailForwarder.Lib/SRS.cs:55-132 | two bytes whose second fits in 2 bits survive the 10-bit encoding and decoding |
| Srs.TimestampShape | MailForwarder.Lib/SRS.cs:50-59 | the tag of counter `now` is the two symbols of bits 5..9 and bits 0..4 |
| Srs.TimestampAlphabet | MailForwarder.Lib/SRS.cs:50-59 | the timestamp tag is always two alphabet characters |
| Srs.TimestampModulo | MailForwarder.Lib/SRS.cs:54-57 | only the counter modulo 1024 matters, so the 1024 that rounding can produce gives the tag of 0 |
| Srs.TimestampRoundTrip | MailForwarder.Lib/SRS.cs:54-132 | for a counter below 1024, decoding the tag gives `GetBytes(now, 2)` back |
| Srs.TimestampInjective | MailForwarder.Lib/SRS.cs:54-57 | distinct counters below 1024 have distinct tags |
| Srs.TimestampOnto | MailForwarder.Lib/SRS.cs:54-57 | every pair of alphabet characters is the tag of a counter below 1024 |
| Srs.HashTagShape | MailForwarder.Lib/SRS.cs:41-48 | the hash tag is the first 3 of the 32 characters encoding the 20-byte digest of the key (default `R2D2`) and clear text, all from the alphabet |
| Srs.Placeholders | MailForwarder.Lib/SRS.cs:31-37 | each of the six placeholders is a brace-delimited word |
| Srs.DistinctPlaceholders | MailForwarder.Lib/SRS.cs:32-37 | a placeholder occurs in another only when they are the same |
| Srs.AddressDefault | MailForwarder.Lib/SRS.cs:27-39 | with the default template and values that bring in no later placeholder, the address is `SRS0=hash=timestamp=origDomain=origLocalPart@newDomain` |
| Srs.AddressPlain | MailForwarder.Lib/SRS.cs:27-39 | a template holding none of the placeholders is returned as it is |
| Srs.AddressRescans | MailForwarder.Lib/SRS.cs:32-37 | later replacements scan values put in earlier: an original domain spelling `{newSenderDomain}` comes out as the new domain |
| Strings.ReplaceAbsent | MailForwarder.Lib/SRS.cs:32-37 | `Replace` leaves a string without an occurrence unchanged |
| Strings.ReplaceSame | MailForwarder.Lib/SRS.cs:32-37 | replacing a value by itself changes nothing |
| Strings.ReplaceWhole | MailForwarder.Lib/SRS.cs:32-37 | a placeholder on its own becomes its value |
| Strings.ReplaceConcat | MailForwarder.Lib/SRS.cs:32-37 | where no occurrence can straddle the seam, `Replace` works on the two parts separately |
| Mime.LastIndexOf | MailForwarder.Lib/MailForwarder.cs:154 | the position of the last occurrence, or -1 with no occurrence |
| Mime.SplitAddress | MailForwarder.Lib/MailForwarder.cs:154 | an address with an '@' is its local part, '@' and domain, and the domain has no '@' |
| Mime.JoinAddress | MailForwarder.Lib/MailForwarder.cs:111-112 | `localPart@domain` splits back into those parts when the domain has no '@' |
| Mime.NoAt | MailForwarder.Lib/MailForwarder.cs:154 | an address without '@' is all local part and has an empty domain |
| Mime.PartsLack | MailForwarder.Lib/MailForwarder.cs:154 | a character the address lacks is in neither part |
| Forwarding.FirstMatchAt | MailForwarder.Lib/MailForwarder.cs:71-79 | the lazy `Cast<MailboxAddress>().FirstOrDefault` stops at the first entry that is not a failing mailbox: a match is found, a group throws, no such entry finds nothing |
| Forwarding.StopExists | MailForwarder.Lib/MailForwarder.cs:71-79 | every list has such a stopping point |
| Forwarding.FoundMatches | MailForwarder.Lib/MailForwarder.cs:71-79 | a found address is a mailbox of the list that passes the rule |
| Forwarding.NotFoundAll | MailForwarder.Lib/MailForwarder.cs:71-79 | nothing is found exactly when every entry is a mailbox that fails the rule |
| Forwarding.SingleMailbox | MailForwarder.Lib/MailForwarder.cs:79-144 | a one-mailbox list finds that mailbox exactly when it passes the rule |
| Forwarding.SendEventsGating | MailForwarder.Lib/MailForwarder.cs:201-226 | the send comes first and once; the copy to the sent folder happens iff `ImapSentFolder` is non-empty; the move happens iff `ImapArchivFolder` is non-empty and the server can move, and then it comes last |
| Forwarding.ForwardEffects | MailForwarder.Lib/MailForwarder.cs:135-171 | a group among the To addresses throws; a match makes FowardTo the only recipient, and an empty From then throws; a message is sent iff the first From is a mailbox and an SRS object exists; otherwise only To changes; the subject never changes |
| Forwarding.ForwardSrsSender | MailForwarder.Lib/MailForwarder.cs:142-167 | a forwarded message has To = [target], From = [(original name, SRS address from the original sender's parts and MailTo's parts)], Reply-To = [original sender], no Cc, Bcc or Sender, and the send events |
| Forwarding.ForwardDefaultSender | MailForwarder.Lib/MailForwarder.cs:150-155 | with the SRS object and the default template, that From is `SRS0=hash=timestamp=origDomain=origLocalPart@domain-of-MailTo` for addresses without a '{' |
| Forwarding.ReturnAfterForward | MailForwarder.Lib/MailForwarder.cs:71-144 | after a forward the return rule sees FowardTo alone: it finds it iff FowardTo contains the search term, and it cannot throw |
| Forwarding.SendBackEffects | MailForwarder.Lib/MailForwarder.cs:96-133 | a group throws; the message goes out iff an address with the term is found, an SRS object exists and the check accepts; it then goes to `localPart@domain` of the decoders from `MailTo` (name `MailToName` or ""), with that as Reply-To and no Cc, Bcc or Sender; otherwise it is unchanged |
| Forwarding.SendBackRecipient | MailForwarder.Lib/MailForwarder.cs:109-115 | the returned message's recipient splits back into the decoded local part and domain |
| Forwarding.HandleNotForwarded | MailForwarder.Lib/MailForwarder.cs:70-83 | a message not addressed to MailTo goes through the return rule alone |
| Forwarding.HandleIgnores | MailForwarder.Lib/MailForwarder.cs:70-83 | a message neither rule finds an address in is left alone and nothing is sent |
| Forwarding.HandleForwarded | MailForwarder.Lib/MailForwarder.cs:70-83 | a forwarded message is sent back as well exactly when FowardTo holds the search term, on its rewritten headers |
| Forwarding.Run | MailForwarder.Lib/MailForwarder.cs:66-85 | the pass leaves one header set per message, and an abort names a message of the pass |
| Forwarding.RunSpec | MailForwarder.Lib/MailForwarder.cs:66-85 | with k the first step that throws, the pass ends Aborted(k) or Completed, logs the events of the steps up to k in order, and leaves the messages after k unchanged |
| Forwarding.PassSpec | MailForwarder.Lib/MailForwarder.cs:26-85 | the same for ProcessMails with MailTo set, in terms of handling each message on its own headers |
| Forwarding.ProcessUnconfigured | MailForwarder.Lib/MailForwarder.cs:28-32 | with MailTo null or empty, nothing is logged and every message is left as it was |
| Forwarding.AbortedRest | MailForwarder.Lib/MailForwarder.cs:66-85 | after an abort, the rest of the messages are untouched and nothing more is logged |
| Forwarding.Message.constructor | MailForwarder.Lib/MailForwarder.cs:68 | a fetched message holds the given headers |
| Forwarding.MailForwarder.constructor | MailForwarder.Lib/MailForwarder.cs:19-24 | the forwarder starts with its configuration and an empty event log |
| Forwarding.MailForwarder.SendMessage | MailForwarder.Lib/MailForwarder.cs:173-230 | the log grows by exactly the send events of the message as it now is |
| Forwarding.MailForwarder.ForwardMessage | MailForwarder.Lib/MailForwarder.cs:135-171 | the message, the log and the thrown flag are those of `Forward` on the headers it had |
| Forwarding.MailForwarder.SendBackMessage | MailForwarder.Lib/MailForwarder.cs:96-133 | the same for `SendBack` |
| Forwarding.MailForwarder.HandleMessage | MailForwarder.Lib/MailForwarder.cs:68-83 | the same for `Handle`: the forward, then the return rule on the same, rewritten message |
| Forwarding.MailForwarder.HandleAll | MailForwarder.Lib/MailForwarder.cs:66-85 | the loop handles the messages in search order up to the first that throws, each on the headers it had |
| Forwarding.MailForwarder.ProcessMails | MailForwarder.Lib/MailForwarder.cs:26-85 | outcome, log and every message's headers are those of `Process`; the outcome is NotConfigured iff MailTo is null or empty |

## Left out

- Mail transport: the IMAP and SMTP sessions (connect, authenticate, open, search, fetch, send, append, move, disconnect) and the accept-all certificate callbacks. This is I/O.
  - A send, an append or a move is an event in the log.
  - The search query is left out: the pass takes the uids and messages it returned, in order.
  - `GetFolder` is taken to return a folder.
  - `inbox.IsOpen` is not tracked.
- Exceptions:
  - Modelled: the two the code itself can raise over the message data, a group met by `Cast<MailboxAddress>()` and `From.First()` on an empty From list.
  - Not modelled: failures of the mail servers and of the libraries.
- `DebugImapInfo` and all logging: output only.
- HMAC-SHA1 and the UTF-16 encoding of key and data. This is foreign cryptography, so it is the parameter `hmac`, which returns 20 bytes.
- The clock:
  - `DateTimeOffset.UtcNow` and the floating-point `Math.Round`/`Math.Pow` are left out.
  - The rounded day counter is a parameter in 0..1024, fixed for one pass.
- `CheckSRSAddress`, `GetSRSAddressOriginalDomain` and `GetSRSAddressOriginalLocalPart` are not part of this model. Their source is not available, so they are abstract functions of the SRS object.
- `IServiceProvider.GetService`: the SRS object is an `Option` given to the forwarder.
- Codec.Encode:
  - Modelled: no limit, or a limit of at least the data's bits, or the 10-bit limit on two bytes. These are the only call shapes.
  - Not modelled: inputs longer than a limit covers, where `bitsInBuffer` goes negative.
- Codec.Decode: a Dafny string is a sequence of Unicode scalar values, so the capacity `ceil(5n/8)` counts characters, while C#'s `base32.Length` counts UTF-16 code units. The two differ for characters outside the Basic Multilingual Plane: "\U{1F600}" gets 1 byte here and 2 in C#. The decoded bytes agree, because such characters are outside the alphabet and skipped; only the number of trailing zero bytes differs.
- CodecLaws.DecodedLength: states the capacity per character, for the reason given under Codec.Decode; it agrees with C# on strings of BMP characters.
- Mime.LocalPart:
  - MimeKit's `MailboxAddress.LocalPart` and `Domain` are taken to split the address at its last '@'.
  - Quoting and internationalised domains are not modelled.
- MailForwarder.Service (`Worker`, `Program`): hosting, polling, dependency injection.
- Connection settings of `MailForwarderConfiguration`: they only feed the transport.
