# mail: a Dafny model of the Go message composer

This project models the core of the Go package `mail`, a small library for
sending e-mail over SMTP. A caller creates a `Message` from server options
(`New`). It then sets the sender, recipients, subject, carbon copies, a
plain-text or HTML body and file attachments. Finally `SendMultipart`
validates the message, builds the header and hands header and body to SMTP.

The model has six modules:

- `Errors` (errors.dfy): the package's error values, `Option` and `Result`.
- `Sequences` (sequences.dfy): `strings.Join`, splitting at a separator, and
  CRLF-terminated lines. These are the shapes of the header, the comma lists
  and the wrapped base64 text.
- `Base64` (base64.dfy): `base64LineBreaker`, proved against a specification
  of the wrapped stream. It also has the standard padded base64 encoding the
  attachment goes through (section 4 of RFC 4648) and a decoder for it.
- `Mime` (mime.dfy): `getMimeType`, with `filepath.Ext` written out.
- `Mail` (mail.dfy):
  - `plainAuth`;
  - `generateUUID`, a version 4 UUID per sections 4.1.1 and 4.4 of RFC 4122,
    with the version and variant bits set in place in a 16-byte array;
  - `generateMessageID`, the `<uuid@host>` form of section 3.6.4 of RFC 5322.
- `Composer` (composer.dfy):
  - the `Message` object as a class whose methods update its fields;
  - `New`;
  - `Compose`, a function of the message state and the outside world. It
    states what `SendMultipart` does, and `SendMultipart` is proved against
    it.

The outside world is passed in as values. These are:

- the answer of `os.ReadFile`;
- the multipart writer's boundary and output;
- the parsed form of each address;
- the host name;
- the random bytes;
- the formatted date;
- the SMTP outcome.

The model reproduces the code as written, including four behaviours that
look unintended:

- `SetAttachment` reports "file not found" when the file *was* read. Only a
  failed read goes on to write a part, made from whatever bytes the failed
  read returned.
- Nothing ever appends to the attachment list. So the `Content-Type:
  multipart/mixed` header line is never written (`Message.Valid`,
  `ContentTypeLineUnreachable`).
- That Content-Type line, were it written, has no CRLF after it
  (`HeaderLines`).
- No blank line separates the header from the body. The body's first line
  is read as one more header field (`NoBlankLineBeforeBody`).

## Model

| member | source | states |
|---|---|---|
| Base64.LineBreak | base64.go:5-14 | The loop's output equals `Wrapped(s)`: a 76-byte line and a CRLF for as long as more than 76 bytes remain, then the rest. An input of at most 76 bytes comes back unchanged. |
| Base64.Chunks | base64.go:7-12 | The lines the breaker emits: `Breaks(n) + 1` lines that concatenate to the input. Every line but the last has exactly 76 bytes. The last has at most 76 bytes, and at least one when the input is non-empty. |
| Base64.WrappedIsJoin | base64.go:7-12 | The output is the lines joined by CRLF: no CRLF after the last line and nothing else inserted. |
| Base64.WrappedLines | base64.go:5-14 | For input without CR, splitting the output at CRLF gives back exactly the 76-byte lines. |
| Base64.WrappedLength | base64.go:5-14 | Output length is the input length plus 2 per inserted break, `2 * ((n - 1) / 76)` for non-empty input. |
| Base64.UnwrapWrapped | base64.go:5-14 | Removing the inserted CRLFs gives back the input: wrapping loses and reorders nothing. |
| Base64.Encode | message.go:170-171 | Encoding produces `4 * ceil(n / 3)` characters, all from the base64 alphabet or the `=` pad. |
| Base64.DecodeEncode | message.go:170-171 | Decoding the encoding gives back the bytes (round trip). |
| Base64.AttachmentPayload | message.go:170-172 | The attachment payload is `4 * ceil(n / 3)` digits. Its CRLF-separated lines are the 76-byte chunks of the encoding. Unwrapping and decoding it returns the file bytes. |
| Mime.Ext | mime.go:6 | The extension is no longer than the name, and a non-empty one starts with `.`. |
| Mime.ExtIsSuffix | mime.go:6 | A non-empty extension is a suffix of the name with no `.` or `/` after its leading dot: it runs from the last dot of the final element. |
| Mime.NoExtension | mime.go:6 | The extension is empty if and only if every `.` in the name has a `/` somewhere after it. |
| Mime.TypeOfExt | mime.go:6-31 | The switch answers one of the twelve types. It answers `application/octet-stream` if and only if the extension is not one of the sixteen it names. |
| Mime.MimeType | mime.go:5-31 | The answer is always one of the twelve types the switch can return. |
| Mime.ExtOfSuffix | mime.go:6 | Any name ending in a dot-suffix without further `.` or `/` has exactly that suffix as its extension. |
| Mime.ExtOfPlainName | mime.go:6 | A final path element without a dot has no extension, even under a dotted directory. |
| Mime.ImageSynonyms | mime.go:7-10 | For any stem, `.jpg` and `.jpeg` give `image/jpeg`, and `.png` gives `image/png`. |
| Mime.WordSynonyms | mime.go:13-14 | For any stem, `.doc` and `.docx` both give `application/msword`. |
| Mime.ExcelSynonyms | mime.go:15-16 | For any stem, `.xls` and `.xlsx` both give `application/vnd.ms-excel`. |
| Mime.PowerPointSynonyms | mime.go:17-18 | For any stem, `.ppt` and `.pptx` both give `application/vnd.ms-powerpoint`. |
| Mime.TextSynonyms | mime.go:25-28 | `.html` and `.htm` give `text/html`, and `.txt` gives `text/plain`. |
| Mime.CaseSensitive | mime.go:6-12 | Matching is case-sensitive: `.PDF` and `.JPG` fall to the default, and `.pdf` does not. |
| Mime.LastDotCounts | mime.go:6-24 | Only the last dot counts: `a.tar.zip` is a zip and `archive.7z` is 7z. |
| Mime.LastElementOnly | mime.go:6 | A dot in a directory does not count: `d.pdf/readme` gets the default. |
| Mime.NoExtensionDefault | mime.go:29-30 | A name whose last element has no dot gets `application/octet-stream`, bare or under any directory. |
| Mail.PlainAuth | mail.go:25-41 | Success holds exactly when username, password and host are all non-empty. Errors are checked in the order username, password, host. Success carries the empty identity, username, password and host. The port is never an error. |
| Mail.WithVersionAndVariant | mail.go:80-84 | The result is version 4 with variant bits `10`. The low bits of bytes 6 and 8 and all other 14 bytes are kept. |
| Mail.VersionFixpoint | mail.go:80-84 | Fixing the bits leaves the bytes unchanged if and only if they already carry version 4 and the variant. |
| Mail.FormatLayout | mail.go:86 | `%x-%x-%x-%x-%x` gives hyphens at 8, 13, 18 and 23 and lower-case hexadecimal elsewhere. Positions 14 and 19 hold the high nibbles of bytes 6 and 8. |
| Mail.ParseFormat | mail.go:86 | The formatted text determines the 16 bytes: parsing it back gives them. |
| Mail.GenerateUuid | mail.go:73-89 | The method, which sets the bits in a 16-byte array, returns the formatted bit-fixed bytes. When the random source fails it returns `""` and an error. |
| Mail.UuidLayout | mail.go:73-89 | A generated UUID has 36 characters in the 8-4-4-4-12 layout, `4` at position 14 and one of `8 9 a b` at position 19. It parses back to the bit-fixed bytes. |
| Mail.GenerateMessageId | mail.go:55-69 | Returns `<uuid@host>`. The host falls back to `localhost` when the lookup fails, and the UUID is empty when generation fails. |
| Mail.MessageIdShape | mail.go:55-69 | The id is bracketed by `<` and `>`. With a UUID, `@` sits at position 37, the 36 characters before it parse to the UUID bytes, and the host follows. Without a UUID the id is `<@host>`. A failed lookup gives `localhost`. |
| Composer.New | mail.go:44-48 | A fresh message holds the options and every other field empty. |
| Composer.Message.SetFrom | message.go:61-68 | An empty sender is rejected and the message is unchanged. Otherwise only the sender changes. |
| Composer.Message.SetTo | message.go:70-77 | An empty recipient list is rejected and the message is unchanged. Otherwise only the list changes. |
| Composer.Message.SetSubject | message.go:79-86 | An empty subject is rejected and the message is unchanged. Otherwise only the subject changes. |
| Composer.Message.SetCc | message.go:88-90 | Only the Cc list changes, to any value including empty. |
| Composer.Message.SetBcc | message.go:92-94 | Only the Bcc list changes, to any value including empty. |
| Composer.Message.SetBodyPlainText | message.go:96-118 | Empty content is rejected. Otherwise the body grows by the text/plain part header, the content and the current boundary, and nothing else changes. |
| Composer.Message.SetBodyHTML | message.go:120-140 | Empty content is rejected. Otherwise the body grows by the content and the current boundary, with no part header, and nothing else changes. |
| Composer.Message.SetAttachment | message.go:144-176 | An empty name gives EmptyAttachment and a successful read gives FileNotFound; both leave the message unchanged. A failed read sets multipart/mixed and the writer's boundary, and appends the part: the header from the file's type, the bytes base64-encoded and wrapped at 76 columns, then the closing. The attachment list is untouched. |
| Composer.Message.SendMultipart | message.go:226-284 | Only the header field changes. The header, error and delivered envelope are exactly those of `Compose` on the state before the call. |
| Composer.FirstRejected | message.go:244-249 | Gives the first address the parser rejects, with every earlier one accepted. It gives none if and only if all parse. |
| Composer.FirstRejectedAt | message.go:244-249 | A rejected address with only accepted ones before it is the one the check stops at, as the loop reports it. |
| Composer.FixedFields | message.go:251-256 | The six fixed header lines are From, To, Subject, Message-ID, Date and MIME-Version, each ended by CRLF. |
| Composer.AssembleHeader | message.go:251-268 | Appending the fields one by one, Cc and Bcc only when non-empty and the Content-Type line only with attachments, builds exactly the header: its fields each ended by CRLF, then the tail. |
| Composer.HeaderLines | message.go:251-277 | Read as CRLF lines, header and body are the header fields followed by the lines of the tail and body. The Content-Type line is not terminated, so it runs into the body's first line. |
| Composer.ValidationOrder | message.go:226-273 | The first failing check decides the error, in the order: empty sender, no recipients, empty subject, unparsable sender, first unparsable recipient, then the credentials in `plainAuth`'s order. Nothing is sent when any check fails. |
| Composer.ChecksBeforeCredentials | message.go:226-273 | When a message check fails, the outcome does not depend on the options: an address error is reported even when the credentials are missing too, and it is never a credentials error. |
| Composer.SendGate | message.go:226-284 | The message reaches SMTP if and only if every check passes. It then goes to `host:port` with the credentials, the unparsed sender, the recipients as set, and header followed by body. No error is reported exactly when it was sent and SMTP accepted it. |
| Composer.HeaderAssignment | message.go:226-273 | The header is reassigned once the addresses are validated, even if authentication then fails. Before that it keeps its previous value. |
| Composer.ResendIdempotent | message.go:251-256 | The header is rebuilt rather than appended to, so sending again in the same world gives the same outcome. |
| Composer.ContentTypeLineUnreachable | message.go:266-268 | With the attachment list empty, as every Message keeps it, the header is only CRLF-terminated fields. |
| Composer.SentText | message.go:251-278 | A message that passes every check hands the transport the freshly built header followed by the body. |
| Composer.NoBlankLineBeforeBody | message.go:251-277 | The transmitted text is the header fields and then the body's lines, with no blank line between them. Every header line, and the body's first line when the body starts with anything but CR, is non-empty. |
| Composer.RecipientsRecoverable | message.go:252 | The To field joins the recipients with commas. Splitting it gives them back when no address contains a comma. |

## Left out

- Delivery over SMTP (`smtp.SendMail`) and the authenticator `smtp.PlainAuth` builds. Delivery is an input that answers failure or success for an envelope. Authentication is the credentials it is built from.
- Address parsing and re-serialisation (`mail.ParseAddress`, `String`) are an input answering the printed address or a rejection. The error text of a rejection is not modelled: the model reports `InvalidAddress` with the offending input.
- `os.ReadFile`, `os.Hostname`, `crypto/rand.Read` and `time.Now().Format(time.RFC1123Z)` are inputs.
- The multipart writer is an input: its random boundary, the text `CreatePart` writes for a part header, and the text `Close` writes. The ordering of the header map and the quoting of the part header belong to the writer.
- Composer.Message.SetAttachment: the error branch of `CreatePart` is not modelled. Writes into an in-memory buffer cannot fail there. The same holds for the `WriteString` error branches of the body setters.
- Error wrapping with `fmt.Errorf` prefixes. Errors are modelled as kinds only.
- The `log.Println` of the body and the `fmt.Println` of a UUID failure: output only.
- The commented-out `Send`, the unused `ContentTypePlainText`, `ContentTypeHTML`, `BodyType`, `BodyMessage` and `ErrEmptyPort`, and the fields `plainText` and `html`, which nothing writes. These fields are kept in the state but stay empty.
- Mime.Ext: only `/` separates path elements, as on Unix; the Windows separator is not modelled.
- Base64.Encode: it models the standard library's encoder from RFC 4648, not its code.
- No content-type negotiation between plain text, HTML and attachments exists in the code: `contentType` is written by `SetAttachment` (message.go:155) and never read. The model keeps the field with the same behaviour.
- The body buffer holds characters: each payload byte becomes the character with the same code. UTF-8 encoding of the text fields is not modelled.
- Composer.Message.SetTo, Composer.Message.SetCc and Composer.Message.SetBcc: Go stores the caller's slice itself (message.go:75, 89, 93), so later writes by the caller to that slice change the message, and `SendMultipart` hands the same slice to SMTP. The model stores sequence values, so this aliasing is not captured.
- Composer.Message.SetAttachment: the file-not-found error is wrapped with `%s` rather than `%w` (message.go:152), so `errors.Is(err, ErrFileNotFound)` is false for it, unlike every other error of the package. The model reports the kind `FileNotFound` and does not capture this difference.
- Composer.Message.SetAttachment: the model lets the writer's boundary be empty, though Go's `Writer.Boundary` never returns an empty string. The proved contracts hold for every boundary, empty or not.
