# mbox parser: header extraction and email dispatch

A Dafny model of the pure logic of the MBoxParser library (package
`nl.andrewl.mbox_parser` and its other version `nl.andrewl.mboxparser`):

- `EmailContentHandler` (module `EmailContentHandler`): the `field` and
  `body` callbacks, which turn the events the MIME stream parser reports
  for one message into an `Email` record, and the private helpers
  `sanitizeId` and `parseDate` with its three text repairs before the
  RFC 1123 date parser; both versions of the handler are one model with a
  flag saying whether `MESSAGE-ID` is sanitized;
- the handlers `CollectingEmailHandler` and `CompositeEmailHandler` as one
  recursive `Handler` datatype with a pure `Receive` (module
  `EmailHandlers`);
- the `.mbox` name filter, the per-message loop and `parse`/`parseEmails`
  of `MBoxParser` over abstract files (module `MBoxParser`).

The `Email` record is in module `Mail`. Java's `String` operations are
modelled in `JavaStrings`: `trim` strips chars at or below U+0020, `\s` is
space, tab, line feed, vertical tab, form feed and carriage return, and
`toUpperCase`/`toLowerCase` map ASCII letters only. `null` is
`Option.None`.

Two library calls are parameters, bundled in
`EmailContentHandler.Library`: `MimeUtility.decodeText` (RFC 2047 encoded
words; `None` when it throws `UnsupportedEncodingException`) and
`ZonedDateTime.parse` with `RFC_1123_DATE_TIME` (section 5.2.14 of
RFC 1123; `None` when it throws `DateTimeParseException`). A file is its
name plus the outcome of parsing each message the mbox iterator yields, in
order.

Behaviour of the code worth knowing:

- `sanitizeId` is not idempotent: `"<<a>>"` gives `"<a>"`, which gives
  `"a"` (`EmailContentHandler.SanitizeIdNotIdempotent`).
- `parseDate` applies exactly three repairs, in this order: cut from the
  last `(` and trim, drop one leading `RANDOM_`, collapse each whitespace
  run to one space. With no `(` nothing is trimmed, so a `RANDOM_` after
  leading blanks is kept (`EmailContentHandler.PlaceholderAfterBlanksKept`);
  with a `(` the cut trims first and the prefix is dropped
  (`EmailContentHandler.PlaceholderAfterCutDropped`). A comment that itself
  holds a `(` is cut at the inner one
  (`EmailContentHandler.StripCommentCutsAtLast`).
- `IN-REPLY-TO` is stored decoded but never sanitized, in either version
  (`EmailContentHandler.Field`).
- `CompositeEmailHandler` does not catch exceptions of a child: nothing
  isolates one child from another. The model does not state this; see the
  line on exceptions under "Left out".

## Model

| member | source | states |
|---|---|---|
| `EmailContentHandler.Field` | src/main/java/nl/andrewl/mboxparser/EmailContentHandler.java:27-42 | a header name matched case-insensitively against FROM, SUBJECT, DATE, MESSAGE-ID, IN-REPLY-TO updates exactly that one field with the decoded body (date parsed, message id sanitized in this version); any other name leaves the record unchanged |
| `EmailContentHandler.Decoded` | src/main/java/nl/andrewl/mbox_parser/EmailContentHandler.java:30-35 | the decoded text, or the raw field body when decoding fails for an unsupported charset |
| `EmailContentHandler.FieldIgnoresCase` | src/main/java/nl/andrewl/mboxparser/EmailContentHandler.java:28 | two header names equal up to case have the same effect |
| `EmailContentHandler.Body` | src/main/java/nl/andrewl/mbox_parser/EmailContentHandler.java:20-25 | mime type, charset and transfer encoding are copied from the descriptor, the body holds all remaining bytes (non-null, possibly empty), header fields untouched |
| `EmailContentHandler.Extract` | src/main/java/nl/andrewl/mbox_parser/EmailContentHandler.java:16-64 | the record one fresh handler builds from a message's callbacks and returns from `getEmail`: a header that never appears leaves its field null, and with no body callback body, mime type, charset and transfer encoding stay null |
| `EmailContentHandler.LastTextHeaderWins` | src/main/java/nl/andrewl/mbox_parser/EmailContentHandler.java:36-42 | after a series of callbacks, each text field holds the stored value of the last header of its name; with no such header it keeps its value |
| `EmailContentHandler.ExtractTextHeader` | src/main/java/nl/andrewl/mbox_parser/EmailContentHandler.java:36-42 | in a fresh record, a header that never appears leaves its field null |
| `EmailContentHandler.LastDateWins` | src/main/java/nl/andrewl/mbox_parser/EmailContentHandler.java:30-39 | the date comes from the last DATE header, parsed from its decoded (not raw) text; if that parse fails the date is null even when an earlier DATE parsed |
| `EmailContentHandler.LastBodyWins` | src/main/java/nl/andrewl/mbox_parser/EmailContentHandler.java:20-25 | the body, mime type, charset and transfer encoding kept are those of the last body segment reported (the parser reports one per leaf part) |
| `EmailContentHandler.VariantsDifferOnlyInMessageId` | src/main/java/nl/andrewl/mbox_parser/EmailContentHandler.java:40 | the two handler versions build identical records except the message id, which the sanitizing version stores as `sanitizeId` of the other's |
| `EmailContentHandler.SanitizeId` | src/main/java/nl/andrewl/mboxparser/EmailContentHandler.java:61-68 | the sanitized id is never longer than the raw one |
| `EmailContentHandler.SanitizeIdUnwraps` | src/main/java/nl/andrewl/mboxparser/EmailContentHandler.java:61-68 | `w1 + "<" + m + ">" + w2` with padding-only `w1`, `w2` sanitizes to `m`, for every `m` |
| `EmailContentHandler.SanitizeIdKeepsPlainId` | src/main/java/nl/andrewl/mboxparser/EmailContentHandler.java:62-67 | an id with no `<`, no `>` and no padding at either end is returned unchanged |
| `EmailContentHandler.SanitizeIdIsInfix` | src/main/java/nl/andrewl/mboxparser/EmailContentHandler.java:62-66 | the result is a contiguous slice `rawId[lo..hi]` of the input |
| `EmailContentHandler.SanitizeIdNotIdempotent` | src/main/java/nl/andrewl/mboxparser/EmailContentHandler.java:61-68 | for every `m`, `"<<" + m + ">>"` sanitizes to `"<" + m + ">"` and that to `m`: a second application changes the result |
| `EmailContentHandler.StripComment` | src/main/java/nl/andrewl/mboxparser/EmailContentHandler.java:45-48 | with a `(`, the text before the last `(` is kept and trimmed; without one the text is returned untouched, not trimmed |
| `EmailContentHandler.StripRandomPrefix` | src/main/java/nl/andrewl/mboxparser/EmailContentHandler.java:49-51 | a leading `RANDOM_` is removed; other texts are unchanged |
| `EmailContentHandler.StripRandomPrefixOnce` | src/main/java/nl/andrewl/mboxparser/EmailContentHandler.java:49-51 | `RANDOM_RANDOM_x` keeps one `RANDOM_` |
| `EmailContentHandler.CollapseWhitespace` | src/main/java/nl/andrewl/mboxparser/EmailContentHandler.java:52 | the result has no whitespace but single spaces, never two in a row, the same non-whitespace chars in the same order, and starts with whitespace exactly when the input does |
| `EmailContentHandler.CollapseRun` | src/main/java/nl/andrewl/mboxparser/EmailContentHandler.java:52 | each maximal whitespace run, at the start, inside or at the end, becomes exactly one space in the same place: `a + w + b` collapses to the collapsed `a`, one space, the collapsed `b` |
| `EmailContentHandler.CollapseKeepsWord` | src/main/java/nl/andrewl/mboxparser/EmailContentHandler.java:52 | text without whitespace is unchanged; with `CollapseRun` this fixes the result for every input |
| `EmailContentHandler.CollapseWordPrefix` | src/main/java/nl/andrewl/mboxparser/EmailContentHandler.java:52 | a whitespace-free prefix passes through unchanged and the rest is collapsed on its own |
| `EmailContentHandler.CollapseTwoWords` | src/main/java/nl/andrewl/mboxparser/EmailContentHandler.java:52 | two words separated by any whitespace run reach the parser separated by exactly one space |
| `EmailContentHandler.CollapseKeepsSingleSpaced` | src/main/java/nl/andrewl/mboxparser/EmailContentHandler.java:52 | text already single-spaced is left unchanged |
| `EmailContentHandler.CollapseIdempotent` | src/main/java/nl/andrewl/mboxparser/EmailContentHandler.java:52 | collapsing twice equals collapsing once |
| `EmailContentHandler.NormalizeDate` | src/main/java/nl/andrewl/mboxparser/EmailContentHandler.java:44-52 | the text handed to the parser is single-spaced and no longer than the input |
| `EmailContentHandler.ParseDate` | src/main/java/nl/andrewl/mboxparser/EmailContentHandler.java:53-58 | the result is null exactly when the RFC 1123 parser rejects the normalised text, and otherwise is its result; no error escapes |
| `EmailContentHandler.CanonicalDateUnchanged` | src/main/java/nl/andrewl/mbox_parser/EmailContentHandler.java:46-55 | a date with no `(`, no `RANDOM_` prefix and single spaces reaches the parser exactly as written |
| `EmailContentHandler.CommentIsInvisible` | src/main/java/nl/andrewl/mbox_parser/EmailContentHandler.java:46-49 | for an unpadded date with no `(`, followed by padding and a comment with no `(` inside, the cut and trim give back exactly the date, so the parse is the same as for the date alone |
| `EmailContentHandler.StripCommentCutsAtLast` | src/main/java/nl/andrewl/mbox_parser/EmailContentHandler.java:46-49 | the cut is at the last `(`: text `p + "(" + c` with no `(` in `c` becomes the trimmed `p`, so a comment holding a `(` is cut at the inner one |
| `EmailContentHandler.PlaceholderIsInvisible` | src/main/java/nl/andrewl/mbox_parser/EmailContentHandler.java:50-55 | for a date with no `(` that starts with `RANDOM_`, that one prefix is dropped before collapsing and the parser sees the collapsed rest (a doubled prefix keeps one, see `StripRandomPrefixOnce`) |
| `EmailContentHandler.PlaceholderAfterBlanksKept` | src/main/java/nl/andrewl/mbox_parser/EmailContentHandler.java:50-53 | with no `(` in the text nothing is trimmed before the prefix test: leading whitespace, `RANDOM_` and a rest reach the parser as one space, `RANDOM_` and the collapsed rest |
| `EmailContentHandler.PlaceholderAfterCutDropped` | src/main/java/nl/andrewl/mbox_parser/EmailContentHandler.java:46-53 | with a `(` the cut trims first: padding, `RANDOM_` and an unpadded rest, followed by a comment with no `(`, reach the parser as the collapsed rest without the prefix |
| `EmailHandlers.AddFilter` | src/main/java/nl/andrewl/mbox_parser/CollectingEmailHandler.java:20-22 | the filter goes at the end of the filter list, collected emails are unchanged, and an email passes the new list exactly when it passed the old one and the new filter |
| `EmailHandlers.CollectorReceive` | src/main/java/nl/andrewl/mbox_parser/CollectingEmailHandler.java:25-30 | an email is appended at the end if and only if every filter accepts it; a rejected one leaves the list unchanged |
| `EmailHandlers.CollectorEmailReceived` | src/main/java/nl/andrewl/mbox_parser/CollectingEmailHandler.java:25-30 | the filters evaluated are 0, 1, ... in order; all but the last evaluated accepted; evaluation stops early only at a rejection |
| `EmailHandlers.CollectorReceiveAll` | src/main/java/nl/andrewl/mbox_parser/CollectingEmailHandler.java:25-30 | after a series of emails, the list is the old list followed by the emails all filters accept, in arrival order |
| `EmailHandlers.GetEmailsAfterReceiving` | src/main/java/nl/andrewl/mbox_parser/CollectingEmailHandler.java:25-34 | `getEmails` after a series of emails is the earlier list followed by exactly the emails every filter accepted, in arrival order |
| `EmailHandlers.Accepted` | src/main/java/nl/andrewl/mbox_parser/CollectingEmailHandler.java:26-29 | the accepted emails are exactly the received ones every filter accepts |
| `EmailHandlers.NoFiltersKeepsAll` | src/main/java/nl/andrewl/mbox_parser/CollectingEmailHandler.java:26-29 | with no filters every received email is collected |
| `EmailHandlers.NewComposite` | src/main/java/nl/andrewl/mbox_parser/CompositeEmailHandler.java:17-19 | the constructor keeps the given handlers in argument order |
| `EmailHandlers.WithHandler` | src/main/java/nl/andrewl/mbox_parser/CompositeEmailHandler.java:26-29 | the composite keeps its children and gains the new one at the end |
| `EmailHandlers.ReceiveWithHandler` | src/main/java/nl/andrewl/mbox_parser/CompositeEmailHandler.java:26-36 | a child added with `withHandler` receives each email like the earlier children |
| `EmailHandlers.CompositeEmailReceived` | src/main/java/nl/andrewl/mbox_parser/CompositeEmailHandler.java:32-36 | each child receives the email exactly once, in registration order |
| `EmailHandlers.EmptyCompositeIgnores` | src/main/java/nl/andrewl/mbox_parser/CompositeEmailHandler.java:32-36 | a composite with no children is unaffected |
| `EmailHandlers.CompositeReceiveAll` | src/main/java/nl/andrewl/mbox_parser/CompositeEmailHandler.java:32-36 | every child ends as if it had received the email series directly |
| `EmailHandlers.TwinCollectorsAgree` | src/main/java/nl/andrewl/mbox_parser/CompositeEmailHandler.java:32-36 | two filterless collectors under one composite end with identical lists holding every email in order |
| `MBoxParser.IsMboxName` | src/main/java/nl/andrewl/mbox_parser/MBoxParser.java:72-74 | a file is read exactly when its lower-cased name ends in `.mbox` |
| `MBoxParser.UpperCaseExtensionAccepted` | src/main/java/nl/andrewl/mbox_parser/MBoxParser.java:72 | `X.MBOX` is accepted |
| `MBoxParser.ParseFile` | src/main/java/nl/andrewl/mbox_parser/MBoxParser.java:72-89 | a non-`.mbox` file causes no handler call; otherwise the handler receives the emails of the successfully parsed messages, in iterator order |
| `MBoxParser.FailureIsSkipped` | src/main/java/nl/andrewl/mbox_parser/MBoxParser.java:83-88 | a failed message is skipped and the messages after it are still delivered |
| `MBoxParser.ParsedIsDelivered` | src/main/java/nl/andrewl/mbox_parser/MBoxParser.java:80-89 | a parsed message's email is delivered between those before and after it |
| `MBoxParser.DeliveredAppend` | src/main/java/nl/andrewl/mbox_parser/MBoxParser.java:49-53 | files are processed in the order given |
| `MBoxParser.ParseAll` | src/main/java/nl/andrewl/mbox_parser/MBoxParser.java:49-53 | the handler receives, file after file, the emails each file delivers |
| `MBoxParser.ParseEmails` | src/main/java/nl/andrewl/mbox_parser/MBoxParser.java:29-34 | the result is every successfully parsed email of every `.mbox` file, in order, as a filterless collector gathers them |

## Left out

- Mbox splitting (`MboxIterator`, `FromLinePatterns.DEFAULT2`, the ISO-8859-1 scan and UTF-8 re-decoding): library code; a file is given as the sequence of its message outcomes.
- Header/body splitting in `MimeStreamParser`: library code; a message is given as the sequence of `field`/`body` callbacks it causes.
- The RFC 2047 decoder and the RFC 1123 date parser: foreign calls, kept as the parameters of `EmailContentHandler.Library`; no calendar or time-zone arithmetic.
- Directory recursion (`Files.isDirectory`, `Files.list`), `IOException` propagation and `printStackTrace` logging: I/O.
- `Email.readBodyAsText`: a thin wrapper over `MimeUtility.decode` and `Charset.forName`.
- The `EmailHandler` interfaces and custom handlers: the `Handler` datatype covers the two handlers the library defines.
- Exceptions thrown by a filter or a child handler: they propagate uncaught in the code and end the whole parse; the model's filters and handlers are total.
- Object identity: a Java handler object registered twice, or shared by two composites, receives an email more than once; the model treats children as values.
- Unicode case mapping and the default locale in `toUpperCase`/`toLowerCase`: the model maps only ASCII letters. Java maps all of Unicode, so `ſubject` upper-cases to `SUBJECT` and is stored; under a Turkish default locale `message-id` upper-cases to `MESSAGE-İD` and is ignored.
- `EmailHandlers.Receive`: its own contract states only that the handler keeps its shape; what each collector and child ends with is stated by `CollectorReceive`, `CompositeEmailReceived` and `CompositeReceiveAll`.
