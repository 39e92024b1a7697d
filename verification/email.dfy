/** The `Email` record every extracted message turns into. */
module Mail {
  import opened Wrappers

  newtype byte = b: int | 0 <= b < 256

  /** Stand-in for `java.time.ZonedDateTime`: only the RFC 1123 parser,
      which is not part of this model, produces one. */
  datatype Timestamp = Timestamp(epochSecond: int, offsetSeconds: int)

  /** What the MIME stream parser reports about the single body segment. */
  datatype BodyDescriptor = BodyDescriptor(mimeType: string, charset: Option<string>, transferEncoding: string)

  /** The fields of `Email`; `None` is a field still at `null`. */
  datatype Email = Email(
    messageId: Option<string>,
    inReplyTo: Option<string>,
    sentFrom: Option<string>,
    subject: Option<string>,
    date: Option<Timestamp>,
    mimeType: Option<string>,
    charset: Option<string>,
    transferEncoding: Option<string>,
    body: Option<seq<byte>>)

  /** `new Email()`: every field starts out `null`. */
  const NewEmail: Email := Email(None, None, None, None, None, None, None, None, None)
}
