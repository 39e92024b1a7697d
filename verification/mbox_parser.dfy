/**
 `MBoxParser`: which files it reads, how the outcome of each message of a
 file reaches the handler, and the `parseEmails` convenience entry point.
 The mbox splitting and MIME parsing themselves are inputs here: a file is
 its name plus the outcome of parsing each message it holds.
 */
module MBoxParser {
  import opened JavaStrings
  import opened Mail
  import EmailContentHandler
  import EmailHandlers

  /** What parsing one message produced: the callbacks the MIME parser made
      before finishing, or a `MimeException`/`IOException`. */
  datatype MessageOutcome =
    | Parsed(events: seq<EmailContentHandler.ContentEvent>)
    | Failed

  /** A file handed to `parse`, with its messages in iterator order. */
  datatype MboxFile = MboxFile(name: string, messages: seq<MessageOutcome>)

  const MboxExtension: string := ".mbox"

  /** The lower-cased file name ends in `.mbox`. */
  function IsMboxName(name: string): (b: bool)
    ensures b <==> (|name| >= |MboxExtension| && LowerAscii(name[|name| - |MboxExtension|..]) == MboxExtension)
  {
    var lower := LowerAscii(name);
    if |name| >= |MboxExtension| then
      assert lower[|name| - |MboxExtension|..] == LowerAscii(name[|name| - |MboxExtension|..]);
      EndsWith(lower, MboxExtension)
    else
      EndsWith(lower, MboxExtension)
  }

  /** Upper-case extensions count too. */
  lemma UpperCaseExtensionAccepted(stem: string)
    ensures IsMboxName(stem + ".MBOX")
  {
    var n := stem + ".MBOX";
    var suffix := n[|n| - |MboxExtension|..];
    assert suffix == ".MBOX";
    assert LowerAscii(suffix) == MboxExtension by {
      assert forall k :: 0 <= k < |suffix| ==> LowerAscii(suffix)[k] == MboxExtension[k];
    }
  }

  /** The email every successfully parsed message yields, in order; failed
      messages contribute nothing. Each message gets a fresh handler of the
      non-sanitizing version. */
  function ParsedEmails(lib: EmailContentHandler.Library, messages: seq<MessageOutcome>): (r: seq<Email>)
    decreases |messages|
    ensures |r| <= |messages|
  {
    if |messages| == 0 then []
    else
      var init := ParsedEmails(lib, messages[..|messages| - 1]);
      match messages[|messages| - 1]
      case Parsed(events) => init + [EmailContentHandler.Extract(lib, EmailContentHandler.PlainVariant, events)]
      case Failed => init
  }

  /** The emails one file delivers: none unless its name ends in `.mbox`. */
  function FileEmails(lib: EmailContentHandler.Library, f: MboxFile): seq<Email> {
    if IsMboxName(f.name) then ParsedEmails(lib, f.messages) else []
  }

  /** The emails a series of files delivers, file after file. */
  function Delivered(lib: EmailContentHandler.Library, files: seq<MboxFile>): seq<Email>
    decreases |files|
  {
    if |files| == 0 then []
    else Delivered(lib, files[..|files| - 1]) + FileEmails(lib, files[|files| - 1])
  }

  lemma {:induction false} ParsedEmailsAppend(lib: EmailContentHandler.Library, a: seq<MessageOutcome>, b: seq<MessageOutcome>)
    ensures ParsedEmails(lib, a + b) == ParsedEmails(lib, a) + ParsedEmails(lib, b)
    decreases |b|
  {
    if |b| == 0 {
      assert a + b == a;
    } else {
      ParsedEmailsAppend(lib, a, b[..|b| - 1]);
      InitOfJoin(a, b);
    }
  }

  /** A failed message is skipped and the messages after it still arrive. */
  lemma FailureIsSkipped(lib: EmailContentHandler.Library, before: seq<MessageOutcome>, after: seq<MessageOutcome>)
    ensures ParsedEmails(lib, before + [Failed] + after) == ParsedEmails(lib, before) + ParsedEmails(lib, after)
  {
    ParsedEmailsAppend(lib, before + [Failed], after);
  }

  /** A parsed message is delivered between the messages before and after
      it: iterator order is kept. */
  lemma ParsedIsDelivered(lib: EmailContentHandler.Library, before: seq<MessageOutcome>,
                          events: seq<EmailContentHandler.ContentEvent>, after: seq<MessageOutcome>)
    ensures ParsedEmails(lib, before + [Parsed(events)] + after)
      == ParsedEmails(lib, before) + [EmailContentHandler.Extract(lib, EmailContentHandler.PlainVariant, events)]
         + ParsedEmails(lib, after)
  {
    ParsedEmailsAppend(lib, before + [Parsed(events)], after);
    assert (before + [Parsed(events)])[..|before|] == before;
  }

  /** Files are processed in the order given. */
  lemma {:induction false} DeliveredAppend(lib: EmailContentHandler.Library, a: seq<MboxFile>, b: seq<MboxFile>)
    ensures Delivered(lib, a + b) == Delivered(lib, a) + Delivered(lib, b)
    decreases |b|
  {
    if |b| == 0 {
      assert a + b == a;
    } else {
      var init := b[..|b| - 1];
      var last := b[|b| - 1];
      DeliveredAppend(lib, a, init);
      InitOfJoin(a, b);
      calc {
        Delivered(lib, a + b);
        Delivered(lib, a + init) + FileEmails(lib, last);
        Delivered(lib, a) + Delivered(lib, init) + FileEmails(lib, last);
        Delivered(lib, a) + (Delivered(lib, init) + FileEmails(lib, last));
      }
    }
  }

  /** `parse(Path)` on a plain file: a name not ending in `.mbox` means no
      handler call at all; otherwise each message is parsed and, when that
      succeeds, its email handed to the handler. */
  method ParseFile(lib: EmailContentHandler.Library, h: EmailHandlers.Handler, f: MboxFile) returns (r: EmailHandlers.Handler)
    ensures !IsMboxName(f.name) ==> r == h
    ensures IsMboxName(f.name) ==> r == EmailHandlers.ReceiveAll(h, ParsedEmails(lib, f.messages))
  {
    r := h;
    if !IsMboxName(f.name) {
      return;
    }
    var i := 0;
    while i < |f.messages|
      invariant 0 <= i <= |f.messages|
      invariant r == EmailHandlers.ReceiveAll(h, ParsedEmails(lib, f.messages[..i]))
    {
      assert f.messages[..i + 1][..i] == f.messages[..i];
      match f.messages[i] {
        case Parsed(events) =>
          var email := EmailContentHandler.Extract(lib, EmailContentHandler.PlainVariant, events);
          r := EmailHandlers.Receive(r, email);
          assert ParsedEmails(lib, f.messages[..i + 1]) == ParsedEmails(lib, f.messages[..i]) + [email];
        case Failed =>
      }
      i := i + 1;
    }
    assert f.messages[..i] == f.messages;
  }

  /** `parse(Path...)`: the files one after another. */
  method ParseAll(lib: EmailContentHandler.Library, h: EmailHandlers.Handler, files: seq<MboxFile>) returns (r: EmailHandlers.Handler)
    ensures r == EmailHandlers.ReceiveAll(h, Delivered(lib, files))
  {
    r := h;
    var i := 0;
    while i < |files|
      invariant 0 <= i <= |files|
      invariant r == EmailHandlers.ReceiveAll(h, Delivered(lib, files[..i]))
    {
      r := ParseFile(lib, r, files[i]);
      assert files[..i + 1][..i] == files[..i];
      EmailHandlers.ReceiveAllAppend(h, Delivered(lib, files[..i]), FileEmails(lib, files[i]));
      i := i + 1;
    }
    assert files[..i] == files;
  }

  /** `parseEmails`: what a fresh filterless collector gathers, which is
      every successfully parsed email of every `.mbox` file, in order. */
  method ParseEmails(lib: EmailContentHandler.Library, files: seq<MboxFile>) returns (emails: seq<Email>)
    ensures emails == Delivered(lib, files)
  {
    var h := ParseAll(lib, EmailHandlers.Collecting(EmailHandlers.NewCollector), files);
    EmailHandlers.CollectorReceiveAll(EmailHandlers.NewCollector, Delivered(lib, files));
    EmailHandlers.NoFiltersKeepsAll(Delivered(lib, files));
    emails := EmailHandlers.GetEmails(h.collector);
  }

  // Concatenation fact the fold proofs above use.

  lemma InitOfJoin<T>(a: seq<T>, b: seq<T>)
    requires |b| > 0
    ensures (a + b)[..|a + b| - 1] == a + b[..|b| - 1]
    ensures (a + b)[|a + b| - 1] == b[|b| - 1]
  {
    assert (a + b)[..|a + b| - 1] == a + b[..|b| - 1];
  }
}
