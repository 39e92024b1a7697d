/**
 `EmailContentHandler`, in both of its versions: the `field` and `body`
 callbacks, the private helpers `parseDate` and `sanitizeId`, and the record
 a fresh handler builds from the callbacks of one message.
 */
module EmailContentHandler {
  import opened Wrappers
  import opened JavaStrings
  import opened Mail

  /** The two library calls the handler makes. `decodeText` is RFC 2047
      encoded-word decoding and is `None` when it throws
      `UnsupportedEncodingException`; `parseRfc1123` is `None` when it
      throws `DateTimeParseException`. */
  datatype Library = Library(decodeText: string -> Option<string>, parseRfc1123: string -> Option<Timestamp>)

  /** One callback from the MIME stream parser: a header field (name and raw
      body), or the body segment with its descriptor and remaining bytes. */
  datatype ContentEvent =
    | FieldEvent(name: string, rawBody: string)
    | BodyEvent(descriptor: BodyDescriptor, content: seq<byte>)

  /** The handler of package `nl.andrewl.mboxparser` sanitizes MESSAGE-ID,
      the one of package `nl.andrewl.mbox_parser` does not. */
  const SanitizingVariant: bool := true
  const PlainVariant: bool := false

  /** The five recognised header names, in the upper case `field` compares with. */
  const FromName: string := "FROM"
  const SubjectName: string := "SUBJECT"
  const DateName: string := "DATE"
  const MessageIdName: string := "MESSAGE-ID"
  const InReplyToName: string := "IN-REPLY-TO"

  predicate IsRecognized(name: string) {
    EqualsIgnoreCase(name, FromName) || EqualsIgnoreCase(name, SubjectName) || EqualsIgnoreCase(name, DateName)
    || EqualsIgnoreCase(name, MessageIdName) || EqualsIgnoreCase(name, InReplyToName)
  }

  /** The decoded field body, or the raw one when the charset is unsupported. */
  function Decoded(lib: Library, rawBody: string): (r: string)
    ensures lib.decodeText(rawBody).Some? ==> r == lib.decodeText(rawBody).value
    ensures lib.decodeText(rawBody).None? ==> r == rawBody
  {
    lib.decodeText(rawBody).GetOr(rawBody)
  }

  /** What lands in `messageId` for a decoded MESSAGE-ID body. */
  function StoredMessageId(sanitizeMessageId: bool, decoded: string): string {
    if sanitizeMessageId then SanitizeId(decoded) else decoded
  }

  lemma UpperNameIsKey(name: string)
    ensures UpperAscii(name) == FromName <==> EqualsIgnoreCase(name, FromName)
    ensures UpperAscii(name) == SubjectName <==> EqualsIgnoreCase(name, SubjectName)
    ensures UpperAscii(name) == DateName <==> EqualsIgnoreCase(name, DateName)
    ensures UpperAscii(name) == MessageIdName <==> EqualsIgnoreCase(name, MessageIdName)
    ensures UpperAscii(name) == InReplyToName <==> EqualsIgnoreCase(name, InReplyToName)
  {
    UpperAsciiMatchesKey(name, FromName);
    UpperAsciiMatchesKey(name, SubjectName);
    UpperAsciiMatchesKey(name, DateName);
    UpperAsciiMatchesKey(name, MessageIdName);
    UpperAsciiMatchesKey(name, InReplyToName);
  }

  /** `field(Field)`: decode the body, then store it in the one record field
      the name selects. */
  function Field(lib: Library, sanitizeMessageId: bool, email: Email, name: string, rawBody: string): (r: Email)
    ensures !IsRecognized(name) ==> r == email
    ensures EqualsIgnoreCase(name, FromName) ==> r == email.(sentFrom := Some(Decoded(lib, rawBody)))
    ensures EqualsIgnoreCase(name, SubjectName) ==> r == email.(subject := Some(Decoded(lib, rawBody)))
    ensures EqualsIgnoreCase(name, DateName) ==>
      r == email.(date := ParseDate(lib.parseRfc1123, Decoded(lib, rawBody)))
    ensures EqualsIgnoreCase(name, MessageIdName) ==>
      r == email.(messageId := Some(StoredMessageId(sanitizeMessageId, Decoded(lib, rawBody))))
    ensures EqualsIgnoreCase(name, InReplyToName) ==> r == email.(inReplyTo := Some(Decoded(lib, rawBody)))
  {
    UpperNameIsKey(name);
    var key := UpperAscii(name);
    var value := Decoded(lib, rawBody);
    if key == FromName then email.(sentFrom := Some(value))
    else if key == SubjectName then email.(subject := Some(value))
    else if key == DateName then email.(date := ParseDate(lib.parseRfc1123, value))
    else if key == MessageIdName then email.(messageId := Some(StoredMessageId(sanitizeMessageId, value)))
    else if key == InReplyToName then email.(inReplyTo := Some(value))
    else email
  }

  /** `body(BodyDescriptor, InputStream)`: copy the descriptor and keep every
      remaining byte; header fields stay as they are. */
  function Body(email: Email, descriptor: BodyDescriptor, content: seq<byte>): (r: Email)
    ensures r.body == Some(content)
    ensures r.mimeType == Some(descriptor.mimeType)
    ensures r.charset == descriptor.charset
    ensures r.transferEncoding == Some(descriptor.transferEncoding)
    ensures SameHeaders(r, email)
  {
    email.(mimeType := Some(descriptor.mimeType), charset := descriptor.charset,
           transferEncoding := Some(descriptor.transferEncoding), body := Some(content))
  }

  /** The fields filled from header lines agree. */
  predicate SameHeaders(a: Email, b: Email) {
    a.messageId == b.messageId && a.inReplyTo == b.inReplyTo && a.sentFrom == b.sentFrom
    && a.subject == b.subject && a.date == b.date
  }

  function Apply(lib: Library, sanitizeMessageId: bool, email: Email, event: ContentEvent): Email {
    match event
    case FieldEvent(name, rawBody) => Field(lib, sanitizeMessageId, email, name, rawBody)
    case BodyEvent(descriptor, content) => Body(email, descriptor, content)
  }

  /** The record after the handler has seen `events`, in order. */
  function Feed(lib: Library, sanitizeMessageId: bool, email: Email, events: seq<ContentEvent>): Email
    decreases |events|
  {
    if |events| == 0 then email
    else Apply(lib, sanitizeMessageId, Feed(lib, sanitizeMessageId, email, events[..|events| - 1]), events[|events| - 1])
  }

  /** The record one fresh handler builds for a message (`getEmail`): a
      header that never appears leaves its field null, and so does a
      message without a body segment for the body fields. */
  function Extract(lib: Library, sanitizeMessageId: bool, events: seq<ContentEvent>): (r: Email)
    ensures forall h: TextHeader :: LastFieldIndex(events, HeaderName(h)) == -1 ==> Slot(r, h).None?
    ensures LastFieldIndex(events, DateName) == -1 ==> r.date.None?
    ensures LastBodyIndex(events) == -1 ==>
      r.body.None? && r.mimeType.None? && r.charset.None? && r.transferEncoding.None?
  {
    FreshRecordDefaults(lib, sanitizeMessageId, events);
    Feed(lib, sanitizeMessageId, NewEmail, events)
  }

  lemma FreshRecordDefaults(lib: Library, sanitizeMessageId: bool, events: seq<ContentEvent>)
    ensures var r := Feed(lib, sanitizeMessageId, NewEmail, events);
      && (forall h: TextHeader :: LastFieldIndex(events, HeaderName(h)) == -1 ==> Slot(r, h).None?)
      && (LastFieldIndex(events, DateName) == -1 ==> r.date.None?)
      && (LastBodyIndex(events) == -1 ==>
            r.body.None? && r.mimeType.None? && r.charset.None? && r.transferEncoding.None?)
  {
    forall h: TextHeader
      ensures LastFieldIndex(events, HeaderName(h)) == -1 ==> Slot(Feed(lib, sanitizeMessageId, NewEmail, events), h).None?
    {
      LastTextHeaderWins(lib, sanitizeMessageId, NewEmail, events, h);
    }
    LastDateWins(lib, sanitizeMessageId, NewEmail, events);
    LastBodyWins(lib, sanitizeMessageId, NewEmail, events);
  }

  /** The four header fields stored as text. */
  datatype TextHeader = From | Subject | MessageId | InReplyTo

  function HeaderName(h: TextHeader): string {
    match h
    case From => FromName
    case Subject => SubjectName
    case MessageId => MessageIdName
    case InReplyTo => InReplyToName
  }

  function Slot(email: Email, h: TextHeader): Option<string> {
    match h
    case From => email.sentFrom
    case Subject => email.subject
    case MessageId => email.messageId
    case InReplyTo => email.inReplyTo
  }

  /** The text stored for header `h` with raw body `rawBody`. */
  function Stored(lib: Library, sanitizeMessageId: bool, h: TextHeader, rawBody: string): string {
    if h == MessageId then StoredMessageId(sanitizeMessageId, Decoded(lib, rawBody))
    else Decoded(lib, rawBody)
  }

  predicate IsFieldNamed(event: ContentEvent, key: string) {
    event.FieldEvent? && EqualsIgnoreCase(event.name, key)
  }

  /** Position of the last header named `key`, or -1. */
  function LastFieldIndex(events: seq<ContentEvent>, key: string): (k: int)
    ensures -1 <= k < |events|
    ensures 0 <= k ==> IsFieldNamed(events[k], key)
    ensures forall j :: k < j < |events| ==> !IsFieldNamed(events[j], key)
  {
    if |events| == 0 then -1
    else if IsFieldNamed(events[|events| - 1], key) then |events| - 1
    else LastFieldIndex(events[..|events| - 1], key)
  }

  /** Position of the last body segment, or -1. */
  function LastBodyIndex(events: seq<ContentEvent>): (k: int)
    ensures -1 <= k < |events|
    ensures 0 <= k ==> events[k].BodyEvent?
    ensures forall j :: k < j < |events| ==> !events[j].BodyEvent?
  {
    if |events| == 0 then -1
    else if events[|events| - 1].BodyEvent? then |events| - 1
    else LastBodyIndex(events[..|events| - 1])
  }

  /** One event leaves a text field alone unless it is a header of that name. */
  lemma ApplyOtherKeepsSlot(lib: Library, sanitizeMessageId: bool, email: Email, event: ContentEvent, h: TextHeader)
    requires !IsFieldNamed(event, HeaderName(h))
    ensures Slot(Apply(lib, sanitizeMessageId, email, event), h) == Slot(email, h)
  {
    match event
    case BodyEvent(_, _) =>
    case FieldEvent(name, rawBody) => FieldOtherKeepsSlot(lib, sanitizeMessageId, email, name, rawBody, h);
  }

  lemma FieldOtherKeepsSlot(lib: Library, sanitizeMessageId: bool, email: Email, name: string, rawBody: string, h: TextHeader)
    requires !EqualsIgnoreCase(name, HeaderName(h))
    ensures Slot(Field(lib, sanitizeMessageId, email, name, rawBody), h) == Slot(email, h)
  {
    UpperNameIsKey(name);
    match h
    case From =>
    case Subject =>
    case MessageId =>
    case InReplyTo =>
  }

  /** The last header of a name wins; with none, the field keeps its value. */
  lemma {:induction false} LastTextHeaderWins(lib: Library, sanitizeMessageId: bool, email: Email,
                                              events: seq<ContentEvent>, h: TextHeader)
    ensures var k := LastFieldIndex(events, HeaderName(h));
      Slot(Feed(lib, sanitizeMessageId, email, events), h)
        == if k == -1 then Slot(email, h) else Some(Stored(lib, sanitizeMessageId, h, events[k].rawBody))
    decreases |events|
  {
    if |events| > 0 {
      var init := events[..|events| - 1];
      var last := events[|events| - 1];
      LastTextHeaderWins(lib, sanitizeMessageId, email, init, h);
      if !IsFieldNamed(last, HeaderName(h)) {
        ApplyOtherKeepsSlot(lib, sanitizeMessageId, Feed(lib, sanitizeMessageId, email, init), last, h);
        assert LastFieldIndex(events, HeaderName(h)) == LastFieldIndex(init, HeaderName(h));
        var k := LastFieldIndex(init, HeaderName(h));
        if k != -1 {
          assert events[k] == init[k];
        }
      }
    }
  }

  /** The last DATE header decides the date, parsed from its decoded text;
      a last DATE that does not parse leaves the date absent. */
  lemma {:induction false} LastDateWins(lib: Library, sanitizeMessageId: bool, email: Email, events: seq<ContentEvent>)
    ensures var k := LastFieldIndex(events, DateName);
      Feed(lib, sanitizeMessageId, email, events).date
        == if k == -1 then email.date
           else ParseDate(lib.parseRfc1123, Decoded(lib, events[k].rawBody))
    decreases |events|
  {
    if |events| > 0 {
      var init := events[..|events| - 1];
      var last := events[|events| - 1];
      LastDateWins(lib, sanitizeMessageId, email, init);
      if !IsFieldNamed(last, DateName) {
        if last.FieldEvent? {
          UpperNameIsKey(last.name);
        }
        assert LastFieldIndex(events, DateName) == LastFieldIndex(init, DateName);
        var k := LastFieldIndex(init, DateName);
        if k != -1 {
          assert events[k] == init[k];
        }
      }
    }
  }

  /** The last body segment is the one kept, with its descriptor. */
  lemma {:induction false} LastBodyWins(lib: Library, sanitizeMessageId: bool, email: Email, events: seq<ContentEvent>)
    ensures var k := LastBodyIndex(events); var r := Feed(lib, sanitizeMessageId, email, events);
      if k == -1 then
        r.body == email.body && r.mimeType == email.mimeType
        && r.charset == email.charset && r.transferEncoding == email.transferEncoding
      else && r.body == Some(events[k].content)
           && r.mimeType == Some(events[k].descriptor.mimeType)
           && r.charset == events[k].descriptor.charset
           && r.transferEncoding == Some(events[k].descriptor.transferEncoding)
    decreases |events|
  {
    if |events| > 0 {
      var init := events[..|events| - 1];
      LastBodyWins(lib, sanitizeMessageId, email, init);
      if !events[|events| - 1].BodyEvent? {
        if events[|events| - 1].FieldEvent? {
          UpperNameIsKey(events[|events| - 1].name);
        }
        var k := LastBodyIndex(init);
        if k != -1 {
          assert events[k] == init[k];
        }
      }
    }
  }

  /** For a whole message: a header that never appears stays `null`,
      otherwise its last occurrence is stored. */
  lemma ExtractTextHeader(lib: Library, sanitizeMessageId: bool, events: seq<ContentEvent>, h: TextHeader)
    ensures var k := LastFieldIndex(events, HeaderName(h));
      Slot(Extract(lib, sanitizeMessageId, events), h)
        == if k == -1 then None else Some(Stored(lib, sanitizeMessageId, h, events[k].rawBody))
  {
    LastTextHeaderWins(lib, sanitizeMessageId, NewEmail, events, h);
  }

  /** Header names are compared without regard to case. */
  lemma FieldIgnoresCase(lib: Library, sanitizeMessageId: bool, email: Email, n1: string, n2: string, rawBody: string)
    requires EqualsIgnoreCase(n1, n2)
    ensures Field(lib, sanitizeMessageId, email, n1, rawBody) == Field(lib, sanitizeMessageId, email, n2, rawBody)
  {
    assert UpperAscii(n1) == UpperAscii(n2);
  }

  /** The record with its message id blanked out. */
  function WithoutMessageId(email: Email): Email {
    email.(messageId := None)
  }

  /** The two handler versions build the same record except for MESSAGE-ID,
      which one stores sanitized and the other as decoded. */
  lemma {:induction false} VariantsDifferOnlyInMessageId(lib: Library, events: seq<ContentEvent>)
    ensures WithoutMessageId(Extract(lib, SanitizingVariant, events))
         == WithoutMessageId(Extract(lib, PlainVariant, events))
    ensures var plain := Extract(lib, PlainVariant, events).messageId;
      Extract(lib, SanitizingVariant, events).messageId
        == if plain.None? then None else Some(SanitizeId(plain.value))
  {
    FeedVariantsAgree(lib, NewEmail, events);
    ExtractTextHeader(lib, SanitizingVariant, events, MessageId);
    ExtractTextHeader(lib, PlainVariant, events, MessageId);
  }

  lemma {:induction false} FeedVariantsAgree(lib: Library, email: Email, events: seq<ContentEvent>)
    ensures WithoutMessageId(Feed(lib, SanitizingVariant, email, events))
         == WithoutMessageId(Feed(lib, PlainVariant, email, events))
    decreases |events|
  {
    if |events| > 0 {
      var init := events[..|events| - 1];
      var last := events[|events| - 1];
      FeedVariantsAgree(lib, email, init);
      if last.FieldEvent? {
        UpperNameIsKey(last.name);
      }
    }
  }

  // sanitizeId (package mboxparser only): strip padding and the angle
  // brackets around a message identifier.

  /** Everything after the first `<`; the whole text when there is none. */
  function AfterFirstOpen(s: string): (r: string)
    ensures '<' in s ==> exists i | 0 <= i < |s| :: s[i] == '<' && '<' !in s[..i] && r == s[i + 1..]
    ensures '<' !in s ==> r == s
  {
    var open := IndexOf(s, '<');
    if open != -1 then s[open + 1..] else s
  }

  /** Everything before the last `>`; the whole text when there is none. */
  function BeforeLastClose(s: string): (r: string)
    ensures '>' in s ==> exists j | 0 <= j < |s| :: s[j] == '>' && '>' !in s[j + 1..] && r == s[..j]
    ensures '>' !in s ==> r == s
  {
    var close := LastIndexOf(s, '>');
    if close != -1 then s[..close] else s
  }

  /** Trim, drop everything up to and including the first `<`, then drop
      the last `>` and everything after it. */
  function SanitizeId(rawId: string): (r: string)
    ensures |r| <= |rawId|
  {
    BeforeLastClose(AfterFirstOpen(Trim(rawId)))
  }

  /** A bracketed identifier with only padding around it comes back as the
      bare identifier, whatever the identifier holds. */
  lemma {:induction false} SanitizeIdUnwraps(w1: string, m: string, w2: string)
    requires AllTrimmable(w1) && AllTrimmable(w2)
    ensures SanitizeId(w1 + "<" + m + ">" + w2) == m
  {
    var x := "<" + m + ">";
    BracketedUnpadded(m);
    JoinAssoc3(w1, m, w2);
    TrimOfPadded(w1, x, w2);
    OpenOfBracketed(m);
    LastIndexOfTail(m, '>');
  }

  lemma BracketedUnpadded(m: string)
    ensures Unpadded("<" + m + ">")
  {
  }

  lemma OpenOfBracketed(m: string)
    ensures AfterFirstOpen("<" + m + ">") == m + ">"
  {
    var x := "<" + m + ">";
    IndexOfHead(x, '<');
    assert x[1..] == m + ">";
  }

  /** With no brackets and no padding there is nothing to strip. */
  lemma SanitizeIdKeepsPlainId(s: string)
    requires '<' !in s && '>' !in s && Unpadded(s)
    ensures SanitizeId(s) == s
  {
    TrimOfPadded([], s, []);
    assert [] + s + [] == s;
  }

  /** The result is a contiguous part of the raw identifier: it is
      `rawId[lo..hi]`. */
  lemma {:induction false} SanitizeIdIsInfix(rawId: string) returns (lo: nat, hi: nat)
    ensures lo <= hi <= |rawId|
    ensures SanitizeId(rawId) == rawId[lo..hi]
  {
    TrimIsInfix(rawId);
    var st := TrimStart(rawId);
    var en := TrimEnd(rawId, st);
    var afterOpen;
    lo, afterOpen := DropThroughOpen(rawId, st, en);
    hi := DropFromClose(rawId, lo, en, afterOpen);
  }

  lemma {:induction false} DropThroughOpen(rawId: string, st: nat, en: nat) returns (lo: nat, afterOpen: string)
    requires st <= en <= |rawId|
    ensures st <= lo <= en && afterOpen == rawId[lo..en]
    ensures afterOpen == AfterFirstOpen(rawId[st..en])
  {
    var s := rawId[st..en];
    var open := IndexOf(s, '<');
    lo := if open != -1 then st + open + 1 else st;
    afterOpen := if open != -1 then s[open + 1..] else s;
  }

  lemma {:induction false} DropFromClose(rawId: string, lo: nat, en: nat, afterOpen: string) returns (hi: nat)
    requires lo <= en <= |rawId| && afterOpen == rawId[lo..en]
    ensures lo <= hi <= en
    ensures rawId[lo..hi] == BeforeLastClose(afterOpen)
  {
    var close := LastIndexOf(afterOpen, '>');
    hi := if close != -1 then lo + close else en;
  }

  /** Sanitizing is not idempotent: a doubly bracketed identifier loses one
      pair of brackets per application. */
  lemma {:induction false} SanitizeIdNotIdempotent(m: string)
    ensures var inner := ['<'] + m + ['>'];
      SanitizeId(['<'] + inner + ['>']) == inner && SanitizeId(inner) == m && inner != m
  {
    var inner := ['<'] + m + ['>'];
    UnwrapBare(inner);
    UnwrapBare(m);
    assert |inner| != |m|;
  }

  lemma {:induction false} UnwrapBare(m: string)
    ensures SanitizeId(['<'] + m + ['>']) == m
  {
    SanitizeIdUnwraps([], m, []);
    Bracketed(m);
  }

  // parseDate: three text repairs, then the RFC 1123 date parser
  // (section 5.2.14 of RFC 1123), which is a parameter of the model.

  /** A placeholder some archives put in front of the date. */
  const RandomPrefix: string := "RANDOM_"

  /** First repair: cut from the last `(` on (a zone comment) and trim what
      is left. Without a `(` the text is left exactly as it is, untrimmed. */
  function StripComment(s: string): (r: string)
    ensures '(' !in s ==> r == s
    ensures '(' in s ==> Unpadded(r) && exists i | 0 <= i < |s| ::
      s[i] == '(' && '(' !in s[i + 1..] && r == Trim(s[..i])
  {
    var p := LastIndexOf(s, '(');
    if p != -1 then Trim(s[..p]) else s
  }

  /** Second repair: drop one leading `RANDOM_`. */
  function StripRandomPrefix(s: string): (r: string)
    ensures RandomPrefix <= s ==> s == RandomPrefix + r
    ensures !(RandomPrefix <= s) ==> r == s
  {
    if RandomPrefix <= s then s[|RandomPrefix|..] else s
  }

  /** Only one `RANDOM_` goes, however many there are. */
  lemma StripRandomPrefixOnce(x: string)
    ensures StripRandomPrefix(RandomPrefix + RandomPrefix + x) == RandomPrefix + x
  {
    assert RandomPrefix <= RandomPrefix + RandomPrefix + x;
    assert (RandomPrefix + RandomPrefix + x)[|RandomPrefix|..] == RandomPrefix + x;
  }

  /** No whitespace other than `' '`, and never two whitespace chars in a
      row: the shape `replaceAll("\\s+", " ")` leaves behind. */
  predicate SingleSpaced(s: string) {
    && (forall k :: 0 <= k < |s| && IsRegexSpace(s[k]) ==> s[k] == ' ')
    && (forall k :: 0 <= k < |s| - 1 ==> !(IsRegexSpace(s[k]) && IsRegexSpace(s[k + 1])))
  }

  /** The text with every whitespace char removed. */
  function NonSpace(s: string): string {
    if |s| == 0 then []
    else (if IsRegexSpace(s[0]) then [] else [s[0]]) + NonSpace(s[1..])
  }

  /** Drops the whitespace run at the front of `s`. */
  function DropSpaces(s: string): (r: string)
    ensures |r| <= |s| && r == s[|s| - |r|..]
    ensures r == [] || !IsRegexSpace(r[0])
    ensures NonSpace(r) == NonSpace(s)
  {
    if |s| > 0 && IsRegexSpace(s[0]) then DropSpaces(s[1..]) else s
  }

  /** Third repair, `replaceAll("\\s+", " ")`: every maximal whitespace run
      becomes one space. */
  function CollapseWhitespace(s: string): (r: string)
    decreases |s|
    ensures |r| <= |s|
    ensures SingleSpaced(r)
    ensures NonSpace(r) == NonSpace(s)
    ensures |s| > 0 ==> |r| > 0 && (IsRegexSpace(r[0]) <==> IsRegexSpace(s[0]))
  {
    if |s| == 0 then []
    else if IsRegexSpace(s[0]) then
      var rest := CollapseWhitespace(DropSpaces(s[1..]));
      assert NonSpace([' '] + rest) == NonSpace(rest) by {
        assert ([' '] + rest)[1..] == rest;
      }
      [' '] + rest
    else
      var rest := CollapseWhitespace(s[1..]);
      assert NonSpace([s[0]] + rest) == [s[0]] + NonSpace(rest) by {
        assert ([s[0]] + rest)[1..] == rest;
      }
      [s[0]] + rest
  }

  /** Text already in collapsed shape is left alone. */
  lemma {:induction false} CollapseKeepsSingleSpaced(s: string)
    requires SingleSpaced(s)
    ensures CollapseWhitespace(s) == s
    decreases |s|
  {
    if |s| > 0 {
      assert SingleSpaced(s[1..]) by {
        assert forall k :: 0 <= k < |s| - 1 ==> s[1..][k] == s[k + 1];
      }
      CollapseKeepsSingleSpaced(s[1..]);
      if IsRegexSpace(s[0]) {
        assert DropSpaces(s[1..]) == s[1..];
      }
      assert s == [s[0]] + s[1..];
    }
  }

  /** Collapsing twice is collapsing once. */
  lemma CollapseIdempotent(s: string)
    ensures CollapseWhitespace(CollapseWhitespace(s)) == CollapseWhitespace(s)
  {
    CollapseKeepsSingleSpaced(CollapseWhitespace(s));
  }

  predicate AllSpace(s: string) {
    forall k :: 0 <= k < |s| ==> IsRegexSpace(s[k])
  }

  predicate NoSpace(s: string) {
    forall k :: 0 <= k < |s| ==> !IsRegexSpace(s[k])
  }

  /** Text without whitespace is left as it is. */
  lemma CollapseKeepsWord(x: string)
    requires NoSpace(x)
    ensures CollapseWhitespace(x) == x
  {
    CollapseKeepsSingleSpaced(x);
  }

  /** A whitespace run followed by a non-whitespace char (or the end) is
      dropped whole. */
  lemma {:induction false} DropSpacesOfRun(w: string, b: string)
    requires AllSpace(w) && (b == [] || !IsRegexSpace(b[0]))
    ensures DropSpaces(w + b) == b
    decreases |w|
  {
    if |w| > 0 {
      assert (w + b)[1..] == w[1..] + b;
      DropSpacesOfRun(w[1..], b);
    } else {
      assert w + b == b;
    }
  }

  /** Dropping leading whitespace stops inside `x` when `x` ends in a
      non-whitespace char. */
  lemma {:induction false} DropSpacesStopsEarly(x: string, y: string)
    requires |x| > 0 && !IsRegexSpace(x[|x| - 1])
    ensures DropSpaces(x + y) == DropSpaces(x) + y
    ensures |DropSpaces(x)| > 0 && DropSpaces(x)[|DropSpaces(x)| - 1] == x[|x| - 1]
    decreases |x|
  {
    if IsRegexSpace(x[0]) {
      assert (x + y)[1..] == x[1..] + y;
      DropSpacesStopsEarly(x[1..], y);
    }
  }

  /** Each maximal whitespace run becomes exactly one space in the same
      place, including a run at the start or the end of the text. With
      `CollapseKeepsWord` this determines the collapsed text completely. */
  lemma {:induction false} CollapseRun(a: string, w: string, b: string)
    requires a == [] || !IsRegexSpace(a[|a| - 1])
    requires |w| > 0 && AllSpace(w)
    requires b == [] || !IsRegexSpace(b[0])
    ensures CollapseWhitespace(a + w + b) == CollapseWhitespace(a) + [' '] + CollapseWhitespace(b)
    decreases |a|, 1
  {
    if |a| == 0 {
      CollapseLeadingRun(w, b);
      LeftUnit(w, b);
    } else if !IsRegexSpace(a[0]) {
      CollapseRunAfterWord(a, w, b);
    } else {
      CollapseRunAfterSpace(a, w, b);
    }
  }

  lemma {:induction false} CollapseRunAfterWord(a: string, w: string, b: string)
    requires |a| > 0 && !IsRegexSpace(a[0]) && !IsRegexSpace(a[|a| - 1])
    requires |w| > 0 && AllSpace(w)
    requires b == [] || !IsRegexSpace(b[0])
    ensures CollapseWhitespace(a + w + b) == CollapseWhitespace(a) + [' '] + CollapseWhitespace(b)
    decreases |a|, 0
  {
    CollapseRun(a[1..], w, b);
    CollapseRunWordHead(a, w, b);
  }

  lemma {:induction false} CollapseRunAfterSpace(a: string, w: string, b: string)
    requires |a| > 0 && IsRegexSpace(a[0]) && !IsRegexSpace(a[|a| - 1])
    requires |w| > 0 && AllSpace(w)
    requires b == [] || !IsRegexSpace(b[0])
    ensures CollapseWhitespace(a + w + b) == CollapseWhitespace(a) + [' '] + CollapseWhitespace(b)
    decreases |a|, 0
  {
    var tail := a[1..];
    assert tail[|tail| - 1] == a[|a| - 1];
    DropSpacesStopsEarly(tail, w + b);
    var x := DropSpaces(tail);
    JoinAssoc(x, w, b);
    CollapseRun(x, w, b);
    CollapseRunSpaceHead(a, w, b);
  }

  /** The inductive step of `CollapseRun` when `a` starts with a word char. */
  lemma CollapseRunWordHead(a: string, w: string, b: string)
    requires |a| > 0 && !IsRegexSpace(a[0])
    requires CollapseWhitespace(a[1..] + w + b) == CollapseWhitespace(a[1..]) + [' '] + CollapseWhitespace(b)
    ensures CollapseWhitespace(a + w + b) == CollapseWhitespace(a) + [' '] + CollapseWhitespace(b)
  {
    var s := a + w + b;
    TailOfJoin(a, w, b);
    CollapseStepWord(s);
    CollapseStepWord(a);
    Regroup([a[0]], CollapseWhitespace(a[1..]), CollapseWhitespace(b));
  }

  /** The inductive step of `CollapseRun` when `a` starts with whitespace
      that ends inside `a`. */
  lemma CollapseRunSpaceHead(a: string, w: string, b: string)
    requires |a| > 1 && IsRegexSpace(a[0])
    requires DropSpaces(a[1..] + (w + b)) == DropSpaces(a[1..]) + (w + b)
    requires CollapseWhitespace(DropSpaces(a[1..]) + w + b)
             == CollapseWhitespace(DropSpaces(a[1..])) + [' '] + CollapseWhitespace(b)
    ensures CollapseWhitespace(a + w + b) == CollapseWhitespace(a) + [' '] + CollapseWhitespace(b)
  {
    var s := a + w + b;
    var x := DropSpaces(a[1..]);
    TailOfJoin(a, w, b);
    JoinAssoc(a[1..], w, b);
    JoinAssoc(x, w, b);
    CollapseStepSpace(s);
    CollapseStepSpace(a);
    Regroup([' '], CollapseWhitespace(x), CollapseWhitespace(b));
  }

  lemma CollapseLeadingRun(w: string, b: string)
    requires |w| > 0 && AllSpace(w)
    requires b == [] || !IsRegexSpace(b[0])
    ensures CollapseWhitespace(w + b) == CollapseWhitespace([]) + [' '] + CollapseWhitespace(b)
  {
    TailOfPair(w, b);
    DropSpacesOfRun(w[1..], b);
    CollapseStepSpace(w + b);
  }

  lemma CollapseStepWord(s: string)
    requires |s| > 0 && !IsRegexSpace(s[0])
    ensures CollapseWhitespace(s) == [s[0]] + CollapseWhitespace(s[1..])
  {
  }

  lemma CollapseStepSpace(s: string)
    requires |s| > 0 && IsRegexSpace(s[0])
    ensures CollapseWhitespace(s) == [' '] + CollapseWhitespace(DropSpaces(s[1..]))
  {
  }

  /** A date split by a single run: `"a  b"` reaches the parser as `"a b"`. */
  lemma CollapseTwoWords(a: string, w: string, b: string)
    requires |a| > 0 && NoSpace(a) && |w| > 0 && AllSpace(w) && |b| > 0 && NoSpace(b)
    ensures CollapseWhitespace(a + w + b) == a + [' '] + b
  {
    CollapseRun(a, w, b);
    CollapseKeepsWord(a);
    CollapseKeepsWord(b);
  }

  /** The text handed to the RFC 1123 parser. */
  function NormalizeDate(s: string): (r: string)
    ensures |r| <= |s|
    ensures SingleSpaced(r)
    ensures '(' !in s && !(RandomPrefix <= s) ==> r == CollapseWhitespace(s)
  {
    CollapseWhitespace(StripRandomPrefix(StripComment(s)))
  }

  /** `parseDate`: `None` (Java's `null`) when the parser rejects the
      normalised text; nothing escapes. */
  function ParseDate(parseRfc1123: string -> Option<Timestamp>, s: string): (r: Option<Timestamp>)
    ensures r.None? <==> parseRfc1123(NormalizeDate(s)).None?
    ensures r.Some? ==> parseRfc1123(NormalizeDate(s)) == r
  {
    parseRfc1123(NormalizeDate(s))
  }

  /** A date with no comment, no placeholder and single spaces reaches the
      parser exactly as written. */
  lemma CanonicalDateUnchanged(parseRfc1123: string -> Option<Timestamp>, s: string)
    requires '(' !in s && !(RandomPrefix <= s) && SingleSpaced(s)
    ensures NormalizeDate(s) == s
    ensures ParseDate(parseRfc1123, s) == parseRfc1123(s)
  {
    CollapseKeepsSingleSpaced(s);
  }

  /** The cut is at the LAST `(`: a comment that itself holds a `(` is cut
      inside, so `"... (GMT (UK))"` keeps `"... (GMT"`. */
  lemma {:induction false} StripCommentCutsAtLast(p: string, c: string)
    requires '(' !in c
    ensures StripComment(p + "(" + c) == Trim(p)
  {
    var s := p + "(" + c;
    var at := |p|;
    assert s[at] == '(';
    assert s[..at] == p;
    var q := LastIndexOf(s, '(');
    assert q == at by {
      assert s[at + 1..] == c;
      assert forall k :: at < k < |s| ==> s[k] == c[k - at - 1];
    }
  }

  /** A trailing zone comment, with any padding before it, does not change
      the parse. */
  lemma CommentIsInvisible(parseRfc1123: string -> Option<Timestamp>, d: string, w: string, c: string)
    requires '(' !in d && '(' !in c && Unpadded(d) && AllTrimmable(w)
    ensures StripComment(d + w + "(" + c) == d
    ensures ParseDate(parseRfc1123, d + w + "(" + c) == ParseDate(parseRfc1123, d)
  {
    StripCommentCutsAtLast(d + w, c);
    TrimOfPadded([], d, w);
    LeftUnit(d, w);
  }

  /** A leading placeholder is removed before the parser sees the text. */
  lemma PlaceholderIsInvisible(parseRfc1123: string -> Option<Timestamp>, s: string)
    requires '(' !in s
    ensures ParseDate(parseRfc1123, RandomPrefix + s) == parseRfc1123(CollapseWhitespace(s))
  {
    assert '(' !in RandomPrefix + s;
    assert RandomPrefix <= RandomPrefix + s;
  }

  /** Without a `(` nothing is trimmed before the placeholder test: after
      leading blanks `RANDOM_` is kept, and the parser sees it behind one
      space. */
  lemma PlaceholderAfterBlanksKept(w: string, s: string)
    requires |w| > 0 && AllSpace(w) && '(' !in s
    ensures NormalizeDate(w + RandomPrefix + s) == [' '] + RandomPrefix + CollapseWhitespace(s)
  {
    BlankLedDateUncut(w, s);
    CollapseBlankLed(w, s);
  }

  /** With a `(` the cut trims first, so a `RANDOM_` after leading blanks
      is dropped after all. */
  lemma PlaceholderAfterCutDropped(w: string, x: string, c: string)
    requires AllTrimmable(w) && '(' !in c && Unpadded(RandomPrefix + x)
    ensures NormalizeDate(w + (RandomPrefix + x) + "(" + c) == CollapseWhitespace(x)
  {
    CutLeavesPlaceholder(w, x, c);
    PlaceholderStripped(x);
  }

  lemma CutLeavesPlaceholder(w: string, x: string, c: string)
    requires AllTrimmable(w) && '(' !in c && Unpadded(RandomPrefix + x)
    ensures StripComment(w + (RandomPrefix + x) + "(" + c) == RandomPrefix + x
  {
    StripCommentCutsAtLast(w + (RandomPrefix + x), c);
    TrimOfPadded(w, RandomPrefix + x, []);
    RightUnit(w + (RandomPrefix + x));
  }

  lemma PlaceholderStripped(x: string)
    ensures StripRandomPrefix(RandomPrefix + x) == x
  {
    assert RandomPrefix <= RandomPrefix + x;
  }

  lemma BlankLedDateUncut(w: string, s: string)
    requires |w| > 0 && AllSpace(w) && '(' !in s
    ensures NormalizeDate(w + RandomPrefix + s) == CollapseWhitespace(w + RandomPrefix + s)
  {
    var t := w + RandomPrefix + s;
    assert t[0] == w[0];
    assert RandomPrefix[0] == 'R';
    assert '(' !in w by {
      assert forall k :: 0 <= k < |w| ==> w[k] != '(';
    }
    assert '(' !in RandomPrefix by {
      PlaceholderHasNoSpace();
      assert RandomPrefix == ['R', 'A', 'N', 'D', 'O', 'M', '_'];
    }
  }

  lemma CollapseBlankLed(w: string, s: string)
    requires |w| > 0 && AllSpace(w)
    ensures CollapseWhitespace(w + RandomPrefix + s) == [' '] + RandomPrefix + CollapseWhitespace(s)
  {
    JoinAssoc(w, RandomPrefix, s);
    CollapseLeadingRun(w, RandomPrefix + s);
    PlaceholderHasNoSpace();
    CollapseWordPrefix(RandomPrefix, s);
    JoinAssoc([' '], RandomPrefix, CollapseWhitespace(s));
  }

  lemma PlaceholderHasNoSpace()
    ensures NoSpace(RandomPrefix)
  {
    assert RandomPrefix == ['R', 'A', 'N', 'D', 'O', 'M', '_'];
  }

  /** Text without whitespace in front passes through collapsing as it is. */
  lemma {:induction false} CollapseWordPrefix(x: string, s: string)
    requires NoSpace(x)
    ensures CollapseWhitespace(x + s) == x + CollapseWhitespace(s)
    decreases |x|
  {
    if |x| == 0 {
      LeftUnit(x, s);
      assert x + s == s;
    } else {
      TailOfPair(x, s);
      assert NoSpace(x[1..]) by {
        assert forall k :: 0 <= k < |x| - 1 ==> x[1..][k] == x[k + 1];
      }
      CollapseWordPrefix(x[1..], s);
      CollapseStepWord(x + s);
      ConsJoin(x, CollapseWhitespace(s));
    }
  }

  // Concatenation facts the proofs above use. Each is stated for the exact
  // shape a proof needs, so that the proof itself never has to reason about
  // sequence equality element by element.

  lemma JoinAssoc3(w1: string, m: string, w2: string)
    ensures w1 + "<" + m + ">" + w2 == w1 + ("<" + m + ">") + w2
  {
  }

  lemma Bracketed(m: string)
    ensures [] + "<" + m + ">" + [] == ['<'] + m + ['>']
  {
  }

  lemma TailOfPair(x: string, y: string)
    requires |x| > 0
    ensures (x + y)[1..] == x[1..] + y
  {
  }

  lemma TailOfJoin(a: string, w: string, b: string)
    requires |a| > 0
    ensures (a + w + b)[0] == a[0]
    ensures (a + w + b)[1..] == a[1..] + w + b
  {
  }

  lemma JoinAssoc(x: string, w: string, b: string)
    ensures x + (w + b) == x + w + b
  {
  }

  lemma Regroup(c: string, x: string, y: string)
    ensures c + (x + [' '] + y) == (c + x) + [' '] + y
  {
  }

  lemma LeftUnit(d: string, w: string)
    ensures [] + d + w == d + w
  {
  }

  lemma RightUnit(s: string)
    ensures s + [] == s
  {
  }

  lemma ConsJoin(x: string, y: string)
    requires |x| > 0
    ensures [x[0]] + (x[1..] + y) == x + y
  {
  }
}
