/** message.go: the Message object. Setters guard against empty input and
    otherwise overwrite a field; two of them append to the body buffer;
    SetAttachment writes a base64 part into the body; SendMultipart validates
    in a fixed order, assembles the header and hands header + body to the
    transport. Address parsing, the multipart writer, the clock, the random
    source, the host name lookup and SMTP delivery are inputs. */
module Composer {
  import opened Errors
  import opened Sequences
  import opened Mail
  import Base64
  import Mime

  const CrlfText := "\r\n"

  /** What SetBodyPlainText writes before the content. */
  const PlainTextPrefix := "Content-Type: text/plain; charset=\"UTF-8\"\r\n\r\n"

  /** ContentTypeMultipart, the only content type the code ever stores. */
  const MultipartMixed := "multipart/mixed"

  datatype Attachment = Attachment(name: string, data: seq<bv8>)

  /** Every field of a Message, as one value. */
  datatype MessageState = MessageState(
    options: Options,
    from: string,
    to: seq<string>,
    subject: string,
    cc: seq<string>,
    bcc: seq<string>,
    header: string,
    body: string,
    plainText: seq<bv8>,
    html: seq<bv8>,
    boundary: string,
    contentType: string,
    attachment: seq<Attachment>)

  /** What os.ReadFile answers: the file's bytes, or an error together with
      whatever bytes it returned. */
  datatype ReadOutcome = ReadOk(data: seq<bv8>) | ReadFailed(partial: seq<bv8>)

  /** The multipart writer SetAttachment opens over the body: its boundary,
      the text CreatePart writes for a part header, and the text Close writes. */
  datatype PartWriter = PartWriter(
    boundary: string,
    openPart: seq<(string, string)> -> string,
    closing: string)

  /** What the transport receives: "host:port", the credentials, the envelope
      sender and recipients, and the raw message. */
  datatype Envelope = Envelope(
    address: string,
    auth: Credentials,
    from: string,
    to: seq<string>,
    data: string)

  /** The world as SendMultipart sees it. `parseAddress` answers the
      re-serialised address (net/mail's ParseAddress then String) or None for
      a malformed one; `deliver` answers an SMTP failure, if any. */
  datatype Environment = Environment(
    parseAddress: string -> Option<string>,
    hostname: Option<string>,
    random: RandomDraw,
    date: string,
    deliver: Envelope -> Option<string>)

  /** The header field after a send, its error, and what was handed to SMTP. */
  datatype SendOutcome = SendOutcome(header: string, error: Option<Error>, sent: Option<Envelope>)

  /** The state New leaves: the options, every other field empty. */
  function Initial(opt: Options): MessageState
  {
    MessageState(opt, "", [], "", [], [], "", "", [], [], "", "", [])
  }

  /** Bytes written into the body buffer, one character per byte. */
  function AsText(bs: seq<bv8>): (r: string)
    ensures |r| == |bs|
    ensures forall i :: 0 <= i < |bs| ==> r[i] as int == bs[i] as int
  {
    seq(|bs|, i requires 0 <= i < |bs| => bs[i] as char)
  }

  /** The MIME header SetAttachment gives the part. */
  function AttachmentPartHeader(filename: string): seq<(string, string)>
  {
    [("Content-Type", Mime.MimeType(filename) + "; name=\"" + filename + "\""),
     ("Content-Transfer-Encoding", "base64"),
     ("Content-Disposition", "attachment; filename=\"" + filename + "\"")]
  }

  /** Everything SetAttachment appends to the body: the part opening, the
      base64 payload wrapped at 76 columns, the writer's closing. */
  function AttachmentPart(filename: string, data: seq<bv8>, writer: PartWriter): string
  {
    writer.openPart(AttachmentPartHeader(filename))
    + AsText(Base64.Wrapped(Base64.Encode(data)))
    + writer.closing
  }

  // ---------------------------------------------------------------------
  // SendMultipart, as a function of the state and the environment
  // ---------------------------------------------------------------------

  /** Index of the first address the parser rejects, if any. */
  function FirstRejected(addrs: seq<string>, parse: string -> Option<string>): (r: Option<nat>)
    ensures r.Some? ==> r.value < |addrs| && parse(addrs[r.value]).None?
    ensures r.Some? ==> forall j :: 0 <= j < r.value ==> parse(addrs[j]).Some?
    ensures r.None? <==> forall j :: 0 <= j < |addrs| ==> parse(addrs[j]).Some?
    decreases |addrs|
  {
    if |addrs| == 0 then None
    else if parse(addrs[0]).None? then Some(0)
    else match FirstRejected(addrs[1..], parse)
      case None => None
      case Some(k) => Some(k + 1)
  }

  /** An address rejected after accepted ones is the first rejected. */
  lemma {:induction false} FirstRejectedAt(addrs: seq<string>, parse: string -> Option<string>, i: nat)
    requires i < |addrs| && parse(addrs[i]).None?
    requires forall j :: 0 <= j < i ==> parse(addrs[j]).Some?
    ensures FirstRejected(addrs, parse) == Some(i)
    decreases i
  {
    if i > 0 {
      assert parse(addrs[0]).Some?;
      var rest := addrs[1..];
      assert rest[i - 1] == addrs[i];
      forall j | 0 <= j < i - 1
        ensures parse(rest[j]).Some?
      {
        assert rest[j] == addrs[j + 1];
      }
      FirstRejectedAt(rest, parse, i - 1);
    }
  }

  /** The header SendMultipart assigns: its fields, each followed by CRLF,
      then the tail. */
  function HeaderText(from: string, to: seq<string>, subject: string, messageId: string,
                      date: string, cc: seq<string>, bcc: seq<string>,
                      attachment: seq<Attachment>, boundary: string): string
  {
    Terminated(HeaderFields(from, to, subject, messageId, date, cc, bcc), CrlfText)
    + HeaderTail(attachment, boundary)
  }

  /** What follows the CRLF-terminated fields: the Content-Type line when
      there are attachments, nothing otherwise. */
  function HeaderTail(attachment: seq<Attachment>, boundary: string): string
  {
    if |attachment| > 0 then ContentTypeLine(boundary) else ""
  }

  /** The Content-Type line, written without a terminating CRLF. */
  function ContentTypeLine(boundary: string): string
  {
    "Content-Type: multipart/mixed; boundary=\"" + boundary + "\""
  }

  /** The CRLF-terminated header lines, in order. */
  function HeaderFields(from: string, to: seq<string>, subject: string, messageId: string,
                        date: string, cc: seq<string>, bcc: seq<string>): seq<string>
  {
    ["From: " + from, "To: " + Join(to, ","), "Subject: " + subject,
     "Message-ID: " + messageId, "Date: " + date, "MIME-Version: 1.0"]
    + (if |cc| > 0 then ["Cc: " + Join(cc, ",")] else [])
    + (if |bcc| > 0 then ["Bcc: " + Join(bcc, ",")] else [])
  }

  /** SendMultipart: the three emptiness checks, the address checks, the
      header, plainAuth, then delivery of header + body. */
  function Compose(s: MessageState, env: Environment): SendOutcome
  {
    if s.from == "" then SendOutcome(s.header, Some(EmptyFrom), None)
    else if |s.to| == 0 then SendOutcome(s.header, Some(EmptyTo), None)
    else if s.subject == "" then SendOutcome(s.header, Some(EmptySubject), None)
    else if env.parseAddress(s.from).None? then SendOutcome(s.header, Some(InvalidAddress(s.from)), None)
    else match FirstRejected(s.to, env.parseAddress)
      case Some(k) => SendOutcome(s.header, Some(InvalidAddress(s.to[k])), None)
      case None =>
        var header := HeaderText(env.parseAddress(s.from).value, s.to, s.subject,
                                 MessageIdText(env.hostname, env.random), env.date,
                                 s.cc, s.bcc, s.attachment, s.boundary);
        match PlainAuth(s.options)
        case Failure(e) => SendOutcome(header, Some(e), None)
        case Success(auth) =>
          var envelope := Envelope(s.options.host + ":" + s.options.port, auth, s.from, s.to, header + s.body);
          var failure := env.deliver(envelope);
          SendOutcome(header, if failure.Some? then Some(Delivery(failure.value)) else None, Some(envelope))
  }

  /** No carriage return in any element. */
  predicate NoCr(xs: seq<string>)
  {
    forall k :: 0 <= k < |xs| ==> '\r' !in xs[k]
  }

  /** Appending a "name: value" field to terminated lines. */
  lemma FieldStep(xs: seq<string>, name: string, value: string)
    ensures Terminated(xs + [name + value], CrlfText) == Terminated(xs, CrlfText) + name + value + CrlfText
  {
    TerminatedSnoc(xs, name + value, CrlfText);
  }

  /** The six fields every header has, each followed by CRLF. */
  lemma FixedFields(from: string, to: seq<string>, subject: string, messageId: string, date: string)
    ensures "From: " + from + CrlfText
      + "To: " + Join(to, ",") + CrlfText
      + "Subject: " + subject + CrlfText
      + "Message-ID: " + messageId + CrlfText
      + "Date: " + date + CrlfText
      + "MIME-Version: 1.0" + CrlfText
      == Terminated(HeaderFields(from, to, subject, messageId, date, [], []), CrlfText)
  {
    var b0: seq<string> := [];
    var b1 := b0 + ["From: " + from];
    var b2 := b1 + ["To: " + Join(to, ",")];
    var b3 := b2 + ["Subject: " + subject];
    var b4 := b3 + ["Message-ID: " + messageId];
    var b5 := b4 + ["Date: " + date];
    var b6 := b5 + ["MIME-Version: 1.0"];
    var h1 := "From: " + from + CrlfText;
    FieldStep(b0, "From: ", from);
    assert Terminated(b0, CrlfText) + "From: " == "From: ";
    assert h1 == Terminated(b1, CrlfText);
    var h2 := h1 + "To: " + Join(to, ",") + CrlfText;
    FieldStep(b1, "To: ", Join(to, ","));
    assert h2 == Terminated(b2, CrlfText);
    var h3 := h2 + "Subject: " + subject + CrlfText;
    FieldStep(b2, "Subject: ", subject);
    assert h3 == Terminated(b3, CrlfText);
    var h4 := h3 + "Message-ID: " + messageId + CrlfText;
    FieldStep(b3, "Message-ID: ", messageId);
    assert h4 == Terminated(b4, CrlfText);
    var h5 := h4 + "Date: " + date + CrlfText;
    FieldStep(b4, "Date: ", date);
    assert h5 == Terminated(b5, CrlfText);
    TerminatedSnoc(b5, "MIME-Version: 1.0", CrlfText);
    assert h5 + "MIME-Version: 1.0" + CrlfText == Terminated(b6, CrlfText);
    assert b6 == HeaderFields(from, to, subject, messageId, date, [], []);
  }

  /** Header fields hold no carriage return when none of their values does. */
  lemma FieldsSeparable(from: string, to: seq<string>, subject: string, messageId: string,
                        date: string, cc: seq<string>, bcc: seq<string>)
    requires NoCr([from, subject, messageId, date]) && NoCr(to) && NoCr(cc) && NoCr(bcc)
    ensures NoCr(HeaderFields(from, to, subject, messageId, date, cc, bcc))
  {
    JoinExcludes(to, ",", '\r');
    JoinExcludes(cc, ",", '\r');
    JoinExcludes(bcc, ",", '\r');
    assert '\r' !in from && '\r' !in subject && '\r' !in messageId && '\r' !in date by {
      assert [from, subject, messageId, date][0] == from;
      assert [from, subject, messageId, date][1] == subject;
      assert [from, subject, messageId, date][2] == messageId;
      assert [from, subject, messageId, date][3] == date;
    }
  }

  /** Read as CRLF-separated lines, a header is its fields followed by the
      tail: an unterminated Content-Type line when there are attachments,
      and an empty remainder otherwise. */
  lemma HeaderLines(from: string, to: seq<string>, subject: string, messageId: string,
                    date: string, cc: seq<string>, bcc: seq<string>,
                    attachment: seq<Attachment>, boundary: string, body: string)
    requires NoCr([from, subject, messageId, date]) && NoCr(to) && NoCr(cc) && NoCr(bcc)
    ensures Split(HeaderText(from, to, subject, messageId, date, cc, bcc, attachment, boundary) + body, CrlfText)
         == HeaderFields(from, to, subject, messageId, date, cc, bcc)
            + Split(HeaderTail(attachment, boundary) + body, CrlfText)
  {
    var fields := HeaderFields(from, to, subject, messageId, date, cc, bcc);
    FieldsSeparable(from, to, subject, messageId, date, cc, bcc);
    assert Separable(fields, CrlfText);
    var tail := HeaderTail(attachment, boundary);
    assert Terminated(fields, CrlfText) + tail + body == Terminated(fields, CrlfText) + (tail + body);
    SplitTerminated(fields, CrlfText, tail + body);
  }

  /** SendMultipart's message checks pass: sender, recipients and subject
      are set, and every address parses. */
  predicate Validated(s: MessageState, env: Environment)
  {
    && s.from != "" && |s.to| > 0 && s.subject != ""
    && env.parseAddress(s.from).Some?
    && (forall j :: 0 <= j < |s.to| ==> env.parseAddress(s.to[j]).Some?)
  }

  /** All of SendMultipart's checks pass: the message checks, and the
      credentials are complete. */
  predicate Ready(s: MessageState, env: Environment)
  {
    && Validated(s, env)
    && s.options.username != "" && s.options.password != "" && s.options.host != ""
  }

  /** The checks run in order and the first that fails decides the error:
      an empty sender, then no recipients, then an empty subject, then an
      unparsable sender, then the first unparsable recipient, and only then
      the credentials. Nothing is sent when any of them fails. */
  lemma ValidationOrder(s: MessageState, env: Environment)
    ensures var o := Compose(s, env);
      && (s.from == "" ==> o.error == Some(EmptyFrom))
      && (s.from != "" && |s.to| == 0 ==> o.error == Some(EmptyTo))
      && (s.from != "" && |s.to| > 0 && s.subject == "" ==> o.error == Some(EmptySubject))
      && (s.from != "" && |s.to| > 0 && s.subject != "" && env.parseAddress(s.from).None?
          ==> o.error == Some(InvalidAddress(s.from)))
      && (s.from != "" && |s.to| > 0 && s.subject != "" && env.parseAddress(s.from).Some?
          && FirstRejected(s.to, env.parseAddress).Some?
          ==> o.error == Some(InvalidAddress(s.to[FirstRejected(s.to, env.parseAddress).value])))
      && (Validated(s, env) && PlainAuth(s.options).Failure?
          ==> o.error == Some(PlainAuth(s.options).error))
      && (!Ready(s, env) ==> o.error.Some? && o.sent.None?)
  {
    if Validated(s, env) {
      assert FirstRejected(s.to, env.parseAddress) == None;
    }
  }

  /** The message checks come before the credentials: when one of them
      fails, the outcome is the same whatever the options hold, so a bad
      address is reported even when the credentials are missing too. */
  lemma ChecksBeforeCredentials(s: MessageState, env: Environment, opt: Options)
    requires !Validated(s, env)
    ensures Compose(s.(options := opt), env) == Compose(s, env)
    ensures Compose(s, env).error.Some? && Compose(s, env).error.value != EmptyUsername
            && Compose(s, env).error.value != EmptyPassword && Compose(s, env).error.value != EmptyHost
  {
  }

  /** The message reaches the transport exactly when every check passes, and
      then as header + body, from the unparsed sender to the recipients as
      set, at host:port; only a transport failure is reported after that. */
  lemma SendGate(s: MessageState, env: Environment)
    ensures var o := Compose(s, env);
      && (o.sent.Some? <==> Ready(s, env))
      && (o.sent.Some? ==> o.sent.value == Envelope(
            s.options.host + ":" + s.options.port,
            PlainCredentials("", s.options.username, s.options.password, s.options.host),
            s.from, s.to, o.header + s.body))
      && (o.error.None? <==> o.sent.Some? && env.deliver(o.sent.value).None?)
  {
  }

  /** The header field is reassigned once the addresses have been checked,
      even when authentication then fails; before that it is left as it was. */
  lemma HeaderAssignment(s: MessageState, env: Environment)
    ensures Compose(s, env).header
        == if Validated(s, env)
           then HeaderText(env.parseAddress(s.from).value, s.to, s.subject,
                           MessageIdText(env.hostname, env.random), env.date,
                           s.cc, s.bcc, s.attachment, s.boundary)
           else s.header
  {
  }

  /** The header is rebuilt from scratch, never appended to: sending again
      with the same world gives the same outcome. */
  lemma ResendIdempotent(s: MessageState, env: Environment)
    ensures Compose(s.(header := Compose(s, env).header), env) == Compose(s, env)
  {
  }

  /** As transmitted, with no attachment (which every Message keeps), the
      message is the header fields followed directly by the body's lines: no
      empty line ends the header, so a body that does not start with CRLF has
      its first line read as one more header field. */
  lemma NoBlankLineBeforeBody(s: MessageState, env: Environment)
    requires Ready(s, env) && s.attachment == []
    requires NoCr([env.parseAddress(s.from).value, s.subject,
                   MessageIdText(env.hostname, env.random), env.date])
    requires NoCr(s.to) && NoCr(s.cc) && NoCr(s.bcc)
    ensures var fields := HeaderFields(env.parseAddress(s.from).value, s.to, s.subject,
                                       MessageIdText(env.hostname, env.random), env.date, s.cc, s.bcc);
      var lines := Split(Compose(s, env).sent.value.data, CrlfText);
      && lines == fields + Split(s.body, CrlfText)
      && (forall k :: 0 <= k < |fields| ==> lines[k] != "")
      && (|s.body| > 0 && s.body[0] != '\r' ==> lines[|fields|] != "")
  {
    var from := env.parseAddress(s.from).value;
    var id := MessageIdText(env.hostname, env.random);
    var fields := HeaderFields(from, s.to, s.subject, id, env.date, s.cc, s.bcc);
    SentText(s, env);
    HeaderLines(from, s.to, s.subject, id, env.date, s.cc, s.bcc, s.attachment, s.boundary, s.body);
    assert HeaderTail(s.attachment, s.boundary) + s.body == s.body;
    FieldsNonEmpty(from, s.to, s.subject, id, env.date, s.cc, s.bcc);
    FieldsThenBody(fields, s.body);
  }

  /** What a ready message hands to the transport: the freshly built
      header, then the body. */
  lemma SentText(s: MessageState, env: Environment)
    requires Ready(s, env)
    ensures Compose(s, env).sent.Some?
    ensures Compose(s, env).sent.value.data
         == HeaderText(env.parseAddress(s.from).value, s.to, s.subject,
                       MessageIdText(env.hostname, env.random), env.date,
                       s.cc, s.bcc, s.attachment, s.boundary) + s.body
  {
    SendGate(s, env);
    HeaderAssignment(s, env);
  }

  lemma FieldsNonEmpty(from: string, to: seq<string>, subject: string, messageId: string,
                       date: string, cc: seq<string>, bcc: seq<string>)
    ensures var fields := HeaderFields(from, to, subject, messageId, date, cc, bcc);
      forall k :: 0 <= k < |fields| ==> fields[k] != ""
  {
    var fields := HeaderFields(from, to, subject, messageId, date, cc, bcc);
    forall k | 0 <= k < |fields|
      ensures fields[k] != ""
    {
      assert fields[k][0] in "FTSMDCB";
    }
  }

  /** Lines made of non-empty fields followed by a body that does not start
      with CR hold no empty line up to the body's first. */
  lemma FieldsThenBody(fields: seq<string>, body: string)
    requires forall k :: 0 <= k < |fields| ==> fields[k] != ""
    ensures var lines := fields + Split(body, CrlfText);
      && (forall k :: 0 <= k < |fields| ==> lines[k] != "")
      && (|body| > 0 && body[0] != '\r' ==> lines[|fields|] != "")
  {
    var lines := fields + Split(body, CrlfText);
    forall k | 0 <= k < |fields|
      ensures lines[k] != ""
    {
      assert lines[k] == fields[k];
    }
    if |body| > 0 && body[0] != '\r' {
      SplitHeadNonEmpty(body, CrlfText);
      assert lines[|fields|] == Split(body, CrlfText)[0];
    }
  }

  /** The Content-Type line is only written for a non-empty attachment
      list; a Message never has one (see Message.Valid), so what it sends
      has only CRLF-terminated fields in its header. */
  lemma ContentTypeLineUnreachable(s: MessageState, env: Environment)
    requires s.attachment == []
    ensures var h := Compose(s, env).header;
      h == s.header
      || h == Terminated(HeaderFields(env.parseAddress(s.from).value, s.to, s.subject,
                                      MessageIdText(env.hostname, env.random), env.date,
                                      s.cc, s.bcc), CrlfText)
  {
    HeaderAssignment(s, env);
  }

  /** The To field lists the recipients joined by commas; when no address
      contains a comma, splitting the field value at commas gives them back. */
  lemma RecipientsRecoverable(from: string, to: seq<string>, subject: string, messageId: string,
                              date: string, cc: seq<string>, bcc: seq<string>)
    requires |to| > 0
    requires forall k :: 0 <= k < |to| ==> ',' !in to[k]
    ensures var field := HeaderFields(from, to, subject, messageId, date, cc, bcc)[1];
      field[..4] == "To: " && Split(field[4..], ",") == to
  {
    var field := HeaderFields(from, to, subject, messageId, date, cc, bcc)[1];
    assert field == "To: " + Join(to, ",");
    assert field[4..] == Join(to, ",");
    SplitJoin(to, ",");
  }

  /** The header assembly of SendMultipart: six fixed fields, then Cc and
      Bcc when present, then the Content-Type line when there are
      attachments, each step appending to what is there. */
  method AssembleHeader(from: string, to: seq<string>, subject: string, messageId: string,
                        date: string, cc: seq<string>, bcc: seq<string>,
                        attachment: seq<Attachment>, boundary: string) returns (h: string)
    ensures h == HeaderText(from, to, subject, messageId, date, cc, bcc, attachment, boundary)
  {
    h := "From: " + from + CrlfText
      + "To: " + Join(to, ",") + CrlfText
      + "Subject: " + subject + CrlfText
      + "Message-ID: " + messageId + CrlfText
      + "Date: " + date + CrlfText
      + "MIME-Version: 1.0" + CrlfText;
    FixedFields(from, to, subject, messageId, date);
    ghost var fields := HeaderFields(from, to, subject, messageId, date, [], []);
    if |cc| > 0 {
      FieldStep(fields, "Cc: ", Join(cc, ","));
      fields := fields + ["Cc: " + Join(cc, ",")];
      h := h + "Cc: " + Join(cc, ",") + CrlfText;
    }
    if |bcc| > 0 {
      FieldStep(fields, "Bcc: ", Join(bcc, ","));
      fields := fields + ["Bcc: " + Join(bcc, ",")];
      h := h + "Bcc: " + Join(bcc, ",") + CrlfText;
    }
    assert fields == HeaderFields(from, to, subject, messageId, date, cc, bcc);
    if |attachment| > 0 {
      h := h + ContentTypeLine(boundary);
    }
  }

  // ---------------------------------------------------------------------
  // The Message object
  // ---------------------------------------------------------------------

  class Message {
    var options: Options
    var from: string
    var to: seq<string>
    var subject: string
    var cc: seq<string>
    var bcc: seq<string>
    var header: string
    var body: string
    var plainText: seq<bv8>
    var html: seq<bv8>
    var boundary: string
    var contentType: string
    var attachment: seq<Attachment>

    ghost function State(): MessageState
      reads this
    {
      MessageState(options, from, to, subject, cc, bcc, header, body,
                   plainText, html, boundary, contentType, attachment)
    }

    /** What every method keeps: nothing is ever appended to `attachment`,
        and a boundary is only set together with the multipart content type. */
    ghost predicate Valid()
      reads this`attachment, this`contentType, this`boundary
    {
      && attachment == []
      && (contentType == "" || contentType == MultipartMixed)
      && (boundary != "" ==> contentType == MultipartMixed)
    }

    constructor (opt: Options)
      ensures State() == Initial(opt) && Valid()
    {
      options := opt;
      from, to, subject, cc, bcc := "", [], "", [], [];
      header, body, plainText, html := "", "", [], [];
      boundary, contentType, attachment := "", "", [];
    }

    method SetFrom(from: string) returns (err: Option<Error>)
      requires Valid()
      modifies this
      ensures Valid()
      ensures from == "" ==> err == Some(EmptyFrom) && State() == old(State())
      ensures from != "" ==> err == None && State() == old(State()).(from := from)
    {
      if from == "" {
        return Some(EmptyFrom);
      }
      this.from := from;
      err := None;
    }

    method SetTo(to: seq<string>) returns (err: Option<Error>)
      requires Valid()
      modifies this
      ensures Valid()
      ensures |to| == 0 ==> err == Some(EmptyTo) && State() == old(State())
      ensures |to| > 0 ==> err == None && State() == old(State()).(to := to)
    {
      if |to| == 0 {
        return Some(EmptyTo);
      }
      this.to := to;
      err := None;
    }

    method SetSubject(subject: string) returns (err: Option<Error>)
      requires Valid()
      modifies this
      ensures Valid()
      ensures subject == "" ==> err == Some(EmptySubject) && State() == old(State())
      ensures subject != "" ==> err == None && State() == old(State()).(subject := subject)
    {
      if subject == "" {
        return Some(EmptySubject);
      }
      this.subject := subject;
      err := None;
    }

    /** No guard: an empty list clears the field. */
    method SetCc(cc: seq<string>)
      requires Valid()
      modifies this
      ensures Valid() && State() == old(State()).(cc := cc)
    {
      this.cc := cc;
    }

    method SetBcc(bcc: seq<string>)
      requires Valid()
      modifies this
      ensures Valid() && State() == old(State()).(bcc := bcc)
    {
      this.bcc := bcc;
    }

    /** Appends the text/plain part header, the content and, once an
        attachment has set one, the boundary. */
    method SetBodyPlainText(content: string) returns (err: Option<Error>)
      requires Valid()
      modifies this
      ensures Valid()
      ensures content == "" ==> err == Some(EmptyBody) && State() == old(State())
      ensures content != "" ==> (err == None
        && State() == old(State()).(body := old(body) + PlainTextPrefix + content + old(boundary)))
    {
      if content == "" {
        return Some(EmptyBody);
      }
      body := body + (PlainTextPrefix + content);
      if boundary != "" {
        body := body + boundary;
      }
      err := None;
    }

    /** Appends the content and, once an attachment has set one, the
        boundary; no content-type line is written. */
    method SetBodyHTML(content: string) returns (err: Option<Error>)
      requires Valid()
      modifies this
      ensures Valid()
      ensures content == "" ==> err == Some(EmptyBody) && State() == old(State())
      ensures content != "" ==> (err == None
        && State() == old(State()).(body := old(body) + content + old(boundary)))
    {
      if content == "" {
        return Some(EmptyBody);
      }
      body := body + content;
      if boundary != "" {
        body := body + boundary;
      }
      err := None;
    }

    /** SetAttachment as written: a file that reads successfully is reported
        as not found; only a failed read goes on to write a part (from
        whatever bytes the read returned) into the body, and the attachment
        list is never appended to. */
    method SetAttachment(filename: string, read: ReadOutcome, writer: PartWriter) returns (err: Option<Error>)
      requires Valid()
      modifies this
      ensures Valid()
      ensures filename == "" ==> err == Some(EmptyAttachment) && State() == old(State())
      ensures filename != "" && read.ReadOk? ==> err == Some(FileNotFound) && State() == old(State())
      ensures filename != "" && read.ReadFailed? ==> (err == None
        && State() == old(State()).(contentType := MultipartMixed, boundary := writer.boundary,
                                   body := old(body) + AttachmentPart(filename, read.partial, writer)))
    {
      if filename == "" {
        return Some(EmptyAttachment);
      }
      if read.ReadOk? {
        return Some(FileNotFound);
      }
      var file := read.partial;
      ghost var before := body;
      contentType := MultipartMixed;
      var partHeader := AttachmentPartHeader(filename);
      var opening := writer.openPart(partHeader);
      body := body + opening;
      boundary := writer.boundary;
      var encoded := Base64.Encode(file);
      var wrapped := Base64.LineBreak(encoded);
      var payload := AsText(wrapped);
      body := body + payload;
      body := body + writer.closing;
      assert payload == AsText(Base64.Wrapped(Base64.Encode(file)));
      AppendAssoc(before, opening, payload, writer.closing);
      err := None;
    }

    /** SendMultipart: validates, assigns the header, authenticates and hands
        header + body to the transport. Only the header field changes. */
    method SendMultipart(env: Environment) returns (err: Option<Error>, sent: Option<Envelope>)
      modifies this`header
      ensures var o := Compose(old(State()), env);
        header == o.header && err == o.error && sent == o.sent
    {
      if from == "" {
        return Some(EmptyFrom), None;
      }
      if |to| == 0 {
        return Some(EmptyTo), None;
      }
      if subject == "" {
        return Some(EmptySubject), None;
      }
      var parsedFrom := env.parseAddress(from);
      if parsedFrom.None? {
        return Some(InvalidAddress(from)), None;
      }
      var i := 0;
      while i < |to|
        invariant 0 <= i <= |to|
        invariant forall j :: 0 <= j < i ==> env.parseAddress(to[j]).Some?
      {
        if env.parseAddress(to[i]).None? {
          FirstRejectedAt(to, env.parseAddress, i);
          return Some(InvalidAddress(to[i])), None;
        }
        i := i + 1;
      }
      assert FirstRejected(to, env.parseAddress) == None;
      var messageId := GenerateMessageId(env.hostname, env.random);
      header := AssembleHeader(parsedFrom.value, to, subject, messageId, env.date,
                               cc, bcc, attachment, boundary);
      var auth := PlainAuth(options);
      if auth.Failure? {
        return Some(auth.error), None;
      }
      var envelope := Envelope(options.host + ":" + options.port, auth.value, from, to, header + body);
      var failure := env.deliver(envelope);
      err := if failure.Some? then Some(Delivery(failure.value)) else None;
      sent := Some(envelope);
    }
  }

  /** New: a Message holding the options and nothing else. */
  method New(opt: Options) returns (m: Message)
    ensures fresh(m) && m.State() == Initial(opt) && m.Valid()
  {
    m := new Message(opt);
  }
}
