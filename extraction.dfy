/**
 * Header and body extraction (`get_email_content`). A fetched message is a
 * payload (headers, sub-parts, a top-level body) and a provider snippet.
 * Transport decoding (URL-safe base64, then UTF-8 with replacement) and the
 * HTML-to-text conversion are library code, so they are parameters here:
 * `decode` and `htmlToText`.
 */
module Extraction {
  import opened Wrappers
  import opened Text
  import Classifier

  datatype Header = Header(name: string, value: string)

  /** A sub-part; a missing `mimeType` or body `data` reads as "". */
  datatype Part = Part(mimeType: string, data: string)

  /** The message payload; `bodyData` is the top-level body's data, "" when absent. */
  datatype Payload = Payload(headers: seq<Header>, parts: seq<Part>, bodyData: string)

  datatype Message = Message(payload: Payload, snippet: string)

  /** What extraction hands on: subject, sender, date, body and snippet. */
  datatype Email = Email(subject: string, sender: string, date: string, body: string, snippet: string)

  const PlainType := "text/plain"
  const HtmlType := "text/html"

  /** The header's name matches `key` case-insensitively. */
  predicate NamedAs(h: Header, key: string)
  {
    Lower(h.name) == key
  }

  /**
   * The value a header loop that overwrites on every match ends with:
   * the value of the last header named `key`, or "" when there is none.
   */
  function LastHeader(hs: seq<Header>, key: string): (r: string)
    ensures (forall i :: 0 <= i < |hs| ==> !NamedAs(hs[i], key)) ==> r == ""
    ensures (exists i :: 0 <= i < |hs| && NamedAs(hs[i], key)) ==>
      exists i :: 0 <= i < |hs| && NamedAs(hs[i], key) && r == hs[i].value &&
        forall j :: i < j < |hs| ==> !NamedAs(hs[j], key)
  {
    if hs == [] then ""
    else if NamedAs(hs[|hs| - 1], key) then hs[|hs| - 1].value
    else
      var init := hs[..|hs| - 1];
      assert forall j :: 0 <= j < |init| ==> init[j] == hs[j];
      LastHeader(init, key)
  }

  /**
   * One more header: it overrides the value when its name matches, and
   * changes nothing otherwise.
   */
  lemma {:induction false} LastHeaderStep(hs: seq<Header>, h: Header, key: string)
    ensures NamedAs(h, key) ==> LastHeader(hs + [h], key) == h.value
    ensures !NamedAs(h, key) ==> LastHeader(hs + [h], key) == LastHeader(hs, key)
  {
    assert (hs + [h])[..|hs|] == hs;
  }

  /** `LastHeaderStep` for the prefix of a list one header longer. */
  lemma LastHeaderPrefix(hs: seq<Header>, i: nat, key: string)
    requires i < |hs|
    ensures NamedAs(hs[i], key) ==> LastHeader(hs[..i + 1], key) == hs[i].value
    ensures !NamedAs(hs[i], key) ==> LastHeader(hs[..i + 1], key) == LastHeader(hs[..i], key)
  {
    assert hs[..i + 1] == hs[..i] + [hs[i]];
    LastHeaderStep(hs[..i], hs[i], key);
  }

  /** The part has the given type and non-empty data. */
  predicate Qualifies(p: Part, mime: string)
  {
    p.mimeType == mime && p.data != ""
  }

  /** The index of the earliest part of type `mime` with non-empty data, if any. */
  function FirstWith(parts: seq<Part>, mime: string): (r: Option<nat>)
    ensures r.Some? ==>
      r.value < |parts| && Qualifies(parts[r.value], mime) &&
      forall j :: 0 <= j < r.value ==> !Qualifies(parts[j], mime)
    ensures r.None? ==> forall j :: 0 <= j < |parts| ==> !Qualifies(parts[j], mime)
  {
    if parts == [] then None
    else if Qualifies(parts[0], mime) then Some(0)
    else
      match FirstWith(parts[1..], mime)
      case None => None
      case Some(i) => Some(i + 1)
  }

  /** The decoded text of the first usable text/plain part, or "". */
  function PlainBody(parts: seq<Part>, decode: string -> string): string
  {
    match FirstWith(parts, PlainType)
    case Some(i) => decode(parts[i].data)
    case None => ""
  }

  /** The markup-stripped text of the first usable text/html part, or "". */
  function HtmlBody(parts: seq<Part>, decode: string -> string, htmlToText: string -> string): string
  {
    match FirstWith(parts, HtmlType)
    case Some(i) => htmlToText(decode(parts[i].data))
    case None => ""
  }

  /**
   * The body `get_email_content` settles on: with sub-parts, the plain text,
   * or the HTML text when the plain text is empty; without sub-parts, the
   * decoded top-level body, or "" when it has no data.
   */
  function SelectBody(p: Payload, decode: string -> string, htmlToText: string -> string): (r: string)
    ensures r == "" ||
      (exists i :: 0 <= i < |p.parts| && Qualifies(p.parts[i], PlainType) && r == decode(p.parts[i].data)) ||
      (exists i :: 0 <= i < |p.parts| && Qualifies(p.parts[i], HtmlType) && r == htmlToText(decode(p.parts[i].data))) ||
      (p.parts == [] && r == decode(p.bodyData))
    ensures p.parts == [] && p.bodyData == "" ==> r == ""
    ensures p.parts == [] && p.bodyData != "" ==> r == decode(p.bodyData)
    ensures p.parts != [] && (forall j :: 0 <= j < |p.parts| ==> !Qualifies(p.parts[j], PlainType) && !Qualifies(p.parts[j], HtmlType)) ==> r == ""
  {
    if p.parts != [] then
      var plain := PlainBody(p.parts, decode);
      if plain != "" then plain else HtmlBody(p.parts, decode, htmlToText)
    else if p.bodyData != "" then decode(p.bodyData)
    else ""
  }

  /**
   * The record `get_email_content` returns, as a function of the message:
   * each header field is "" or the value of a header of that name, and the
   * snippet is the provider's.
   */
  function Extract(m: Message, decode: string -> string, htmlToText: string -> string): (e: Email)
    ensures e.subject == "" || exists i :: 0 <= i < |m.payload.headers| && NamedAs(m.payload.headers[i], "subject") && e.subject == m.payload.headers[i].value
    ensures e.sender == "" || exists i :: 0 <= i < |m.payload.headers| && NamedAs(m.payload.headers[i], "from") && e.sender == m.payload.headers[i].value
    ensures e.date == "" || exists i :: 0 <= i < |m.payload.headers| && NamedAs(m.payload.headers[i], "date") && e.date == m.payload.headers[i].value
    ensures e.body == SelectBody(m.payload, decode, htmlToText)
    ensures e.snippet == m.snippet
  {
    var hs := m.payload.headers;
    Email(LastHeader(hs, "subject"), LastHeader(hs, "from"), LastHeader(hs, "date"),
          SelectBody(m.payload, decode, htmlToText), m.snippet)
  }

  /** The header loop of `get_email_content`: each matching header overwrites its field. */
  method ScanHeaders(headers: seq<Header>) returns (subject: string, sender: string, date: string)
    ensures subject == LastHeader(headers, "subject")
    ensures sender == LastHeader(headers, "from")
    ensures date == LastHeader(headers, "date")
  {
    subject, sender, date := "", "", "";
    for i := 0 to |headers|
      invariant subject == LastHeader(headers[..i], "subject")
      invariant sender == LastHeader(headers[..i], "from")
      invariant date == LastHeader(headers[..i], "date")
    {
      var name := Lower(headers[i].name);
      var value := headers[i].value;
      if name == "subject" {
        subject := value;
      } else if name == "from" {
        sender := value;
      } else if name == "date" {
        date := value;
      }
      LastHeaderPrefix(headers, i, "subject");
      LastHeaderPrefix(headers, i, "from");
      LastHeaderPrefix(headers, i, "date");
    }
    assert headers[..|headers|] == headers;
  }

  /**
   * One part loop of `get_email_content`: stop at the first part of type
   * `mime` with non-empty data and convert its data; "" when there is none.
   */
  method ScanParts(parts: seq<Part>, mime: string, convert: string -> string) returns (body: string)
    ensures FirstWith(parts, mime).Some? ==> body == convert(parts[FirstWith(parts, mime).value].data)
    ensures FirstWith(parts, mime).None? ==> body == ""
  {
    body := "";
    var i := 0;
    while i < |parts|
      invariant 0 <= i <= |parts|
      invariant forall j :: 0 <= j < i ==> !Qualifies(parts[j], mime)
    {
      if parts[i].mimeType == mime {
        var data := parts[i].data;
        if data != "" {
          body := convert(data);
          assert FirstWith(parts, mime) == Some(i);
          break;
        }
      }
      i := i + 1;
    }
  }

  /** `get_email_content`: the header loop, then plain text, then HTML, then the top-level body. */
  method ExtractContent(m: Message, decode: string -> string, htmlToText: string -> string)
    returns (e: Email)
    ensures e.subject == LastHeader(m.payload.headers, "subject")
    ensures e.sender == LastHeader(m.payload.headers, "from")
    ensures e.date == LastHeader(m.payload.headers, "date")
    ensures e.body == SelectBody(m.payload, decode, htmlToText)
    ensures e.snippet == m.snippet
    ensures e == Extract(m, decode, htmlToText)
  {
    var subject, sender, date := ScanHeaders(m.payload.headers);
    var parts := m.payload.parts;
    var body := "";
    if parts != [] {
      body := ScanParts(parts, PlainType, decode);
      if body == "" {
        body := ScanParts(parts, HtmlType, data => htmlToText(decode(data)));
      }
    } else {
      var data := m.payload.bodyData;
      if data != "" {
        body := decode(data);
      }
    }
    e := Email(subject, sender, date, body, m.snippet);
  }

  /** The top-level body is consulted only when the payload has no sub-parts. */
  lemma TopLevelBodyIgnoredWithParts(p: Payload, other: string, decode: string -> string, htmlToText: string -> string)
    requires p.parts != []
    ensures SelectBody(p, decode, htmlToText) == SelectBody(p.(bodyData := other), decode, htmlToText)
  {
  }

  /** The earliest usable text/plain part is the body whenever it decodes to non-empty text. */
  lemma {:induction false} FirstPlainPartIsBody(p: Payload, i: nat, decode: string -> string, htmlToText: string -> string)
    requires i < |p.parts| && Qualifies(p.parts[i], PlainType)
    requires forall j :: 0 <= j < i ==> !Qualifies(p.parts[j], PlainType)
    requires decode(p.parts[i].data) != ""
    ensures SelectBody(p, decode, htmlToText) == decode(p.parts[i].data)
  {
    var r := FirstWith(p.parts, PlainType);
    assert r.Some? && r.value == i;
  }

  /**
   * Without usable plain text, the earliest usable text/html part, stripped
   * of markup, is the body, whatever its position relative to plain parts.
   */
  lemma {:induction false} FirstHtmlPartIsFallback(p: Payload, i: nat, decode: string -> string, htmlToText: string -> string)
    requires i < |p.parts| && Qualifies(p.parts[i], HtmlType)
    requires forall j :: 0 <= j < i ==> !Qualifies(p.parts[j], HtmlType)
    requires PlainBody(p.parts, decode) == ""
    ensures SelectBody(p, decode, htmlToText) == htmlToText(decode(p.parts[i].data))
  {
    var r := FirstWith(p.parts, HtmlType);
    assert r.Some? && r.value == i;
  }

  /**
   * The plain-part loop stops at the earliest text/plain part with data even
   * when that data decodes to "": later plain parts are never tried, so
   * without a usable text/html part the body stays empty.
   */
  lemma {:induction false} EmptyPlainWithoutHtmlGivesEmptyBody(p: Payload, i: nat, decode: string -> string, htmlToText: string -> string)
    requires i < |p.parts| && Qualifies(p.parts[i], PlainType)
    requires forall j :: 0 <= j < i ==> !Qualifies(p.parts[j], PlainType)
    requires decode(p.parts[i].data) == ""
    requires forall j :: 0 <= j < |p.parts| ==> !Qualifies(p.parts[j], HtmlType)
    ensures SelectBody(p, decode, htmlToText) == ""
  {
    var r := FirstWith(p.parts, PlainType);
    assert r.Some? && r.value == i;
  }

  /** Sub-parts none of which is usable plain text or HTML give an empty body. */
  lemma NoUsablePartGivesEmptyBody(p: Payload, decode: string -> string, htmlToText: string -> string)
    requires p.parts != []
    requires forall j :: 0 <= j < |p.parts| ==> !Qualifies(p.parts[j], PlainType) && !Qualifies(p.parts[j], HtmlType)
    ensures SelectBody(p, decode, htmlToText) == ""
  {
  }

  /** A message whose only part is neither plain text nor HTML is classified Unknown/No Decision. */
  lemma {:induction false} OtherTypeOnlyIsUnknown(m: Message, decode: string -> string, htmlToText: string -> string)
    requires |m.payload.parts| == 1
    requires m.payload.parts[0].mimeType != PlainType && m.payload.parts[0].mimeType != HtmlType
    ensures Extract(m, decode, htmlToText).body == ""
    ensures Classifier.Classify(Extract(m, decode, htmlToText).body) == Classifier.Unknown
  {
    NoUsablePartGivesEmptyBody(m.payload, decode, htmlToText);
    Classifier.EmptyBodyIsUnknown();
  }

  /**
   * A message with only an HTML part whose text reads "We regret to inform
   * you..." once markup is stripped is classified Rejected.
   */
  lemma {:induction false} HtmlOnlyRejection(m: Message, decode: string -> string, htmlToText: string -> string)
    requires |m.payload.parts| == 1 && Qualifies(m.payload.parts[0], HtmlType)
    requires htmlToText(decode(m.payload.parts[0].data)) == "We regret to inform you..."
    ensures Classifier.Classify(Extract(m, decode, htmlToText).body) == Classifier.Rejected
  {
    FirstHtmlPartIsFallback(m.payload, 0, decode, htmlToText);
    Classifier.RegretToInformIsRejected();
  }

  /**
   * Without sub-parts the decoded top-level body is used as it is: its type
   * is never consulted, so HTML markup stays in the body, and a rejection
   * sentence inside it is still found.
   */
  lemma {:induction false} TopLevelHtmlKeepsMarkup(m: Message, decode: string -> string, htmlToText: string -> string)
    requires m.payload.parts == [] && m.payload.bodyData != ""
    requires decode(m.payload.bodyData) == "<p>We regret to inform you...</p>"
    ensures Extract(m, decode, htmlToText).body == "<p>We regret to inform you...</p>"
    ensures Classifier.Classify(Extract(m, decode, htmlToText).body) == Classifier.Rejected
  {
    Classifier.MarkedUpRegretIsRejected();
  }
}
