// `html_msg(msg, status, bold_all)` of src/services/html_generator.py: the
// one-paragraph reply shown after a request. The paragraph's class says
// whether the request succeeded, and a failure adds a retry hint.

module HtmlMessage {
  import opened HtmlText


  datatype Option<T> = None | Some(value: T)

  const BoldClass := "bold "
  const OkClass := "ok"
  const ErrorClass := "error"
  const RetrySuffix := " Please try again later."

  /** The opening of the paragraph up to the class value. */
  const MessageOpen := "<p lang=\"en\" " + "class=\"message "

  /** The class value: `bold ` when everything is bold, then `ok` for a
      true status, `error` for a false one and nothing without a status. */
  function MessageClass(status: Option<bool>, boldAll: bool): string
  {
    var bold := if boldAll then BoldClass else "";
    match status
    case None => bold
    case Some(ok) => bold + (if ok then OkClass else ErrorClass)
  }

  /** Reads a class value back: whether it leads with `bold `, and the
      status its remainder names (`ok`, `error`, or nothing at all).
      None when the remainder is anything else. */
  function ParseClass(cls: string): Option<(bool, Option<bool>)>
  {
    var bold := BoldClass <= cls;
    var rest := if bold then cls[|BoldClass|..] else cls;
    if rest == "" then Some((bold, None))
    else if rest == OkClass then Some((bold, Some(true)))
    else if rest == ErrorClass then Some((bold, Some(false)))
    else None
  }

  /** The class value determines both inputs: `bold ` leads it exactly
      when everything is bold, and what follows is `ok` for a true status,
      `error` for a false one and empty without a status. It never holds
      a double quote, so it cannot end the attribute early. */
  lemma MessageClassRoundTrip(status: Option<bool>, boldAll: bool)
    ensures ParseClass(MessageClass(status, boldAll)) == Some((boldAll, status))
    ensures '"' !in MessageClass(status, boldAll)
  {
    var cls := MessageClass(status, boldAll);
    var tail := match status case None => "" case Some(ok) => if ok then OkClass else ErrorClass;
    assert '"' !in tail;
    if boldAll {
      assert cls == BoldClass + tail;
      assert cls[..|BoldClass|] == BoldClass;
      assert cls[|BoldClass|..] == tail;
    } else {
      assert cls == tail;
      assert |cls| >= |BoldClass| ==> cls[0] != BoldClass[0];
    }
  }

  /** The paragraph's text: the message, with the retry hint after it
      exactly when the status is false. */
  function MessageText(msg: string, status: Option<bool>): (content: string)
    ensures msg <= content
    ensures content == msg + RetrySuffix <==> status == Some(false)
    ensures status != Some(false) ==> content == msg
  {
    if status == Some(false) then msg + RetrySuffix else msg
  }

  /** The index of the first double quote of s, or |s| when there is none. */
  function FirstQuote(s: string): (i: nat)
    ensures i <= |s|
    ensures forall j :: 0 <= j < i ==> s[j] != '"'
    ensures i < |s| ==> s[i] == '"'
  {
    if |s| == 0 || s[0] == '"' then 0 else 1 + FirstQuote(s[1..])
  }

  /** Reads a message paragraph back into its class value and its text;
      None when the text is not such a paragraph. */
  function ParseMessage(html: string): (r: Option<(string, string)>)
    ensures r.Some? ==> '"' !in r.value.0
  {
    if MessageOpen <= html then
      var rest := html[|MessageOpen|..];
      var q := FirstQuote(rest);
      if q + 6 <= |rest| && rest[q..q + 2] == "\">" && rest[|rest| - 4..] == "</p>"
      then Some((rest[..q], rest[q + 2..|rest| - 4]))
      else None
    else None
  }

  lemma {:induction false} FirstQuoteAfter(a: string, b: string)
    requires '"' !in a && |b| > 0 && b[0] == '"'
    ensures FirstQuote(a + b) == |a|
  {
    if |a| > 0 {
      assert (a + b)[1..] == a[1..] + b;
      FirstQuoteAfter(a[1..], b);
    } else {
      assert a + b == b;
    }
  }

  /** Any class value without a double quote, and any text, are read
      back from the paragraph built around them. */
  lemma FrameRoundTrip(cls: string, content: string)
    requires '"' !in cls
    ensures ParseMessage(MessageOpen + cls + "\">" + content + "</p>") == Some((cls, content))
  {
    var html := MessageOpen + cls + "\">" + content + "</p>";
    var rest := cls + "\">" + content + "</p>";
    assert html == MessageOpen + rest;
    assert html[..|MessageOpen|] == MessageOpen && html[|MessageOpen|..] == rest;
    FirstQuoteAfter(cls, "\">" + content + "</p>");
    assert rest == cls + ("\">" + content + "</p>");
    SliceParts(cls, "\">", content, "</p>", rest);
  }

  /** `html_msg(msg, status, bold_all)`. The paragraph carries its class
      value and its text unaltered: reading it back gives exactly what was
      put in. */
  function HtmlMsg(msg: string, status: Option<bool>, boldAll: bool): (html: string)
    ensures ParseMessage(html) == Some((MessageClass(status, boldAll), MessageText(msg, status)))
  {
    MessageClassRoundTrip(status, boldAll);
    FrameRoundTrip(MessageClass(status, boldAll), MessageText(msg, status));
    MessageOpen + MessageClass(status, boldAll) + "\">" + MessageText(msg, status) + "</p>"
  }

  /** A successful request without bold text: class `ok`, no `bold`, no
      retry hint. */
  lemma DoneExample()
    ensures ParseMessage(HtmlMsg("Done", Some(true), false)) == Some((OkClass, "Done"))
  {
    assert MessageClass(Some(true), false) == OkClass;
  }

  /** A failed request with everything bold: classes `bold error`, and the
      text ends with the retry hint. */
  lemma FailedExample()
    ensures ParseMessage(HtmlMsg("Failed", Some(false), true)) == Some((BoldClass + ErrorClass, "Failed" + RetrySuffix))
  {
  }
}
