/**
 * The chat page's controller (frontend/script.js:170-204): the `isSending`
 * guard of the send button, the input field, the messages shown, and the
 * requests sent to the backend. A request is sent when a click is accepted
 * and completes later, with the backend's reply or with a network error;
 * the guard keeps at most one request outstanding.
 */
module Chat {
  import opened Text
  import opened Formatter
  import opened Response
  import opened Escape
  import opened Extract
  import opened Markdown

  /** A message on the page: a user's text as typed, or a bot's formatted HTML. */
  datatype Bubble = User(text: string) | Bot(html: string)

  /** How a request ended: the backend answered, or fetch rejected with a message. */
  datatype Reply = Answered(body: Body) | NetworkError(message: string)

  /** The message shown once the page has loaded. */
  const GREETING: string := "Hello! How can I assist you today?"

  /** The text sendMessage hands to appendMessage for a reply. */
  function ReplyText(reply: Reply, stringify: Json -> string): string {
    match reply
    case Answered(body) => ResponseContent(body, stringify)
    case NetworkError(message) => "Error: " + message
  }

  /** The keypress listener sends on Enter without Shift, and only then. */
  predicate IsSendKey(key: string, shift: bool) {
    key == "Enter" && !shift
  }

  class Controller {
    /** The formatContent the page loads: the shipped one (see the constructor). */
    const revision: Revision
    var isSending: bool
    var input: string
    var bubbles: seq<Bubble>
    /** The messages sent to the backend, in order. */
    var requests: seq<string>
    /** How many of them have completed. */
    var completed: nat

    /** Every request but the last has completed, and the last is outstanding exactly while sending. */
    predicate Valid()
      reads this
    {
      |requests| == completed + (if isSending then 1 else 0)
    }

    /** The page after DOMContentLoaded: idle, empty input, the greeting shown. */
    constructor()
      ensures revision == Shipped
      ensures Valid() && !isSending && input == []
      ensures bubbles == [Bot(Formatted(GREETING, revision))]
      ensures requests == [] && completed == 0
    {
      revision := Shipped;
      isSending := false;
      input := [];
      bubbles := [];
      requests := [];
      completed := 0;
      new;
      AppendBotMessage(GREETING);
    }

    /** appendMessage for the user's own text: it is shown as it is, as text rather than HTML. */
    method AppendUserMessage(content: string)
      modifies this
      ensures bubbles == old(bubbles) + [User(content)]
      ensures isSending == old(isSending) && input == old(input)
      ensures requests == old(requests) && completed == old(completed)
    {
      bubbles := bubbles + [User(content)];
    }

    /** appendMessage for a bot's text: it is shown as formatContent, as the page runs it, renders it. */
    method AppendBotMessage(content: string)
      modifies this
      ensures bubbles == old(bubbles) + [Bot(Formatted(content, revision))]
      ensures isSending == old(isSending) && input == old(input)
      ensures requests == old(requests) && completed == old(completed)
    {
      var html := FormatContent(content, revision);
      bubbles := bubbles + [Bot(html)];
    }

    /** The user edits the input field. */
    method Type(text: string)
      modifies this
      ensures input == text
      ensures isSending == old(isSending) && bubbles == old(bubbles)
      ensures requests == old(requests) && completed == old(completed)
    {
      input := text;
    }

    /**
     * The effect of one click: nothing while sending; with input that trims
     * to nothing, the flag is back down and nothing else changes; otherwise
     * the input is cleared, the trimmed message is shown as typed and sent
     * as one request, and the controller waits for it.
     */
    twostate predicate Clicked()
      reads this
    {
      if old(isSending) then
        isSending && input == old(input) && bubbles == old(bubbles)
        && requests == old(requests) && completed == old(completed)
      else if Trim(old(input)) == [] then
        !isSending && input == old(input) && bubbles == old(bubbles)
        && requests == old(requests) && completed == old(completed)
      else
        isSending && input == []
        && bubbles == old(bubbles) + [User(Trim(old(input)))]
        && requests == old(requests) + [Trim(old(input))]
        && completed == old(completed)
    }

    /** The send button's click listener, up to its `await`. */
    method Click()
      requires Valid()
      modifies this
      ensures Valid() && Clicked()
    {
      if isSending {
        return;
      }
      isSending := true;
      var message := Trim(input);
      if message == [] {
        isSending := false;
        return;
      }
      input := [];
      AppendUserMessage(message);
      requests := requests + [message];
    }

    /**
     * The outstanding request completes: the reply is shown formatted and the
     * `finally` lowers the flag. sendMessage catches every failure itself, so
     * the listener's own catch never runs.
     */
    method Complete(reply: Reply, stringify: Json -> string)
      requires Valid() && isSending
      modifies this
      ensures Valid() && !isSending
      ensures bubbles == old(bubbles) + [Bot(Formatted(ReplyText(reply, stringify), revision))]
      ensures input == old(input) && requests == old(requests) && completed == old(completed) + 1
    {
      var text := ReplyText(reply, stringify);
      AppendBotMessage(text);
      completed, isSending := completed + 1, false;
    }

    /** The input's keypress listener: a send key is kept from the field and clicks the button. */
    method KeyPress(key: string, shift: bool) returns (prevented: bool)
      requires Valid()
      modifies this
      ensures Valid() && prevented == IsSendKey(key, shift)
      ensures prevented ==> Clicked()
      ensures !prevented ==> isSending == old(isSending) && input == old(input) && bubbles == old(bubbles)
                             && requests == old(requests) && completed == old(completed)
    {
      prevented := IsSendKey(key, shift);
      if prevented {
        Click();
      }
    }
  }

  // ---------------------------------------------------------------------
  // Properties of what is shown

  /** A letter, a space or sentence punctuation: no pass of the formatter reacts to it. */
  predicate IsProse(c: char) {
    ('a' <= c <= 'z') || ('A' <= c <= 'Z') || c == ' ' || c == '!' || c == '?'
  }

  /** Text of letters, spaces and sentence punctuation is shown as it is, in either revision. */
  lemma ProseShownAsIs(s: string, rev: Revision)
    requires forall i :: 0 <= i < |s| ==> IsProse(s[i])
    ensures Formatted(s, rev) == s
  {
    LettersArePlain(s);
    FenceFreeFrame(s, [], []);
    assert s + [] + [] == s;
    PlainTextIsEscaped(s, rev);
    EscapeHtmlAbsent(s);
  }

  lemma LettersArePlain(s: string)
    requires forall i :: 0 <= i < |s| ==> IsProse(s[i])
    ensures '`' !in s && '$' !in s && Inert(s) && ESC !in s
    ensures '&' !in s && '<' !in s && '>' !in s
    ensures HasNo([], FENCE)
  {
  }

  /** The greeting is such text, so the bot shows it as it is. */
  lemma GreetingShownAsIs()
    ensures Formatted(GREETING, Shipped) == GREETING && Formatted(GREETING, Repaired) == GREETING
  {
    GreetingLetters();
    ProseShownAsIs(GREETING, Shipped);
    ProseShownAsIs(GREETING, Repaired);
  }

  lemma GreetingLetters()
    ensures forall i :: 0 <= i < |GREETING| ==> IsProse(GREETING[i])
  {
  }

  /** A network failure is shown as its message after `Error: `, through the formatter. */
  lemma NetworkErrorText(message: string, stringify: Json -> string)
    ensures ReplyText(NetworkError(message), stringify) == "Error: " + message
    ensures ReplyText(Answered(Unparsable), stringify) == stringify(INVALID_JSON)
  {
    UnparsableShowsError(stringify);
  }
}
