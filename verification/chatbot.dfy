/** The keyword assistant of `Chatbot.tsx`: a reply is chosen by the first
    rule one of whose keywords occurs in the lower-cased message, and a
    send appends the message and its reply to the conversation. */
module Chatbot {
  import opened Text

  datatype Rule = Rule(keywords: seq<string>, response: string)

  const Rules: seq<Rule> := [
    Rule(["hello", "hi", "hey"],
         "Hello! I'm the SCMS assistant. How can I help you today?"),
    Rule(["attendance", "present", "absent"],
         "To view or mark attendance, please go to the Attendance section in the main menu."),
    Rule(["resource", "equipment", "projector", "computer"],
         "You can check the availability of classroom resources in the Resource Management section."),
    Rule(["quiz", "test", "exam"],
         "Interactive quizzes are available in the Learning Tools section. Your teacher can also create custom quizzes."),
    Rule(["analytics", "performance", "stats", "statistics"],
         "You can view class performance analytics in the Analytics Dashboard section."),
    Rule(["help", "support", "issue"],
         "If you're experiencing any issues or need further assistance, please contact our support team at support@scms.com.")
  ]

  const Fallback: string :=
    "I'm sorry, I don't have information about that. Can you please rephrase your question or ask about attendance, resources, quizzes, or analytics?"

  /** `rule.keywords.some(keyword => message.includes(keyword))`. */
  predicate Fires(rule: Rule, message: string) {
    exists k :: 0 <= k < |rule.keywords| && Occurs(rule.keywords[k], message)
  }

  /** The first rule that fires on `message`, or `|rules|`. */
  function FirstFiring(rules: seq<Rule>, message: string): (i: nat)
    ensures i <= |rules|
    ensures i < |rules| ==> Fires(rules[i], message)
    ensures forall k :: 0 <= k < i ==> !Fires(rules[k], message)
  {
    if |rules| == 0 then 0
    else if Fires(rules[0], message) then 0
    else
      var i := FirstFiring(rules[1..], message);
      assert forall k :: 1 <= k < |rules| ==> rules[k] == rules[1..][k - 1];
      i + 1
  }

  /** `generateResponse(message)`: the response of the first rule that fires
      on the lower-cased message, and the fallback when none does. */
  function GenerateResponse(message: string): (r: string)
    ensures r == Fallback <==> forall k :: 0 <= k < |Rules| ==> !Fires(Rules[k], Lower(message))
    ensures r != Fallback ==> exists i :: 0 <= i < |Rules| && r == Rules[i].response && Fires(Rules[i], Lower(message))
                                          && forall k :: 0 <= k < i ==> !Fires(Rules[k], Lower(message))
  {
    var i := FirstFiring(Rules, Lower(message));
    if i < |Rules| then Rules[i].response else Fallback
  }

  /** Matching ignores case: a message and its lower-cased form get the
      same reply. */
  lemma ResponseIgnoresCase(message: string)
    ensures GenerateResponse(Lower(message)) == GenerateResponse(message)
  {
    LowerIdempotent(message);
  }

  lemma LowerIdempotent(s: string)
    ensures Lower(Lower(s)) == Lower(s)
  {
    assert forall i :: 0 <= i < |s| ==> LowerChar(LowerChar(s[i])) == LowerChar(s[i]);
  }

  /** Keywords match inside longer words: "this" contains "hi" and gets
      the greeting. */
  lemma SubstringMatches()
    ensures GenerateResponse("this") == Rules[0].response
  {
    assert Lower("this") == "this";
    assert Rules[0].keywords[1] == "hi";
    assert OccursAt("hi", "this", 1);
    assert Occurs(Rules[0].keywords[1], "this");
    assert Fires(Rules[0], "this");
  }

  // ---------------------------------------------------------------------
  // The component's state
  // ---------------------------------------------------------------------

  datatype Sender = User | Bot

  datatype Message = Message(text: string, sender: Sender)

  datatype ChatState = ChatState(input: string, conversation: seq<Message>)

  /** `handleInputChange`. */
  function InputChange(st: ChatState, value: string): (r: ChatState)
    ensures r.input == value && r.conversation == st.conversation
  {
    st.(input := value)
  }

  /** `handleSendMessage`: a blank input does nothing; otherwise the input
      and its reply are appended, in that order, and the input is cleared. */
  function SendMessage(st: ChatState): (r: ChatState)
    ensures AllSpace(st.input, IsJsSpace) ==> r == st
    ensures !AllSpace(st.input, IsJsSpace) ==>
              && r.input == ""
              && r.conversation == st.conversation + [Message(st.input, User), Message(GenerateResponse(st.input), Bot)]
  {
    if AllSpace(st.input, IsJsSpace) then st
    else ChatState("", st.conversation + [Message(st.input, User), Message(GenerateResponse(st.input), Bot)])
  }

  /** Users and the bot take turns, the user first; no user message is
      blank, and every bot message answers the user message before it. */
  predicate Dialogue(conv: seq<Message>) {
    && |conv| % 2 == 0
    && forall i :: 0 <= i < |conv| / 2 ==>
         && conv[2 * i].sender == User && !AllSpace(conv[2 * i].text, IsJsSpace)
         && conv[2 * i + 1] == Message(GenerateResponse(conv[2 * i].text), Bot)
  }

  /** A send keeps the conversation a dialogue, never rewrites what was
      said, and never records a blank message. */
  lemma {:induction false} SendKeepsDialogue(st: ChatState)
    requires Dialogue(st.conversation)
    ensures Dialogue(SendMessage(st).conversation)
    ensures |st.conversation| <= |SendMessage(st).conversation|
    ensures SendMessage(st).conversation[..|st.conversation|] == st.conversation
  {
    var c := st.conversation;
    var c' := SendMessage(st).conversation;
    if c' != c {
      forall i | 0 <= i < |c'| / 2
        ensures c'[2 * i].sender == User && !AllSpace(c'[2 * i].text, IsJsSpace)
        ensures c'[2 * i + 1] == Message(GenerateResponse(c'[2 * i].text), Bot)
      {
        if i < |c| / 2 {
          assert c'[2 * i] == c[2 * i] && c'[2 * i + 1] == c[2 * i + 1];
        } else {
          assert 2 * i == |c|;
        }
      }
    }
  }
}
