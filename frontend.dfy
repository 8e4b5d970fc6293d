/** The web chat page. Each run of the page script initialises the stored
    message list once per browser session, then answers a non-empty prompt by
    appending the prompt and an echo of it. Rendering is not modelled. */
module Frontend {
  import opened Chat

  /** The text put before a prompt to form the placeholder reply. */
  const EchoPrefix: string := "Echo: "

  /** The placeholder reply: the prompt behind a fixed prefix, recoverable in full. */
  function EchoReply(prompt: string): (r: string)
    ensures |r| == |EchoPrefix| + |prompt|
    ensures r[..|EchoPrefix|] == EchoPrefix && r[|EchoPrefix|..] == prompt
  {
    EchoPrefix + prompt
  }

  /** The page's `if prompt:` test: the chat input gave something non-empty. */
  predicate Submitted(prompt: Option<string>)
    ensures prompt.None? ==> !Submitted(prompt)
    ensures prompt.Some? ==> (Submitted(prompt) <==> |prompt.value| > 0)
  {
    prompt.Some? && prompt.value != ""
  }

  /** The message list after one prompt. */
  function EchoTurn(ms: seq<Message>, prompt: Option<string>): (r: seq<Message>)
    ensures !Submitted(prompt) ==> r == ms
    ensures Submitted(prompt) ==>
      && |r| == |ms| + 2
      && r[..|ms|] == ms
      && r[|ms|] == Message(User, prompt.value)
      && r[|ms| + 1] == Message(Assistant, EchoReply(r[|ms|].content))
  {
    if Submitted(prompt) then
      ms + [Message(User, prompt.value), Message(Assistant, EchoReply(prompt.value))]
    else ms
  }

  /** The message list after a sequence of page runs. The old list is kept as
      a prefix, and runs without a submitted prompt leave it unchanged. */
  function EchoSession(ms: seq<Message>, prompts: seq<Option<string>>): (r: seq<Message>)
    ensures |ms| <= |r| && r[..|ms|] == ms
    ensures (forall i :: 0 <= i < |prompts| ==> !Submitted(prompts[i])) ==> r == ms
    decreases |prompts|
  {
    if prompts == [] then ms else EchoSession(EchoTurn(ms, prompts[0]), prompts[1..])
  }

  /** Number of prompts that were submitted. */
  function SubmittedCount(prompts: seq<Option<string>>): nat
    decreases |prompts|
  {
    if prompts == [] then 0 else (if Submitted(prompts[0]) then 1 else 0) + SubmittedCount(prompts[1..])
  }

  /** User and assistant strictly alternating, starting with the user; each
      user entry non-empty and each assistant entry the echo of the one before. */
  predicate EchoWellFormed(ms: seq<Message>)
  {
    && |ms| % 2 == 0
    && (forall i :: 0 <= i < |ms| ==> ms[i].role == (if i % 2 == 0 then User else Assistant))
    && (forall i :: 0 < i < |ms| && i % 2 == 1 ==>
          ms[i - 1].content != "" && ms[i].content == EchoReply(ms[i - 1].content))
  }

  lemma EchoTurnKeepsWellFormed(ms: seq<Message>, prompt: Option<string>)
    requires EchoWellFormed(ms)
    ensures EchoWellFormed(EchoTurn(ms, prompt))
  {
    if Submitted(prompt) {
      var r := EchoTurn(ms, prompt);
      forall i | 0 <= i < |r|
        ensures r[i].role == (if i % 2 == 0 then User else Assistant)
        ensures 0 < i && i % 2 == 1 ==> r[i - 1].content != "" && r[i].content == EchoReply(r[i - 1].content)
      {
        if i < |ms| {
          assert r[i] == ms[i];
          if 0 < i { assert r[i - 1] == ms[i - 1]; }
        }
      }
    }
  }

  /** Any number of page runs from an empty list leaves a well-formed echo chat. */
  lemma {:induction false} EchoSessionKeepsWellFormed(ms: seq<Message>, prompts: seq<Option<string>>)
    requires EchoWellFormed(ms)
    ensures EchoWellFormed(EchoSession(ms, prompts))
    decreases |prompts|
  {
    if prompts != [] {
      EchoTurnKeepsWellFormed(ms, prompts[0]);
      EchoSessionKeepsWellFormed(EchoTurn(ms, prompts[0]), prompts[1..]);
    }
  }

  /** Page runs only append: earlier entries are kept, two new ones per submitted prompt. */
  lemma {:induction false} EchoSessionAppendsOnly(ms: seq<Message>, prompts: seq<Option<string>>)
    ensures |EchoSession(ms, prompts)| == |ms| + 2 * SubmittedCount(prompts)
    ensures EchoSession(ms, prompts)[..|ms|] == ms
    decreases |prompts|
  {
    if prompts != [] {
      var ms' := EchoTurn(ms, prompts[0]);
      EchoSessionAppendsOnly(ms', prompts[1..]);
      assert EchoSession(ms', prompts[1..])[..|ms|] == EchoSession(ms', prompts[1..])[..|ms'|][..|ms|];
    }
  }

  /** The page's per-browser-session state; only the message list is modelled. */
  class SessionState {
    /** `st.session_state.messages`, or None while the key is absent. */
    var messages: Option<seq<Message>>

    /** A new browser session has no stored messages. */
    constructor ()
      ensures messages == None
    {
      messages := None;
    }

    /** Create an empty list when the key is absent; an existing list is kept. */
    method InitMessages()
      modifies this
      ensures old(messages).None? ==> messages == Some([])
      ensures old(messages).Some? ==> messages == old(messages)
    {
      if messages.None? {
        messages := Some([]);
      }
    }

    /** Answer the chat input: a submitted prompt appends the user entry, then the echo. */
    method HandlePrompt(prompt: Option<string>)
      requires messages.Some?
      modifies this
      ensures messages == Some(EchoTurn(old(messages).value, prompt))
    {
      if Submitted(prompt) {
        messages := Some(messages.value + [Message(User, prompt.value)]);
        var response := EchoReply(prompt.value);
        messages := Some(messages.value + [Message(Assistant, response)]);
        assert messages.value == old(messages).value + [Message(User, prompt.value), Message(Assistant, response)];
      }
    }

    /** One run of the page script with the chat input's value. */
    method Rerun(prompt: Option<string>)
      modifies this
      ensures var before := if old(messages).Some? then old(messages).value else [];
        messages == Some(EchoTurn(before, prompt))
    {
      InitMessages();
      HandlePrompt(prompt);
    }
  }
}
