/** The console emotional-support assistant: a listen / complete / speak loop
    that keeps the whole conversation and resends it to the language model on
    every turn. Speech input, speech output and the model are external; here
    they are values handed to the session. */
module Backend {
  import opened Chat

  // ---------------------------------------------------------------------------
  // Configuration
  // ---------------------------------------------------------------------------

  /** The instruction that opens every conversation. */
  const SystemPrompt: string :=
    "You are a compassionate, empathetic, and supportive AI assistant designed to listen "
    + "and provide understanding. Focus on active listening, validation of feelings, and "
    + "offering gentle encouragement. Avoid giving direct advice unless specifically asked. "
    + "Your goal is to create a safe space for the user to express themselves. "
    + "Use warm, reassuring, and thoughtful language. Respond as a supportive friend."

  const SystemMessage: Message := Message(System, SystemPrompt)

  /** Utterances that end the session, compared after lower-casing. */
  const ExitPhrases: seq<string> := ["exit", "quit", "bye", "goodbye"]

  /** Reply recorded when the model endpoint reports an error of its own. */
  const ModelIssueReply: string :=
    "It seems there was an issue with the Ollama model. Please check the server logs."

  /** Reply recorded when the model cannot be reached or answers unusably. */
  const ConnectionReply: string :=
    "I'm really sorry, but I'm having trouble connecting to the language model right now. "
    + "Please make sure your Ollama server is running and try again."

  // ---------------------------------------------------------------------------
  // The exit test
  // ---------------------------------------------------------------------------

  predicate IsUpper(c: char) { 'A' <= c <= 'Z' }

  function LowerChar(c: char): char
  {
    if IsUpper(c) then (c as int + 32) as char else c
  }

  /** Lower-casing of a transcript, letter by letter. */
  function Lower(s: string): (r: string)
    ensures |r| == |s|
    ensures forall i :: 0 <= i < |s| ==> r[i] == LowerChar(s[i])
    ensures forall i :: 0 <= i < |r| ==> !IsUpper(r[i])
  {
    seq(|s|, i requires 0 <= i < |s| => LowerChar(s[i]))
  }

  /** Does this transcript ask to end the conversation? An exit phrase has 3
      to 7 characters, so no empty transcript is one, and checking for exit
      before checking for emptiness loses nothing. */
  predicate IsExitPhrase(s: string)
    ensures IsExitPhrase(s) ==> 3 <= |s| <= 7
  {
    Lower(s) in ExitPhrases
  }

  /** Case variants of the exit phrases end the session; other utterances do not. */
  lemma ExitPhraseExamples()
    ensures IsExitPhrase("Exit") && IsExitPhrase("QUIT") && IsExitPhrase("Bye") && IsExitPhrase("GoodBye")
    ensures IsExitPhrase("exit") && IsExitPhrase("goodbye")
    ensures !IsExitPhrase("") && !IsExitPhrase("exit now") && !IsExitPhrase("I feel anxious today")
  {
    assert Lower("Exit") == "exit";
    assert Lower("QUIT") == "quit";
    assert Lower("Bye") == "bye";
    assert Lower("GoodBye") == "goodbye";
    assert Lower("exit") == "exit";
    assert Lower("goodbye") == "goodbye";
    assert |Lower("exit now")| == 8;
    assert |Lower("I feel anxious today")| == 20;
  }

  /** The upper-case form of a lower-case letter; other characters are unchanged. */
  function UpperOf(c: char): char
  {
    if 'a' <= c <= 'z' then (c as int - 32) as char else c
  }

  /** `s` spells `p` with any of `p`'s letters possibly written in upper case. */
  predicate SpellsIgnoringCase(s: string, p: string)
  {
    |s| == |p| && forall i :: 0 <= i < |s| ==> s[i] == p[i] || s[i] == UpperOf(p[i])
  }

  lemma LowerCharHitsLetter(x: char, c: char)
    requires 'a' <= c <= 'z'
    ensures LowerChar(x) == c <==> x == c || x == UpperOf(c)
  {
  }

  lemma ExitPhrasesAreLowerCaseWords()
    ensures forall p, i :: p in ExitPhrases && 0 <= i < |p| ==> 'a' <= p[i] <= 'z'
  {
  }

  /** The exit test is a match against one of the exit phrases in which any
      letter may be written in upper case. */
  lemma ExitPhraseIgnoresCase(s: string)
    ensures IsExitPhrase(s) <==> exists p :: p in ExitPhrases && SpellsIgnoringCase(s, p)
  {
    ExitPhrasesAreLowerCaseWords();
    if IsExitPhrase(s) {
      var p := Lower(s);
      forall i | 0 <= i < |s|
        ensures s[i] == p[i] || s[i] == UpperOf(p[i])
      {
        LowerCharHitsLetter(s[i], p[i]);
      }
      assert p in ExitPhrases && SpellsIgnoringCase(s, p);
    }
    if exists p :: p in ExitPhrases && SpellsIgnoringCase(s, p) {
      var p :| p in ExitPhrases && SpellsIgnoringCase(s, p);
      forall i | 0 <= i < |s|
        ensures Lower(s)[i] == p[i]
      {
        LowerCharHitsLetter(s[i], p[i]);
      }
      assert Lower(s) == p;
    }
  }

  // ---------------------------------------------------------------------------
  // External calls as values
  // ---------------------------------------------------------------------------

  /** What one attempt to listen produced: the recognizer's transcript, or one
      of the three failures the listener catches. */
  datatype Heard =
    | Recognized(text: string)
    | Unintelligible      // the recognizer matched nothing
    | ServiceUnavailable  // the recognition service could not be reached
    | ListenFailed        // any other exception raised while capturing or recognizing

  /** The string `listen` hands back: the transcript, or "" on any failure. */
  function Transcript(h: Heard): (t: string)
    ensures h.Recognized? ==> t == h.text
    ensures !h.Recognized? ==> t == ""
  {
    match h
    case Recognized(text) => text
    case _ => ""
  }

  function Transcripts(hs: seq<Heard>): (ts: seq<string>)
    ensures |ts| == |hs|
    ensures forall i :: 0 <= i < |hs| ==> ts[i] == Transcript(hs[i])
  {
    seq(|hs|, i requires 0 <= i < |hs| => Transcript(hs[i]))
  }

  /** What one non-streaming chat call produced. */
  datatype Completion =
    | Replied(content: string)  // the reply's message content
    | ResponseError             // the endpoint answered with a structured error
    | OtherError                // anything else: connection failure, malformed answer

  /** The chat endpoint, as seen by the session: a function of the full message list. */
  type Model = seq<Message> -> Completion

  /** The text `get_ollama_response` returns; it never fails. */
  function OllamaResponse(c: Completion): (r: string)
    ensures c.Replied? ==> r == c.content
    ensures c.ResponseError? ==> r == ModelIssueReply
    ensures c.OtherError? ==> r == ConnectionReply
    ensures !c.Replied? ==> r != ""
  {
    match c
    case Replied(content) => content
    case ResponseError => ModelIssueReply
    case OtherError => ConnectionReply
  }

  // ---------------------------------------------------------------------------
  // The session as a function of its inputs
  // ---------------------------------------------------------------------------

  /** One non-exit turn: a non-empty transcript adds the user's words and the
      reply the model gives to the whole history including those words. */
  function Step(h: seq<Message>, input: string, model: Model): (r: seq<Message>)
    ensures |h| <= |r| && r[..|h|] == h
    ensures input == "" ==> r == h
    ensures input != "" ==>
      && |r| == |h| + 2
      && r[|h|] == Message(User, input)
      && r[|h| + 1] == Message(Assistant, OllamaResponse(model(r[..|h| + 1])))
  {
    if input == "" then h
    else
      var withUser := h + [Message(User, input)];
      withUser + [Message(Assistant, OllamaResponse(model(withUser)))]
  }

  /** The history after feeding transcripts one by one until an exit phrase.
      The old history is kept as a prefix; an exit phrase first leaves it
      unchanged. */
  function Conversation(h: seq<Message>, ts: seq<string>, model: Model): (r: seq<Message>)
    ensures |h| <= |r| && r[..|h|] == h
    ensures ts != [] && IsExitPhrase(ts[0]) ==> r == h
    decreases |ts|
  {
    if ts == [] || IsExitPhrase(ts[0]) then h
    else Conversation(Step(h, ts[0], model), ts[1..], model)
  }

  /** Number of user/assistant exchanges the transcripts produce. */
  function Exchanges(ts: seq<string>): nat
    decreases |ts|
  {
    if ts == [] || IsExitPhrase(ts[0]) then 0
    else (if ts[0] == "" then 0 else 1) + Exchanges(ts[1..])
  }

  /** Does some transcript end the session? */
  predicate SaysExit(ts: seq<string>)
  {
    exists i :: 0 <= i < |ts| && IsExitPhrase(ts[i])
  }

  // ---------------------------------------------------------------------------
  // Invariants of a history
  // ---------------------------------------------------------------------------

  /** A user entry the loop could have appended: non-empty and not an exit phrase. */
  predicate IsUtterance(m: Message)
  {
    m.content != "" && !IsExitPhrase(m.content)
  }

  /** The system message first, then user and assistant strictly alternating,
      every user entry a real non-exit utterance. */
  predicate WellFormed(h: seq<Message>)
  {
    && |h| % 2 == 1
    && h[0] == SystemMessage
    && (forall i :: 0 < i < |h| ==> h[i].role == (if i % 2 == 1 then User else Assistant))
    && (forall i :: 0 < i < |h| && i % 2 == 1 ==> IsUtterance(h[i]))
  }

  /** Every assistant entry is the model's answer to the full history before it. */
  predicate RepliesAnswerHistory(h: seq<Message>, model: Model)
  {
    forall i :: 0 < i < |h| && i % 2 == 0 ==> h[i].content == OllamaResponse(model(h[..i]))
  }

  lemma StartIsWellFormed(model: Model)
    ensures WellFormed([SystemMessage]) && RepliesAnswerHistory([SystemMessage], model)
  {
  }

  lemma StepKeepsInvariants(h: seq<Message>, input: string, model: Model)
    requires WellFormed(h) && RepliesAnswerHistory(h, model)
    requires !IsExitPhrase(input)
    ensures WellFormed(Step(h, input, model)) && RepliesAnswerHistory(Step(h, input, model), model)
  {
    if input != "" {
      StepKeepsWellFormed(h, input, model);
      StepKeepsReplies(h, input, model);
    }
  }

  lemma StepKeepsWellFormed(h: seq<Message>, input: string, model: Model)
    requires WellFormed(h) && input != "" && !IsExitPhrase(input)
    ensures WellFormed(Step(h, input, model))
  {
    var r := Step(h, input, model);
    var u := Message(User, input);
    assert r == h + [u, r[|h| + 1]];
    forall i | 0 < i < |r|
      ensures r[i].role == (if i % 2 == 1 then User else Assistant)
    {
      if i < |h| { assert r[i] == h[i]; }
    }
    assert IsUtterance(u);
    forall i | 0 < i < |r| && i % 2 == 1
      ensures IsUtterance(r[i])
    {
      if i < |h| { assert r[i] == h[i]; } else { assert r[i] == u; }
    }
  }

  lemma StepKeepsReplies(h: seq<Message>, input: string, model: Model)
    requires |h| % 2 == 1 && RepliesAnswerHistory(h, model) && input != ""
    ensures RepliesAnswerHistory(Step(h, input, model), model)
  {
    var r := Step(h, input, model);
    forall i | 0 < i < |r| && i % 2 == 0
      ensures r[i].content == OllamaResponse(model(r[..i]))
    {
      if i < |h| {
        assert r[i] == h[i] && r[..i] == h[..i];
      } else {
        assert i == |h| + 1;
      }
    }
  }

  /** After any run the system message is still first, the history has odd
      length, roles alternate, and every reply answers the full history before it. */
  lemma {:induction false} ConversationKeepsInvariants(h: seq<Message>, ts: seq<string>, model: Model)
    requires WellFormed(h) && RepliesAnswerHistory(h, model)
    ensures WellFormed(Conversation(h, ts, model))
    ensures RepliesAnswerHistory(Conversation(h, ts, model), model)
    decreases |ts|
  {
    if ts != [] && !IsExitPhrase(ts[0]) {
      StepKeepsInvariants(h, ts[0], model);
      ConversationKeepsInvariants(Step(h, ts[0], model), ts[1..], model);
    }
  }

  /** The history only grows by appends, two entries per exchange. */
  lemma {:induction false} ConversationAppendsOnly(h: seq<Message>, ts: seq<string>, model: Model)
    ensures |Conversation(h, ts, model)| == |h| + 2 * Exchanges(ts)
    ensures Conversation(h, ts, model)[..|h|] == h
    decreases |ts|
  {
    if ts != [] && !IsExitPhrase(ts[0]) {
      var h' := Step(h, ts[0], model);
      ConversationAppendsOnly(h', ts[1..], model);
      assert Conversation(h', ts[1..], model)[..|h|] == Conversation(h', ts[1..], model)[..|h'|][..|h|];
    }
  }

  /** Nothing said after an exit phrase reaches the history. */
  lemma {:induction false} ConversationStopsAtExit(h: seq<Message>, ts: seq<string>, k: nat, model: Model)
    requires k < |ts| && IsExitPhrase(ts[k])
    ensures Conversation(h, ts, model) == Conversation(h, ts[..k], model)
    decreases k
  {
    if k > 0 && !IsExitPhrase(ts[0]) {
      ConversationStopsAtExit(Step(h, ts[0], model), ts[1..], k - 1, model);
      assert ts[1..][..k - 1] == ts[..k][1..];
    }
  }

  /** A failed listen is an empty turn: it changes nothing and the session goes on. */
  lemma ListenFailureIsNoOp(h: seq<Message>, heard: Heard, ts: seq<string>, model: Model)
    requires !heard.Recognized?
    ensures Conversation(h, [Transcript(heard)] + ts, model) == Conversation(h, ts, model)
  {
    ExitPhraseExamples();
    assert ([Transcript(heard)] + ts)[1..] == ts;
  }

  /** With an unreachable model every turn still happens, and every reply
      recorded is the connection apology. */
  lemma UnreachableModelRecordsApology(ts: seq<string>)
    ensures var h := Conversation([SystemMessage], ts, _ => OtherError);
      forall i :: 0 < i < |h| && i % 2 == 0 ==> h[i] == Message(Assistant, ConnectionReply)
  {
    var model: Model := _ => OtherError;
    StartIsWellFormed(model);
    ConversationKeepsInvariants([SystemMessage], ts, model);
  }

  /** With a model that always reports an error of its own, every reply
      recorded is the model-issue apology. */
  lemma ModelErrorRecordsApology(ts: seq<string>)
    ensures var h := Conversation([SystemMessage], ts, _ => ResponseError);
      forall i :: 0 < i < |h| && i % 2 == 0 ==> h[i] == Message(Assistant, ModelIssueReply)
  {
    var model: Model := _ => ResponseError;
    StartIsWellFormed(model);
    ConversationKeepsInvariants([SystemMessage], ts, model);
  }

  /** The worked example: one sentence, one stubbed reply. */
  lemma AnxiousScenario()
    ensures
      var reply := "That sounds really hard, I'm here for you.";
      Conversation([SystemMessage], ["I feel anxious today"], _ => Replied(reply))
      == [SystemMessage, Message(User, "I feel anxious today"), Message(Assistant, reply)]
  {
    ExitPhraseExamples();
  }

  // ---------------------------------------------------------------------------
  // The session loop
  // ---------------------------------------------------------------------------

  /** The main loop, fed the successive results of listening and asking the
      model. It stops on an exit phrase or when the listening results run out,
      and returns the history it built and whether the user said goodbye. */
  method RunSession(heard: seq<Heard>, model: Model) returns (history: seq<Message>, exited: bool)
    ensures history == Conversation([SystemMessage], Transcripts(heard), model)
    ensures exited <==> SaysExit(Transcripts(heard))
    ensures WellFormed(history) && RepliesAnswerHistory(history, model)
    ensures |history| == 1 + 2 * Exchanges(Transcripts(heard))
  {
    ghost var ts := Transcripts(heard);
    history := [SystemMessage];
    exited := false;
    var i := 0;
    while i < |heard| && !exited
      invariant 0 <= i <= |heard|
      invariant exited ==> i < |heard| && IsExitPhrase(ts[i])
      invariant forall j :: 0 <= j < i ==> !IsExitPhrase(ts[j])
      invariant Conversation(history, ts[i..], model) == Conversation([SystemMessage], ts, model)
      decreases |heard| - i, if exited then 0 else 1
    {
      var userInput := Transcript(heard[i]);
      assert userInput == ts[i];
      if IsExitPhrase(userInput) {
        exited := true;
      } else {
        assert Conversation(history, ts[i..], model)
            == Conversation(Step(history, userInput, model), ts[i..][1..], model);
        if userInput != "" {
          history := history + [Message(User, userInput)];
          var response := OllamaResponse(model(history));
          history := history + [Message(Assistant, response)];
        }
        assert ts[i..][1..] == ts[i + 1..];
        i := i + 1;
      }
    }
    assert history == Conversation(history, ts[i..], model);
    StartIsWellFormed(model);
    ConversationKeepsInvariants([SystemMessage], ts, model);
    ConversationAppendsOnly([SystemMessage], ts, model);
  }
}
