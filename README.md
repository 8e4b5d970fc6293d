# Emotional-support chatbot: conversation sessions in Dafny

This project models the two pieces of the chatbot that keep a conversation
history and proves properties of them.

- **The console assistant** (`Backend.py`). Its `main` loop starts the history
  with one system instruction. Each turn it listens, and it stops when the
  lower-cased transcript is `exit`, `quit`, `bye` or `goodbye`. A non-empty
  transcript is appended as a `user` message. The whole history is then sent to
  the Ollama chat endpoint, and the reply is appended as an `assistant` message.
  `get_ollama_response` never raises. On a `ResponseError` it returns a fixed
  "issue with the Ollama model" text, and on any other error a fixed "trouble
  connecting" text. `listen` returns `""` on every recognition failure.
- **The web chat page** (`Frontend.py`). The page creates
  `st.session_state.messages` as an empty list only when that key is absent.
  Each non-empty prompt appends the prompt as a `user` message, then
  `"Echo: " + prompt` as an `assistant` message.

Files:
- `chat.dfy` (module `Chat`): the message record (`Role`, `Message`) and `Option`.
- `backend.dfy` (module `Backend`): the exit test and the abstract results of
  listening (`Heard`) and of the chat call (`Completion`). It defines the session
  as a function of its inputs (`Step`, `Conversation`) and states the history
  invariants (`WellFormed`, `RepliesAnswerHistory`). `RunSession` is the loop
  itself, proved equal to `Conversation`.
- `frontend.dfy` (module `Frontend`): the `SessionState` class holds the stored
  message list and has one method per part of the page script. `EchoTurn` and
  `EchoSession` specify what a script run does, and the lemmas are stated over them.

The external services are inputs. A listen attempt is a `Heard` value: a
transcript or one of the three failures `listen` catches. The chat endpoint is a
function `Model` from the full message list to a `Completion`. Because the model
is a function of exactly the list it is given, `RepliesAnswerHistory` can state
that each assistant entry is the answer to the entire history before it. This is
the no-truncation property. The real endpoint samples at temperature 0.7 and is
not deterministic, but a function loses nothing here: within one session each
call gets a history of a different length (2, 4, 6, ... entries), so any sequence
of replies is given by some `Model`.

## Model

| member | source | states |
|---|---|---|
| `Backend.Lower` | Backend.py:110 | lower-casing keeps the length, maps each character by itself, and leaves no upper-case letter |
| `Backend.ExitPhraseExamples` | Backend.py:110-112 | "Exit", "QUIT", "Bye" and "GoodBye" end the session; "", "exit now" and an ordinary sentence do not |
| `Backend.IsExitPhrase` | Backend.py:110 | the exit test; every exit phrase has 3 to 7 characters, so an empty transcript (a failed listen) never ends the session |
| `Backend.ExitPhraseIgnoresCase` | Backend.py:110 | a transcript passes the exit test exactly when it spells one of "exit", "quit", "bye", "goodbye" with any of its letters possibly in upper case |
| `Backend.Transcript` | Backend.py:47-71 | `listen` yields the recognized text, or "" for each of its three failure kinds |
| `Backend.OllamaResponse` | Backend.py:73-84 | never fails; gives the reply content on success, the model-issue text on a response error, the connection text on any other error; a fallback is never empty |
| `Backend.Step` | Backend.py:114-129 | a turn keeps the old history as a prefix; an empty transcript changes nothing; otherwise exactly two entries are added: the user's words, then the reply the model gives to the whole history ending in those words |
| `Backend.Conversation` | Backend.py:107-129 | the loop as a function of the transcripts: the old history is kept as a prefix, and an exit phrase first leaves it unchanged |
| `Backend.StartIsWellFormed` | Backend.py:91-102 | the initial history, the system message alone, satisfies both history invariants |
| `Backend.StepKeepsInvariants` | Backend.py:110-129 | a non-exit turn keeps the system head, odd length, alternating roles and replies that answer the full history |
| `Backend.StepKeepsWellFormed` | Backend.py:114-129 | a non-empty, non-exit turn keeps the system head, odd length and alternating user/assistant roles |
| `Backend.StepKeepsReplies` | Backend.py:116-129 | after a turn, every assistant entry is still the answer to the full history before it |
| `Backend.ConversationKeepsInvariants` | Backend.py:91-129 | after any sequence of turns, index 0 is the system message, the length is odd, roles alternate user/assistant, and every reply answers the whole preceding history |
| `Backend.ConversationAppendsOnly` | Backend.py:107-129 | the history only grows by appends: the old history is a prefix, and exactly two entries are added per non-empty, non-exit transcript before the first exit phrase |
| `Backend.ConversationStopsAtExit` | Backend.py:110-112 | an exit phrase ends the session: nothing from it or after it reaches the history |
| `Backend.ListenFailureIsNoOp` | Backend.py:108-114 | a failed listen leaves the history unchanged, and the session goes on with the next input |
| `Backend.UnreachableModelRecordsApology` | Backend.py:121-129 | if the model is never reachable, every assistant entry is the connection apology, recorded as a real turn |
| `Backend.ModelErrorRecordsApology` | Backend.py:79-81 | if the model always reports an error of its own, every assistant entry is the model-issue apology |
| `Backend.AnxiousScenario` | Backend.py:107-129 | one sentence and one stubbed reply give exactly [system, user sentence, assistant reply] |
| `Backend.RunSession` | Backend.py:86-132 | the loop builds exactly the `Conversation` of the transcripts it hears; it reports exit exactly when some transcript is an exit phrase; its result satisfies both invariants and has length 1 + 2 × exchanges |
| `Frontend.EchoReply` | Frontend.py:30 | the reply is "Echo: " followed by the whole prompt, so the prompt can be recovered from it |
| `Frontend.Submitted` | Frontend.py:22 | the `if prompt:` test: false for an absent prompt, and true for a present one exactly when it is non-empty |
| `Frontend.EchoTurn` | Frontend.py:22-33 | an absent or empty prompt changes nothing; otherwise the old list is a prefix and exactly the user prompt, then its echo, are added |
| `Frontend.EchoSession` | Frontend.py:10-33 | a sequence of script runs keeps the old list as a prefix, and runs without a submitted prompt leave it unchanged |
| `Frontend.EchoTurnKeepsWellFormed` | Frontend.py:22-33 | one prompt keeps the list alternating user/echo, with each echo answering the prompt before it |
| `Frontend.EchoSessionKeepsWellFormed` | Frontend.py:10-33 | after any sequence of page runs, the list alternates user/assistant, and each assistant entry is the echo of the non-empty prompt before it |
| `Frontend.EchoSessionAppendsOnly` | Frontend.py:22-33 | page runs never change earlier entries, and each submitted prompt adds exactly two entries |
| `Frontend.SessionState.constructor` | Frontend.py:10 | a new browser session has no stored message list |
| `Frontend.SessionState.InitMessages` | Frontend.py:10-11 | the list is set to empty only when absent; an existing list is never reset |
| `Frontend.SessionState.HandlePrompt` | Frontend.py:22-33 | the stored list becomes `EchoTurn` of the old list and the prompt |
| `Frontend.SessionState.Rerun` | Frontend.py:10-33 | one script run leaves a stored list equal to `EchoTurn` of the previous list, or of the empty list when there was none |

## Left out

- Backend.Lower: only the letters A to Z are lower-cased; Python's `str.lower` also maps other Unicode letters. The exit test is still exact: only two non-ASCII characters lower-case to something containing an ASCII letter. U+0130 becomes `i` followed by a combining dot, which matches no exit phrase. The Kelvin sign becomes `k`, and no exit phrase contains `k`.
- Backend.RunSession: the source loop is `while True`. The model feeds it a finite sequence of listen results, so it also stops when those run out.
- Speech recognition internals are external calls: the microphone, ambient-noise calibration, the 8-second phrase limit and Google recognition. Only the outcome of capture and recognition appears, as a `Heard` value.
- Exceptions that escape `listen` or `main` end the program. This covers opening the microphone and calibrating (Backend.py:49-52, before the `try:`), `speak` failing inside the `listen` handlers (Backend.py:62, 66, 70), and `speak` failing at Backend.py:122. In the last case the user entry is already appended and the assistant entry is not. The model shows such a crash only as the input sequence running out (`RunSession` returns `exited == false`). It does not model the half-finished turn.
- The apologies `listen` speaks on failure, `speak` itself, the SAPI voice and its "unavailable" fallback are output only, with no effect on the history.
- The Ollama call, the model name `llama3.2` and the temperature 0.7 are external. They are folded into the `Model` function.
- The randomly chosen listening and processing prompts are nondeterministic console text.
- The welcome and farewell lines are console output.
- The response timing uses floating-point clock readings and is for observability only.
- Roles are an enumeration rather than the strings "system", "user" and "assistant". Messages are records rather than dictionaries.
- `Frontend.py` rendering (`st.title`, `st.chat_message`, `st.markdown`, the display loop) is UI only. The Streamlit rerun cycle is modelled one script run at a time (`Rerun`), and `EchoSession` describes a sequence of runs.
- `integrated.py` is not part of this model. It is UI code with a LangChain/`ChatOllama` call and a background speech thread, and it keeps no conversation history.
- `listen` catches three exception kinds (Backend.py:60-71) and returns `""` for each. `Heard` keeps the kind, but the session sees only `""`, so a failure and an empty transcript are the same turn.
