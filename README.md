# Dream Quest CTF — the per-connection dialogue

Dream Quest CTF is a small text-adventure server: every client connection
gets a main menu (forest, oracle, guardian). At the oracle, a riddle offers
three crystals, and choosing the crystal of truth prints the flag. This
project models one connection's dialogue, as `DreamQuestCTF.handle_client`,
`handle_oracle_wisdom`, `handle_forest_path`, `handle_challenge_guardian`,
`receive_input` and `send_message` implement it, and proves what that
dialogue does for every script of client input.

The model has five files:

- `normalization.dfy` (module `Normalization`): what `receive_input` does to
  a decoded line, that is `strip()` followed by `lower()`, restricted to
  ASCII. It proves that strip() has a unique characterisation and that
  normalising is idempotent. It also proves that a single letter padded with
  whitespace selects that letter.
- `wire.dfy` (module `Wire`): the connection.
  - `Wire` is a value with three parts: a script of read results, a script
    of send outcomes, and the messages whose send did not raise.
  - In the read script, `None` is a read that raised. Once the script is
    exhausted, every further read fails.
  - In the send script, `false` is a send that raised. Once the script is
    exhausted, every send succeeds.
  - `Socket` is the mutable object the server methods use. Its `State()`
    is a `Wire`.
  - Messages are tags. `Victory` carries the flag it prints. The riddle's
    tokens are the labels of its three crystals.
- `dialogue.dfy` (module `Dialogue`): the dialogue as a pure state machine.
  - The phases are `Menu`, `Oracle` and `Closed`.
  - `MenuStep` and `OracleStep` are one pass of the two `while True` loops.
  - `Run` is the whole session from a phase.
  - Every step that does not close the session consumes a read. So `Run`
    terminates on every script.
- `dream_quest.dfy` (module `DreamQuest`): the class `DreamQuestCTF`.
  - Its methods follow the source statement by statement, over a `Socket`.
  - Each method is proved to leave the socket exactly as the pure model
    says.
  - `HandleClient` and `HandleOracleWisdom` keep the source's loops. Their
    invariant is that the rest of the session is unchanged.
- `properties.dfy` (module `DialogueProperties`): what the dialogue
  promises.
  - Which inputs end the session, and which loop.
  - Which extra read is swallowed.
  - Which send and read failures are checked, and which are ignored.
  - That only the last message can be final, and that the flag is won at
    most once.
  - Whole-session results for peers that shut down, for any number of
    wrong crystals, and for concrete scripts.

Two behaviours of the code are easy to miss:

- The script `"b", "b", "a"` does not win. After the wrong crystal `b`, the
  "Press Enter" read at dream_quest_ctf.py:138 swallows the `"a"`. The
  riddle is shown again, and, with the script exhausted, the next read
  fails. `LiteralScriptBBA` proves the trace is welcome, riddle, wrong
  crystal, riddle, with no victory. `LiteralScriptBBEnterA` shows that an
  Enter line before the `"a"` wins.
- The riddle prints the flag as crystal A's label, at dream_quest_ctf.py:90
  (`RiddleDisclosesFlag`). So the model claims no property of the kind "the
  flag is never sent before victory". It proves instead that a victory
  message is sent at most once, and only as the last message.

## Model

| member | source | states |
|---|---|---|
| Wire.Wire.Recv | dream_quest_ctf.py:21 | a read consumes exactly one scripted result and changes nothing else; an exhausted script reads as a failure |
| Wire.Wire.Send | dream_quest_ctf.py:10-16 | a send reports success exactly when its scripted result is success (or the script is used up), uses up one scripted send result, leaves the reads untouched, and adds the message to the sent messages exactly when the send does not raise |
| Wire.Socket.Recv | dream_quest_ctf.py:21 | a read takes the next scripted result, or fails once the script is exhausted |
| Wire.Socket.Send | dream_quest_ctf.py:13 | a send consumes one send outcome and records the message as sent only on success |
| Wire.Socket.Close | dream_quest_ctf.py:184 | closing changes nothing but the open flag |
| Normalization.LowerChar | dream_quest_ctf.py:21 | lower-casing a character maps each capital A-Z to the small letter at the same place in a-z, keeps every non-capital, leaves no capital, and keeps whitespace as whitespace |
| Normalization.Lower | dream_quest_ctf.py:21 | lower() keeps the length |
| Normalization.LowerAt | dream_quest_ctf.py:21 | lower() keeps the length and works character by character |
| Normalization.TrimStart | dream_quest_ctf.py:21 | the left trim never lengthens the line |
| Normalization.TrimEnd | dream_quest_ctf.py:21 | the right trim never lengthens the line |
| Normalization.Strip | dream_quest_ctf.py:21 | strip() never lengthens the line, and its result has whitespace at neither end |
| Normalization.Normalize | dream_quest_ctf.py:21 | strip().lower() never lengthens the line, and its result has whitespace at neither end and no capital letter |
| Normalization.TrimStartShape | dream_quest_ctf.py:21 | the left trim is a suffix, only whitespace was removed, and it does not start with whitespace |
| Normalization.TrimEndShape | dream_quest_ctf.py:21 | the right trim is a prefix, only whitespace was removed, and it does not end with whitespace |
| Normalization.TrimStartAt | dream_quest_ctf.py:21 | the left trim cuts exactly at the first non-space character |
| Normalization.TrimEndAt | dream_quest_ctf.py:21 | the right trim cuts exactly after the last non-space character |
| Normalization.StripUnique | dream_quest_ctf.py:21 | strip() is the unique infix bracketed by whitespace that neither starts nor ends with whitespace |
| Normalization.StripInner | dream_quest_ctf.py:21 | the non-blank case of that characterisation |
| Normalization.StripBlank | dream_quest_ctf.py:21 | a line of whitespace only strips to the empty line |
| Normalization.StripOfTrimmed | dream_quest_ctf.py:21 | a line with whitespace at neither end is its own strip() |
| Normalization.LowerFixed | dream_quest_ctf.py:21 | a line without capitals is its own lower() |
| Normalization.NormalizeIdempotent | dream_quest_ctf.py:21 | strip().lower() applied twice equals applied once |
| Normalization.PaddedChoice | dream_quest_ctf.py:21 | one non-space character with any whitespace around it normalises to that character, lower-cased |
| Normalization.SingleCharChoice | dream_quest_ctf.py:21 | conversely, a line that normalises to one character is that character (in either case) with only whitespace around it |
| Normalization.PaddedUpperB | dream_quest_ctf.py:21 | the line "  B \r\n" normalises to "b" |
| Dialogue.ReceiveInput | dream_quest_ctf.py:18-24 | a read consumes exactly one scripted result; it gives None exactly when the script is exhausted or the read raises, and otherwise the stripped, lower-cased line |
| Dialogue.ForestPath | dream_quest_ctf.py:50-60 | the forest always reports that the session stops, reads nothing, and adds the forest text to the sent messages exactly when its send succeeds |
| Dialogue.ChallengeGuardian | dream_quest_ctf.py:62-73 | the guardian always reports that the session goes on, consumes exactly one read, and adds the guardian text to the sent messages exactly when its send succeeds |
| Dialogue.MenuStep | dream_quest_ctf.py:150-179 | one menu pass closes the session or consumes a read, and never takes back a sent message |
| Dialogue.OracleStep | dream_quest_ctf.py:97-143 | one oracle pass closes the session or consumes a read, and never takes back a sent message |
| Dialogue.Step | dream_quest_ctf.py:150-179 | the same for either live phase; a closed session does not move |
| Dialogue.Run | dream_quest_ctf.py:145-185 | the session ends on every script; it never consumes more than the script and only adds to the sent messages |
| DreamQuest.DreamQuestCTF.constructor | dream_quest_ctf.py:7-8 | the server holds the flag TI404{fbrySl.latt∆mCH4.##blurr3d} |
| DreamQuest.DreamQuestCTF.SendMessage | dream_quest_ctf.py:10-16 | a failed send is reported as false, and the connection changes as one send says |
| DreamQuest.DreamQuestCTF.ReceiveInput | dream_quest_ctf.py:18-24 | the method returns the stripped, lower-cased read, or None when the read failed |
| DreamQuest.DreamQuestCTF.ShowWelcome | dream_quest_ctf.py:26-48 | the welcome screen is sent, and success is reported |
| DreamQuest.DreamQuestCTF.HandleForestPath | dream_quest_ctf.py:50-60 | the forest text is sent, its failure is ignored, and false is returned |
| DreamQuest.DreamQuestCTF.HandleChallengeGuardian | dream_quest_ctf.py:62-73 | the guardian text is sent, one line is read, both outcomes are ignored, and true is returned |
| DreamQuest.DreamQuestCTF.HandleOracleWisdom | dream_quest_ctf.py:75-143 | the riddle loop always returns false, leaving the connection as the oracle session says |
| DreamQuest.DreamQuestCTF.HandleClient | dream_quest_ctf.py:145-185 | the menu loop leaves the connection as the whole session says, and the connection is closed on every way out |
| DialogueProperties.ForestStep | dream_quest_ctf.py:161-164 | "a" at the menu sends the forest text after the welcome and closes, whether or not that text could be sent |
| DialogueProperties.ForestEndsSession | dream_quest_ctf.py:50-60 | "a" at the menu ends the whole session right there |
| DialogueProperties.GuardianReturnsToMenu | dream_quest_ctf.py:62-73 | "c" at the menu sends the guardian text and swallows exactly one more read, whatever it is, even a failed one; it returns to the menu even when a send fails |
| DialogueProperties.OracleFromMenu | dream_quest_ctf.py:166-169 | "b" at the menu moves to the oracle, having consumed only the choice |
| DialogueProperties.InvalidChoiceAtMenu | dream_quest_ctf.py:176-179 | any other line, the empty line included, stays at the menu after the invalid-choice text; only a failed send of that text closes |
| DialogueProperties.TruthStep | dream_quest_ctf.py:105-128 | "a" at the oracle sends the victory with the flag after the riddle and closes, whether or not the victory could be sent |
| DialogueProperties.TruthCrystalWins | dream_quest_ctf.py:166-169 | "a" at the oracle ends the whole session right there |
| DialogueProperties.WrongCrystalKeepsOracle | dream_quest_ctf.py:130-139 | "b" or "c" at the oracle sends the crumbling text, swallows one read whatever it is, and stays at the oracle |
| DialogueProperties.InvalidChoiceAtOracle | dream_quest_ctf.py:141-143 | any other line at the oracle sends the invalid-choice text, reads nothing more, and stays at the oracle even if that send fails |
| DialogueProperties.FailedReadStep | dream_quest_ctf.py:101-103 | a failed read where a choice is expected closes the session, at the menu and at the oracle |
| DialogueProperties.FailedReadCloses | dream_quest_ctf.py:156-158 | that failed read is the end of the whole session |
| DialogueProperties.FailedPromptStep | dream_quest_ctf.py:98-99 | a welcome or riddle that cannot be sent closes the session before anything is read |
| DialogueProperties.FailedPromptCloses | dream_quest_ctf.py:152-153 | that failed send is the end of the whole session |
| DialogueProperties.StepShowsPromptFirst | dream_quest_ctf.py:150-153 | every pass through a live phase first sends its prompt, when the send succeeds |
| DialogueProperties.PromptShownFirst | dream_quest_ctf.py:97-99 | a session from a live phase first shows that phase's prompt |
| DialogueProperties.MenuStepTrace | dream_quest_ctf.py:150-179 | a menu pass sends nothing final unless it closes, and then only as its last message |
| DialogueProperties.OracleStepTrace | dream_quest_ctf.py:97-143 | an oracle pass sends nothing final unless it closes, and then only a victory with the server's flag, as its last message |
| DialogueProperties.FinalMessageIsLast | dream_quest_ctf.py:145-185 | once the forest or the victory text is sent nothing more is sent, and every victory carries the server's flag |
| DialogueProperties.VictoryAtMostOnce | dream_quest_ctf.py:127-128 | a session sends the victory message at most once |
| DialogueProperties.EmptyLineStep | dream_quest_ctf.py:176-179 | an empty line, which is what a peer that shut down sends, is answered at the menu with the invalid-choice text |
| DialogueProperties.PeerShutdownLoopsAtMenu | dream_quest_ctf.py:150-179 | a peer that shut down keeps the session at the menu for as long as reads return the empty line |
| DialogueProperties.WrongPairStep | dream_quest_ctf.py:130-139 | a wrong crystal and its swallowed line make one oracle pass that sends the riddle and the crumbling text |
| DialogueProperties.WrongPairHead | dream_quest_ctf.py:130-139 | a script that opens with a wrong crystal reads it as "b" or "c", and two reads remove that crystal and its swallowed line |
| DialogueProperties.WrongPairRun | dream_quest_ctf.py:130-139 | the first wrong crystal of a run and its swallowed line come off the front of the session, leaving the riddle and the crumbling text sent |
| DialogueProperties.WrongAnswersNeverClose | dream_quest_ctf.py:97-139 | any number of wrong crystals leaves the session at the oracle, having sent only riddles and crumbling texts |
| DialogueProperties.RepeatedWrongNotFinal | dream_quest_ctf.py:130-139 | the texts wrong crystals send hold no victory and no forest |
| DialogueProperties.RiddleDisclosesFlag | dream_quest_ctf.py:90 | a session that reaches the oracle shows the flag in the riddle before any answer is read |
| DialogueProperties.ScenarioOracleThenTruth | dream_quest_ctf.py:105-128 | "b" then "a" sends the welcome, the riddle and the victory, and nothing else |
| DialogueProperties.ScenarioAnswerSwallowed | dream_quest_ctf.py:136-138 | "b", "b", then any line: the third line is swallowed, so the session ends with a second riddle and no victory |
| DialogueProperties.ScenarioWrongThenTruth | dream_quest_ctf.py:130-139 | "b", "b", any line, "a" sends the victory after the second riddle |
| DialogueProperties.MenuThenWrong | dream_quest_ctf.py:166-169 | "b" at the menu, then "b" at the oracle, as two exact steps |
| DialogueProperties.LiteralScriptBBA | dream_quest_ctf.py:136-138 | the script "b", "b", "a" on a fresh connection ends with no victory |
| DialogueProperties.LiteralScriptBBEnterA | dream_quest_ctf.py:130-139 | the script "b", "b", "", "a" on a fresh connection ends in victory |
| DialogueProperties.LiteralScriptBA | dream_quest_ctf.py:105-128 | the script "b", "a" on a fresh connection ends in victory |
| DialogueProperties.PaddedInputSelectsOracle | dream_quest_ctf.py:21 | "  B \r\n" at the menu takes the same step as "b" |
| DialogueProperties.EmptyLine | dream_quest_ctf.py:21 | the empty line normalises to itself |
| DialogueProperties.LetterA | dream_quest_ctf.py:21 | "a" normalises to itself |
| DialogueProperties.LetterB | dream_quest_ctf.py:21 | "b" normalises to itself |

## Left out

- The server, the accept loop, one thread per client and the socket options (dream_quest_ctf.py:187-220) are not modelled. Sessions share no mutable state: `Run` depends only on its own connection, so sessions are independent by construction.
- Parsing the host and port from the command line (dream_quest_ctf.py:222-233) is left out; it is process bootstrap.
- The `print` logging of connections and errors is left out; it is output only.
- UTF-8 encoding and decoding, the `\r\n` appended to each message and the 1024-byte limit of each `recv` are left out. Reads are modelled as decoded lines, and a read or decode that raises is a `None` in the script. Messages are tags.
- The narrative texts are tags. The only text kept is the flag inside the victory message and the three crystal labels inside the riddle.
- Normalization.Normalize: covers ASCII only. Whitespace is Python's ASCII whitespace, and lower-casing maps `A`-`Z` only. Unicode whitespace and Unicode case mappings are not modelled.
- Partial sends and delivery to the peer are not modelled. `send_message` calls `socket.send` and ignores the byte count it returns (dream_quest_ctf.py:13), so a send that does not raise may have queued only part of the message, and nothing guarantees that the peer received it. In the model, a message whose send did not raise is recorded whole in `outbox`.
- The `except Exception` around the menu loop (dream_quest_ctf.py:181-182) has nothing to catch in the model. Every send and read failure is already turned into a return value by `send_message` and `receive_input`.
- DreamQuest.DreamQuestCTF.HandleClient: the client address is not a parameter, because it is used only for logging.
