/** What the dialogue promises, stated over the pure model in Dialogue and
    proved for every connection script. */
module DialogueProperties {
  import opened Wire
  import opened Normalization
  import opened Dialogue

  /** The next read succeeds and normalises to `k`. */
  predicate ReadsAs(w: Wire, k: string) {
    w.inbox != [] && w.inbox[0].Some? && Normalize(w.inbox[0].value) == k
  }

  /** The next read fails: the script is exhausted or the read raised. */
  predicate ReadFails(w: Wire) {
    w.inbox == [] || w.inbox[0].None?
  }

  /** What the send that is `i` sends away adds to the sent messages. */
  function Shown(w: Wire, i: nat, m: Msg): seq<Msg> {
    if w.SendSucceeds(i) then [m] else []
  }

  // ---------------------------------------------------------------------
  // One step at the menu

  /** Choosing `a` sends the forest text and always ends the session, even
      when that text cannot be sent. */
  lemma ForestEndsSession(flag: string, w: Wire)
    requires w.SendSucceeds(0) && ReadsAs(w, "a")
    ensures Run(flag, Menu, w)
         == Wire(w.inbox[1..], Drop(w.sendResults, 2), w.outbox + [Welcome] + Shown(w, 1, Forest))
  {
    ForestStep(w);
    assert Run(flag, Menu, w) == Run(flag, MenuStep(w).0, MenuStep(w).1);
  }

  lemma ForestStep(w: Wire)
    requires w.SendSucceeds(0) && ReadsAs(w, "a")
    ensures MenuStep(w)
         == (Closed, Wire(w.inbox[1..], Drop(w.sendResults, 2), w.outbox + [Welcome] + Shown(w, 1, Forest)))
  {
    var r := MenuStep(w);
    assert r.0 == Closed;
    assert r.1 == Wire(w.inbox[1..], Drop(w.sendResults, 2), w.outbox + [Welcome] + Shown(w, 1, Forest));
  }

  /** Choosing `c` sends the guardian text, swallows exactly one more read
      whatever it is, and comes back to the menu; the guardian never ends
      the session. */
  lemma GuardianReturnsToMenu(w: Wire)
    requires w.SendSucceeds(0) && ReadsAs(w, "c")
    ensures MenuStep(w)
         == (Menu, Wire(Drop(w.inbox, 2), Drop(w.sendResults, 2), w.outbox + [Welcome] + Shown(w, 1, Guardian)))
  {
    var r := MenuStep(w);
    assert r.0 == Menu;
    assert r.1 == Wire(Drop(w.inbox, 2), Drop(w.sendResults, 2), w.outbox + [Welcome] + Shown(w, 1, Guardian));
  }

  /** Choosing `b` moves to the oracle having consumed only the choice. */
  lemma OracleFromMenu(w: Wire)
    requires w.SendSucceeds(0) && ReadsAs(w, "b")
    ensures MenuStep(w) == (Oracle, Wire(w.inbox[1..], Drop(w.sendResults, 1), w.outbox + [Welcome]))
  {
    var r := MenuStep(w);
    assert r.0 == Oracle;
    assert r.1 == Wire(w.inbox[1..], Drop(w.sendResults, 1), w.outbox + [Welcome]);
  }

  /** Any other line, the empty line of a peer that shut down included,
      leaves the session at the menu: the invalid-choice text is sent, and
      only a failure to send it ends the session. */
  lemma InvalidChoiceAtMenu(w: Wire, s: string)
    requires w.SendSucceeds(0) && w.inbox != [] && w.inbox[0] == Some(s)
    requires Normalize(s) != "a" && Normalize(s) != "b" && Normalize(s) != "c"
    ensures MenuStep(w)
         == (if w.SendSucceeds(1) then Menu else Closed,
             Wire(w.inbox[1..], Drop(w.sendResults, 2), w.outbox + [Welcome] + Shown(w, 1, Invalid)))
  {
    var r := MenuStep(w);
    assert r.0 == if w.SendSucceeds(1) then Menu else Closed;
    assert r.1 == Wire(w.inbox[1..], Drop(w.sendResults, 2), w.outbox + [Welcome] + Shown(w, 1, Invalid));
  }

  // ---------------------------------------------------------------------
  // One step at the oracle

  /** The crystal of truth sends the victory text with the flag and ends
      the session, whether or not that text could be sent. */
  lemma TruthCrystalWins(flag: string, w: Wire)
    requires w.SendSucceeds(0) && ReadsAs(w, "a")
    ensures Run(flag, Oracle, w)
         == Wire(w.inbox[1..], Drop(w.sendResults, 2), w.outbox + [Riddle] + Shown(w, 1, Victory(flag)))
  {
    TruthStep(flag, w);
    assert Run(flag, Oracle, w) == Run(flag, OracleStep(flag, w).0, OracleStep(flag, w).1);
  }

  lemma TruthStep(flag: string, w: Wire)
    requires w.SendSucceeds(0) && ReadsAs(w, "a")
    ensures OracleStep(flag, w)
         == (Closed, Wire(w.inbox[1..], Drop(w.sendResults, 2), w.outbox + [Riddle] + Shown(w, 1, Victory(flag))))
  {
    var r := OracleStep(flag, w);
    assert r.0 == Closed;
    assert r.1 == Wire(w.inbox[1..], Drop(w.sendResults, 2), w.outbox + [Riddle] + Shown(w, 1, Victory(flag)));
  }

  /** A wrong crystal never ends the session: the crumbling text is sent,
      one more read is swallowed whatever it is, and the riddle comes back. */
  lemma WrongCrystalKeepsOracle(flag: string, w: Wire)
    requires w.SendSucceeds(0) && (ReadsAs(w, "b") || ReadsAs(w, "c"))
    ensures OracleStep(flag, w)
         == (Oracle, Wire(Drop(w.inbox, 2), Drop(w.sendResults, 2), w.outbox + [Riddle] + Shown(w, 1, Wrong)))
  {
    var r := OracleStep(flag, w);
    assert r.0 == Oracle;
    assert r.1 == Wire(Drop(w.inbox, 2), Drop(w.sendResults, 2), w.outbox + [Riddle] + Shown(w, 1, Wrong));
  }

  /** Any other line at the oracle sends the invalid-choice text and shows
      the riddle again with no extra read; a failed send of that text is
      ignored. */
  lemma InvalidChoiceAtOracle(flag: string, w: Wire, s: string)
    requires w.SendSucceeds(0) && w.inbox != [] && w.inbox[0] == Some(s)
    requires Normalize(s) != "a" && Normalize(s) != "b" && Normalize(s) != "c"
    ensures OracleStep(flag, w)
         == (Oracle, Wire(w.inbox[1..], Drop(w.sendResults, 2), w.outbox + [Riddle] + Shown(w, 1, Invalid)))
  {
    var r := OracleStep(flag, w);
    assert r.0 == Oracle;
    assert r.1 == Wire(w.inbox[1..], Drop(w.sendResults, 2), w.outbox + [Riddle] + Shown(w, 1, Invalid));
  }

  // ---------------------------------------------------------------------
  // Failures of the connection

  /** The prompt of a live phase: the welcome screen at the menu, the
      riddle at the oracle. */
  function Prompt(p: Phase): Msg {
    if p == Menu then Welcome else Riddle
  }

  /** A failed read where a choice is expected ends the session, at the
      menu and at the oracle alike. */
  lemma FailedReadCloses(flag: string, p: Phase, w: Wire)
    requires p != Closed && w.SendSucceeds(0) && ReadFails(w)
    ensures Run(flag, p, w) == Wire(Drop(w.inbox, 1), Drop(w.sendResults, 1), w.outbox + [Prompt(p)])
  {
    FailedReadStep(flag, p, w);
    assert Run(flag, p, w) == Run(flag, Step(flag, p, w).0, Step(flag, p, w).1);
  }

  lemma FailedReadStep(flag: string, p: Phase, w: Wire)
    requires p != Closed && w.SendSucceeds(0) && ReadFails(w)
    ensures Step(flag, p, w) == (Closed, Wire(Drop(w.inbox, 1), Drop(w.sendResults, 1), w.outbox + [Prompt(p)]))
  {
    var r := Step(flag, p, w);
    assert r.0 == Closed;
    assert r.1 == Wire(Drop(w.inbox, 1), Drop(w.sendResults, 1), w.outbox + [Prompt(p)]);
  }

  /** A prompt that cannot be sent ends the session before anything is read. */
  lemma FailedPromptCloses(flag: string, p: Phase, w: Wire)
    requires p != Closed && !w.SendSucceeds(0)
    ensures Run(flag, p, w) == w.(sendResults := Drop(w.sendResults, 1))
  {
    FailedPromptStep(flag, p, w);
    assert Run(flag, p, w) == Run(flag, Step(flag, p, w).0, Step(flag, p, w).1);
  }

  lemma FailedPromptStep(flag: string, p: Phase, w: Wire)
    requires p != Closed && !w.SendSucceeds(0)
    ensures Step(flag, p, w) == (Closed, w.(sendResults := Drop(w.sendResults, 1)))
  {
  }

  /** Every pass through a live phase starts by showing its prompt. */
  lemma StepShowsPromptFirst(flag: string, p: Phase, w: Wire)
    requires p != Closed && w.SendSucceeds(0)
    ensures |Step(flag, p, w).1.outbox| > |w.outbox|
    ensures Step(flag, p, w).1.outbox[|w.outbox|] == Prompt(p)
  {
    if ReadFails(w) {
      FailedReadStep(flag, p, w);
    } else {
      var line := w.inbox[0].value;
      var k := Normalize(line);
      if p == Menu {
        if k == "a" {
          ForestStep(w);
        } else if k == "b" {
          OracleFromMenu(w);
        } else if k == "c" {
          GuardianReturnsToMenu(w);
        } else {
          InvalidChoiceAtMenu(w, line);
        }
      } else {
        if k == "a" {
          TruthStep(flag, w);
        } else if k == "b" || k == "c" {
          WrongCrystalKeepsOracle(flag, w);
        } else {
          InvalidChoiceAtOracle(flag, w, line);
        }
      }
    }
  }

  /** The menu is shown again, identically, each time the session returns
      to it, and the riddle each time the oracle loop comes round. */
  lemma PromptShownFirst(flag: string, p: Phase, w: Wire)
    requires p != Closed && w.SendSucceeds(0)
    ensures |Run(flag, p, w).outbox| > |w.outbox|
    ensures Run(flag, p, w).outbox[|w.outbox|] == Prompt(p)
  {
    StepShowsPromptFirst(flag, p, w);
    RunAfterStep(flag, p, w);
    var s := Step(flag, p, w);
    ExtendsAt(s.1.outbox, Run(flag, s.0, s.1).outbox, |w.outbox|);
  }

  /** A live phase's session is its first step followed by the rest. */
  lemma RunAfterStep(flag: string, p: Phase, w: Wire)
    requires p != Closed
    ensures Run(flag, p, w) == Run(flag, Step(flag, p, w).0, Step(flag, p, w).1)
  {
  }

  /** Chaining one known step onto the rest of the session. */
  lemma RunFromStep(flag: string, p: Phase, w: Wire, q: Phase, v: Wire)
    requires p != Closed && Step(flag, p, w) == (q, v)
    ensures Run(flag, p, w) == Run(flag, q, v)
  {
    RunAfterStep(flag, p, w);
  }

  lemma ExtendsAt<T>(s: seq<T>, t: seq<T>, i: nat)
    requires s <= t && i < |s|
    ensures |t| > i && t[i] == s[i]
  {
  }

  ghost predicate NoFinal(out: seq<Msg>) {
    forall i :: 0 <= i < |out| ==> !out[i].Final()
  }

  /** Only the last message may be final, and every victory carries `flag`. */
  ghost predicate ClosedTrace(flag: string, out: seq<Msg>) {
    (forall i :: 0 <= i < |out| - 1 ==> !out[i].Final()) &&
    (forall i :: 0 <= i < |out| && out[i].Victory? ==> out[i].flag == flag)
  }

  /** A closing step adds one non-final message and at most one more. */
  lemma ClosedAfter(flag: string, out: seq<Msg>, first: Msg, last: seq<Msg>)
    requires NoFinal(out) && !first.Final() && |last| <= 1
    requires forall i :: 0 <= i < |last| && last[i].Victory? ==> last[i].flag == flag
    ensures ClosedTrace(flag, out + [first] + last)
  {
    var t := out + [first] + last;
    forall i | 0 <= i < |t| && t[i].Victory? ensures t[i].flag == flag {
      if i > |out| {
        assert t[i] == last[i - |out| - 1];
      }
    }
  }

  /** The trace a step may leave: nothing final while the session goes on;
      when it closes, a final message only at the end and a victory only
      with `flag`. */
  ghost predicate StepTraceOk(flag: string, r: (Phase, Wire)) {
    (r.0 != Closed ==> NoFinal(r.1.outbox)) && (r.0 == Closed ==> ClosedTrace(flag, r.1.outbox))
  }

  lemma MenuStepTrace(flag: string, w: Wire)
    requires NoFinal(w.outbox)
    ensures StepTraceOk(flag, MenuStep(w))
  {
    if !w.SendSucceeds(0) {
      FailedPromptStep(flag, Menu, w);
    } else if ReadFails(w) {
      FailedReadStep(flag, Menu, w);
      ClosedAfter(flag, w.outbox, Welcome, []);
    } else {
      var line := w.inbox[0].value;
      var k := Normalize(line);
      if k == "a" {
        ForestStep(w);
        ClosedAfter(flag, w.outbox, Welcome, Shown(w, 1, Forest));
      } else if k == "b" {
        OracleFromMenu(w);
      } else if k == "c" {
        GuardianReturnsToMenu(w);
      } else {
        InvalidChoiceAtMenu(w, line);
        ClosedAfter(flag, w.outbox, Welcome, Shown(w, 1, Invalid));
      }
    }
  }

  lemma OracleStepTrace(flag: string, w: Wire)
    requires NoFinal(w.outbox)
    ensures StepTraceOk(flag, OracleStep(flag, w))
  {
    if !w.SendSucceeds(0) {
      FailedPromptStep(flag, Oracle, w);
    } else if ReadFails(w) {
      FailedReadStep(flag, Oracle, w);
      ClosedAfter(flag, w.outbox, Riddle, []);
    } else {
      var line := w.inbox[0].value;
      var k := Normalize(line);
      if k == "a" {
        TruthStep(flag, w);
        ClosedAfter(flag, w.outbox, Riddle, Shown(w, 1, Victory(flag)));
      } else if k == "b" || k == "c" {
        WrongCrystalKeepsOracle(flag, w);
      } else {
        InvalidChoiceAtOracle(flag, w, line);
      }
    }
  }

  // ---------------------------------------------------------------------
  // Whole sessions

  /** A peer that has shut down makes every read return the empty line;
      while sends keep working, the session stays at the menu, answering
      each empty line with the invalid-choice text and the menu again. */
  lemma {:induction false} PeerShutdownLoopsAtMenu(flag: string, n: nat, out: seq<Msg>)
    ensures Run(flag, Menu, Wire(Repeat([Some("")], n), [], out))
         == Wire([], [], out + Repeat([Welcome, Invalid], n) + [Welcome])
  {
    var w := Wire(Repeat([Some("")], n), [], out);
    if n == 0 {
      assert w.inbox == [];
      FailedReadCloses(flag, Menu, w);
      assert out + Repeat([Welcome, Invalid], n) == out;
    } else {
      var w1 := Wire(Repeat([Some("")], n - 1), [], out + [Welcome, Invalid]);
      EmptyLineStep(flag, n, out);
      RunFromStep(flag, Menu, w, Menu, w1);
      PeerShutdownLoopsAtMenu(flag, n - 1, out + [Welcome, Invalid]);
      AppendRepeat(out, [Welcome, Invalid], n);
    }
  }

  /** One empty line at the menu, as a single step. */
  lemma EmptyLineStep(flag: string, n: nat, out: seq<Msg>)
    requires n > 0
    ensures Step(flag, Menu, Wire(Repeat([Some("")], n), [], out))
         == (Menu, Wire(Repeat([Some("")], n - 1), [], out + [Welcome, Invalid]))
  {
    var w := Wire(Repeat([Some("")], n), [], out);
    EmptyLine();
    assert w.inbox == [Some("")] + Repeat([Some("")], n - 1);
    InvalidChoiceAtMenu(w, "");
    assert Shown(w, 1, Invalid) == [Invalid];
    assert out + [Welcome] + [Invalid] == out + [Welcome, Invalid];
  }

  /** Wrong answers come in pairs: a line choosing crystal B or C, then the
      line swallowed by "Press Enter". */
  ghost predicate WrongAnswers(answers: seq<Option<string>>) {
    answers == [] ||
    (|answers| >= 2 && answers[0].Some? &&
     (Normalize(answers[0].value) == "b" || Normalize(answers[0].value) == "c") &&
     WrongAnswers(answers[2..]))
  }

  /** Any number of wrong crystals leaves the session at the oracle: the
      server has sent the riddle and the crumbling text once per wrong
      answer, and nothing else. */
  lemma {:induction false} WrongAnswersNeverClose(flag: string, answers: seq<Option<string>>, rest: seq<Option<string>>, out: seq<Msg>)
    requires WrongAnswers(answers)
    ensures Run(flag, Oracle, Wire(answers + rest, [], out))
         == Run(flag, Oracle, Wire(rest, [], out + Repeat([Riddle, Wrong], |answers| / 2)))
    decreases |answers|
  {
    if answers == [] {
      assert answers + rest == rest;
      assert out + Repeat([Riddle, Wrong], 0) == out;
    } else {
      WrongPairRun(flag, answers, rest, out);
      WrongAnswersNeverClose(flag, answers[2..], rest, out + [Riddle, Wrong]);
      assert |answers[2..]| / 2 == |answers| / 2 - 1;
      AppendRepeat(out, [Riddle, Wrong], |answers| / 2);
    }
  }

  /** The first wrong answer of a run, and its swallowed line, taken off
      the front of the session. */
  lemma WrongPairRun(flag: string, answers: seq<Option<string>>, rest: seq<Option<string>>, out: seq<Msg>)
    requires WrongAnswers(answers) && answers != []
    ensures Run(flag, Oracle, Wire(answers + rest, [], out))
         == Run(flag, Oracle, Wire(answers[2..] + rest, [], out + [Riddle, Wrong]))
  {
    var w := Wire(answers + rest, [], out);
    WrongPairHead(answers, rest, out);
    WrongPairStep(flag, w);
    RunFromStep(flag, Oracle, w, Oracle, Wire(answers[2..] + rest, [], out + [Riddle, Wrong]));
  }

  /** A script that starts with a wrong answer reads it first, and loses
      it and its swallowed line after two reads. */
  lemma WrongPairHead(answers: seq<Option<string>>, rest: seq<Option<string>>, out: seq<Msg>)
    requires WrongAnswers(answers) && answers != []
    ensures ReadsAs(Wire(answers + rest, [], out), "b") || ReadsAs(Wire(answers + rest, [], out), "c")
    ensures Drop(answers + rest, 2) == answers[2..] + rest
  {
    assert (answers + rest)[0] == answers[0];
  }

  /** One wrong answer and its swallowed line, as a single oracle step. */
  lemma WrongPairStep(flag: string, w: Wire)
    requires w.sendResults == [] && (ReadsAs(w, "b") || ReadsAs(w, "c"))
    ensures Step(flag, Oracle, w) == (Oracle, Wire(Drop(w.inbox, 2), [], w.outbox + [Riddle, Wrong]))
  {
    WrongCrystalKeepsOracle(flag, w);
    assert Shown(w, 1, Wrong) == [Wrong];
    assert w.outbox + [Riddle] + [Wrong] == w.outbox + [Riddle, Wrong];
  }

  /** What the wrong answers add to the trace holds no final message. */
  lemma RepeatedWrongNotFinal(n: nat)
    ensures forall m :: m in Repeat([Riddle, Wrong], n) ==> !m.Final()
  {
    forall m | m in Repeat([Riddle, Wrong], n) ensures !m.Final() {
      RepeatMembers([Riddle, Wrong], n, m);
    }
  }

  lemma AppendRepeat<T>(out: seq<T>, s: seq<T>, n: nat)
    requires n > 0
    ensures out + s + Repeat(s, n - 1) == out + Repeat(s, n)
  {
    assert Repeat(s, n) == s + Repeat(s, n - 1);
  }

  /** Everything a repetition holds comes from the repeated block. */
  lemma {:induction false} RepeatMembers<T>(s: seq<T>, n: nat, x: T)
    requires x in Repeat(s, n)
    ensures x in s
  {
    if n > 0 && x !in s {
      assert x in Repeat(s, n - 1);
      RepeatMembers(s, n - 1, x);
    }
  }

  /** Once the forest or the victory text has been sent, the
      server sends nothing more; every victory carries the server's flag. */
  lemma {:induction false} FinalMessageIsLast(flag: string, p: Phase, w: Wire)
    requires NoFinal(w.outbox)
    ensures ClosedTrace(flag, Run(flag, p, w).outbox)
    decreases |w.inbox|, if p == Closed then 0 else 1
  {
    if p != Closed {
      var (p1, w1) := Step(flag, p, w);
      if p == Menu {
        MenuStepTrace(flag, w);
      } else {
        OracleStepTrace(flag, w);
      }
      assert StepTraceOk(flag, (p1, w1));
      assert Run(flag, p, w) == Run(flag, p1, w1);
      if p1 != Closed {
        FinalMessageIsLast(flag, p1, w1);
      }
    }
  }

  /** The flag is disclosed by a victory message at most once per session. */
  lemma VictoryAtMostOnce(flag: string, w: Wire)
    requires NoFinal(w.outbox)
    ensures var out := Run(flag, Menu, w).outbox;
      forall i, j :: 0 <= i < |out| && 0 <= j < |out| && out[i].Victory? && out[j].Victory? ==> i == j
  {
    FinalMessageIsLast(flag, Menu, w);
    var out := Run(flag, Menu, w).outbox;
    forall i, j | 0 <= i < |out| && 0 <= j < |out| && out[i].Victory? && out[j].Victory?
      ensures i == j
    {
      assert out[i].Final() && out[j].Final();
    }
  }

  // ---------------------------------------------------------------------
  // The flag in the riddle

  /** The riddle prints the flag as the label of crystal A, so a session
      that reaches the oracle has shown the flag before any answer is read. */
  lemma RiddleDisclosesFlag(w: Wire)
    requires w.SendSucceeds(0) && w.SendSucceeds(1) && ReadsAs(w, "b")
    ensures var out := Run(Flag, Menu, w).outbox;
      |out| > |w.outbox| + 1 && out[|w.outbox|] == Welcome && out[|w.outbox| + 1] == Riddle
    ensures Riddle.Discloses(Flag) && !Welcome.Discloses(Flag)
  {
    OracleFromMenu(w);
    var w1 := Wire(w.inbox[1..], Drop(w.sendResults, 1), w.outbox + [Welcome]);
    assert w1.SendSucceeds(0);
    PromptShownFirst(Flag, Oracle, w1);
    assert Run(Flag, Menu, w) == Run(Flag, Oracle, w1);
    assert Riddle.Tokens()[0] == Flag;
  }

  // ---------------------------------------------------------------------
  // Concrete sessions

  lemma EmptyLine()
    ensures Normalize("") == ""
  {
    assert Strip("") == "";
  }

  lemma LetterA()
    ensures Normalize("a") == "a"
  {
    PaddedChoice([], 'a', []);
    assert [] + ['a'] + [] == "a";
  }

  lemma LetterB()
    ensures Normalize("b") == "b"
  {
    PaddedChoice([], 'b', []);
    assert [] + ['b'] + [] == "b";
  }

  /** "b" then "a": the riddle, then the victory with the flag, then the
      connection is closed. */
  lemma ScenarioOracleThenTruth(flag: string, w: Wire)
    requires w.sendResults == [] && |w.inbox| == 2
    requires ReadsAs(w, "b") && w.inbox[1].Some? && Normalize(w.inbox[1].value) == "a"
    ensures Run(flag, Menu, w) == Wire([], [], w.outbox + [Welcome, Riddle, Victory(flag)])
  {
    var w1 := Wire(w.inbox[1..], [], w.outbox + [Welcome]);
    assert Run(flag, Menu, w) == Run(flag, Oracle, w1) by {
      OracleFromMenu(w);
      RunFromStep(flag, Menu, w, Oracle, w1);
    }
    assert Run(flag, Oracle, w1) == Wire([], [], w.outbox + [Welcome, Riddle, Victory(flag)]) by {
      TruthCrystalWins(flag, w1);
      assert Shown(w1, 1, Victory(flag)) == [Victory(flag)];
      assert w1.outbox + [Riddle] + [Victory(flag)] == w.outbox + [Welcome, Riddle, Victory(flag)];
    }
  }

  /** "b", "b", then any line: the line after the wrong crystal is
      swallowed by "Press Enter", so even an "a" there is never taken as an
      answer, and the session ends on the failed read after the second
      riddle, without victory. */
  lemma ScenarioAnswerSwallowed(flag: string, w: Wire)
    requires w.sendResults == [] && |w.inbox| == 3
    requires ReadsAs(w, "b") && w.inbox[1].Some? && Normalize(w.inbox[1].value) == "b"
    ensures Run(flag, Menu, w) == Wire([], [], w.outbox + [Welcome, Riddle, Wrong, Riddle])
  {
    var w1 := Wire(w.inbox[1..], [], w.outbox + [Welcome]);
    var w2 := Wire([], [], w.outbox + [Welcome, Riddle, Wrong]);
    MenuThenWrong(flag, w, w1, w2);
    RunFromStep(flag, Menu, w, Oracle, w1);
    RunFromStep(flag, Oracle, w1, Oracle, w2);
    FailedReadCloses(flag, Oracle, w2);
    assert w2.outbox + [Riddle] == w.outbox + [Welcome, Riddle, Wrong, Riddle];
  }

  /** "b", "b", "" (Enter), "a": the answer after the swallowed line wins. */
  lemma ScenarioWrongThenTruth(flag: string, w: Wire)
    requires w.sendResults == [] && |w.inbox| == 4
    requires ReadsAs(w, "b") && w.inbox[1].Some? && Normalize(w.inbox[1].value) == "b"
    requires w.inbox[3].Some? && Normalize(w.inbox[3].value) == "a"
    ensures Run(flag, Menu, w) == Wire([], [], w.outbox + [Welcome, Riddle, Wrong, Riddle, Victory(flag)])
  {
    var w1 := Wire(w.inbox[1..], [], w.outbox + [Welcome]);
    var w2 := Wire(w.inbox[3..], [], w.outbox + [Welcome, Riddle, Wrong]);
    assert Run(flag, Menu, w) == Run(flag, Oracle, w2) by {
      MenuThenWrong(flag, w, w1, w2);
      RunFromStep(flag, Menu, w, Oracle, w1);
      RunFromStep(flag, Oracle, w1, Oracle, w2);
    }
    assert w2.inbox[1..] == [] && w2.SendSucceeds(1);
    TruthCrystalWins(flag, w2);
    assert w2.outbox + [Riddle] + Shown(w2, 1, Victory(flag))
        == w.outbox + [Welcome, Riddle, Wrong, Riddle, Victory(flag)];
  }

  /** The first two steps shared by both sessions above: "b" at the menu,
      then "b" at the oracle with the next line swallowed. */
  lemma MenuThenWrong(flag: string, w: Wire, w1: Wire, w2: Wire)
    requires |w.inbox| >= 3 && w.sendResults == []
    requires ReadsAs(w, "b") && w.inbox[1].Some? && Normalize(w.inbox[1].value) == "b"
    requires w1 == Wire(w.inbox[1..], [], w.outbox + [Welcome])
    requires w2 == Wire(w.inbox[3..], [], w.outbox + [Welcome, Riddle, Wrong])
    ensures Step(flag, Menu, w) == (Oracle, w1)
    ensures Step(flag, Oracle, w1) == (Oracle, w2)
  {
    OracleFromMenu(w);
    WrongCrystalKeepsOracle(flag, w1);
    assert Shown(w1, 1, Wrong) == [Wrong];
    assert w.outbox + [Welcome] + [Riddle] + [Wrong] == w2.outbox;
    assert Drop(w1.inbox, 2) == w.inbox[3..];
  }

  /** The script "b", "b", "a" on a fresh connection: no victory. */
  lemma LiteralScriptBBA()
    ensures Run(Flag, Menu, Wire([Some("b"), Some("b"), Some("a")], [], []))
         == Wire([], [], [Welcome, Riddle, Wrong, Riddle])
  {
    LetterB();
    ScenarioAnswerSwallowed(Flag, Wire([Some("b"), Some("b"), Some("a")], [], []));
  }

  /** The script "b", "b", "" (Enter), "a" on a fresh connection wins. */
  lemma LiteralScriptBBEnterA()
    ensures Run(Flag, Menu, Wire([Some("b"), Some("b"), Some(""), Some("a")], [], []))
         == Wire([], [], [Welcome, Riddle, Wrong, Riddle, Victory(Flag)])
  {
    LetterA();
    LetterB();
    ScenarioWrongThenTruth(Flag, Wire([Some("b"), Some("b"), Some(""), Some("a")], [], []));
  }

  /** The script "b", "a" on a fresh connection wins at once. */
  lemma LiteralScriptBA()
    ensures Run(Flag, Menu, Wire([Some("b"), Some("a")], [], []))
         == Wire([], [], [Welcome, Riddle, Victory(Flag)])
  {
    LetterA();
    LetterB();
    ScenarioOracleThenTruth(Flag, Wire([Some("b"), Some("a")], [], []));
  }

  /** A padded upper-case "B" takes the same path as "b". */
  lemma PaddedInputSelectsOracle(w: Wire)
    requires w.SendSucceeds(0) && w.inbox != [] && w.inbox[0] == Some("  B \r\n")
    ensures MenuStep(w) == (Oracle, Wire(w.inbox[1..], Drop(w.sendResults, 1), w.outbox + [Welcome]))
  {
    PaddedUpperB();
    OracleFromMenu(w);
  }
}
