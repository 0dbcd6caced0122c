/** The per-connection dialogue as a pure state machine over a scripted
    connection.  A session is at the main menu or at the oracle's riddle
    until it is closed; one step is one pass through the body of the
    corresponding `while True` loop. */
module Dialogue {
  import opened Wire
  import opened Normalization

  datatype Phase = Menu | Oracle | Closed

  /** One read as the server sees it: a failed read is None; anything else,
      the empty line of a peer that has shut down included, is normalised. */
  function ReceiveInput(w: Wire): (r: (Option<string>, Wire))
    ensures r.1 == w.(inbox := Drop(w.inbox, 1))
    ensures r.0.None? <==> (w.inbox == [] || w.inbox[0].None?)
    ensures w.inbox != [] && w.inbox[0].Some? ==> r.0 == Some(Normalize(w.inbox[0].value))
  {
    var data := w.Recv();
    (if data.0.None? then None else Some(Normalize(data.0.value)), data.1)
  }

  /** The forest: its text is sent, whether or not that works, and the
      session does not continue. */
  function ForestPath(w: Wire): (r: (bool, Wire))
    ensures !r.0 && r.1.inbox == w.inbox
    ensures r.1.outbox == w.outbox + (if w.SendSucceeds(0) then [Forest] else [])
  {
    (false, w.Send(Forest).1)
  }

  /** The guardian: its text is sent and one more line is read, both with
      their outcome ignored, and the session continues. */
  function ChallengeGuardian(w: Wire): (r: (bool, Wire))
    ensures r.0 && r.1.inbox == Drop(w.inbox, 1)
    ensures r.1.outbox == w.outbox + (if w.SendSucceeds(0) then [Guardian] else [])
  {
    (true, ReceiveInput(w.Send(Guardian).1).1)
  }

  /** One pass of the main menu loop. */
  function MenuStep(w: Wire): (r: (Phase, Wire))
    ensures |r.1.inbox| <= |w.inbox|
    ensures r.0 == Closed || |r.1.inbox| < |w.inbox|
    ensures w.outbox <= r.1.outbox
  {
    var welcome := w.Send(Welcome);
    if !welcome.0 then (Closed, welcome.1)
    else
      var input := ReceiveInput(welcome.1);
      var choice := input.0;
      if choice.None? then (Closed, input.1)
      else if choice.value == "a" then
        var forest := ForestPath(input.1);
        (if forest.0 then Menu else Closed, forest.1)
      else if choice.value == "b" then (Oracle, input.1)
      else if choice.value == "c" then
        var guardian := ChallengeGuardian(input.1);
        (if guardian.0 then Menu else Closed, guardian.1)
      else
        var error := input.1.Send(Invalid);
        (if error.0 then Menu else Closed, error.1)
  }

  /** One pass of the oracle loop.  Every exit from the oracle ends the
      whole session, because the oracle only ever reports False to the menu. */
  function OracleStep(flag: string, w: Wire): (r: (Phase, Wire))
    ensures |r.1.inbox| <= |w.inbox|
    ensures r.0 == Closed || |r.1.inbox| < |w.inbox|
    ensures w.outbox <= r.1.outbox
  {
    var riddle := w.Send(Riddle);
    if !riddle.0 then (Closed, riddle.1)
    else
      var input := ReceiveInput(riddle.1);
      var choice := input.0;
      if choice.None? then (Closed, input.1)
      else if choice.value == "a" then
        (Closed, input.1.Send(Victory(flag)).1)
      else if choice.value == "b" || choice.value == "c" then
        var wrong := input.1.Send(Wrong);
        (Oracle, ReceiveInput(wrong.1).1)
      else
        (Oracle, input.1.Send(Invalid).1)
  }

  /** One step from a live phase: it either closes the session or consumes
      at least one read, and it never un-reads or un-sends anything. */
  function Step(flag: string, p: Phase, w: Wire): (r: (Phase, Wire))
    ensures |r.1.inbox| <= |w.inbox|
    ensures p != Closed ==> r.0 == Closed || |r.1.inbox| < |w.inbox|
    ensures w.outbox <= r.1.outbox
    ensures p == Closed ==> r == (p, w)
  {
    match p
    case Menu => MenuStep(w)
    case Oracle => OracleStep(flag, w)
    case Closed => (Closed, w)
  }

  /** The whole session from phase `p`: the connection as it is when the
      session closes.  It always closes: every step that does not close
      consumes a read, and an exhausted script fails the next read. */
  function Run(flag: string, p: Phase, w: Wire): (r: Wire)
    ensures |r.inbox| <= |w.inbox|
    ensures w.outbox <= r.outbox
    decreases |w.inbox|, if p == Closed then 0 else 1
  {
    if p == Closed then w
    else
      var next := Step(flag, p, w);
      Run(flag, next.0, next.1)
  }
}
