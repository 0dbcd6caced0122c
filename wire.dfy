/** The connection as the dialogue sees it: a script of read results, a
    script of send outcomes, and the messages whose send did not raise.
    Message texts are opaque tags; the only text the model keeps is the
    flag carried by the victory message and the three crystals the riddle
    shows. */
module Wire {

  datatype Option<T> = None | Some(value: T)

  /** The token the server holds for the whole process. */
  const Flag: string := "TI404{fbrySl.latt∆mCH4.##blurr3d}"

  /** The crystal labels printed inside the riddle, in the order A, B, C. */
  const TruthCrystal: string := "TI404{fbrySl.latt∆mCH4.##blurr3d}"
  const DeceptionCrystal: string := "FLAG{this_is_fake_flag_404}"
  const IllusionCrystal: string := "TI{wrong_format_here}"

  /** The payloads the server sends: the welcome screen with its menu, the
      forest dead end, the guardian's redirect, the oracle's riddle, the
      victory text with the flag, the crumbling wrong crystal, and the
      invalid-choice line. */
  datatype Msg = Welcome | Forest | Guardian | Riddle | Victory(flag: string) | Wrong | Invalid
  {
    /** The verbatim strings this message displays that the model tracks. */
    function Tokens(): seq<string> {
      match this
      case Victory(f) => [f]
      case Riddle => [TruthCrystal, DeceptionCrystal, IllusionCrystal]
      case _ => []
    }

    predicate Discloses(token: string) {
      token in Tokens()
    }

    /** A message after which the server never sends again. */
    predicate Final() {
      Victory? || Forest?
    }
  }

  function Drop<T>(s: seq<T>, n: nat): (r: seq<T>)
    ensures |r| == if n <= |s| then |s| - n else 0
  {
    if n <= |s| then s[n..] else []
  }

  function Repeat<T>(s: seq<T>, n: nat): (r: seq<T>) {
    if n == 0 then [] else s + Repeat(s, n - 1)
  }

  /** `inbox` holds the result of each future recv, already decoded; None
      stands for a recv or a decode that raised.  When it runs out, every
      further read fails.  `sendResults` says, in order, whether each future
      send succeeds; when it runs out, sends succeed.  `outbox` holds, in
      order, the messages whose send did not raise: handed to the socket,
      not necessarily received by the peer. */
  datatype Wire = Wire(inbox: seq<Option<string>>, sendResults: seq<bool>, outbox: seq<Msg>)
  {
    /** Whether the send that is `i` sends away will succeed. */
    predicate SendSucceeds(i: nat) {
      i >= |sendResults| || sendResults[i]
    }

    /** One recv: the next scripted result, or a failure once the script is
        exhausted. */
    function Recv(): (r: (Option<string>, Wire))
      ensures r.1 == this.(inbox := Drop(inbox, 1))
      ensures inbox == [] ==> r.0 == None
      ensures inbox != [] ==> r.0 == inbox[0]
    {
      if inbox == [] then (None, this)
      else (inbox[0], this.(inbox := inbox[1..]))
    }

    /** One send: the message is handed over only if the send succeeds. */
    function Send(m: Msg): (r: (bool, Wire))
      ensures r.0 == SendSucceeds(0) && r.1.sendResults == Drop(sendResults, 1)
      ensures r.1.inbox == inbox
      ensures r.1.outbox == if r.0 then outbox + [m] else outbox
    {
      var ok := SendSucceeds(0);
      (ok, Wire(inbox, Drop(sendResults, 1), if ok then outbox + [m] else outbox))
    }
  }

  /** The connection object the server reads from and writes to; `open`
      turns false when the server closes it. */
  class Socket {
    var inbox: seq<Option<string>>
    var sendResults: seq<bool>
    var outbox: seq<Msg>
    var open: bool

    function State(): Wire
      reads this
    {
      Wire(inbox, sendResults, outbox)
    }

    constructor (script: seq<Option<string>>, sends: seq<bool>)
      ensures State() == Wire(script, sends, []) && open
    {
      inbox, sendResults, outbox, open := script, sends, [], true;
    }

    method Recv() returns (data: Option<string>)
      modifies this
      ensures (data, State()) == old(State()).Recv()
      ensures open == old(open)
    {
      var r := State().Recv();
      data := r.0;
      inbox := r.1.inbox;
    }

    method Send(m: Msg) returns (ok: bool)
      modifies this
      ensures (ok, State()) == old(State()).Send(m)
      ensures open == old(open)
    {
      var r := State().Send(m);
      ok := r.0;
      sendResults, outbox := r.1.sendResults, r.1.outbox;
    }

    method Close()
      modifies this
      ensures !open && State() == old(State())
    {
      open := false;
    }
  }
}
