/** The server object that talks to one connection.  Its methods follow the
    source's control flow statement by statement; each is proved to leave
    the connection exactly as the pure dialogue in module Dialogue says. */
module DreamQuest {
  import opened Wire
  import opened Normalization
  import opened Dialogue

  class DreamQuestCTF {
    const flag: string

    constructor ()
      ensures flag == Flag
    {
      flag := Flag;
    }

    /** A send whose failure is reported as False rather than raised. */
    method SendMessage(sock: Socket, m: Msg) returns (ok: bool)
      modifies sock
      ensures (ok, sock.State()) == old(sock.State()).Send(m)
      ensures sock.open == old(sock.open)
    {
      ok := sock.Send(m);
    }

    /** A read, stripped and lower-cased; None when the read failed. */
    method ReceiveInput(sock: Socket) returns (choice: Option<string>)
      modifies sock
      ensures (choice, sock.State()) == Dialogue.ReceiveInput(old(sock.State()))
      ensures sock.open == old(sock.open)
    {
      var data := sock.Recv();
      if data.None? {
        choice := None;
      } else {
        choice := Some(Normalize(data.value));
      }
    }

    method ShowWelcome(sock: Socket) returns (ok: bool)
      modifies sock
      ensures (ok, sock.State()) == old(sock.State()).Send(Welcome)
      ensures sock.open == old(sock.open)
    {
      ok := SendMessage(sock, Welcome);
    }

    /** The forest is a dead end: it always reports that the session stops. */
    method HandleForestPath(sock: Socket) returns (cont: bool)
      modifies sock
      ensures !cont
      ensures (cont, sock.State()) == ForestPath(old(sock.State()))
      ensures sock.open == old(sock.open)
    {
      var _ := SendMessage(sock, Forest);
      cont := false;
    }

    /** The guardian always sends the player back to the menu. */
    method HandleChallengeGuardian(sock: Socket) returns (cont: bool)
      modifies sock
      ensures cont
      ensures (cont, sock.State()) == ChallengeGuardian(old(sock.State()))
      ensures sock.open == old(sock.open)
    {
      var _ := SendMessage(sock, Guardian);
      var _ := ReceiveInput(sock);
      cont := true;
    }

    /** The riddle loop: it only ever returns False, after having run the
        oracle until the session closes. */
    method HandleOracleWisdom(sock: Socket) returns (cont: bool)
      modifies sock
      ensures !cont
      ensures sock.State() == Run(flag, Oracle, old(sock.State()))
      ensures sock.open == old(sock.open)
    {
      while true
        invariant Run(flag, Oracle, sock.State()) == Run(flag, Oracle, old(sock.State()))
        invariant sock.open == old(sock.open)
        decreases |sock.inbox|
      {
        ghost var w := sock.State();
        var shown := SendMessage(sock, Riddle);
        if !shown {
          return false;
        }
        var choice := ReceiveInput(sock);
        if choice.None? {
          return false;
        }
        if choice.value == "a" {
          var _ := SendMessage(sock, Victory(flag));
          return false;
        } else if choice.value == "b" || choice.value == "c" {
          var _ := SendMessage(sock, Wrong);
          var _ := ReceiveInput(sock);
        } else {
          var _ := SendMessage(sock, Invalid);
        }
        assert OracleStep(flag, w) == (Oracle, sock.State());
      }
    }

    /** The session: the menu loop, then the connection is closed on every
        way out. */
    method HandleClient(sock: Socket)
      modifies sock
      ensures !sock.open
      ensures sock.State() == Run(flag, Menu, old(sock.State()))
    {
      while true
        invariant Run(flag, Menu, sock.State()) == Run(flag, Menu, old(sock.State()))
        decreases |sock.inbox|
      {
        ghost var w := sock.State();
        var shown := ShowWelcome(sock);
        if !shown {
          break;
        }
        var choice := ReceiveInput(sock);
        if choice.None? {
          break;
        }
        if choice.value == "a" {
          var cont := HandleForestPath(sock);
          if !cont {
            break;
          }
        } else if choice.value == "b" {
          var cont := HandleOracleWisdom(sock);
          if !cont {
            break;
          }
        } else if choice.value == "c" {
          var cont := HandleChallengeGuardian(sock);
          if !cont {
            break;
          }
        } else {
          var sent := SendMessage(sock, Invalid);
          if !sent {
            break;
          }
        }
        assert MenuStep(w) == (Menu, sock.State());
      }
      sock.Close();
    }
  }
}
