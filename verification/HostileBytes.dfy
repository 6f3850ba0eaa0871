/** The two loops on arbitrary byte streams: a network that cuts, joins, loses or invents
    bytes, and not only whole frames. */
module HostileBytes {
  import opened Words
  import opened Primitives
  import opened Codec
  import opened Cipher
  import opened Replay
  import opened Session
  import opened Hostile

  /** Of the frames the bytes decode to, only ciphertexts that the other peer's `encrypt`
      returned open under its key. */
  ghost predicate UnforgedBytes(lib: Library, key: Bytes, input: Bytes, sent: seq<WireFrame>) {
    OnlySentOpen(lib, key, ReadAll(input).0, sent)
  }

  ghost predicate OnlySentOpen(lib: Library, key: Bytes, fs: seq<WireFrame>, sent: seq<WireFrame>) {
    forall i | 0 <= i < |fs| :: IsMessage(fs[i]) ==> Authentic(lib, key, sent, fs[i])
  }

  lemma OpensRest(lib: Library, key: Bytes, fs: seq<WireFrame>, sent: seq<WireFrame>)
    requires OnlySentOpen(lib, key, fs, sent) && fs != []
    ensures IsMessage(fs[0]) ==> Authentic(lib, key, sent, fs[0])
    ensures OnlySentOpen(lib, key, fs[1..], sent)
  {
    hide Authentic;
    forall i | 0 <= i < |fs| - 1
      ensures IsMessage(fs[1..][i]) ==> Authentic(lib, key, sent, fs[1..][i])
    {
      assert fs[1..][i] == fs[i + 1];
    }
  }

  /** Whatever comes back, what the client sends is its requests sealed in order. */
  lemma {:induction false} ClientAlwaysSeals(lib: Library, ck: Bytes, c: ClientState, script: seq<Line>,
                                             replies: seq<WireFrame>)
    requires ClientSends(lib, ck, c)
    ensures ClientSends(lib, ck, ClientFrames(lib, c, script, replies))
    decreases script
  {
    hide ClientSend, SealedRun, Label, BuildNonce;
    if script != [] && c.status.Idle? {
      match script[0]
      case Local => ClientAlwaysSeals(lib, ck, c, script[1..], replies);
      case Quit =>
      case Say(m) =>
        AskKeeps(lib, ck, c, m);
        var (c1, sent) := ClientSend(lib, c, m);
        if sent.Some? && replies != [] {
          SendWaits(lib, c, m);
          ClientAlwaysSeals(lib, ck, ClientReceive(lib, c1, replies[0]), script[1..], replies[1..]);
        }
    }
  }

  lemma SendWaits(lib: Library, c: ClientState, m: Message)
    ensures ClientSend(lib, c, m).1.Some? ==> ClientSend(lib, c, m).0.status == Awaiting(m.kind)
    ensures ClientSend(lib, c, m).1.None? ==> ClientSend(lib, c, m).0 == c.(status := Broken)
  {
  }

  /** The server's loop, when only frames of the client's run open. */
  lemma {:induction false} ServerTakes(lib: Library, ck: Bytes, sk: Bytes, requests: seq<Message>, sent: seq<WireFrame>,
                                       s: ServerState, fs: seq<WireFrame>)
    requires lib.AeadLaws() && SealedRun(lib, ck, requests, sent)
    requires ServerInv(lib, ck, sk, s) && s.delivered <= requests && OnlySentOpen(lib, ck, fs, sent)
    ensures var t := ServerFrames(lib, s, fs); ServerInv(lib, ck, sk, t) && t.delivered <= requests
    decreases fs
  {
    hide ServerInv, SealedRun, ServerStep, Authentic, OnlySentOpen;
    if s.status.Running? && fs != [] {
      OpensRest(lib, ck, fs, sent);
      TakeKeeps(lib, ck, sk, requests, sent, s, fs[0]);
      ServerTakes(lib, ck, sk, requests, sent, ServerStep(lib, s, fs[0]), fs[1..]);
    }
  }

  /** The client's loop, when only frames of the server's run open. */
  lemma {:induction false} ClientHears(lib: Library, ck: Bytes, sk: Bytes, answered: seq<Message>, sent: seq<WireFrame>,
                                       c: ClientState, script: seq<Line>, fs: seq<WireFrame>)
    requires lib.AeadLaws() && SealedRun(lib, sk, answered, sent)
    requires ClientInv(lib, ck, sk, c) && c.shown <= answered && OnlySentOpen(lib, sk, fs, sent)
    ensures var t := ClientFrames(lib, c, script, fs); ClientInv(lib, ck, sk, t) && t.shown <= answered
    decreases script
  {
    hide ClientInv, SealedRun, ClientSend, ClientReceive, Authentic, OnlySentOpen, ClientQuit;
    if script != [] && c.status.Idle? {
      match script[0]
      case Local => ClientHears(lib, ck, sk, answered, sent, c, script[1..], fs);
      case Quit => LeaveKeeps(lib, ck, sk, c); QuitShows(c);
      case Say(m) =>
        SayKeeps(lib, ck, sk, c, m);
        SendWaits(lib, c, m);
        var c1 := ClientSend(lib, c, m).0;
        if c1.status.Awaiting? {
          if fs == [] {
            BreakKeeps(lib, ck, sk, c1);
          } else {
            OpensRest(lib, sk, fs, sent);
            HearKeeps(lib, ck, sk, answered, sent, c1, fs[0]);
            ClientHears(lib, ck, sk, answered, sent, ClientReceive(lib, c1, fs[0]), script[1..], fs[1..]);
          }
        }
    }
  }

  lemma QuitShows(c: ClientState)
    ensures ClientQuit(c).shown == c.shown
  {
  }

  lemma BreakKeeps(lib: Library, ck: Bytes, sk: Bytes, c: ClientState)
    requires ClientInv(lib, ck, sk, c)
    ensures ClientInv(lib, ck, sk, c.(status := Broken))
  {
    hide SealedRun;
  }

  /** The client's loop on any lines and any bytes, the server's loop on any bytes. If of all
      the frames in those bytes only ciphertexts the other peer sealed open under its key, then the
      server has delivered a prefix of the requests, the client has shown the right replies
      to its first requests, and no receiving counter has passed the sending one. */
  lemma {:induction false} HostileByteDelivery(lib: Library, ck: Bytes, sk: Bytes, script: seq<Line>, up: Bytes,
                                               down: Bytes)
    requires lib.AeadLaws()
    requires UnforgedBytes(lib, ck, up, ClientLoop(lib, NewClient(ck, sk), script, down).0.sent)
    requires UnforgedBytes(lib, sk, down, ServerLoop(lib, NewServer(ck, sk), up).sent)
    ensures var c := ClientLoop(lib, NewClient(ck, sk), script, down).0;
            var s := ServerLoop(lib, NewServer(ck, sk), up);
            && s.delivered <= c.requests
            && c.shown <= Replies(lib, c.requests)
            && |c.shown| <= |s.delivered|
            && |s.delivered| == s.rx.nonce <= c.tx.nonce == |c.requests|
            && |c.shown| == c.rx.nonce <= s.tx.nonce == |s.sent|
  {
    hide Authentic, OnlySentOpen, ClientLoop, ServerLoop, ClientFrames, ServerFrames, ReadAll, SealedRun;
    var c0, s0 := NewClient(ck, sk), NewServer(ck, sk);
    FreshPeers(lib, ck, sk);
    ClientLoopIsFold(lib, c0, script, down);
    LoopIsFold(lib, s0, up);
    var c := ClientLoop(lib, c0, script, down).0;
    var s := ServerFrames(lib, s0, ReadAll(up).0);
    ClientAlwaysSeals(lib, ck, c0, script, ReadAll(down).0);
    ServerTakes(lib, ck, sk, c.requests, c.sent, s0, ReadAll(up).0);
    var answered := Replies(lib, s.delivered[..|s.sent|]);
    ClientHears(lib, ck, sk, answered, s.sent, c0, script, ReadAll(down).0);
    assert answered <= Replies(lib, c.requests);
    RunLength(lib, ck, c.requests, c.sent);
  }

  lemma FreshPeers(lib: Library, ck: Bytes, sk: Bytes)
    ensures ClientInv(lib, ck, sk, NewClient(ck, sk)) && ServerInv(lib, ck, sk, NewServer(ck, sk))
  {
    hide Empty;
    assert Replies(lib, NewServer(ck, sk).delivered[..0]) == [];
  }
}
