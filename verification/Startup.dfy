/** Where the handshake ends and the sharing session begins. */
module Startup {
  import opened Protocol
  import opened Codec
  import Handshake
  import Session

  /** The program runs one version of the protocol on either side; a server that has finished
      its half of the handshake with a client of that version is in the initial state of a
      session: its Hello is one the client accepts, and what it has sent is what the session's
      link carries. Whatever its loop forwards from then on is appended to that link. */
  lemma {:induction false} SessionStarts(server: Hello, client: Hello, steps: seq<Handshake.Step>)
    requires Handshake.Run(server, client, steps).server.phase.Ready?
    requires client.protocolVersion == 1
    ensures Session.IsGoodHello(Message.Hello(server))
    ensures Fits(Message.Hello(server)) ==>
              Handshake.Run(server, client, steps).server.sent
              == Session.Init(Message.Hello(server)).link.sent + Handshake.Forwards(server, client, steps)
  {
    hide Fits, FrameOf, Handshake.Run, Handshake.Forwards;
    Handshake.Agreement(server, client, steps);
    Handshake.ServerStream(server, client, steps);
  }

  /** The session's client starts to inject on exactly the first messages that make the
      handshake's client ready, and handles none of them; on any other it is done. */
  lemma ClientStarts(client: Handshake.Side, peer: Handshake.Side, s: Session.State)
    requires client.phase.Await? && client.taken < |peer.sent| && client.hello.protocolVersion == 1
    requires s.client.AwaitHello?
    ensures var judged := Handshake.Act(client, peer, Handshake.Receive);
            var m := peer.sent[client.taken];
            var ready := Handshake.Enabled(judged, peer, Handshake.Answer, false)
                         && Handshake.Act(judged, peer, Handshake.Answer).phase.Ready?;
            && (Session.AfterMessage(s, m).client.Injecting? <==> ready)
            && (Session.AfterMessage(s, m).client.Gone? <==> !ready)
            && Session.AfterMessage(s, m).handled == s.handled
  {
    hide Fits, Handshake.MismatchText;
  }
}
