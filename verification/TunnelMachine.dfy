/**
 The tunnel server as the class that updates its table in place, together with the assignment
 file it reads.  Handling an event is one step of `TunnelRuns`, so what is proved about runs of
 events is proved about this code.
 */
module TunnelMachine {
  import opened Options
  import opened RoutingTable
  import opened TunnelRuns

  class Machine {
    const server: TunnelServer
    var file: seq<Assignment>

    ghost predicate Valid()
      reads this
    {
      server.Valid()
    }

    ghost function Value(): Server
      requires Valid()
      reads this, server.prefixes
    {
      Server(server.prefixes[..], file)
    }

    constructor (config: Config)
      ensures Valid() && server.config == config && Value() == Started()
    {
      server := new TunnelServer(config);
      file := [];
      new;
      assert server.prefixes[..] == Started().table;
    }

    method Handle(e: Event) returns (sentTo: Option<nat>)
      requires Valid()
      modifies this`file, server.prefixes
      ensures Valid()
      ensures Value() == Step(server.config, old(Value()), e)
      ensures sentTo == SentTo(server.config, old(Value()), e)
    {
      sentTo := None;
      match e
      case FromClient(fd, buf) =>
        var toTun := server.OnClientData(fd, buf, |buf|);
      case FromTun(buf) =>
        sentTo := server.OnTunPacket(buf, file);
      case Closed(slot) =>
        server.OnClosed(slot);
      case Assigned(lines) =>
        file := file + lines;
    }
  }
}
