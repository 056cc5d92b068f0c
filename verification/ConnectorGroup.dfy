/** The connectors of a game server, and how sessions are bound to the least loaded one. */
module ConnectorGroups {
  // ----- least load -----

  /** Collections.min: the first element that none is smaller than. */
  function FirstMin(loads: seq<int>): (m: nat)
    requires loads != []
    ensures m < |loads|
    ensures forall i :: 0 <= i < |loads| ==> loads[m] <= loads[i]
    ensures forall i :: 0 <= i < m ==> loads[m] < loads[i]
  {
    if |loads| == 1 then 0
    else
      var k := FirstMin(loads[..|loads| - 1]);
      if loads[|loads| - 1] < loads[k] then |loads| - 1 else k
  }

  function Bumped(loads: seq<int>, i: nat): seq<int>
    requires i < |loads|
  {
    loads[i := loads[i] + 1]
  }

  // ----- the objects -----

  class ConnectorAttachment {
    const gameServerId: int
    var managedSession: int

    constructor (gameServerId: int, begin: int)
      ensures this.gameServerId == gameServerId && managedSession == begin
    {
      this.gameServerId, managedSession := gameServerId, begin;
    }

    method IncrementSession() returns (n: int)
      modifies this
      ensures n == managedSession == old(managedSession) + 1
    {
      managedSession := managedSession + 1;
      n := managedSession;
    }

    method DecrementSession() returns (n: int)
      modifies this
      ensures n == managedSession == old(managedSession) - 1
    {
      managedSession := managedSession - 1;
      n := managedSession;
    }
  }

  class Connector {
    const dest: int
    const active: bool
    const attachment: ConnectorAttachment

    constructor (dest: int, active: bool, attachment: ConnectorAttachment)
      ensures this.dest == dest && this.active == active && this.attachment == attachment
    {
      this.dest, this.active, this.attachment := dest, active, attachment;
    }
  }

  ghost predicate Separate(connections: seq<Connector>) {
    forall i, j :: 0 <= i < j < |connections| ==> connections[i].attachment != connections[j].attachment
  }

  /** The first occurrence of a connector is taken out. */
  function Removed(connections: seq<Connector>, connection: Connector): seq<Connector> {
    if connections == [] then []
    else if connections[0] == connection then connections[1..]
    else [connections[0]] + Removed(connections[1..], connection)
  }

  lemma {:induction false} RemovedMembers(connections: seq<Connector>, connection: Connector)
    ensures Separate(connections) ==> Separate(Removed(connections, connection))
    ensures forall c :: c in Removed(connections, connection) ==> c in connections
    ensures Separate(connections) ==> connection !in Removed(connections, connection)
    ensures connection !in connections ==> Removed(connections, connection) == connections
  {
    if connections != [] && connections[0] != connection {
      RemovedMembers(connections[1..], connection);
      var rest := Removed(connections[1..], connection);
      if Separate(connections) {
        assert Separate(connections[1..]);
        forall j | 0 <= j < |rest| ensures rest[j].attachment != connections[0].attachment {
          assert rest[j] in connections[1..];
        }
      }
    }
  }

  lemma {:induction false} RemovedExactly(connections: seq<Connector>, c: Connector, i: nat)
    requires i < |connections| && connections[i] == c && c !in connections[..i]
    ensures Removed(connections, c) == connections[..i] + connections[i + 1..]
  {
    if i > 0 {
      assert connections[0] in connections[..i] && connections[1..][..i - 1] == connections[..i][1..];
      RemovedExactly(connections[1..], c, i - 1);
      assert connections[..i] == [connections[0]] + connections[1..][..i - 1];
    }
  }

  lemma RemovedStep(cs: seq<Connector>, connection: Connector, i: nat)
    requires i <= |cs| && Removed(cs, connection) == cs[..i] + Removed(cs[i..], connection)
    ensures i < |cs| && cs[i] != connection ==>
        Removed(cs, connection) == cs[..i + 1] + Removed(cs[i + 1..], connection)
    ensures i < |cs| && cs[i] == connection ==> Removed(cs, connection) == cs[..i] + cs[i + 1..]
    ensures i == |cs| ==> Removed(cs, connection) == cs
  {
    if i < |cs| {
      assert cs[i..][1..] == cs[i + 1..];
      assert cs[..i] + [cs[i]] == cs[..i + 1];
    } else {
      assert cs[..i] + [] == cs;
    }
  }

  /** By how much a binding raises a counter. */
  function Grown(best: Connector?, a: ConnectorAttachment): int {
    if best != null && best.active && best.attachment == a then 1 else 0
  }

  class ConnectorGroup {
    const id: int
    var connections: seq<Connector>

    constructor (id: int)
      ensures this.id == id && connections == []
    {
      this.id, connections := id, [];
    }

    ghost function Attachments(): set<ConnectorAttachment>
      reads this
    {
      set c | c in connections :: c.attachment
    }

    function Loads(): (loads: seq<int>)
      reads this, Attachments()
      ensures |loads| == |connections|
    {
      seq(|connections|, i requires 0 <= i < |connections| reads this, Attachments() =>
        connections[i].attachment.managedSession)
    }

    /** Only connectors with the destination of the first one are taken in. */
    method AddConnection(connection: Connector)
      modifies this
      ensures connections == if old(connections) == [] || connection.dest == old(connections)[0].dest
        then old(connections) + [connection] else old(connections)
    {
      if |connections| > 0 && connection.dest != connections[0].dest {
        return;
      }
      connections := connections + [connection];
    }

    method RemoveConnection(connection: Connector)
      modifies this
      ensures connections == Removed(old(connections), connection)
      ensures Separate(old(connections)) ==> Separate(connections) && connection !in connections
    {
      hide Separate, Removed;
      var cs := connections;
      RemovedMembers(cs, connection);
      var i := 0;
      assert cs[0..] == cs && cs[..0] == [];
      while i < |cs| && cs[i] != connection
        invariant 0 <= i <= |cs| && connections == cs
        invariant Removed(cs, connection) == cs[..i] + Removed(cs[i..], connection)
      {
        RemovedStep(cs, connection, i);
        i := i + 1;
      }
      RemovedStep(cs, connection, i);
      if i < |cs| {
        connections := cs[..i] + cs[i + 1..];
      }
    }

    /** getBinding: the first connector with the least load, whose session counter grows if it is active. */
    method GetBinding() returns (best: Connector?)
      modifies Attachments()
      ensures connections == [] ==> best == null
      ensures connections != [] ==> best == connections[FirstMin(old(Loads()))]
      ensures forall c :: c in connections ==>
        best != null && best in connections && old(best.attachment.managedSession) <= old(c.attachment.managedSession)
      ensures best != null && best.active ==> best.attachment.managedSession == old(best.attachment.managedSession) + 1
      ensures forall a :: a in Attachments() ==> a.managedSession == old(a.managedSession) + Grown(best, a)
    {
      if |connections| == 0 {
        return null;
      }
      var m := FindMin();
      best := connections[m];
      forall c | c in connections ensures best.attachment.managedSession <= c.attachment.managedSession {
        var i :| 0 <= i < |connections| && connections[i] == c;
        assert Loads()[m] <= Loads()[i];
      }
      if best.active {
        var _ := best.attachment.IncrementSession();
      }
    }

    /** Collections.min with the comparator by sessions. */
    method FindMin() returns (m: nat)
      requires connections != []
      ensures m == FirstMin(Loads())
    {
      m := 0;
      assert Loads()[..1] == [Loads()[0]];
      for i := 1 to |connections|
        invariant m < i && m == FirstMin(Loads()[..i])
      {
        assert Loads()[..i + 1][..i] == Loads()[..i];
        if connections[i].attachment.managedSession < connections[m].attachment.managedSession {
          m := i;
        }
      }
      assert Loads()[..|connections|] == Loads();
    }

    /** If no two connectors share a counter, a binding changes one load. */
    twostate lemma OneLoadGrows(best: Connector)
      requires connections == old(connections) != [] && Separate(connections)
      requires best == connections[FirstMin(old(Loads()))]
      requires forall a :: a in Attachments() ==> a.managedSession == old(a.managedSession) + Grown(best, a)
      ensures Loads() == if best.active then Bumped(old(Loads()), FirstMin(old(Loads()))) else old(Loads())
    {
    }
  }

  /** The groups by game server. */
  class Registry {
    var groups: map<int, ConnectorGroup>

    ghost predicate Valid()
      reads this, groups.Values
    {
      forall id :: id in groups ==> groups[id].id == id
    }

    ghost function Members(gameServerId: int): seq<Connector>
      reads this, groups.Values
    {
      if gameServerId in groups then groups[gameServerId].connections else []
    }

    /** addConnector */
    method AddConnector(connector: Connector)
      requires Valid()
      modifies this, groups.Values
      ensures Valid()
      ensures var id, cs := connector.attachment.gameServerId, old(Members(connector.attachment.gameServerId));
        Members(id) == if cs == [] || connector.dest == cs[0].dest then cs + [connector] else cs
      ensures forall id :: id != connector.attachment.gameServerId ==> Members(id) == old(Members(id))
    {
      var id := connector.attachment.gameServerId;
      var group: ConnectorGroup;
      if id in groups {
        group := groups[id];
      } else {
        group := new ConnectorGroup(id);
      }
      group.AddConnection(connector);
      groups := groups[id := group];
    }

    /** removeConnector */
    method RemoveConnector(connector: Connector)
      requires Valid()
      modifies groups.Values
      ensures Valid()
      ensures Members(connector.attachment.gameServerId)
          == Removed(old(Members(connector.attachment.gameServerId)), connector)
      ensures forall id :: id != connector.attachment.gameServerId ==> Members(id) == old(Members(id))
    {
      var id := connector.attachment.gameServerId;
      if id in groups {
        groups[id].RemoveConnection(connector);
      }
    }

    /** distributeConnector */
    method DistributeConnector(gameServerId: int) returns (best: Connector?)
      requires Valid()
      modifies set id, c | id in groups && c in groups[id].connections :: c.attachment
      ensures Members(gameServerId) == [] ==> best == null
      ensures Members(gameServerId) != [] ==> best == Members(gameServerId)[FirstMin(old(groups[gameServerId].Loads()))]
      ensures forall id, c :: id in groups && c in groups[id].connections ==>
        c.attachment.managedSession == old(c.attachment.managedSession) + Grown(best, c.attachment)
    {
      if gameServerId !in groups || |groups[gameServerId].connections| == 0 {
        return null;
      }
      best := groups[gameServerId].GetBinding();
    }
  }
}
