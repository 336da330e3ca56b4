/** The table of live requests per client, with the cap, and the manager object around it. */
module RequestTable {
  import opened Options

  const MAX_REQUESTS_PER_CLIENT: nat := 8

  type Client = string

  /** A request object path names its client and the token the client chose. */
  datatype Path = Path(client: Client, token: string)

  datatype Slot<+H> = Slot(path: Path, handle: H)

  type Table<H> = map<Client, seq<Slot<H>>>

  function Row<H>(table: Table<H>, client: Client): seq<Slot<H>> {
    if client in table then table[client] else []
  }

  /** `retain(|(p, _)| p != path)`. */
  function Without<H>(row: seq<Slot<H>>, path: Path): (r: seq<Slot<H>>)
    ensures |r| <= |row|
    ensures forall i :: 0 <= i < |r| ==> r[i] in row && r[i].path != path
    ensures forall i :: 0 <= i < |row| && row[i].path != path ==> row[i] in r
  {
    if |row| == 0 then []
    else if row[0].path == path then Without(row[1..], path)
    else [row[0]] + Without(row[1..], path)
  }

  function Reserved<H>(table: Table<H>, client: Client, slot: Slot<H>): Option<Table<H>> {
    if |Row(table, client)| >= MAX_REQUESTS_PER_CLIENT then None
    else Some(table[client := Row(table, client) + [slot]])
  }

  function Released<H>(table: Table<H>, client: Client, path: Path): Table<H> {
    if client !in table then table
    else
      var row := Without(table[client], path);
      if |row| == 0 then table - {client} else table[client := row]
  }

  /** Every row holds between one and eight requests. */
  predicate Capped<H>(table: Table<H>) {
    forall client :: client in table ==> 1 <= |table[client]| <= MAX_REQUESTS_PER_CLIENT
  }

  lemma RowsStayCapped<H>(table: Table<H>, client: Client, slot: Slot<H>, path: Path)
    requires Capped(table)
    ensures Reserved(table, client, slot).Some? ==> Capped(Reserved(table, client, slot).value)
    ensures Capped(Released(table, client, path))
    ensures Capped(table - {client})
  {
  }

  /** The number of requests in all rows. */
  ghost function Count<H>(table: Table<H>): nat {
    if table == map[] then 0
    else
      var client :| client in table;
      |table[client]| + Count(table - {client})
  }

  lemma {:induction false} CountWithout<H>(table: Table<H>, client: Client)
    requires client in table
    ensures Count(table) == |table[client]| + Count(table - {client})
    decreases |table|
  {
    var first :| first in table && Count(table) == |table[first]| + Count(table - {first});
    if first != client {
      CountWithout(table - {first}, client);
      CountWithout(table - {client}, first);
      assert table - {first} - {client} == table - {client} - {first};
    }
  }
}

module RequestManagers {
  import opened Options
  import opened RequestTable

  /** Shared between a request object and its work task. */
  class CancelHandle {
    var flag: bool

    constructor ()
      ensures !flag
    {
      flag := false;
    }

    method Cancel()
      modifies this
      ensures flag
    {
      flag := true;
    }
  }

  class RequestManager {
    var clients: Table<CancelHandle>

    constructor ()
      ensures clients == map[]
    {
      clients := map[];
    }

    /** Reserves a slot, or refuses when the client is at its cap. */
    method Register(sender: Client, path: Path, cancel: CancelHandle) returns (ok: bool)
      modifies this
      ensures ok <==> |Row(old(clients), sender)| < 8
      ensures clients == if ok then Reserved(old(clients), sender, Slot(path, cancel)).value else old(clients)
      ensures Capped(old(clients)) ==> Capped(clients)
    {
      var requests := Row(clients, sender);
      if |requests| >= MAX_REQUESTS_PER_CLIENT {
        return false;
      }
      clients := clients[sender := requests + [Slot(path, cancel)]];
      return true;
    }

    method Release(sender: Client, path: Path)
      modifies this
      ensures clients == Released(old(clients), sender, path)
      ensures Capped(old(clients)) ==> Capped(clients)
    {
      if sender in clients {
        var row, requests := clients[sender], [];
        assert row[0..] == row;
        for i := 0 to |row|
          invariant requests + Without(row[i..], path) == Without(row, path)
        {
          assert row[i..][1..] == row[i + 1..];
          if row[i].path != path {
            requests := requests + [row[i]];
          }
        }
        assert requests == Without(row, path);
        clients := if |requests| == 0 then clients - {sender} else clients[sender := requests];
      }
    }

    /** Forgets a vanished client's requests and raises their flags. */
    method CancelClient(sender: Client)
      modifies this, set slot | slot in Row(clients, sender) :: slot.handle
      ensures clients == old(clients) - {sender}
      ensures forall slot :: slot in Row(old(clients), sender) ==> slot.handle.flag
    {
      var requests := Row(clients, sender);
      clients := clients - {sender};
      for i := 0 to |requests|
        invariant clients == old(clients) - {sender}
        invariant forall j :: 0 <= j < i ==> requests[j].handle.flag
      {
        requests[i].handle.Cancel();
      }
    }

    /** Requests in flight across all clients. */
    method ActiveCount() returns (count: nat)
      ensures count == Count(clients)
    {
      count := 0;
      var rest := clients;
      while rest != map[]
        invariant count + Count(rest) == Count(clients)
        decreases |rest|
      {
        var client :| client in rest;
        CountWithout(rest, client);
        count, rest := count + |rest[client]|, rest - {client};
      }
    }
  }
}
