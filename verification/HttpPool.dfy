/** HttpConnectionPool of yuan/http/http_connection.cc: lending connections and taking them back. */
module HttpPools {
  import opened Options
  import opened Words

  class Connection {
    var connected: bool     // isConnected(): the peer can end it at any time
    const createTime: nat
    var request: nat        // how many requests it has served

    constructor (now: nat)
      ensures connected && createTime == now && request == 0
    {
      connected, createTime, request := true, now, 0;
    }
  }

  /** What creating a new connection runs into. */
  datatype Creation = NoAddress | ConnectFailed | Created

  class HttpConnectionPool {
    const maxAliveTime: nat
    const maxRequest: nat
    var conns: seq<Connection>          // m_conns, the idle ones
    var total: int
    ghost var borrowed: set<Connection> // lent out and not released yet

    /**
     * The pool counts what is idle and what is lent; no connection is both or twice idle; idle ones may serve at
     * least one more request, and lent ones the one they were lent for.
     */
    ghost predicate Valid()
      reads this, conns, borrowed
    {
      && total == |conns| + |borrowed|
      && (forall i, j :: 0 <= i < j < |conns| ==> conns[i] != conns[j])
      && (forall c :: c in conns ==> c !in borrowed && c.request < maxRequest)
      && (forall c :: c in borrowed ==> c.request == 0 || c.request < maxRequest)
    }

    constructor (maxAliveTime: nat, maxRequest: nat)
      ensures Valid() && conns == [] && borrowed == {} && total == 0
      ensures this.maxAliveTime == maxAliveTime && this.maxRequest == maxRequest
    {
      this.maxAliveTime, this.maxRequest := maxAliveTime, maxRequest;
      conns, total, borrowed := [], 0, {};
    }

    predicate TooOld(c: Connection, now: nat) {
      (c.createTime + maxAliveTime) % U64 <= now
    }

    /** Its age has reached the limit, unless the sum of creation time and limit leaves 64 bits. */
    lemma TooOldIsAge(c: Connection, now: nat)
      ensures c.createTime + maxAliveTime < U64 ==> (TooOld(c, now) <==> now - c.createTime >= maxAliveTime)
      ensures U64 <= c.createTime + maxAliveTime < 2 * U64 ==>
                (TooOld(c, now) <==> now + U64 - c.createTime >= maxAliveTime)
    {
    }

    predicate Usable(c: Connection, now: nat)
      reads c
    {
      c.connected && !TooOld(c, now)
    }

    /** The first usable connection of the list, and those behind it. */
    ghost predicate TookFirst(before: seq<Connection>, after: seq<Connection>, c: Connection, now: nat)
      reads before
    {
      exists i ::
        && 0 <= i < |before| && before[i] == c && Usable(c, now) && after == before[i + 1..]
        && forall j :: 0 <= j < i ==> !Usable(before[j], now)
    }

    /** The loop of getConnection: unusable connections at the front are dropped until a usable one is found. */
    method TakeIdle(now: nat) returns (conn: Option<Connection>, invalid: nat)
      requires Valid()
      modifies this`conns
      ensures invalid <= |old(conns)| && forall i :: 0 <= i < invalid ==> !Usable(old(conns)[i], now)
      ensures conn.Some? ==> invalid < |old(conns)| && conn.value == old(conns)[invalid] && Usable(conn.value, now)
                             && conns == old(conns)[invalid + 1..]
      ensures conn.None? ==> invalid == |old(conns)| && conns == []
    {
      conn, invalid := None, 0;
      while conns != []
        invariant invalid <= |old(conns)| && conns == old(conns)[invalid..]
        invariant forall i :: 0 <= i < invalid ==> !Usable(old(conns)[i], now)
        decreases |conns|
      {
        var temp := conns[0];
        conns := conns[1..];
        if !temp.connected {
          invalid := invalid + 1;
          continue;
        }
        if TooOld(temp, now) {
          invalid := invalid + 1;
          continue;
        }
        conn := Some(temp);
        break;
      }
    }

    /**
     * getConnection: the first usable idle connection, or a new one. Whatever happens, also when none can be made,
     * the unusable ones in front of it are no longer counted.
     */
    method GetConnection(now: nat, creation: Creation) returns (conn: Option<Connection>)
      requires Valid()
      modifies this
      ensures Valid()
      ensures conn.Some? ==> Usable(conn.value, now) || fresh(conn.value)
      ensures conn.Some? && !fresh(conn.value) ==> conn.value.connected
      ensures conn.Some? && !fresh(conn.value) && conn.value.createTime + maxAliveTime < U64 ==>
                now - conn.value.createTime < maxAliveTime
      ensures conn.Some? ==> borrowed == old(borrowed) + {conn.value} && conn.value !in old(borrowed)
      ensures conn.Some? && fresh(conn.value) ==> conn.value.connected && conn.value.createTime == now && conns == []
      ensures conn.Some? && !fresh(conn.value) ==> TookFirst(old(conns), conns, conn.value, now)
      ensures conn.None? ==> borrowed == old(borrowed) && conns == [] && creation != Created
      ensures (conn.None? || fresh(conn.value)) ==> forall i :: 0 <= i < |old(conns)| ==> !Usable(old(conns)[i], now)
    {
      var invalid;
      conn, invalid := TakeIdle(now);
      total := total - invalid;
      if conn.None? {
        if creation != Created {
          return;
        }
        var c := new Connection(now);
        total := total + 1;
        conn := Some(c);
      }
      borrowed := borrowed + {conn.value};
    }

    /**
     * ReleasePtr: one more request served; the connection goes back to the end of the list if it may be used again,
     * and is deleted and no longer counted if it is closed, too old or has served its number.
     */
    method Release(c: Connection, now: nat) returns (kept: bool)
      requires Valid() && c in borrowed
      modifies this, c`request
      ensures Valid() && borrowed == old(borrowed) - {c} && c.request == old(c.request) + 1
      ensures kept <==> Usable(c, now) && c.request < maxRequest
      ensures conns == old(conns) + if kept then [c] else []
      ensures c.request <= if maxRequest > 1 then maxRequest else 1
    {
      c.request := c.request + 1;
      borrowed := borrowed - {c};
      if !c.connected || TooOld(c, now) || c.request >= maxRequest {
        total := total - 1;
        return false;
      }
      conns := conns + [c];
      kept := true;
    }
  }
}
