/**
 The socket side of `PseudoController`: the registry from a client's remote
 address to its message queue (`__queues`), the per-connection output buffer
 (`data.outb`) the selector hands back with each event, and the run flag
 `stop_socket` clears. Each selector event is one step function.
 */
module Server {
  import opened Text

  /** A client's remote `(host, port)`, the registry key. */
  datatype Addr = Addr(host: string, port: int)

  /** What the selector keeps for a registered connection: the bytes still to be sent. */
  datatype Conn = Conn(outb: string)

  /**
   `queues` is `__queues` (each queue oldest message first), `conns` the
   connections registered with the selector, `running` is `__run_socket` and
   `selectorOpen` says whether `__selector` is set.
   */
  datatype Server = Server(
    queues: map<Addr, seq<string>>,
    conns: map<Addr, Conn>,
    running: bool,
    selectorOpen: bool)

  /** The state `__init__` leaves: no clients, not running, no selector. */
  function Idle(): Server {
    Server(map[], map[], false, false)
  }

  /** Every registered connection has a queue, and every queue belongs to a registered connection. */
  predicate Consistent(s: Server) {
    s.queues.Keys == s.conns.Keys
  }

  /** Everything still owed to client `a`, in the order it will go out: the buffer, then the queue. */
  function Pending(s: Server, a: Addr): string
    requires a in s.conns && a in s.queues
  {
    s.conns[a].outb + Flatten(s.queues[a])
  }

  /** `_accept`: the new connection is registered with an empty buffer and given a fresh empty queue. */
  function Accept(s: Server, a: Addr): (r: Server)
    ensures r.queues.Keys == s.queues.Keys + {a} && r.conns.Keys == s.conns.Keys + {a}
    ensures r.queues[a] == [] && r.conns[a].outb == []
    ensures forall b :: b in s.queues && b != a ==> r.queues[b] == s.queues[b]
    ensures forall b :: b in s.conns && b != a ==> r.conns[b] == s.conns[b]
    ensures r.running == s.running && r.selectorOpen == s.selectorOpen
    ensures Consistent(s) ==> Consistent(r)
  {
    s.(conns := s.conns[a := Conn([])], queues := s.queues[a := []])
  }

  /** The queue step of `run_updating`: `msg` is put at the tail of every client's queue. */
  function Broadcast(s: Server, msg: string): (r: Server)
    ensures r.queues.Keys == s.queues.Keys
    ensures forall a :: a in s.queues ==> r.queues[a] == s.queues[a] + [msg]
    ensures r.conns == s.conns && r.running == s.running && r.selectorOpen == s.selectorOpen
  {
    s.(queues := map a | a in s.queues :: s.queues[a] + [msg])
  }

  /** After a broadcast every client is owed exactly what it was owed before, then `msg`. */
  lemma BroadcastPending(s: Server, msg: string, a: Addr)
    requires a in s.conns && a in s.queues
    ensures Pending(Broadcast(s, msg), a) == Pending(s, a) + msg
  {
    FlattenAppend(s.queues[a], msg);
  }

  /**
   The read half of `_serve_connection`: a non-empty read is appended to
   the connection's output buffer (echoed back); an empty read (the peer
   closed) removes the client's queue and unregisters it. Popping a queue
   that is not there raises `KeyError`, which nothing catches.
   */
  function OnReadable(s: Server, a: Addr, data: string): (r: Server)
    requires a in s.conns
    requires |data| == 0 ==> a in s.queues
    ensures |data| > 0 ==> r.queues == s.queues && r.conns.Keys == s.conns.Keys
    ensures |data| > 0 ==> r.conns[a].outb == s.conns[a].outb + data
    ensures |data| == 0 ==> r.queues.Keys == s.queues.Keys - {a} && r.conns.Keys == s.conns.Keys - {a}
    ensures forall b :: b in s.queues && b != a ==> b in r.queues && r.queues[b] == s.queues[b]
    ensures forall b :: b in s.conns && b != a ==> b in r.conns && r.conns[b] == s.conns[b]
    ensures r.running == s.running && r.selectorOpen == s.selectorOpen
    ensures Consistent(s) ==> Consistent(r)
  {
    if |data| > 0 then s.(conns := s.conns[a := Conn(s.conns[a].outb + data)])
    else s.(queues := s.queues - {a}, conns := s.conns - {a})
  }

  /** The bytes a write event may send: the buffer plus the message it dequeues, if any. */
  function WriteBudget(s: Server, a: Addr): nat
    requires a in s.conns && a in s.queues
  {
    |s.conns[a].outb| + (if |s.queues[a]| > 0 then |s.queues[a][0]| else 0)
  }

  /** The state after a write event and the bytes the socket took. */
  datatype Written = Written(server: Server, wire: string)

  /**
   The write half of `_serve_connection`: at most one message is taken off
   the client's queue (`get_nowait`, none when empty) and appended to the
   buffer; the socket then takes `sent` bytes of it, any amount from none
   to all, and the rest stays buffered. Nothing is lost, duplicated or
   reordered, and no other client is touched.
   */
  function OnWritable(s: Server, a: Addr, sent: nat): (w: Written)
    requires a in s.conns && a in s.queues
    requires sent <= WriteBudget(s, a)
    ensures w.server.queues.Keys == s.queues.Keys && w.server.conns.Keys == s.conns.Keys
    ensures |s.queues[a]| == 0 ==> w.server.queues[a] == s.queues[a]
    ensures |s.queues[a]| > 0 ==> w.server.queues[a] == s.queues[a][1..]
    ensures |w.wire| == sent
    ensures w.wire + Pending(w.server, a) == Pending(s, a)
    ensures forall b :: b in s.queues && b != a ==> w.server.queues[b] == s.queues[b]
    ensures forall b :: b in s.conns && b != a ==> w.server.conns[b] == s.conns[b]
    ensures w.server.running == s.running && w.server.selectorOpen == s.selectorOpen
  {
    var q := s.queues[a];
    var outb := s.conns[a].outb;
    var taken := if |q| > 0 then outb + q[0] else outb;
    var rest := if |q| > 0 then q[1..] else q;
    assert outb + Flatten(q) == taken + Flatten(rest) by {
      if |q| > 0 {
        assert Flatten(q) == q[0] + Flatten(q[1..]);
      }
    }
    assert taken[..sent] + taken[sent..] == taken;
    Written(s.(conns := s.conns[a := Conn(taken[sent..])], queues := s.queues[a := rest]), taken[..sent])
  }

  /** `OnWritable` keeps every registered connection paired with a queue. */
  lemma WritableConsistent(s: Server, a: Addr, sent: nat)
    requires a in s.conns && a in s.queues
    requires sent <= WriteBudget(s, a)
    requires Consistent(s)
    ensures Consistent(OnWritable(s, a, sent).server)
  {
  }

  /**
   `_serve_connection` for an event that is readable, writable or both:
   the read half runs first; if it tore the connection down, the write half
   fails on the closed socket with an `OSError` the loop swallows, so nothing
   is sent.
   */
  function Serve(s: Server, a: Addr, readable: bool, writable: bool, data: string, sent: nat): (w: Written)
    requires a in s.conns && a in s.queues
    requires writable && !(readable && |data| == 0) ==>
               sent <= WriteBudget(if readable then OnReadable(s, a, data) else s, a)
    ensures readable && |data| == 0 ==> w.wire == [] && a !in w.server.conns && a !in w.server.queues
    ensures !(readable && |data| == 0) ==> a in w.server.conns && a in w.server.queues
    ensures !(readable && |data| == 0) ==>
              w.wire + Pending(w.server, a) == s.conns[a].outb + (if readable then data else []) + Flatten(s.queues[a])
    ensures forall b :: b in s.queues && b != a ==> b in w.server.queues && w.server.queues[b] == s.queues[b]
    ensures forall b :: b in s.conns && b != a ==> b in w.server.conns && w.server.conns[b] == s.conns[b]
    ensures Consistent(s) ==> Consistent(w.server)
  {
    var s1 := if readable then OnReadable(s, a, data) else s;
    if readable && |data| == 0 then Written(s1, [])
    else if writable then OnWritable(s1, a, sent)
    else Written(s1, [])
  }

  /** `start_socket`'s first steps: a selector is created and the run flag is set. */
  function StartSocket(s: Server): (r: Server)
    ensures r.running && r.selectorOpen
    ensures r.queues == s.queues && r.conns == s.conns
  {
    s.(running := true, selectorOpen := true)
  }

  /**
   `stop_socket`: nothing happens unless the server runs with a selector;
   then only the run flag is cleared.
   */
  function StopSocket(s: Server): (r: Server)
    ensures !s.running || !s.selectorOpen ==> r == s
    ensures s.running && s.selectorOpen ==> !r.running
    ensures r.queues == s.queues && r.conns == s.conns && r.selectorOpen == s.selectorOpen
  {
    if !s.running || !s.selectorOpen then s else s.(running := false)
  }

  /** Stopping twice is stopping once. */
  lemma StopSocketIdempotent(s: Server)
    ensures StopSocket(StopSocket(s)) == StopSocket(s)
  {
  }

  /** While the run flag implies a selector (as `start_socket` sets them), a stop always clears the flag. */
  lemma StopSocketStops(s: Server)
    requires s.running ==> s.selectorOpen
    ensures !StopSocket(s).running
  {
  }
}
