/**
 `PseudoController` apart from its sockets: the parameter list with
 sequential address allocation (`add_parameter`), and the body of
 `run_updating`, where a parameter whose value changed is broadcast to
 every client queue. Coin flips, drawn values and clock readings are inputs.
 */
module Controller {
  import opened Parameters
  import Server
  import Text

  /** `parameters`, `__address_counter`, and the socket-side state that shares `__queues`. */
  datatype Controller = Controller(parameters: seq<Parameter>, addressCounter: int, server: Server.Server)

  /** What `__init__` sets up: no parameters, the counter at 1, no clients. */
  function NewController(): Controller {
    Controller([], 1, Server.Idle())
  }

  /** The k-th parameter added holds address k + 1, and the counter is the next address to hand out. */
  ghost predicate AddressesSequential(c: Controller) {
    && c.addressCounter == |c.parameters| + 1
    && forall k :: 0 <= k < |c.parameters| ==> c.parameters[k].address == k + 1
  }

  /** `add_parameter`: the parameter takes the counter as its address and goes at the end; the counter moves on. */
  function AddParameter(c: Controller, p: Parameter): (r: Controller)
    ensures |r.parameters| == |c.parameters| + 1
    ensures r.parameters[..|c.parameters|] == c.parameters
    ensures r.parameters[|c.parameters|].address == c.addressCounter
    ensures r.parameters[|c.parameters|] == p.(address := r.parameters[|c.parameters|].address)
    ensures r.addressCounter == c.addressCounter + 1
    ensures r.server == c.server
    ensures AddressesSequential(c) ==> AddressesSequential(r)
  {
    c.(parameters := c.parameters + [p.(address := c.addressCounter)], addressCounter := c.addressCounter + 1)
  }

  /** Adds `ps` one after another, as `get_test_plc` does. */
  function AddAll(c: Controller, ps: seq<Parameter>): Controller
    decreases |ps|
  {
    if |ps| == 0 then c else AddAll(AddParameter(c, ps[0]), ps[1..])
  }

  lemma {:induction false} AddAllSequential(c: Controller, ps: seq<Parameter>)
    requires AddressesSequential(c)
    ensures AddressesSequential(AddAll(c, ps))
    ensures |AddAll(c, ps).parameters| == |c.parameters| + |ps|
    ensures forall k :: 0 <= k < |ps| ==> AddAll(c, ps).parameters[|c.parameters| + k] == ps[k].(address := |c.parameters| + k + 1)
    decreases |ps|
  {
    if |ps| > 0 {
      var c1 := AddParameter(c, ps[0]);
      AddAllSequential(c1, ps[1..]);
      var r := AddAll(c, ps);
      forall k | 0 <= k < |ps|
        ensures r.parameters[|c.parameters| + k] == ps[k].(address := |c.parameters| + k + 1)
      {
        if k == 0 {
          assert r.parameters[..|c1.parameters|] == c1.parameters by {
            assert AddressesSequential(r);
            AddAllPrefix(c1, ps[1..]);
          }
          assert r.parameters[|c.parameters|] == r.parameters[..|c1.parameters|][|c.parameters|];
        } else {
          assert ps[1..][k - 1] == ps[k];
        }
      }
    }
  }

  lemma {:induction false} AddAllPrefix(c: Controller, ps: seq<Parameter>)
    ensures |c.parameters| <= |AddAll(c, ps).parameters|
    ensures AddAll(c, ps).parameters[..|c.parameters|] == c.parameters
    decreases |ps|
  {
    if |ps| > 0 {
      var c1 := AddParameter(c, ps[0]);
      AddAllPrefix(c1, ps[1..]);
      var r := AddAll(c, ps).parameters;
      assert r[..|c.parameters|] == r[..|c1.parameters|][..|c.parameters|];
    }
  }

  /**
   Starting from a new controller, the parameters added get the addresses
   1, 2, 3, ... in order, all distinct, and are otherwise kept as given.
   */
  lemma AddressesFromOne(ps: seq<Parameter>)
    ensures |AddAll(NewController(), ps).parameters| == |ps|
    ensures forall k :: 0 <= k < |ps| ==> AddAll(NewController(), ps).parameters[k] == ps[k].(address := k + 1)
    ensures forall j, k :: 0 <= j < k < |ps| ==>
              AddAll(NewController(), ps).parameters[j].address != AddAll(NewController(), ps).parameters[k].address
  {
    var c0 := NewController();
    AddAllSequential(c0, ps);
    var r := AddAll(c0, ps);
    assert |c0.parameters| == 0;
    assert AddressesSequential(r);
    forall k | 0 <= k < |ps|
      ensures r.parameters[k] == ps[k].(address := k + 1)
    {
      assert r.parameters[|c0.parameters| + k] == ps[k].(address := |c0.parameters| + k + 1);
    }
  }

  /**
   What one turn of the loop draws for a parameter: the coin of
   `random.choice([True, False])`, the value `randomize_value` would set, and
   the clock reading `get_message` stamps.
   */
  datatype Draw = Draw(coin: bool, value: Value, now: int)

  /** Whether the turn for parameter `i` changes its value: the coin came up and the drawn value differs. */
  predicate Changes(c: Controller, i: nat, d: Draw)
    requires i < |c.parameters|
  {
    d.coin && d.value != c.parameters[i].value
  }

  /**
   One turn of the `for p in self.parameters` loop: if the coin comes up the
   parameter takes the drawn value, and if that differs from the old value
   the message for it is put on every client queue.
   */
  function Update(c: Controller, i: nat, d: Draw): (r: Controller)
    requires i < |c.parameters|
    requires Drawable(c.parameters[i].kind, d.value)
    ensures |r.parameters| == |c.parameters| && r.addressCounter == c.addressCounter
    ensures r.parameters == c.parameters[i := if d.coin then c.parameters[i].(value := d.value) else c.parameters[i]]
    ensures !Changes(c, i, d) ==> r.server == c.server
    ensures Changes(c, i, d) ==> r.server.queues.Keys == c.server.queues.Keys
    ensures Changes(c, i, d) ==>
              forall a :: a in c.server.queues ==>
                r.server.queues[a] == c.server.queues[a] + [GetMessage(r.parameters[i], d.now)]
    ensures r.server.conns == c.server.conns
    ensures AddressesSequential(c) ==> AddressesSequential(r)
  {
    if !d.coin then c
    else
      var p := c.parameters[i].(value := d.value);
      var c1 := c.(parameters := c.parameters[i := p]);
      if d.value != c.parameters[i].value then c1.(server := Server.Broadcast(c.server, GetMessage(p, d.now))) else c1
  }

  /** One draw per parameter, each value fitting the kind of the parameter it is drawn for. */
  predicate Draws(ps: seq<Parameter>, ds: seq<Draw>) {
    |ds| == |ps| && forall k :: 0 <= k < |ps| ==> Drawable(ps[k].kind, ds[k].value)
  }

  /**
   One pass of the update loop over the parameters from index `i` on. Every
   parameter whose coin came up holds its draw afterwards, so the next pass
   compares against it; names, addresses and the counter are kept.
   */
  function Sweep(c: Controller, i: nat, ds: seq<Draw>): (r: Controller)
    requires i <= |c.parameters|
    requires Draws(c.parameters, ds)
    ensures |r.parameters| == |c.parameters|
    ensures forall k :: 0 <= k < |c.parameters| ==> r.parameters[k].kind == c.parameters[k].kind
    ensures forall k :: 0 <= k < |c.parameters| ==>
              r.parameters[k] == if i <= k && ds[k].coin then c.parameters[k].(value := ds[k].value) else c.parameters[k]
    ensures r.addressCounter == c.addressCounter
    ensures r.server.queues.Keys == c.server.queues.Keys && r.server.conns == c.server.conns
    decreases |c.parameters| - i
  {
    if i == |c.parameters| then c
    else Sweep(Update(c, i, ds[i]), i + 1, ds)
  }

  /** What the turn for parameter `p` broadcasts: its message if its value changed, nothing otherwise. */
  function Announcement(p: Parameter, d: Draw): seq<string> {
    if d.coin && d.value != p.value then [GetMessage(p.(value := d.value), d.now)] else []
  }

  /** The messages one pass broadcasts from parameter `i` on, in parameter order. */
  function Announced(ps: seq<Parameter>, ds: seq<Draw>, i: nat): seq<string>
    requires i <= |ps| == |ds|
    decreases |ps| - i
  {
    if i == |ps| then [] else Announcement(ps[i], ds[i]) + Announced(ps, ds, i + 1)
  }

  /** What is announced from `i` on depends only on the parameters from `i` on. */
  lemma {:induction false} AnnouncedSuffix(ps: seq<Parameter>, ps': seq<Parameter>, ds: seq<Draw>, i: nat)
    requires i <= |ps| == |ds| == |ps'|
    requires forall k :: i <= k < |ps| ==> ps'[k] == ps[k]
    ensures Announced(ps', ds, i) == Announced(ps, ds, i)
    decreases |ps| - i
  {
    if i < |ps| {
      AnnouncedSuffix(ps, ps', ds, i + 1);
    }
  }

  /** What one `Update` puts on a client queue. */
  lemma UpdateStep(c: Controller, i: nat, ds: seq<Draw>, a: Server.Addr)
    requires i < |c.parameters|
    requires Draws(c.parameters, ds)
    requires a in c.server.queues
    ensures Update(c, i, ds[i]).server.queues[a] == c.server.queues[a] + Announcement(c.parameters[i], ds[i])
  {
  }

  /** An update keeps every parameter's kind, so the drawn values still fit. */
  lemma UpdateDraws(c: Controller, i: nat, ds: seq<Draw>)
    requires i < |c.parameters|
    requires Draws(c.parameters, ds)
    ensures Draws(Update(c, i, ds[i]).parameters, ds)
  {
    var ps := Update(c, i, ds[i]).parameters;
    forall k | 0 <= k < |ps|
      ensures Drawable(ps[k].kind, ds[k].value)
    {
      assert ps[k].kind == c.parameters[k].kind;
    }
  }

  lemma {:induction false} SweepFrom(c: Controller, i: nat, ds: seq<Draw>, a: Server.Addr)
    requires i <= |c.parameters|
    requires Draws(c.parameters, ds)
    requires a in c.server.queues
    ensures Sweep(c, i, ds).server.queues[a] == c.server.queues[a] + Announced(c.parameters, ds, i)
    decreases |c.parameters| - i
  {
    if i < |c.parameters| {
      var c1 := Update(c, i, ds[i]);
      UpdateStep(c, i, ds, a);
      UpdateDraws(c, i, ds);
      SweepFrom(c1, i + 1, ds, a);
      AnnouncedSuffix(c.parameters, c1.parameters, ds, i + 1);
      var q := c.server.queues[a];
      var head := Announcement(c.parameters[i], ds[i]);
      var later := Announced(c.parameters, ds, i + 1);
      assert Sweep(c, i, ds) == Sweep(c1, i + 1, ds);
      Text.AppendAssoc(q, head, later);
    }
  }

  /**
   One pass of `run_updating` puts on every client queue exactly the
   messages of the parameters whose values changed, once each, in
   parameter order.
   */
  lemma SweepBroadcasts(c: Controller, ds: seq<Draw>, a: Server.Addr)
    requires Draws(c.parameters, ds)
    requires a in c.server.queues
    ensures Sweep(c, 0, ds).server.queues[a] == c.server.queues[a] + Announced(c.parameters, ds, 0)
  {
    SweepFrom(c, 0, ds, a);
  }
}
