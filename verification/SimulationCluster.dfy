/**
 The headless simulation cluster: clients pass from handshake through an admission queue and resource
 loading into the world. Positions in the world are not part of this model; every draw the movement
 makes from the generator is.
 */
module Simulation {
  import opened Sequences
  import Xorshift

  datatype SimState =
    | Disconnected
    | Handshake(attempt: nat)
    | InQueue(position: nat)
    | ResourceNegotiation(total: nat, loaded: nat)
    | InWorld(dimension: nat)
    | Reconnecting(retryTick: nat)

  datatype Client = Client(id: nat, state: SimState, ticksActive: nat,
                           sent: nat, received: nat, dropped: nat, reconnects: nat)

  datatype Config = Config(clientCount: nat, seed: bv64, packetLoss: nat, disconnect: nat,
                           queueDepth: nat, manifest: nat, dimensions: nat)

  datatype Cluster = Cluster(config: Config, rng: bv64, clients: seq<Client>, tick: nat, waitlist: seq<nat>)

  function NewClient(id: nat): Client {
    Client(id, Disconnected, 0, 0, 0, 0, 0)
  }

  function Start(config: Config): Cluster {
    Cluster(config, Xorshift.Seeded(config.seed), seq(config.clientCount, (i: nat) => NewClient(i)), 0, [])
  }

  // ---------- Queue promotion ----------

  /** Index of the first client with the given id. */
  function Find(clients: seq<Client>, id: nat): (r: int)
    ensures -1 <= r < |clients|
  {
    if clients == [] then -1
    else if clients[0].id == id then 0
    else var r := Find(clients[1..], id); if r < 0 then -1 else r + 1
  }

  function SetState(clients: seq<Client>, id: nat, state: SimState): (r: seq<Client>)
    ensures |r| == |clients|
  {
    var i := Find(clients, id);
    if i < 0 then clients else clients[i := clients[i].(state := state)]
  }

  /** Renumber the queue entries from index `k` on. */
  function Renumber(clients: seq<Client>, queue: seq<nat>, k: nat): (r: seq<Client>)
    requires k <= |queue|
    ensures |r| == |clients|
    decreases |queue| - k
  {
    if k == |queue| then clients else Renumber(SetState(clients, queue[k], InQueue(k + 1)), queue, k + 1)
  }

  function AdmitFirst(clients: seq<Client>, id: nat, manifest: nat): (r: seq<Client>)
    ensures |r| == |clients|
  {
    var i := Find(clients, id);
    if i >= 0 && clients[i].state.InQueue? then SetState(clients, id, ResourceNegotiation(manifest, 0)) else clients
  }

  /** Every other tick the head of the queue moves on and the rest move up. */
  function Promote(c: Cluster): (r: Cluster)
    ensures |r.clients| == |c.clients|
  {
    if c.waitlist == [] || c.tick % 2 != 0 then c
    else
      var rest := c.waitlist[1..];
      c.(waitlist := rest, clients := Renumber(AdmitFirst(c.clients, c.waitlist[0], c.config.manifest), rest, 0))
  }

  // ---------- One client's tick ----------

  datatype Local = Local(client: Client, rng: bv64, waitlist: seq<nat>)

  function StepInWorld(cfg: Config, tick: nat, s: Local): Local
    requires s.client.state.InWorld?
  {
    var r1 := Xorshift.Next(s.rng);
    if Xorshift.Draw(r1, 1000) < cfg.disconnect then
      s.(rng := r1, client := s.client.(state := Reconnecting(tick + 5)))
    else
      // The distance and the angle of the movement take a draw each.
      var r3 := Xorshift.Next(Xorshift.Next(r1));
      var r4 := if cfg.dimensions > 1 then Xorshift.Next(r3) else r3;
      var moves := cfg.dimensions > 1 && Xorshift.Draw(r4, 100) == 0;
      var r5 := if moves then Xorshift.Next(r4) else r4;
      var dimension := if moves then Xorshift.Draw(r5, cfg.dimensions) else s.client.state.dimension;
      var r6 := Xorshift.Next(r5);
      var lost := Xorshift.Draw(r6, 1000) < cfg.packetLoss;
      s.(rng := r6, client := s.client.(
         state := InWorld(dimension),
         sent := s.client.sent + 1,
         dropped := s.client.dropped + (if lost then 1 else 0),
         received := s.client.received + (if lost then 0 else 1)))
  }

  function StepClient(cfg: Config, tick: nat, start: Local): Local {
    var s := start.(client := start.client.(ticksActive := start.client.ticksActive + 1));
    match s.client.state
    case Disconnected => s.(client := s.client.(state := Handshake(1)))
    case Handshake(attempt) =>
      if cfg.queueDepth > 0 && |s.waitlist| < cfg.queueDepth then
        s.(waitlist := s.waitlist + [s.client.id], client := s.client.(state := InQueue(|s.waitlist| + 1)))
      else if attempt >= 2 then s.(client := s.client.(state := ResourceNegotiation(cfg.manifest, 0)))
      else s.(client := s.client.(state := Handshake(attempt + 1)))
    case InQueue(_) => s
    case ResourceNegotiation(total, loaded) =>
      if loaded + 1 >= total then
        s.(client := s.client.(state := InWorld(s.client.id % (if cfg.dimensions > 1 then cfg.dimensions else 1))))
      else s.(client := s.client.(state := ResourceNegotiation(total, loaded + 1)))
    case InWorld(_) => StepInWorld(cfg, tick, s)
    case Reconnecting(retryTick) =>
      if tick >= retryTick then
        s.(client := s.client.(state := Handshake(1), reconnects := s.client.reconnects + 1))
      else s
  }

  /** The clients from index `i` on, one after the other; each sees the queue and generator the last one left. */
  function StepFrom(c: Cluster, i: nat): (r: Cluster)
    requires i <= |c.clients|
    ensures |r.clients| == |c.clients|
    decreases |c.clients| - i
  {
    if i == |c.clients| then c
    else
      var s := StepClient(c.config, c.tick, Local(c.clients[i], c.rng, c.waitlist));
      StepFrom(c.(clients := c.clients[i := s.client], rng := s.rng, waitlist := s.waitlist), i + 1)
  }

  function Step(c: Cluster): (r: Cluster)
    ensures |r.clients| == |c.clients|
  {
    StepFrom(Promote(c.(tick := c.tick + 1)), 0)
  }

  // ---------- What every step keeps ----------

  /** Queue entries and queued clients point at each other. */
  ghost predicate QueueOk(clients: seq<Client>, q: seq<nat>) {
    && (forall i :: 0 <= i < |clients| ==> clients[i].id == i)
    && (forall k :: 0 <= k < |q| ==> q[k] < |clients| && clients[q[k]].state == InQueue(k + 1))
    && (forall i :: 0 <= i < |clients| && clients[i].state.InQueue? ==>
          0 < clients[i].state.position <= |q| && q[clients[i].state.position - 1] == i)
  }

  /** So the waitlist has no duplicates, and a client is at position p exactly when it is entry p - 1. */
  lemma QueueMirrorsClients(clients: seq<Client>, q: seq<nat>)
    requires QueueOk(clients, q)
    ensures NoDuplicates(q)
    ensures forall i, p: nat :: 0 <= i < |clients| ==>
              (clients[i].state == InQueue(p) <==> 0 < p <= |q| && q[p - 1] == i)
  {
    forall i, p: nat | 0 <= i < |clients| && 0 < p <= |q| && q[p - 1] == i
      ensures clients[i].state == InQueue(p)
    {
      assert clients[q[p - 1]].state == InQueue(p);
    }
  }

  /** A client's events balance, and it is in a dimension that exists. */
  ghost predicate ClientOk(cfg: Config, c: Client) {
    && c.sent == c.received + c.dropped
    && (c.state.InWorld? ==> c.state.dimension < if cfg.dimensions > 1 then cfg.dimensions else 1)
  }

  ghost predicate Valid(c: Cluster) {
    && QueueOk(c.clients, c.waitlist)
    && c.rng != 0
    && (forall i :: 0 <= i < |c.clients| ==> ClientOk(c.config, c.clients[i]))
  }

  lemma {:induction false} FindById(clients: seq<Client>, id: nat, base: nat)
    requires forall i :: 0 <= i < |clients| ==> clients[i].id == base + i
    requires base <= id < base + |clients|
    ensures Find(clients, id) == id - base
  {
    if clients[0].id != id {
      FindById(clients[1..], id, base + 1);
    }
  }

  ghost predicate IdsAre(clients: seq<Client>) {
    forall i :: 0 <= i < |clients| ==> clients[i].id == i
  }

  lemma SetStateAt(clients: seq<Client>, id: nat, state: SimState)
    requires IdsAre(clients) && id < |clients|
    ensures SetState(clients, id, state) == clients[id := clients[id].(state := state)]
    ensures IdsAre(SetState(clients, id, state))
  {
    FindById(clients, id, 0);
  }

  /** Renumbering leaves a client alone that is not among the entries from `k` on. */
  lemma {:induction false} RenumberMiss(clients: seq<Client>, q: seq<nat>, k: nat, i: nat)
    requires k <= |q| && IdsAre(clients) && i < |clients|
    requires forall j :: 0 <= j < |q| ==> q[j] < |clients|
    requires forall j :: k <= j < |q| ==> q[j] != i
    ensures Renumber(clients, q, k)[i] == clients[i]
    decreases |q| - k
  {
    hide SetState;
    if k < |q| {
      SetStateAt(clients, q[k], InQueue(k + 1));
      RenumberMiss(SetState(clients, q[k], InQueue(k + 1)), q, k + 1, i);
    }
  }

  /** Renumbering gives the entry at index `j` position j + 1. */
  lemma {:induction false} RenumberHit(clients: seq<Client>, q: seq<nat>, k: nat, j: nat)
    requires k <= j < |q| && IdsAre(clients) && NoDuplicates(q)
    requires forall m :: 0 <= m < |q| ==> q[m] < |clients|
    ensures Renumber(clients, q, k)[q[j]] == clients[q[j]].(state := InQueue(j + 1))
    decreases |q| - k
  {
    hide SetState;
    var next := SetState(clients, q[k], InQueue(k + 1));
    SetStateAt(clients, q[k], InQueue(k + 1));
    if k == j {
      RenumberMiss(next, q, k + 1, q[j]);
    } else {
      RenumberHit(next, q, k + 1, j);
    }
  }

  /** What a promotion does to a client: the first in the queue starts loading, the others move up. */
  function MovedUp(s: SimState, manifest: nat): SimState {
    if s.InQueue? then
      if s.position <= 1 then ResourceNegotiation(manifest, 0) else InQueue(s.position - 1)
    else s
  }

  lemma AdmitAt(clients: seq<Client>, head: nat, m: nat)
    requires IdsAre(clients) && head < |clients| && clients[head].state.InQueue?
    ensures AdmitFirst(clients, head, m) == clients[head := clients[head].(state := ResourceNegotiation(m, 0))]
  {
    hide SetState, Find;
    FindById(clients, head, 0);
    SetStateAt(clients, head, ResourceNegotiation(m, 0));
  }

  /** The queue behind its head, and where a queued client is in it. */
  lemma BehindHead(clients: seq<Client>, q: seq<nat>, i: nat)
    requires QueueOk(clients, q) && q != [] && i < |clients|
    ensures IdsAre(clients) && q[0] < |clients| && clients[q[0]].state == InQueue(1)
    ensures var rest := q[1..];
            && NoDuplicates(rest) && (forall j :: 0 <= j < |rest| ==> rest[j] < |clients|)
            && (if clients[i].state.InQueue? && clients[i].state.position > 1
                then clients[i].state.position - 2 < |rest| && rest[clients[i].state.position - 2] == i && i != q[0]
                else (forall j :: 0 <= j < |rest| ==> rest[j] != i) && (clients[i].state.InQueue? <==> i == q[0]))
  {
    QueueMirrorsClients(clients, q);
    assert clients[q[0]].state == InQueue(1);
    assert forall j :: 0 <= j < |q[1..]| ==> q[1..][j] == q[j + 1] && clients[q[j + 1]].state == InQueue(j + 2);
  }

  lemma PromoteAt(c: Cluster, i: nat)
    requires QueueOk(c.clients, c.waitlist) && c.waitlist != [] && c.tick % 2 == 0 && i < |c.clients|
    ensures Promote(c).clients[i] == c.clients[i].(state := MovedUp(c.clients[i].state, c.config.manifest))
  {
    hide Renumber, AdmitFirst, QueueOk;
    var clients, q, m := c.clients, c.waitlist, c.config.manifest;
    BehindHead(clients, q, i);
    AdmitAt(clients, q[0], m);
    var mid := AdmitFirst(clients, q[0], m);
    if clients[i].state.InQueue? && clients[i].state.position > 1 {
      RenumberHit(mid, q[1..], 0, clients[i].state.position - 2);
    } else {
      RenumberMiss(mid, q[1..], 0, i);
    }
  }

  lemma PromoteFrame(c: Cluster)
    ensures Promote(c).config == c.config && Promote(c).rng == c.rng && Promote(c).tick == c.tick
    ensures c.waitlist == [] || c.tick % 2 != 0 ==> Promote(c) == c
    ensures c.waitlist != [] && c.tick % 2 == 0 ==> Promote(c).waitlist == c.waitlist[1..]
  {
    hide Renumber, AdmitFirst;
  }

  lemma PromoteKeepsValid(c: Cluster)
    requires Valid(c)
    ensures Valid(Promote(c))
  {
    hide Promote, QueueOk;
    PromoteFrame(c);
    if c.waitlist != [] && c.tick % 2 == 0 {
      var r := Promote(c).clients;
      forall i | 0 <= i < |r|
        ensures r[i] == c.clients[i].(state := MovedUp(c.clients[i].state, c.config.manifest))
        ensures ClientOk(c.config, r[i])
      {
        PromoteAt(c, i);
        assert ClientOk(c.config, c.clients[i]);
      }
      MovedUpQueueOk(c.clients, c.waitlist, c.config.manifest, r);
    }
  }

  lemma MovedUpQueueOk(clients: seq<Client>, q: seq<nat>, manifest: nat, r: seq<Client>)
    requires QueueOk(clients, q) && q != [] && |r| == |clients|
    requires forall i :: 0 <= i < |r| ==> r[i] == clients[i].(state := MovedUp(clients[i].state, manifest))
    ensures QueueOk(r, q[1..])
  {
    var rest := q[1..];
    forall k | 0 <= k < |rest|
      ensures rest[k] < |r| && r[rest[k]].state == InQueue(k + 1)
    {
      assert clients[q[k + 1]].state == InQueue(k + 2);
    }
    forall i | 0 <= i < |r| && r[i].state.InQueue?
      ensures 0 < r[i].state.position <= |rest| && rest[r[i].state.position - 1] == i
    {
      assert q[clients[i].state.position - 1] == i;
    }
  }

  /** One client's tick keeps the bookkeeping, and touches the queue only to join at its end. */
  lemma StepClientKeeps(cfg: Config, tick: nat, s: Local)
    requires s.rng != 0 && ClientOk(cfg, s.client)
    ensures var t := StepClient(cfg, tick, s);
            && t.rng != 0 && ClientOk(cfg, t.client) && t.client.id == s.client.id
            && (t.client.state.InQueue? && !s.client.state.InQueue? ==>
                  t.waitlist == s.waitlist + [s.client.id] && t.client.state == InQueue(|s.waitlist| + 1))
            && (s.client.state.InQueue? ==> t.client.state == s.client.state)
            && (!t.client.state.InQueue? || s.client.state.InQueue? ==> t.waitlist == s.waitlist)
  {
    hide Xorshift.Next;
    if s.client.state.InWorld? {
      StepInWorldKeeps(cfg, tick, s.(client := s.client.(ticksActive := s.client.ticksActive + 1)));
      hide StepInWorld;
    }
  }

  lemma StepInWorldKeeps(cfg: Config, tick: nat, s: Local)
    requires s.rng != 0 && ClientOk(cfg, s.client) && s.client.state.InWorld?
    ensures var t := StepInWorld(cfg, tick, s);
            && t.rng != 0 && ClientOk(cfg, t.client) && t.client.id == s.client.id && t.waitlist == s.waitlist
            && (t.client.state.InWorld? || t.client.state == Reconnecting(tick + 5))
            && (cfg.disconnect == 0 ==> t.client.state.InWorld?)
  {
    hide Xorshift.Next, Xorshift.Draw;
    Xorshift.NextIsNeverZero(s.rng);
    var r1 := Xorshift.Next(s.rng);
    Xorshift.NextIsNeverZero(r1);
    Xorshift.NextIsNeverZero(Xorshift.Next(r1));
    var r3 := Xorshift.Next(Xorshift.Next(r1));
    Xorshift.NextIsNeverZero(r3);
    var r4 := Xorshift.Next(r3);
    Xorshift.NextIsNeverZero(r4);
    Xorshift.NextIsNeverZero(Xorshift.Next(r4));
  }

  /** Joining at the end keeps queue and clients in step. */
  lemma ReplaceKeepsQueue(clients: seq<Client>, q: seq<nat>, i: nat, t: Client, q': seq<nat>)
    requires QueueOk(clients, q) && i < |clients| && t.id == i
    requires t.state.InQueue? && !clients[i].state.InQueue? ==> q' == q + [i] && t.state == InQueue(|q| + 1)
    requires clients[i].state.InQueue? ==> t.state == clients[i].state
    requires !t.state.InQueue? || clients[i].state.InQueue? ==> q' == q
    ensures QueueOk(clients[i := t], q')
  {
    QueueMirrorsClients(clients, q);
  }

  lemma {:induction false} StepFromKeepsValid(c: Cluster, i: nat)
    requires Valid(c) && i <= |c.clients|
    ensures Valid(StepFrom(c, i))
    ensures StepFrom(c, i).config == c.config && StepFrom(c, i).tick == c.tick
    decreases |c.clients| - i
  {
    hide StepClient, QueueOk;
    if i < |c.clients| {
      var s := StepClient(c.config, c.tick, Local(c.clients[i], c.rng, c.waitlist));
      assert ClientOk(c.config, c.clients[i]);
      StepClientKeeps(c.config, c.tick, Local(c.clients[i], c.rng, c.waitlist));
      IdsAreIndices(c.clients, c.waitlist);
      ReplaceKeepsQueue(c.clients, c.waitlist, i, s.client, s.waitlist);
      StepFromKeepsValid(c.(clients := c.clients[i := s.client], rng := s.rng, waitlist := s.waitlist), i + 1);
    }
  }

  lemma IdsAreIndices(clients: seq<Client>, q: seq<nat>)
    requires QueueOk(clients, q)
    ensures forall i :: 0 <= i < |clients| ==> clients[i].id == i
  {
  }

  lemma StepKeepsValid(c: Cluster)
    requires Valid(c)
    ensures Valid(Step(c)) && Step(c).config == c.config && Step(c).tick == c.tick + 1
  {
    hide Promote, StepFrom;
    var d := c.(tick := c.tick + 1);
    PromoteFrame(d);
    PromoteKeepsValid(d);
    StepFromKeepsValid(Promote(d), 0);
  }

  function Run(c: Cluster, n: nat): (r: Cluster)
    ensures |r.clients| == |c.clients|
  {
    if n == 0 then c else Step(Run(c, n - 1))
  }

  lemma {:induction false} RunKeepsValid(c: Cluster, n: nat)
    requires Valid(c)
    ensures Valid(Run(c, n)) && Run(c, n).config == c.config && Run(c, n).tick == c.tick + n
  {
    hide Step, Valid;
    if n > 0 {
      RunKeepsValid(c, n - 1);
      StepKeepsValid(Run(c, n - 1));
    }
  }

  lemma StartIsValid(config: Config)
    ensures Valid(Start(config)) && |Start(config).clients| == config.clientCount
    ensures config.seed != 0 ==> Start(config).rng == config.seed
  {
  }

  // ---------- Progress ----------

  /** Steps a manifest takes to load; an empty one still takes one. */
  function Load(cfg: Config): nat {
    if cfg.manifest < 1 then 1 else cfg.manifest
  }

  /** Steps until a client is in the world when nobody is disconnected, counted from the end of tick `tick`. */
  function Rank(cfg: Config, tick: nat, s: SimState): int {
    match s
    case InWorld(_) => 0
    case ResourceNegotiation(total, loaded) => if loaded + 1 >= total then 1 else total - loaded
    case InQueue(p) => 2 * p - tick % 2 + Load(cfg) - 1
    case Handshake(attempt) => (if attempt >= 2 then 1 else 3 - attempt) + 2 * cfg.queueDepth + Load(cfg)
    case Disconnected => 3 + 2 * cfg.queueDepth + Load(cfg)
    case Reconnecting(retry) => (if retry <= tick + 1 then 1 else retry - tick) + 2 + 2 * cfg.queueDepth + Load(cfg)
  }

  /** A tick of its own brings a client closer, unless it waits in the queue. */
  lemma StepClientProgress(cfg: Config, tick: nat, s: Local)
    requires cfg.disconnect == 0 && tick > 0 && s.rng != 0 && ClientOk(cfg, s.client)
    requires !s.client.state.InQueue?
    ensures var t := StepClient(cfg, tick, s);
            if s.client.state.InWorld? then t.client.state.InWorld?
            else Rank(cfg, tick, t.client.state) < Rank(cfg, tick - 1, s.client.state)
  {
    hide StepInWorld;
    match s.client.state
    case Disconnected =>
    case Handshake(attempt) =>
      assert 0 <= tick % 2 <= 1;
    case ResourceNegotiation(total, loaded) =>
    case InWorld(_) =>
      StepInWorldKeeps(cfg, tick, s.(client := s.client.(ticksActive := s.client.ticksActive + 1)));
    case Reconnecting(retry) =>
  }

  /** What the client loop does to one client: its own tick, and nothing else. */
  lemma {:induction false} StepFromAt(c: Cluster, i: nat, k: nat) returns (s: Local)
    requires Valid(c) && i <= |c.clients| && k < |c.clients|
    ensures k < i ==> StepFrom(c, i).clients[k] == c.clients[k]
    ensures k >= i ==> s.client == c.clients[k] && s.rng != 0
                       && StepFrom(c, i).clients[k] == StepClient(c.config, c.tick, s).client
                       && |StepClient(c.config, c.tick, s).waitlist| <= |StepFrom(c, i).waitlist|
    ensures |c.waitlist| <= |StepFrom(c, i).waitlist|
    decreases |c.clients| - i
  {
    hide StepClient, QueueOk;
    s := Local(c.clients[k], c.rng, c.waitlist);
    if i < |c.clients| {
      var t := StepClient(c.config, c.tick, Local(c.clients[i], c.rng, c.waitlist));
      var d := c.(clients := c.clients[i := t.client], rng := t.rng, waitlist := t.waitlist);
      assert ClientOk(c.config, c.clients[i]);
      StepClientKeeps(c.config, c.tick, Local(c.clients[i], c.rng, c.waitlist));
      IdsAreIndices(c.clients, c.waitlist);
      ReplaceKeepsQueue(c.clients, c.waitlist, i, t.client, t.waitlist);
      var s' := StepFromAt(d, i + 1, k);
      if k > i {
        s := s';
      }
    }
  }

  /** Promotion only ever brings a queued client closer; at its turn it is already loading. */
  lemma PromoteProgress(c: Cluster, k: nat)
    requires Valid(c) && k < |c.clients| && c.tick > 0
    ensures var s, s' := c.clients[k].state, Promote(c).clients[k].state;
            if !s.InQueue? then s' == s
            else if s'.InQueue? then Rank(c.config, c.tick, s') < Rank(c.config, c.tick - 1, s)
            else s' == ResourceNegotiation(c.config.manifest, 0) && Rank(c.config, c.tick - 1, s) == Load(c.config)
  {
    hide Promote, QueueOk;
    PromoteFrame(c);
    Parity(c.tick);
    if c.clients[k].state.InQueue? {
      QueuedMeansWaiting(c, k);
    }
    if c.waitlist != [] && c.tick % 2 == 0 {
      PromoteAt(c, k);
    }
  }

  lemma QueuedMeansWaiting(c: Cluster, k: nat)
    requires QueueOk(c.clients, c.waitlist) && k < |c.clients| && c.clients[k].state.InQueue?
    ensures c.waitlist != [] && c.clients[k].state.position > 0
  {
  }

  lemma Parity(tick: nat)
    requires tick > 0
    ensures (tick - 1) % 2 == 1 - tick % 2
  {
  }

  /** With no disconnects, every step brings every client strictly closer to the world, and none leaves it. */
  lemma StepProgress(c: Cluster, k: nat)
    requires Valid(c) && k < |c.clients| && c.config.disconnect == 0
    ensures var s, s' := c.clients[k].state, Step(c).clients[k].state;
            if s.InWorld? then s'.InWorld? else Rank(c.config, c.tick + 1, s') < Rank(c.config, c.tick, s)
  {
    hide Promote, StepFrom, QueueOk, StepClient;
    var d := c.(tick := c.tick + 1);
    PromoteFrame(d);
    PromoteKeepsValid(d);
    PromoteProgress(d, k);
    var e := Promote(d);
    var l := StepFromAt(e, 0, k);
    assert ClientOk(e.config, e.clients[k]);
    StepClientKeeps(e.config, e.tick, l);
    if !l.client.state.InQueue? {
      StepClientProgress(e.config, e.tick, l);
    }
  }

  lemma RankIsPositive(cfg: Config, tick: nat, s: SimState)
    requires s.InQueue? ==> s.position > 0
    ensures Rank(cfg, tick, s) >= 0
    ensures Rank(cfg, tick, s) == 0 <==> s.InWorld?
  {
  }

  lemma {:induction false} RunProgress(c: Cluster, n: nat, k: nat)
    requires Valid(c) && k < |c.clients| && c.config.disconnect == 0
    ensures var s := Run(c, n).clients[k].state;
            s.InWorld? || Rank(c.config, c.tick + n, s) + n <= Rank(c.config, c.tick, c.clients[k].state)
  {
    hide Step, Valid, Rank;
    if n > 0 {
      RunProgress(c, n - 1, k);
      RunKeepsValid(c, n - 1);
      StepProgress(Run(c, n - 1), k);
    }
  }

  /** With no disconnects, a client is in the world after as many steps as its rank, and from then on. */
  lemma ReachesWorld(c: Cluster, n: nat, k: nat)
    requires Valid(c) && k < |c.clients| && c.config.disconnect == 0
    requires n >= Rank(c.config, c.tick, c.clients[k].state)
    ensures Run(c, n).clients[k].state.InWorld?
  {
    hide Rank, Run;
    RunProgress(c, n, k);
    RunKeepsValid(c, n);
    var d := Run(c, n);
    QueueMirrorsClients(d.clients, d.waitlist);
    RankIsPositive(c.config, c.tick + n, d.clients[k].state);
  }

  /** From the start, everyone is in the world after 3 + 2 * queue depth + manifest steps. */
  lemma EveryoneReachesWorld(config: Config, n: nat, k: nat)
    requires config.disconnect == 0 && k < config.clientCount
    requires n >= 3 + 2 * config.queueDepth + Load(config)
    ensures Run(Start(config), n).clients[k].state.InWorld?
  {
    StartIsValid(config);
    hide Run;
    ReachesWorld(Start(config), n, k);
  }

  // ---------- No shortcuts ----------

  /** What one client's tick makes of its state. */
  lemma ClientTick(cfg: Config, tick: nat, l: Local)
    ensures var s, t := l.client.state, StepClient(cfg, tick, l);
            var s' := t.client.state;
            && (s.Disconnected? ==> s' == Handshake(1))
            && (s.Handshake? ==>
                  if cfg.queueDepth > 0 && |l.waitlist| < cfg.queueDepth then s' == InQueue(|l.waitlist| + 1)
                  else s' == if s.attempt >= 2 then ResourceNegotiation(cfg.manifest, 0) else Handshake(s.attempt + 1))
            && (s.InQueue? ==> s' == s)
            && (s.ResourceNegotiation? ==>
                  s' == if s.loaded + 1 >= s.total then InWorld(l.client.id % Planes(cfg))
                        else ResourceNegotiation(s.total, s.loaded + 1))
            && (s.InWorld? ==> s'.InWorld? || s' == Reconnecting(tick + 5))
            && (s.Reconnecting? ==> s' == if tick >= s.retryTick then Handshake(1) else s)
  {
    hide Xorshift.Next, Xorshift.Draw;
  }

  function Planes(cfg: Config): (n: nat)
    ensures n > 0
  {
    if cfg.dimensions > 1 then cfg.dimensions else 1
  }

  /** What one client's tick does to its counters. */
  lemma ClientCounters(cfg: Config, tick: nat, l: Local)
    ensures var a, b := l.client, StepClient(cfg, tick, l).client;
            && b.id == a.id && b.ticksActive == a.ticksActive + 1
            && b.sent == a.sent + (if a.state.InWorld? && b.state.InWorld? then 1 else 0)
            && b.received + b.dropped == a.received + a.dropped + (b.sent - a.sent)
            && b.reconnects == a.reconnects + (if a.state.Reconnecting? && b.state.Handshake? then 1 else 0)
  {
    hide Xorshift.Next, Xorshift.Draw;
  }

  /** The head of the queue, at a tick when it is let in. */
  predicate LetIn(s: SimState, tick: nat) {
    s.InQueue? && s.position == 1 && tick % 2 == 0
  }

  /**
   What a step makes of a client, over all scenarios. A client newly in the world had loaded all but the last resource,
   or was let in from the queue with at most one to load; one newly loading was let in, or had tried twice and the
   queue was full or absent; one newly queued was handshaking; one that reconnects does so at the first tick not below
   its retry tick.
   */
  lemma NoShortcuts(c: Cluster, k: nat)
    requires Valid(c) && k < |c.clients|
    ensures var s, s', tick, cfg := c.clients[k].state, Step(c).clients[k].state, c.tick + 1, c.config;
            && (s.Disconnected? ==> s' == Handshake(1))
            && (s'.InWorld? && !s.InWorld? <==>
                  (s.ResourceNegotiation? && s.loaded + 1 >= s.total) || (LetIn(s, tick) && cfg.manifest <= 1))
            && (s'.InWorld? && !s.InWorld? ==> s'.dimension == k % Planes(cfg))
            && (s'.ResourceNegotiation? && !s.ResourceNegotiation? ==>
                  || (LetIn(s, tick) && s' == ResourceNegotiation(cfg.manifest, 1))
                  || (s.Handshake? && s.attempt >= 2 && |Step(c).waitlist| >= cfg.queueDepth
                      && s' == ResourceNegotiation(cfg.manifest, 0)))
            && (s.ResourceNegotiation? && s.loaded + 1 < s.total ==> s' == ResourceNegotiation(s.total, s.loaded + 1))
            && (s'.InQueue? && !s.InQueue? ==> s.Handshake? && 0 < s'.position <= cfg.queueDepth)
            && (s.InQueue? && !LetIn(s, tick) ==> s' == InQueue(if tick % 2 == 0 then s.position - 1 else s.position))
            && (s.Handshake? && !s'.InQueue? ==>
                  s' == if s.attempt >= 2 then ResourceNegotiation(cfg.manifest, 0) else Handshake(s.attempt + 1))
            && (s.Reconnecting? ==> s' == if tick >= s.retryTick then Handshake(1) else s)
            && (s'.Reconnecting? && !s.Reconnecting? ==> s.InWorld? && s' == Reconnecting(tick + 5))
  {
    var d := c.(tick := c.tick + 1);
    var l := StepAt(c, k);
    PromotedState(d, k);
    ClientTick(c.config, d.tick, l);
    hide Step, StepClient, Promote, QueueOk;
  }

  /** A step is the promotion followed by the client's own tick. */
  lemma StepAt(c: Cluster, k: nat) returns (l: Local)
    requires Valid(c) && k < |c.clients|
    ensures var d := c.(tick := c.tick + 1);
            && l.client == Promote(d).clients[k] && l.client.id == k && l.rng != 0
            && Step(c).clients[k] == StepClient(c.config, d.tick, l).client
            && |StepClient(c.config, d.tick, l).waitlist| <= |Step(c).waitlist|
  {
    hide Promote, StepFrom, QueueOk, StepClient;
    var d := c.(tick := c.tick + 1);
    PromoteFrame(d);
    PromoteKeepsValid(d);
    var e := Promote(d);
    IdsAreIndices(e.clients, e.waitlist);
    l := StepFromAt(e, 0, k);
  }

  lemma PromotedState(d: Cluster, k: nat)
    requires Valid(d) && k < |d.clients|
    ensures var s, p := d.clients[k].state, Promote(d).clients[k].state;
            && (!s.InQueue? ==> p == s)
            && (s.InQueue? ==> s.position > 0)
            && (LetIn(s, d.tick) ==> p == ResourceNegotiation(d.config.manifest, 0))
            && (s.InQueue? && !LetIn(s, d.tick) ==> p == InQueue(if d.tick % 2 == 0 then s.position - 1 else s.position))
  {
    hide Promote, QueueOk;
    PromoteFrame(d);
    if d.clients[k].state.InQueue? {
      QueuedMeansWaiting(d, k);
    }
    if d.waitlist != [] && d.tick % 2 == 0 {
      PromoteAt(d, k);
    }
  }

  /** The least number of steps until a client can be in the world, counted from the end of tick `tick`. */
  function Least(cfg: Config, tick: nat, s: SimState): int {
    match s
    case InWorld(_) => 0
    case ResourceNegotiation(total, loaded) => if loaded + 1 >= total then 1 else total - loaded
    case InQueue(p) => 2 * p - tick % 2 + Load(cfg) - 1
    case Handshake(attempt) => (if attempt >= 2 || tick % 2 == 0 then 1 else 2) + Load(cfg)
    case Disconnected => (if tick % 2 == 0 then 3 else 2) + Load(cfg)
    case Reconnecting(_) => 2 + Load(cfg)
  }

  /** No step brings anyone closer by more than one, whatever the scenario. */
  lemma StepGainsOne(c: Cluster, k: nat)
    requires Valid(c) && k < |c.clients|
    ensures Least(c.config, c.tick, c.clients[k].state) <= Least(c.config, c.tick + 1, Step(c).clients[k].state) + 1
  {
    NoShortcuts(c, k);
    Parity(c.tick + 1);
    NoReturn(c, k);
    hide Step, Valid;
    assert 0 <= c.tick % 2 <= 1;
  }

  lemma NoReturn(c: Cluster, k: nat)
    requires Valid(c) && k < |c.clients|
    ensures !Step(c).clients[k].state.Disconnected?
    ensures Step(c).clients[k].state.Handshake? && c.clients[k].state.Handshake? ==>
              Step(c).clients[k].state.attempt == c.clients[k].state.attempt + 1 && c.clients[k].state.attempt < 2
    ensures Step(c).clients[k].state.Handshake? && !c.clients[k].state.Handshake? ==> Step(c).clients[k].state.attempt == 1
    ensures c.clients[k].state.InQueue? ==> c.clients[k].state.position > 0
  {
    var l := StepAt(c, k);
    PromotedState(c.(tick := c.tick + 1), k);
    ClientTick(c.config, c.tick + 1, l);
    hide Step, StepClient, Promote, QueueOk;
  }

  /** Nobody is in the world before step 3 + manifest, whatever the scenario ... */
  lemma {:induction false} NotBefore(config: Config, n: nat, k: nat)
    requires k < config.clientCount
    ensures Least(config, n, Run(Start(config), n).clients[k].state) + n >= 3 + Load(config)
    ensures Run(Start(config), n).clients[k].state.InWorld? ==> n >= 3 + Load(config)
  {
    hide Step, Valid;
    if n > 0 {
      NotBefore(config, n - 1, k);
      StartIsValid(config);
      RunKeepsValid(Start(config), n - 1);
      StepGainsOne(Run(Start(config), n - 1), k);
    }
  }

  /** ... and without a queue and disconnects everybody is, exactly from there on. */
  lemma InWorldIff(config: Config, n: nat, k: nat)
    requires k < config.clientCount && config.queueDepth == 0 && config.disconnect == 0
    ensures Run(Start(config), n).clients[k].state.InWorld? <==> n >= 3 + Load(config)
  {
    hide Run;
    NotBefore(config, n, k);
    if n >= 3 + Load(config) {
      EveryoneReachesWorld(config, n, k);
    }
  }

  /** Until then a client has done nothing but count its ticks. */
  lemma {:induction false} NothingBefore(config: Config, n: nat, k: nat)
    requires k < config.clientCount && n <= 3 + Load(config)
    ensures var c := Run(Start(config), n).clients[k];
            c.id == k && c.ticksActive == n && c.sent == c.received == c.dropped == 0 && c.reconnects == 0
            && !c.state.Reconnecting?
  {
    hide Step, Valid;
    if n > 0 {
      NothingBefore(config, n - 1, k);
      NotBefore(config, n - 1, k);
      StartIsValid(config);
      RunKeepsValid(Start(config), n - 1);
      CountersAt(Run(Start(config), n - 1), k);
    }
  }

  lemma CountersAt(c: Cluster, k: nat)
    requires Valid(c) && k < |c.clients|
    ensures var a, b := c.clients[k], Step(c).clients[k];
            && b.id == a.id && b.ticksActive == a.ticksActive + 1
            && b.sent == a.sent + (if a.state.InWorld? && b.state.InWorld? then 1 else 0)
            && b.received + b.dropped == a.received + a.dropped + (b.sent - a.sent)
            && b.reconnects == a.reconnects + (if a.state.Reconnecting? && b.state.Handshake? then 1 else 0)
            && (b.state.Reconnecting? ==> a.state.Reconnecting? || a.state.InWorld?)
  {
    NoShortcuts(c, k);
    var l := StepAt(c, k);
    PromotedClient(c.(tick := c.tick + 1), k);
    ClientCounters(c.config, c.tick + 1, l);
    NewlyLoadedSendsNothing(c.config, c.tick + 1, l);
    hide Step, StepClient, Promote, Valid, QueueOk;
  }

  /** A promotion changes nothing but the state, and puts nobody into the world. */
  lemma PromotedClient(d: Cluster, k: nat)
    requires Valid(d) && k < |d.clients|
    ensures var a, b := d.clients[k], Promote(d).clients[k];
            && b == a.(state := b.state)
            && (b.state.InWorld? <==> a.state.InWorld?) && (b.state.Reconnecting? <==> a.state.Reconnecting?)
  {
    hide Promote, QueueOk;
    PromoteFrame(d);
    if d.waitlist != [] && d.tick % 2 == 0 {
      PromoteAt(d, k);
    }
  }

  lemma NewlyLoadedSendsNothing(cfg: Config, tick: nat, l: Local)
    ensures !l.client.state.InWorld? ==> StepClient(cfg, tick, l).client.sent == l.client.sent
  {
    hide StepInWorld;
  }

  // ---------- The draws of a tick in the world ----------

  /** The `n`-th draw from a state. */
  function Roll(rng: bv64, n: nat, bound: nat): nat {
    Xorshift.Draw(Xorshift.After(rng, n), bound)
  }

  /**
   Which draws decide what: the first whether the client is disconnected, the second and third its movement, the next
   and the one after that a change of dimension if there are several, and the last whether the event is lost.
   */
  lemma WorldTick(cfg: Config, tick: nat, l: Local)
    requires l.client.state.InWorld?
    ensures var t := StepClient(cfg, tick, l);
            var several := cfg.dimensions > 1;
            var moves := several && Roll(l.rng, 4, 100) == 0;
            var last := if moves then 6 else if several then 5 else 4;
            if Roll(l.rng, 1, 1000) < cfg.disconnect then
              t.client.state == Reconnecting(tick + 5) && t.rng == Xorshift.After(l.rng, 1)
            else
              && t.client.state == InWorld(if moves then Roll(l.rng, 5, cfg.dimensions) else l.client.state.dimension)
              && t.rng == Xorshift.After(l.rng, last)
              && t.client.dropped == l.client.dropped + (if Roll(l.rng, last, 1000) < cfg.packetLoss then 1 else 0)
  {
    DrawsUnfold(l.rng);
    hide Xorshift.Next, Xorshift.Draw, Xorshift.After;
  }

  lemma DrawsUnfold(x: bv64)
    ensures Xorshift.After(x, 1) == Xorshift.Next(x)
    ensures Xorshift.After(x, 2) == Xorshift.Next(Xorshift.After(x, 1))
    ensures Xorshift.After(x, 3) == Xorshift.Next(Xorshift.After(x, 2))
    ensures Xorshift.After(x, 4) == Xorshift.Next(Xorshift.After(x, 3))
    ensures Xorshift.After(x, 5) == Xorshift.Next(Xorshift.After(x, 4))
    ensures Xorshift.After(x, 6) == Xorshift.Next(Xorshift.After(x, 5))
  {
    hide Xorshift.Next;
    assert Xorshift.After(x, 0) == x;
  }

  // ---------- Over whole runs ----------

  /**
   A loss rate of 0 drops nothing, one of 1000 per mille everything; no disconnect rate means no reconnect, and one of
   1000 that nothing is ever sent.
   */
  ghost predicate RatesOk(cfg: Config, c: Client) {
    && (cfg.packetLoss == 0 ==> c.dropped == 0)
    && (cfg.packetLoss >= 1000 ==> c.received == 0)
    && (cfg.disconnect == 0 ==> c.reconnects == 0 && !c.state.Reconnecting?)
    && (cfg.disconnect >= 1000 ==> c.sent == 0)
  }

  lemma StepClientRates(cfg: Config, tick: nat, s: Local)
    requires RatesOk(cfg, s.client)
    ensures RatesOk(cfg, StepClient(cfg, tick, s).client)
  {
    hide Xorshift.Next, Xorshift.Draw;
  }

  lemma StepRates(c: Cluster, k: nat)
    requires Valid(c) && k < |c.clients| && RatesOk(c.config, c.clients[k])
    ensures RatesOk(c.config, Step(c).clients[k])
  {
    hide Promote, StepFrom, QueueOk, StepClient;
    var d := c.(tick := c.tick + 1);
    PromoteFrame(d);
    PromoteKeepsValid(d);
    if d.waitlist != [] && d.tick % 2 == 0 {
      PromoteAt(d, k);
    }
    var e := Promote(d);
    var l := StepFromAt(e, 0, k);
    StepClientRates(e.config, e.tick, l);
  }

  lemma {:induction false} RunRates(config: Config, n: nat, k: nat)
    requires k < config.clientCount
    ensures RatesOk(config, Run(Start(config), n).clients[k])
  {
    hide Step, Valid;
    if n > 0 {
      RunRates(config, n - 1, k);
      StartIsValid(config);
      RunKeepsValid(Start(config), n - 1);
      StepRates(Run(Start(config), n - 1), k);
    }
  }

  lemma {:induction false} StepFromBounded(c: Cluster, i: nat)
    requires i <= |c.clients| && |c.waitlist| <= c.config.queueDepth
    ensures |StepFrom(c, i).waitlist| <= c.config.queueDepth && StepFrom(c, i).config == c.config
    decreases |c.clients| - i
  {
    if i < |c.clients| {
      var l := Local(c.clients[i], c.rng, c.waitlist);
      JoinBounded(c.config, c.tick, l);
      hide StepClient;
      var s := StepClient(c.config, c.tick, l);
      StepFromBounded(c.(clients := c.clients[i := s.client], rng := s.rng, waitlist := s.waitlist), i + 1);
    }
  }

  lemma JoinBounded(cfg: Config, tick: nat, l: Local)
    requires |l.waitlist| <= cfg.queueDepth
    ensures |StepClient(cfg, tick, l).waitlist| <= cfg.queueDepth
  {
    hide Xorshift.Next, Xorshift.Draw;
  }

  lemma {:induction false} QueueIsBounded(config: Config, n: nat)
    ensures |Run(Start(config), n).waitlist| <= config.queueDepth && Run(Start(config), n).config == config
  {
    hide Promote, StepFrom;
    if n > 0 {
      QueueIsBounded(config, n - 1);
      var c := Run(Start(config), n - 1);
      PromoteFrame(c.(tick := c.tick + 1));
      StepFromBounded(Promote(c.(tick := c.tick + 1)), 0);
    }
  }

  /**
   After any number of steps of any scenario: the waitlist has no duplicates and mirrors the queued clients, every
   client has sent what it received plus what was dropped, losses and reconnects respect the scenario's rates, the
   queue is within its depth, and the generator is not stuck at 0.
   */
  lemma EveryRun(config: Config, n: nat)
    ensures var c := Run(Start(config), n);
            && NoDuplicates(c.waitlist)
            && (forall i, p: nat :: 0 <= i < |c.clients| ==>
                  (c.clients[i].state == InQueue(p) <==> 0 < p <= |c.waitlist| && c.waitlist[p - 1] == i))
            && (forall i :: 0 <= i < |c.clients| ==> ClientOk(config, c.clients[i]) && RatesOk(config, c.clients[i]))
            && |c.waitlist| <= config.queueDepth
            && c.rng != 0
  {
    QueueIsBounded(config, n);
    hide Run, QueueOk, RatesOk;
    StartIsValid(config);
    RunKeepsValid(Start(config), n);
    var c := Run(Start(config), n);
    QueueMirrorsClients(c.clients, c.waitlist);
    forall i | 0 <= i < |c.clients|
      ensures RatesOk(config, c.clients[i])
    {
      RunRates(config, n, i);
    }
  }

  // ---------- Metrics ----------

  datatype Metrics = Metrics(tick: nat, sent: nat, received: nat, dropped: nat,
                             inWorld: nat, inQueue: nat, reconnecting: nat)

  /** Indices of the first `n` clients whose state satisfies `p`. */
  ghost function Those(clients: seq<Client>, n: nat, p: SimState -> bool): set<int>
    requires n <= |clients|
  {
    set i | 0 <= i < n && p(clients[i].state)
  }

  const QUEUED: SimState -> bool := (s: SimState) => s.InQueue?
  const IN_WORLD: SimState -> bool := (s: SimState) => s.InWorld?
  const RECONNECTING: SimState -> bool := (s: SimState) => s.Reconnecting?

  /** Sum of a counter over all clients. */
  ghost function Total(clients: seq<Client>, counter: Client -> nat): nat {
    if clients == [] then 0 else Total(clients[..|clients| - 1], counter) + counter(clients[|clients| - 1])
  }

  const SENT: Client -> nat := (c: Client) => c.sent
  const RECEIVED: Client -> nat := (c: Client) => c.received
  const DROPPED: Client -> nat := (c: Client) => c.dropped

  lemma OneMore(clients: seq<Client>, i: nat, p: SimState -> bool, counter: Client -> nat)
    requires i < |clients|
    ensures |Those(clients, i + 1, p)| == |Those(clients, i, p)| + if p(clients[i].state) then 1 else 0
    ensures Total(clients[..i + 1], counter) == Total(clients[..i], counter) + counter(clients[i])
  {
    assert Those(clients, i + 1, p) == Those(clients, i, p) + if p(clients[i].state) then {i as int} else {};
    assert clients[..i + 1][..i] == clients[..i];
  }

  ghost function Elements(q: seq<nat>): set<int> {
    set k | 0 <= k < |q| :: q[k] as int
  }

  lemma QueueLength(clients: seq<Client>, q: seq<nat>)
    requires QueueOk(clients, q)
    ensures |Those(clients, |clients|, QUEUED)| == |q|
  {
    QueueMirrorsClients(clients, q);
    ElementCount(q);
    forall i | i in Those(clients, |clients|, QUEUED)
      ensures i in Elements(q)
    {
      assert q[clients[i].state.position - 1] == i;
    }
    assert Those(clients, |clients|, QUEUED) == Elements(q);
  }

  lemma {:induction false} ElementCount(q: seq<nat>)
    requires NoDuplicates(q)
    ensures |Elements(q)| == |q|
  {
    if q == [] {
      assert Elements(q) == {};
    } else {
      var init, last := q[..|q| - 1], q[|q| - 1];
      ElementCount(init);
      assert Elements(q) == Elements(init) + {last as int} && last as int !in Elements(init);
    }
  }

  // ---------- The object ----------

  class SimulationCluster {
    var config: Config
    var rng: bv64
    var clients: seq<Client>
    var currentTick: nat
    var waitlist: seq<nat>

    ghost function State(): Cluster
      reads this
    {
      Cluster(config, rng, clients, currentTick, waitlist)
    }

    constructor (config: Config)
      ensures State() == Start(config) && Valid(State())
    {
      this.config := config;
      rng := Xorshift.Seeded(config.seed);
      clients := seq(config.clientCount, (i: nat) => NewClient(i));
      currentTick, waitlist := 0, [];
      new;
      StartIsValid(config);
    }

    method Advance()
      requires Valid(State())
      modifies this
      ensures State() == Step(old(State())) && Valid(State())
    {
      hide Valid, Promote, StepFrom, QueueOk;
      StepKeepsValid(State());
      currentTick := currentTick + 1;
      PromoteQueue();
      StepClients();
    }

    method PromoteQueue()
      modifies this`clients, this`waitlist
      ensures State() == Promote(old(State()))
    {
      if waitlist != [] && currentTick % 2 == 0 {
        var promoted := waitlist[0];
        waitlist := waitlist[1..];
        var i := Find(clients, promoted);
        if i >= 0 && clients[i].state.InQueue? {
          clients := clients[i := clients[i].(state := ResourceNegotiation(config.manifest, 0))];
        }
        ghost var admitted := clients;
        for k := 0 to |waitlist|
          invariant waitlist == old(waitlist)[1..]
          invariant Renumber(admitted, waitlist, 0) == Renumber(clients, waitlist, k)
        {
          clients := SetState(clients, waitlist[k], InQueue(k + 1));
        }
      }
    }

    method StepClients()
      modifies this`clients, this`waitlist, this`rng
      ensures State() == StepFrom(old(State()), 0)
    {
      hide StepClient;
      ghost var start := State();
      var n := |clients|;
      for i := 0 to n
        invariant |clients| == n
        invariant StepFrom(start, 0) == StepFrom(State(), i)
      {
        var s := StepClient(config, currentTick, Local(clients[i], rng, waitlist));
        clients, rng, waitlist := clients[i := s.client], s.rng, s.waitlist;
      }
    }

    /** The summary is the clients' totals; what it counts as queued is the waitlist, and its events balance. */
    method ComputeMetrics() returns (m: Metrics)
      requires Valid(State())
      ensures m.tick == currentTick
      ensures m.sent == Total(clients, SENT) && m.received == Total(clients, RECEIVED) && m.dropped == Total(clients, DROPPED)
      ensures m.sent == m.received + m.dropped
      ensures m.inQueue == |Those(clients, |clients|, QUEUED)| == |waitlist|
      ensures m.inWorld == |Those(clients, |clients|, IN_WORLD)|
      ensures m.reconnecting == |Those(clients, |clients|, RECONNECTING)|
    {
      hide QueueOk, Those, Total;
      QueueLength(clients, waitlist);
      NobodyYet(clients);
      m := Metrics(currentTick, 0, 0, 0, 0, 0, 0);
      for i := 0 to |clients|
        invariant m.tick == currentTick && m.sent == m.received + m.dropped
        invariant m.sent == Total(clients[..i], SENT) && m.received == Total(clients[..i], RECEIVED)
        invariant m.dropped == Total(clients[..i], DROPPED)
        invariant m.inQueue == |Those(clients, i, QUEUED)| && m.inWorld == |Those(clients, i, IN_WORLD)|
        invariant m.reconnecting == |Those(clients, i, RECONNECTING)|
      {
        var c := clients[i];
        assert ClientOk(config, c);
        OneMore(clients, i, QUEUED, SENT);
        OneMore(clients, i, IN_WORLD, RECEIVED);
        OneMore(clients, i, RECONNECTING, DROPPED);
        m := m.(sent := m.sent + c.sent, received := m.received + c.received, dropped := m.dropped + c.dropped);
        match c.state
        case InWorld(_) => m := m.(inWorld := m.inWorld + 1);
        case InQueue(_) => m := m.(inQueue := m.inQueue + 1);
        case Reconnecting(_) => m := m.(reconnecting := m.reconnecting + 1);
        case _ =>
      }
      assert clients[..|clients|] == clients;
    }
  }

  lemma NobodyYet(clients: seq<Client>)
    ensures forall p: SimState -> bool :: Those(clients, 0, p) == {}
    ensures forall counter: Client -> nat :: Total(clients[..0], counter) == 0
  {
  }
}
