/**
 The three registries together: modules, resources and events over whole runs of additions, registrations,
 subscriptions and clean-ups (module_utils.c, resource_reg.c, event.c and `cleanup_app_resource` in module_wasm_app.c,
 all under core/app-mgr/app-manager).
 */
module AppManager {
  import opened Bytes
  import opened Modules
  import Resources
  import Events

  datatype State = State(idMax: uint32, modules: seq<Module>, resources: seq<Resources.Resource>,
                         events: seq<Events.Event>)

  datatype Op =
    | Add(address: nat, name: seq<byte>)
    | Register(resource: Resources.Resource)
    | Subscribe(client: uint32, url: seq<byte>)
    | Unsubscribe(client: uint32, url: seq<byte>)
    | Cleanup(address: nat)

  const START := State(FIRST_ID, [], [], [])

  function AtAddress(ms: seq<Module>, address: nat): nat {
    IndexOf(ms, (m: Module) => m.address == address)
  }

  /** `cleanup_app_resource` as far as the registries go. */
  function CleanedUp(s: State, k: nat): State
    requires k < |s.modules|
  {
    var id := s.modules[k].id;
    State(s.idMax, s.modules[..k] + s.modules[k + 1..], Resources.Without(s.resources, id),
          Events.Unsubscribe(s.events, None, id))
  }

  predicate CounterOk(s: State) {
    FIRST_ID <= s.idMax <= ID_LIMIT
  }

  function Step(s: State, op: Op): (t: State)
    requires CounterOk(s)
    ensures CounterOk(t)
  {
    match op
    case Add(a, name) => var id := NextId(s.idMax); s.(idMax := id + 1, modules := [Module(a, id, name)] + s.modules)
    case Register(r) => s.(resources := Resources.Register(s.resources, r))
    case Subscribe(c, url) => if url == [] then s else s.(events := Events.Subscribe(s.events, url, c))
    case Unsubscribe(c, url) => s.(events := Events.Unsubscribe(s.events, Some(url), c))
    case Cleanup(a) => var k := AtAddress(s.modules, a); if k < |s.modules| then CleanedUp(s, k) else s
  }

  function Run(ops: seq<Op>): (s: State)
    ensures CounterOk(s)
  {
    if ops == [] then START else Step(Run(ops[..|ops| - 1]), ops[|ops| - 1])
  }

  predicate Special(id: uint32) {
    id == ID_HOST || id == ID_APP_MGR || id == ID_NONE
  }

  predicate Known(ms: seq<Module>, id: uint32) {
    Special(id) || Live(ms, id)
  }

  /** A new record has an address of its own; only live modules, the host and the manager register or subscribe. */
  predicate Allowed(s: State, op: Op) {
    match op
    case Add(a, _) => !Present(s.modules, a)
    case Register(r) => Known(s.modules, r.owner)
    case Subscribe(c, _) => Known(s.modules, c)
    case Unsubscribe(_, _) => true
    case Cleanup(a) => Present(s.modules, a)
  }

  predicate AllowedRun(ops: seq<Op>) {
    forall j | 0 <= j < |ops| :: Allowed(Run(ops[..j]), ops[j])
  }

  predicate OwnersKnown(ms: seq<Module>, rs: seq<Resources.Resource>) {
    forall i | 0 <= i < |rs| :: Known(ms, rs[i].owner)
  }

  ghost predicate ClientsKnown(ms: seq<Module>, es: seq<Events.Event>) {
    forall p | p in Events.Pairs(es) :: Known(ms, p.1)
  }

  predicate ProperIds(ms: seq<Module>) {
    UniqueAddresses(ms) && forall i | 0 <= i < |ms| :: FIRST_ID <= ms[i].id < ID_LIMIT && !Special(ms[i].id)
  }

  /** What holds between operations. */
  ghost predicate Inv(s: State) {
    && ProperIds(s.modules) && Resources.Wf(s.resources) && Events.Wf(s.events)
    && OwnersKnown(s.modules, s.resources) && ClientsKnown(s.modules, s.events)
  }

  lemma KnownStays(ms: seq<Module>, m: Module, id: uint32)
    requires Known(ms, id)
    ensures Known([m] + ms, id)
  {
    if i: nat :| i < |ms| && ms[i].id == id {
      assert ([m] + ms)[i + 1].id == id;
    }
  }

  lemma AddKeeps(s: State, a: nat, name: seq<byte>)
    requires CounterOk(s) && Inv(s) && !Present(s.modules, a)
    ensures Inv(Step(s, Add(a, name)))
  {
    hide Known, Resources.Wf, Events.Wf, Events.Pairs;
    var m := Module(a, NextId(s.idMax), name);
    var ms := [m] + s.modules;
    forall i | 0 <= i < |s.resources| ensures Known(ms, s.resources[i].owner) {
      KnownStays(s.modules, m, s.resources[i].owner);
    }
    forall p | p in Events.Pairs(s.events) ensures Known(ms, p.1) {
      KnownStays(s.modules, m, p.1);
    }
  }

  lemma RegisterKeeps(s: State, r: Resources.Resource)
    requires CounterOk(s) && Inv(s) && Known(s.modules, r.owner)
    ensures Inv(Step(s, Register(r)))
  {
    hide Known, ProperIds, Resources.Wf, Events.Wf, Events.Pairs, Resources.Accepts;
    Resources.RegisterWf(s.resources, r);
  }

  lemma SubscribeKeeps(s: State, c: uint32, url: seq<byte>)
    requires CounterOk(s) && Inv(s) && Known(s.modules, c)
    ensures Inv(Step(s, Subscribe(c, url)))
  {
    hide Known, ProperIds, Resources.Wf, Events.Wf, Events.Pairs, Events.Subscribe;
    if url != [] {
      Events.SubscribeWf(s.events, url, c);
      Events.SubscribeAddsPair(s.events, url, c);
    }
  }

  lemma UnsubscribeKeeps(s: State, c: uint32, url: seq<byte>)
    requires CounterOk(s) && Inv(s)
    ensures Inv(Step(s, Unsubscribe(c, url)))
  {
    hide Known, ProperIds, Resources.Wf, Events.Wf, Events.Pairs, Events.Unsubscribe;
    Events.UnsubscribeWf(s.events, Some(url), c);
    Events.UnsubscribeRemovesPairs(s.events, Some(url), c);
  }

  /** Whoever is not the module taken out stays known. */
  lemma KnownWithout(ms: seq<Module>, k: nat, id: uint32)
    requires k < |ms| && Known(ms, id) && id != ms[k].id
    ensures Known(ms[..k] + ms[k + 1..], id)
  {
    var ms' := ms[..k] + ms[k + 1..];
    if i: nat :| i < |ms| && ms[i].id == id {
      assert ms'[if i < k then i else i - 1].id == id;
    }
  }

  lemma ModulesWithout(ms: seq<Module>, k: nat)
    requires k < |ms| && ProperIds(ms)
    ensures ProperIds(ms[..k] + ms[k + 1..])
  {
  }

  lemma CleanupKeeps(s: State, k: nat)
    requires Inv(s) && k < |s.modules|
    ensures Inv(CleanedUp(s, k))
  {
    hide Known, ProperIds, Resources.Wf, Events.Wf, Events.Pairs, Events.Unsubscribe, Resources.Without;
    var id, t := s.modules[k].id, CleanedUp(s, k);
    ModulesWithout(s.modules, k);
    Resources.WithoutWf(s.resources, id);
    var ix := Resources.WithoutKeepsOrder(s.resources, id);
    forall i | 0 <= i < |t.resources| ensures Known(t.modules, t.resources[i].owner) {
      assert t.resources[i] == s.resources[ix[i]];
      KnownWithout(s.modules, k, t.resources[i].owner);
    }
    Events.UnsubscribeWf(s.events, None, id);
    Events.UnsubscribeRemovesPairs(s.events, None, id);
    forall p | p in Events.Pairs(t.events) ensures Known(t.modules, p.1) {
      KnownWithout(s.modules, k, p.1);
    }
  }

  lemma StepKeeps(s: State, op: Op)
    requires CounterOk(s) && Inv(s) && Allowed(s, op)
    ensures Inv(Step(s, op))
  {
    hide Inv;
    match op
    case Add(a, name) => AddKeeps(s, a, name);
    case Register(r) => RegisterKeeps(s, r);
    case Subscribe(c, url) => SubscribeKeeps(s, c, url);
    case Unsubscribe(c, url) => UnsubscribeKeeps(s, c, url);
    case Cleanup(a) =>
      var k := AtAddress(s.modules, a);
      if k < |s.modules| {
        CleanupKeeps(s, k);
      }
  }

  /**
   Referential integrity over every run: each owner in the resource and event lists is a live module or a reserved id;
   ids are in range; resource and event lists stay well formed.
   */
  lemma {:induction false} RunKeeps(ops: seq<Op>)
    requires AllowedRun(ops)
    ensures Inv(Run(ops))
  {
    if ops != [] {
      var before, last := ops[..|ops| - 1], ops[|ops| - 1];
      assert forall j | 0 <= j < |before| :: before[..j] == ops[..j] && before[j] == ops[j];
      RunKeeps(before);
      assert Allowed(Run(before), last);
      StepKeeps(Run(before), last);
    } else {
      assert Inv(START);
    }
  }

  // Ids

  function Additions(ops: seq<Op>): nat {
    if ops == [] then 0 else Additions(ops[..|ops| - 1]) + if ops[|ops| - 1].Add? then 1 else 0
  }

  /** The counter has not come round: it is past every id given out. */
  predicate Counting(s: State, n: nat) {
    s.idMax == n + 1 && UniqueIds(s.modules) && forall i | 0 <= i < |s.modules| :: s.modules[i].id <= n
  }

  lemma CountingStep(s: State, op: Op, n: nat)
    requires CounterOk(s) && Counting(s, n)
    requires op.Add? ==> n + 1 < ID_LIMIT
    ensures Counting(Step(s, op), if op.Add? then n + 1 else n)
  {
  }

  /** Ids are unique as long as no more than 0xFFFFFFEF modules have been added. */
  lemma {:induction false} IdsUnique(ops: seq<Op>)
    requires Additions(ops) <= 0xFFFF_FFEF
    ensures Counting(Run(ops), Additions(ops))
  {
    hide Counting;
    if ops == [] {
      assert Counting(START, 0) by {
        StartCounts();
      }
    } else {
      IdsUnique(ops[..|ops| - 1]);
      CountingStep(Run(ops[..|ops| - 1]), ops[|ops| - 1], Additions(ops[..|ops| - 1]));
    }
  }

  lemma StartCounts()
    ensures Counting(START, 0)
  {
  }

  predicate OnlyAdds(ops: seq<Op>) {
    forall i | 0 <= i < |ops| :: ops[i].Add?
  }

  /** The bound is sharp: modules that are only added have unique ids exactly up to that many. */
  lemma {:induction false} IdsUniqueExactlyWhen(ops: seq<Op>)
    requires OnlyAdds(ops)
    ensures UniqueIds(Run(ops).modules) <==> |ops| <= 0xFFFF_FFEF
  {
    hide Run;
    if |ops| < ID_LIMIT {
      AddsCount(ops);
      IdsUnique(ops);
    } else {
      RepeatedId(ops);
    }
  }

  lemma {:induction false} AddsCount(ops: seq<Op>)
    requires OnlyAdds(ops)
    ensures Additions(ops) == |ops| == |Run(ops).modules|
  {
    if ops != [] {
      AddsCount(ops[..|ops| - 1]);
    }
  }

  /** The first module of a run of additions keeps id 1. */
  lemma {:induction false} FirstKeepsId(ops: seq<Op>)
    requires OnlyAdds(ops) && ops != []
    ensures Run(ops).modules != [] && Run(ops).modules[|Run(ops).modules| - 1].id == FIRST_ID
  {
    var before := ops[..|ops| - 1];
    if before != [] {
      FirstKeepsId(before);
    } else {
      assert Run(before) == START;
    }
  }

  lemma {:induction false} RepeatedId(ops: seq<Op>)
    requires OnlyAdds(ops) && |ops| >= ID_LIMIT
    ensures !UniqueIds(Run(ops).modules)
  {
    var before := ops[..|ops| - 1];
    var ms, added := Run(before).modules, Run(ops).modules;
    assert added[1..] == ms && |added| == |ms| + 1;
    if |before| >= ID_LIMIT {
      RepeatedId(before);
      var i, j :| 0 <= i < j < |ms| && ms[i].id == ms[j].id;
      assert added[i + 1].id == added[j + 1].id;
    } else {
      AddsCount(before);
      IdsUnique(before);
      FirstKeepsId(before);
      assert added[0].id == added[|ms|].id == FIRST_ID;
    }
  }

  // Cleaning up

  /** The URLs a client is subscribed to, in list order. */
  function UrlsOf(es: seq<Events.Event>, c: uint32): seq<seq<byte>> {
    if es == [] then [] else (if c in es[0].subscribers then [es[0].url] else []) + UrlsOf(es[1..], c)
  }

  lemma {:induction false} UrlsOfWithout(es: seq<Events.Event>, c: uint32, other: uint32)
    requires Events.Wf(es)
    ensures UrlsOf(Events.Unsubscribe(es, None, c), other) == if other == c then [] else UrlsOf(es, other)
  {
    hide Events.Removed;
    if es != [] {
      var e, rest := es[0], es[1..];
      assert Events.WfEvent(e);
      UrlsOfWithout(rest, c, other);
      Events.RemovedMeaning(e.subscribers, c);
      var left, after := Events.Left(e, None, c), Events.Unsubscribe(rest, None, c);
      if left == [] {
        assert left + after == after;
        assert other in e.subscribers ==> other == c || other in Events.Removed(e.subscribers, c);
      } else {
        assert (left + after)[1..] == after;
      }
    }
  }

  /** The resources of one owner, in list order. */
  function OwnedBy(rs: seq<Resources.Resource>, owner: uint32): seq<Resources.Resource> {
    if rs == [] then [] else (if rs[0].owner == owner then [rs[0]] else []) + OwnedBy(rs[1..], owner)
  }

  lemma {:induction false} OwnedByWithout(rs: seq<Resources.Resource>, owner: uint32, other: uint32)
    ensures OwnedBy(Resources.Without(rs, owner), other) == if other == owner then [] else OwnedBy(rs, other)
  {
    if rs != [] {
      var r, rest := rs[0], Resources.Without(rs[1..], owner);
      OwnedByWithout(rs[1..], owner, other);
      assert ([r] + rest)[1..] == rest;
      assert [] + rest == rest;
    }
  }

  /**
   After a clean-up nothing is left under the id, and every other id keeps its resources and its subscriptions in
   order. When ids are unique, the id is dead: no other module shared it.
   */
  lemma {:induction false} CleanupLeavesOthers(s: State, k: nat, other: uint32)
    requires Inv(s) && k < |s.modules|
    ensures var t, id := CleanedUp(s, k), s.modules[k].id;
            && OwnedBy(t.resources, other) == (if other == id then [] else OwnedBy(s.resources, other))
            && UrlsOf(t.events, other) == (if other == id then [] else UrlsOf(s.events, other))
            && t.idMax == s.idMax && t.modules == s.modules[..k] + s.modules[k + 1..]
            && (UniqueIds(s.modules) ==> !Live(t.modules, id))
  {
    OwnedByWithout(s.resources, s.modules[k].id, other);
    UrlsOfWithout(s.events, s.modules[k].id, other);
  }

  // Publishing

  datatype Target = Host | ToModule(address: nat)

  /** Where an event for a client goes; a client that is no live module gets nothing. */
  function TargetOf(ms: seq<Module>, c: uint32): seq<Target> {
    if c == ID_HOST then [Host]
    else
      var k := IndexOf(ms, (m: Module) => m.id == c);
      if k < |ms| then [ToModule(ms[k].address)] else []
  }

  function TargetsOf(ms: seq<Module>, clients: seq<uint32>): seq<Target> {
    if clients == [] then [] else TargetOf(ms, clients[0]) + TargetsOf(ms, clients[1..])
  }

  /** `am_publish_event`. */
  function Deliveries(s: State, url: seq<byte>): seq<Target> {
    TargetsOf(s.modules, Events.SubscribersOf(s.events, url))
  }

  /** The client a target stands for. */
  ghost predicate Stands(ms: seq<Module>, t: Target, c: uint32) {
    match t
    case Host => c == ID_HOST
    case ToModule(a) => exists k | 0 <= k < |ms| :: ms[k].address == a && ms[k].id == c
  }

  lemma TargetStands(ms: seq<Module>, t: Target, c: uint32)
    requires ProperIds(ms) && UniqueIds(ms)
    ensures t in TargetOf(ms, c) <==> Stands(ms, t, c)
    ensures |TargetOf(ms, c)| <= 1
  {
    var p := (m: Module) => m.id == c;
    var n := IndexOf(ms, p);
    if t.ToModule? && Stands(ms, t, c) {
      var k :| 0 <= k < |ms| && ms[k].address == t.address && ms[k].id == c;
      assert p(ms[k]);
    }
  }

  lemma StandsForOne(ms: seq<Module>, t: Target, c: uint32, d: uint32)
    requires ProperIds(ms) && Stands(ms, t, c) && Stands(ms, t, d)
    ensures c == d
  {
  }

  lemma {:induction false} TargetsMeaning(ms: seq<Module>, clients: seq<uint32>, t: Target)
    requires ProperIds(ms) && UniqueIds(ms)
    ensures t in TargetsOf(ms, clients) <==> exists i | 0 <= i < |clients| :: Stands(ms, t, clients[i])
  {
    hide TargetOf, Stands, ProperIds, UniqueIds;
    if clients != [] {
      var rest := clients[1..];
      TargetsMeaning(ms, rest, t);
      TargetStands(ms, t, clients[0]);
      if exists i | 0 <= i < |clients| :: Stands(ms, t, clients[i]) {
        var i :| 0 <= i < |clients| && Stands(ms, t, clients[i]);
        if i > 0 {
          assert Stands(ms, t, rest[i - 1]);
        }
      }
      if exists i | 0 <= i < |rest| :: Stands(ms, t, rest[i]) {
        var i :| 0 <= i < |rest| && Stands(ms, t, rest[i]);
        assert Stands(ms, t, clients[i + 1]);
      }
    }
  }

  lemma {:induction false} TargetsDistinct(ms: seq<Module>, clients: seq<uint32>)
    requires ProperIds(ms) && UniqueIds(ms) && Events.Distinct(clients)
    ensures Events.Distinct(TargetsOf(ms, clients))
  {
    hide TargetOf, Stands, ProperIds, UniqueIds;
    if clients != [] {
      var first, rest := TargetOf(ms, clients[0]), clients[1..];
      TargetsDistinct(ms, rest);
      var after := TargetsOf(ms, rest);
      TargetStands(ms, Host, clients[0]);
      if first != [] {
        var t := first[0];
        assert t in first;
        TargetStands(ms, t, clients[0]);
        TargetsMeaning(ms, rest, t);
        forall i | 0 <= i < |rest| ensures !Stands(ms, t, rest[i]) {
          assert clients[0] != clients[i + 1];
          if Stands(ms, t, rest[i]) {
            StandsForOne(ms, t, clients[0], rest[i]);
          }
        }
        assert forall i | 0 <= i < |after| :: after[i] in after;
      }
    }
  }

  /**
   Publishing reaches the host if it subscribed, every live module that subscribed, nothing else, and each of them
   once.
   */
  lemma PublishedExactlyOnce(s: State, url: seq<byte>, t: Target)
    requires Inv(s) && UniqueIds(s.modules)
    ensures Events.Distinct(Deliveries(s, url))
    ensures t in Deliveries(s, url) <==>
            exists c: uint32 :: (url, c) in Events.Pairs(s.events) && Stands(s.modules, t, c)
  {
    hide TargetsOf, Stands, ProperIds, UniqueIds, Events.Pairs, Events.SubscribersOf, Events.Wf;
    var clients := Events.SubscribersOf(s.events, url);
    Events.PairsOfUrl(s.events, url, 0);
    TargetsDistinct(s.modules, clients);
    TargetsMeaning(s.modules, clients, t);
    forall c: uint32 ensures (url, c) in Events.Pairs(s.events) <==> c in clients {
      Events.PairsOfUrl(s.events, url, c);
    }
  }

  /** The registries of the application manager. */
  class Registries {
    const modules: ModuleList
    const resources: Resources.ResourceRegistry
    const events: Events.EventRegistry

    ghost function Abstract(): State
      reads modules, resources, events
    {
      State(modules.idMax, modules.modules, resources.resources, events.events)
    }

    constructor ()
      ensures Abstract() == START
      ensures fresh(modules) && fresh(resources) && fresh(events)
    {
      modules := new ModuleList();
      resources := new Resources.ResourceRegistry();
      events := new Events.EventRegistry();
    }

    /** `app_manager_add_module_data`. */
    method AddModule(address: nat, name: seq<byte>) returns (id: uint32)
      requires CounterOk(Abstract())
      modifies modules
      ensures Abstract() == Step(old(Abstract()), Add(address, name)) && id == modules.modules[0].id
      ensures modules.modules == [Module(address, id, name)] + old(modules.modules) && modules.idMax == id + 1
      ensures id == if old(modules.idMax) == 0xFFFF_FFF0 then 1 else old(modules.idMax)
    {
      id := modules.Add(address, name);
    }

    /** `am_register_resource`. */
    method RegisterResource(url: seq<byte>, handler: nat, owner: uint32) returns (ok: bool)
      requires CounterOk(Abstract())
      modifies resources
      ensures Abstract() == Step(old(Abstract()), Register(Resources.Resource(url, handler, owner)))
      ensures resources.resources ==
              (if ok then [Resources.Resource(url, handler, owner)] else []) + old(resources.resources)
    {
      ok := resources.RegisterResource(url, handler, owner);
    }

    /** `event_handle_event_request` with PUT or DELETE, and `am_register_event` from a module. */
    method HandleEvent(register: bool, url: seq<byte>, client: uint32) returns (ok: bool)
      requires CounterOk(Abstract())
      modifies events
      ensures Abstract() == Step(old(Abstract()), if register then Subscribe(client, url) else Unsubscribe(client, url))
      ensures ok == (register ==> url != [])
      ensures old(Events.Wf(events.events)) ==>
                Events.Pairs(events.events) ==
                if !register then Events.Pairs(old(events.events)) - {(url, client)}
                else if ok then Events.Pairs(old(events.events)) + {(url, client)}
                else Events.Pairs(old(events.events))
    {
      hide Events.Pairs, Events.Wf, Events.Subscribe, Events.Unsubscribe;
      ghost var es := events.events;
      if register {
        ok := events.Register(url, client);
        if ok && Events.Wf(es) {
          Events.SubscribeAddsPair(es, url, client);
        }
      } else {
        events.Unregister(Some(url), client);
        ok := true;
        if Events.Wf(es) {
          Events.UnsubscribeRemovesPairs(es, Some(url), client);
        }
      }
    }

    /** `cleanup_app_resource`: resources first, then subscriptions, then the module itself. */
    method CleanupAppResource(m: Module)
      requires CounterOk(Abstract()) && UniqueAddresses(modules.modules) && m in modules.modules
      modifies modules, resources, events
      ensures Abstract() == Step(old(Abstract()), Cleanup(m.address))
    {
      ghost var ms := modules.modules;
      ghost var k :| 0 <= k < |ms| && ms[k] == m;
      assert AtAddress(ms, m.address) == k by {
        assert ((x: Module) => x.address == m.address)(ms[k]);
      }
      resources.Cleanup(m.id);
      events.Unregister(None, m.id);
      modules.RemoveModule(m.address);
      RemoveMeaning(ms, k);
    }

    /** `am_publish_event` with the handlers it calls. */
    method PublishEvent(url: seq<byte>) returns (sent: seq<Target>)
      ensures sent == Deliveries(Abstract(), url)
    {
      hide TargetOf;
      var clients := events.Publish(url);
      sent := [];
      for i := 0 to |clients|
        invariant sent + TargetsOf(modules.modules, clients[i..]) == TargetsOf(modules.modules, clients)
      {
        assert clients[i..][1..] == clients[i + 1..];
        var t := Deliver(clients[i]);
        sent := sent + t;
      }
    }

    /** One subscriber: the host, or `module_request_handler`, which looks the module up by id. */
    method Deliver(c: uint32) returns (t: seq<Target>)
      ensures t == TargetOf(modules.modules, c)
    {
      t := [];
      if c == ID_HOST {
        t := [Host];
      } else {
        var k := modules.Search((m: Module) => m.id == c);
        if k < |modules.modules| {
          t := [ToModule(modules.modules[k].address)];
        }
      }
    }
  }
}
