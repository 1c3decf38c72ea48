/**
 Request dispatch over whole runs of the registries: `am_dispatch_request` in
 core/app-mgr/app-manager/resource_reg.c against the history of registrations.
 */
module Dispatching {
  import opened Bytes
  import Resources
  import Urls
  import opened AppManager

  /** The operation cleans up a module with this id. */
  predicate Cleans(s: State, op: Op, owner: uint32) {
    op.Cleanup? && var k := AtAddress(s.modules, op.address); k < |s.modules| && s.modules[k].id == owner
  }

  /** Operation `j` registered a resource that no later clean-up of its owner has removed. */
  predicate Surviving(ops: seq<Op>, j: nat) {
    && j < |ops| && ops[j].Register?
    && Resources.Accepts(Run(ops[..j]).resources, ops[j].resource.url, ops[j].resource.owner)
    && forall i | j < i < |ops| :: !Cleans(Run(ops[..i]), ops[i], ops[j].resource.owner)
  }

  /** `at` dates the listed resources: newest first, exactly the surviving registrations. */
  ghost predicate Dated(ops: seq<Op>, rs: seq<Resources.Resource>, at: seq<nat>) {
    && |at| == |rs|
    && (forall k | 0 <= k < |at| :: Surviving(ops, at[k]) && ops[at[k]].resource == rs[k])
    && (forall k, l | 0 <= k < l < |at| :: at[k] > at[l])
    && (forall j: nat | Surviving(ops, j) :: j in at)
  }

  /** What survived before one more operation survives it unless it is cleaned up by it. */
  lemma {:induction false} SurvivingStep(ops: seq<Op>, op: Op, j: nat)
    requires j < |ops|
    ensures Surviving(ops + [op], j) <==> Surviving(ops, j) && !Cleans(Run(ops), op, ops[j].resource.owner)
  {
    hide Run, Cleans;
    var more := ops + [op];
    assert forall i | 0 <= i <= |ops| :: more[..i] == ops[..i];
    assert ops[..|ops|] == ops && more[|ops|] == op;
    assert forall i | 0 <= i < |ops| :: more[i] == ops[i];
    if Surviving(more, j) {
      assert !Cleans(Run(more[..|ops|]), more[|ops|], more[j].resource.owner);
      forall i | j < i < |ops| ensures !Cleans(Run(ops[..i]), ops[i], ops[j].resource.owner) {
        assert !Cleans(Run(more[..i]), more[i], more[j].resource.owner);
      }
    }
  }

  lemma {:induction false} SurvivingNew(ops: seq<Op>, op: Op)
    ensures Surviving(ops + [op], |ops|) <==>
              op.Register? && Resources.Accepts(Run(ops).resources, op.resource.url, op.resource.owner)
  {
    hide Run, Cleans, Resources.Accepts;
    assert (ops + [op])[..|ops|] == ops;
  }

  /** A registration that is accepted is dated by its operation. */
  lemma {:induction false} DateNew(ops: seq<Op>, op: Op, rs: seq<Resources.Resource>, at: seq<nat>)
    requires Dated(ops, rs, at) && op.Register? && rs == Run(ops).resources
    requires Resources.Accepts(rs, op.resource.url, op.resource.owner)
    ensures Dated(ops + [op], [op.resource] + rs, [|ops|] + at)
  {
    hide Run, Surviving, Resources.Accepts, Cleans;
    var more, at', rs' := ops + [op], [|ops|] + at, [op.resource] + rs;
    SurvivingNew(ops, op);
    AllBefore(ops, rs, at);
    assert forall k | 1 <= k < |at'| :: at'[k] == at[k - 1] && rs'[k] == rs[k - 1];
    forall k | 0 <= k < |at'| ensures Surviving(more, at'[k]) && more[at'[k]].resource == rs'[k] {
      if k > 0 {
        SurvivingStep(ops, op, at[k - 1]);
        NotCleaning(Run(ops), op, rs[k - 1].owner);
      }
    }
    forall k, l | 0 <= k < l < |at'| ensures at'[k] > at'[l] {
      if k > 0 {
        assert at[k - 1] > at[l - 1];
      }
    }
    forall j: nat | Surviving(more, j) ensures j in at' {
      NothingUndated(ops, op, at, j);
    }
  }

  lemma {:induction false} NothingUndated(ops: seq<Op>, op: Op, at: seq<nat>, j: nat)
    requires (forall i: nat | Surviving(ops, i) :: i in at) && Surviving(ops + [op], j)
    ensures j in [|ops|] + at
  {
    hide Run, Surviving;
    SurvivingIsOp(ops + [op], j);
    if j < |ops| {
      SurvivingStep(ops, op, j);
    } else {
      assert ([|ops|] + at)[0] == j;
    }
  }

  lemma NotCleaning(s: State, op: Op, owner: uint32)
    requires op.Register?
    ensures !Cleans(s, op, owner)
  {
  }

  lemma SurvivingIsOp(ops: seq<Op>, j: nat)
    requires Surviving(ops, j)
    ensures j < |ops| && ops[j].Register?
  {
  }

  lemma AllBefore(ops: seq<Op>, rs: seq<Resources.Resource>, at: seq<nat>)
    requires Dated(ops, rs, at)
    ensures forall k | 0 <= k < |at| :: at[k] < |ops| && ops[at[k]].Register?
  {
    hide Surviving;
    forall k | 0 <= k < |at| ensures at[k] < |ops| && ops[at[k]].Register? {
      SurvivingIsOp(ops, at[k]);
    }
  }

  /** An operation that neither registers nor cleans up changes no date. */
  lemma {:induction false} DateSame(ops: seq<Op>, op: Op, rs: seq<Resources.Resource>, at: seq<nat>)
    requires Dated(ops, rs, at) && rs == Run(ops).resources
    requires forall owner: uint32 :: !Cleans(Run(ops), op, owner)
    requires op.Register? ==> !Resources.Accepts(rs, op.resource.url, op.resource.owner)
    ensures Dated(ops + [op], rs, at)
  {
    hide Run, Surviving, Resources.Accepts, Cleans;
    var more := ops + [op];
    AllBefore(ops, rs, at);
    SurvivingNew(ops, op);
    forall k | 0 <= k < |at| ensures Surviving(more, at[k]) && more[at[k]].resource == rs[k] {
      SurvivingStep(ops, op, at[k]);
    }
    forall j: nat | Surviving(more, j) ensures j in at {
      SurvivingIsOp(more, j);
      if j < |ops| {
        SurvivingStep(ops, op, j);
      }
    }
  }

  function Picked(at: seq<nat>, ix: seq<nat>): (r: seq<nat>)
    requires forall k | 0 <= k < |ix| :: ix[k] < |at|
    ensures |r| == |ix| && forall k | 0 <= k < |ix| :: r[k] == at[ix[k]]
  {
    seq(|ix|, k requires 0 <= k < |ix| => at[ix[k]])
  }

  /** A clean-up keeps the dates of the other owners' resources. */
  lemma {:induction false} DateCleaned(ops: seq<Op>, op: Op, owner: uint32, rs: seq<Resources.Resource>, at: seq<nat>)
    returns (at': seq<nat>)
    requires Dated(ops, rs, at) && op.Cleanup? && Cleans(Run(ops), op, owner)
    ensures Dated(ops + [op], Resources.Without(rs, owner), at')
  {
    hide Run, Surviving, Resources.Without;
    var more := ops + [op];
    var ix := Resources.WithoutKeepsOrder(rs, owner);
    at' := Picked(at, ix);
    AllBefore(ops, rs, at);
    forall k | 0 <= k < |ix| ensures Surviving(more, at'[k]) && more[at'[k]].resource == rs[ix[k]] {
      SurvivingStep(ops, op, at[ix[k]]);
    }
    SurvivingNew(ops, op);
    forall j: nat | Surviving(more, j) ensures j in at' {
      SurvivingIsOp(more, j);
      SurvivingStep(ops, op, j);
      var k :| 0 <= k < |at| && at[k] == j;
      assert rs[k].owner != owner && k in ix;
      var l :| 0 <= l < |ix| && ix[l] == k;
      assert at'[l] == j;
    }
  }

  /** After every run the list is dated: newest first, and exactly what survives. */
  lemma {:induction false} RunDated(ops: seq<Op>) returns (at: seq<nat>)
    ensures Dated(ops, Run(ops).resources, at)
  {
    hide Dated, Resources.Accepts, Resources.Without;
    if ops == [] {
      at := [];
      NothingDated();
    } else {
      var before, op := ops[..|ops| - 1], ops[|ops| - 1];
      assert ops == before + [op];
      var s := Run(before);
      at := RunDated(before);
      if op.Register? && Resources.Accepts(s.resources, op.resource.url, op.resource.owner) {
        DateNew(before, op, s.resources, at);
        at := [|before|] + at;
      } else if op.Cleanup? && AtAddress(s.modules, op.address) < |s.modules| {
        at := DateCleaned(before, op, s.modules[AtAddress(s.modules, op.address)].id, s.resources, at);
      } else {
        DateSame(before, op, s.resources, at);
      }
    }
  }

  lemma NothingDated()
    ensures Dated([], [], [])
  {
  }

  /** A request URL is for a resource: its path, slashes at the ends dropped, is a whole-segment prefix. */
  ghost predicate For(r: Resources.Resource, url: seq<byte>) {
    Urls.Path(r.url) != [] && Urls.WholeSegmentPrefix(Urls.Path(r.url), Urls.Rooted(url))
  }

  lemma MatchesIsFor(r: Resources.Resource, url: seq<byte>)
    ensures Resources.Matches(r, url) <==> For(r, url)
  {
    hide Urls.CheckUrlStart;
    Urls.CheckUrlStartCorrect(url, r.url);
  }

  /**
   After every run, dispatch picks the most recently registered surviving resource the URL is for, and picks none
   only when there is none.
   */
  lemma DispatchPicksNewest(ops: seq<Op>, url: seq<byte>)
    ensures var d := Resources.Dispatch(Run(ops).resources, url);
            && (d.None? ==> forall j: nat | Surviving(ops, j) :: !For(ops[j].resource, url))
            && (d.Some? ==> exists j: nat ::
                              && Surviving(ops, j) && ops[j].resource == d.value && For(d.value, url)
                              && forall i: nat | i > j && Surviving(ops, i) :: !For(ops[i].resource, url))
  {
    hide Run, Surviving, For, Resources.Matches;
    var rs := Run(ops).resources;
    var d := Resources.Dispatch(rs, url);
    var at := RunDated(ops);
    AllBefore(ops, rs, at);
    Resources.DispatchFirst(rs, url);
    forall k | 0 <= k < |rs| ensures Resources.Matches(rs[k], url) <==> For(rs[k], url) {
      MatchesIsFor(rs[k], url);
    }
    if d.Some? {
      var k :| 0 <= k < |rs| && rs[k] == d.value && Resources.Matches(rs[k], url)
        && forall i | 0 <= i < k :: !Resources.Matches(rs[i], url);
      forall i: nat | i > at[k] && Surviving(ops, i) ensures i < |ops| && ops[i].Register?
        && !For(ops[i].resource, url) {
        var l :| 0 <= l < |at| && at[l] == i;
        assert l < k;
      }
    } else {
      forall j: nat | Surviving(ops, j) ensures j < |ops| && ops[j].Register? && !For(ops[j].resource, url) {
        var l :| 0 <= l < |at| && at[l] == j;
      }
    }
  }
}
