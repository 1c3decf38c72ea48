/**
 The resource registry and request dispatch: core/app-mgr/app-manager/resource_reg.c. One list, newest first.
 A handler is named by a number; calling it is the caller's business.
 */
module Resources {
  import opened Bytes
  import Urls

  const URL_LEN_MAX := 256
  const REGISTRATIONS_MAX := 16

  datatype Resource = Resource(url: seq<byte>, handler: nat, owner: uint32)

  /** How many resources an owner has. */
  function Count(rs: seq<Resource>, owner: uint32): nat {
    if rs == [] then 0 else (if rs[0].owner == owner then 1 else 0) + Count(rs[1..], owner)
  }

  /** The positions of an owner's resources. */
  function Places(rs: seq<Resource>, owner: uint32): set<nat> {
    set i: nat | i < |rs| && rs[i].owner == owner
  }

  lemma {:induction false} CountLast(rs: seq<Resource>, r: Resource, owner: uint32)
    ensures Count(rs + [r], owner) == Count(rs, owner) + if r.owner == owner then 1 else 0
  {
    if rs == [] {
      assert rs + [r] == [r] && [r][1..] == [];
    } else {
      CountLast(rs[1..], r, owner);
      assert (rs + [r])[1..] == rs[1..] + [r];
    }
  }

  lemma {:induction false} CountIsPlaces(rs: seq<Resource>, owner: uint32)
    ensures Count(rs, owner) == |Places(rs, owner)|
    decreases |rs|
  {
    hide Count;
    if rs == [] {
      NothingCounted(owner);
    } else {
      var n := |rs| - 1;
      var front := rs[..n];
      CountIsPlaces(front, owner);
      CountLast(front, rs[n], owner);
      assert rs == front + [rs[n]];
      assert Places(rs, owner) == Places(front, owner) + if rs[n].owner == owner then {n} else {};
    }
  }

  lemma NothingCounted(owner: uint32)
    ensures Count([], owner) == 0 && Places([], owner) == {}
  {
  }

  predicate Taken(rs: seq<Resource>, url: seq<byte>) {
    exists i | 0 <= i < |rs| :: rs[i].url == url
  }

  predicate Accepts(rs: seq<Resource>, url: seq<byte>, owner: uint32) {
    !Taken(rs, url) && |url| <= URL_LEN_MAX && Count(rs, owner) < REGISTRATIONS_MAX
  }

  /** `am_register_resource`. */
  function Register(rs: seq<Resource>, r: Resource): seq<Resource> {
    if Accepts(rs, r.url, r.owner) then [r] + rs else rs
  }

  /** `am_cleanup_registeration`. */
  function Without(rs: seq<Resource>, owner: uint32): seq<Resource> {
    if rs == [] then []
    else (if rs[0].owner == owner then [] else [rs[0]]) + Without(rs[1..], owner)
  }

  predicate Matches(r: Resource, url: seq<byte>) {
    Urls.CheckUrlStart(url, r.url) > 0
  }

  /** The resource `am_dispatch_request` calls, if any. */
  function Dispatch(rs: seq<Resource>, url: seq<byte>): Option<Resource> {
    if rs == [] then None else if Matches(rs[0], url) then Some(rs[0]) else Dispatch(rs[1..], url)
  }

  /** The test in numbers: the URL is new and at most 256 bytes long, and the owner has fewer than sixteen entries. */
  lemma AcceptsExactly(rs: seq<Resource>, url: seq<byte>, owner: uint32)
    ensures Accepts(rs, url, owner) <==>
            && (forall i | 0 <= i < |rs| :: rs[i].url != url) && |url| <= 256 && |Places(rs, owner)| < 16
  {
    CountIsPlaces(rs, owner);
  }

  /** URLs are unique and short enough; no owner has more than its share. */
  ghost predicate Wf(rs: seq<Resource>) {
    && (forall i, j | 0 <= i < j < |rs| :: rs[i].url != rs[j].url)
    && (forall i | 0 <= i < |rs| :: |rs[i].url| <= URL_LEN_MAX)
    && (forall owner: uint32 :: Count(rs, owner) <= REGISTRATIONS_MAX)
  }

  lemma {:induction false} RegisterWf(rs: seq<Resource>, r: Resource)
    requires Wf(rs)
    ensures Wf(Register(rs, r))
  {
    if Accepts(rs, r.url, r.owner) {
      var rs' := [r] + rs;
      assert rs'[1..] == rs;
      forall owner: uint32 ensures Count(rs', owner) <= REGISTRATIONS_MAX {
      }
    }
  }

  /** `ix` are positions from `i` on that are not the owner's, and `kept` is what stands there. */
  predicate Stand(rs: seq<Resource>, owner: uint32, i: nat, kept: seq<Resource>, ix: seq<nat>) {
    |ix| == |kept| && forall k | 0 <= k < |ix| :: i <= ix[k] < |rs| && rs[ix[k]].owner != owner && kept[k] == rs[ix[k]]
  }

  predicate Increasing(ix: seq<nat>) {
    forall k, l | 0 <= k < l < |ix| :: ix[k] < ix[l]
  }

  predicate AllStand(rs: seq<Resource>, owner: uint32, i: nat, ix: seq<nat>) {
    forall j | i <= j < |rs| && rs[j].owner != owner :: j in ix
  }

  /**
   `ix` lists in increasing order all positions from `i` on that are not the owner's, and `kept` what stands there.
   */
  predicate Survivors(rs: seq<Resource>, owner: uint32, i: nat, kept: seq<Resource>, ix: seq<nat>) {
    Stand(rs, owner, i, kept, ix) && Increasing(ix) && AllStand(rs, owner, i, ix)
  }

  lemma SurvivorsCons(rs: seq<Resource>, owner: uint32, i: nat, kept: seq<Resource>, ix: seq<nat>)
    requires i < |rs| && Survivors(rs, owner, i + 1, kept, ix)
    ensures rs[i].owner == owner ==> Survivors(rs, owner, i, kept, ix)
    ensures rs[i].owner != owner ==> Survivors(rs, owner, i, [rs[i]] + kept, [i] + ix)
  {
    if rs[i].owner != owner {
      StandCons(rs, owner, i, kept, ix);
      AllStandCons(rs, owner, i, ix);
    }
  }

  lemma StandCons(rs: seq<Resource>, owner: uint32, i: nat, kept: seq<Resource>, ix: seq<nat>)
    requires i < |rs| && rs[i].owner != owner && Stand(rs, owner, i + 1, kept, ix) && Increasing(ix)
    ensures Stand(rs, owner, i, [rs[i]] + kept, [i] + ix) && Increasing([i] + ix)
  {
    var kept', jx := [rs[i]] + kept, [i] + ix;
    assert forall k | 1 <= k < |jx| :: jx[k] == ix[k - 1] && kept'[k] == kept[k - 1];
  }

  lemma AllStandCons(rs: seq<Resource>, owner: uint32, i: nat, ix: seq<nat>)
    requires i < |rs| && AllStand(rs, owner, i + 1, ix)
    ensures AllStand(rs, owner, i, [i] + ix)
  {
    var jx := [i] + ix;
    assert jx[0] == i;
    forall j | i <= j < |rs| && rs[j].owner != owner ensures j in jx {
      assert j == i || j in ix;
    }
  }

  lemma {:induction false} WithoutFirst(rs: seq<Resource>, i: nat, owner: uint32)
    requires i < |rs|
    ensures var rest := Without(rs[i + 1..], owner);
            Without(rs[i..], owner) == if rs[i].owner == owner then rest else [rs[i]] + rest
  {
    assert rs[i..][1..] == rs[i + 1..];
    assert [] + Without(rs[i + 1..], owner) == Without(rs[i + 1..], owner);
  }

  /** One round of the clean-up walk: what is kept and what is to come stay the same list. */
  lemma {:induction false} CleanupStep(rs: seq<Resource>, i: nat, owner: uint32)
    requires i < |rs|
    ensures var unlinked := rs[..i] + rs[i + 1..];
            var kept := rs[..i] + Without(rs[i..], owner);
            if rs[i].owner == owner then unlinked[..i] + Without(unlinked[i..], owner) == kept
            else rs[..i + 1] + Without(rs[i + 1..], owner) == kept
  {
    hide Without;
    WithoutFirst(rs, i, owner);
    var unlinked := rs[..i] + rs[i + 1..];
    assert unlinked[..i] == rs[..i] && unlinked[i..] == rs[i + 1..];
    assert rs[..i + 1] == rs[..i] + [rs[i]];
  }

  lemma {:induction false} WithoutFrom(rs: seq<Resource>, i: nat, owner: uint32) returns (ix: seq<nat>)
    requires i <= |rs|
    ensures Survivors(rs, owner, i, Without(rs[i..], owner), ix)
    decreases |rs| - i
  {
    hide Without;
    if i == |rs| {
      ix := [];
      assert rs[i..] == [];
      NothingLeft(owner);
    } else {
      ix := WithoutFrom(rs, i + 1, owner);
      WithoutFirst(rs, i, owner);
      SurvivorsCons(rs, owner, i, Without(rs[i + 1..], owner), ix);
      if rs[i].owner != owner {
        ix := [i] + ix;
      }
    }
  }

  lemma NothingLeft(owner: uint32)
    ensures Without([], owner) == []
  {
  }

  /** Cleaning up one owner removes all its entries and keeps all the others, in their order. */
  lemma WithoutKeepsOrder(rs: seq<Resource>, owner: uint32) returns (ix: seq<nat>)
    ensures Survivors(rs, owner, 0, Without(rs, owner), ix)
  {
    assert rs[0..] == rs;
    ix := WithoutFrom(rs, 0, owner);
  }

  lemma {:induction false} WithoutCount(rs: seq<Resource>, owner: uint32, other: uint32)
    ensures Count(Without(rs, owner), other) == if other == owner then 0 else Count(rs, other)
  {
    if rs != [] {
      WithoutCount(rs[1..], owner, other);
      var rest := Without(rs[1..], owner);
      assert ([rs[0]] + rest)[1..] == rest;
      assert [] + rest == rest;
    }
  }

  lemma {:induction false} WithoutWf(rs: seq<Resource>, owner: uint32)
    requires Wf(rs)
    ensures Wf(Without(rs, owner))
  {
    hide Without, Count;
    var ix := WithoutKeepsOrder(rs, owner);
    forall o: uint32 ensures Count(Without(rs, owner), o) <= REGISTRATIONS_MAX {
      WithoutCount(rs, owner, o);
    }
  }

  /** The first match in the list is what is called; nothing is called only when nothing matches. */
  lemma {:induction false} DispatchFirst(rs: seq<Resource>, url: seq<byte>)
    ensures Dispatch(rs, url).None? ==> forall i | 0 <= i < |rs| :: !Matches(rs[i], url)
    ensures Dispatch(rs, url).Some? ==>
              exists k | 0 <= k < |rs| :: && rs[k] == Dispatch(rs, url).value && Matches(rs[k], url)
                                          && forall i | 0 <= i < k :: !Matches(rs[i], url)
  {
    hide Matches;
    if rs != [] && !Matches(rs[0], url) {
      var rest := rs[1..];
      DispatchFirst(rest, url);
      assert forall i | 0 <= i < |rest| :: rest[i] == rs[i + 1];
      assert forall i | 1 <= i < |rs| :: rs[i] == rest[i - 1];
      if Dispatch(rest, url).Some? {
        var k :| && 0 <= k < |rest| && rest[k] == Dispatch(rest, url).value && Matches(rest[k], url)
                 && forall i | 0 <= i < k :: !Matches(rest[i], url);
        assert rs[k + 1] == rest[k];
      }
    }
  }

  /** The registry `g_resources`. */
  class ResourceRegistry {
    var resources: seq<Resource>

    constructor ()
      ensures resources == []
    {
      resources := [];
    }

    /** `am_register_resource`: one walk looks for the URL and counts the owner's entries. */
    method RegisterResource(url: seq<byte>, handler: nat, owner: uint32) returns (ok: bool)
      modifies this
      ensures ok == Accepts(old(resources), url, owner)
      ensures ok <==> && (forall i | 0 <= i < |old(resources)| :: old(resources)[i].url != url)
                      && |url| <= 256 && |Places(old(resources), owner)| < 16
      ensures resources == Register(old(resources), Resource(url, handler, owner))
    {
      CountIsPlaces(resources, owner);
      var n := 0;
      for i := 0 to |resources|
        invariant resources == old(resources)
        invariant forall k | 0 <= k < i :: resources[k].url != url
        invariant n + Count(resources[i..], owner) == Count(resources, owner)
      {
        assert resources[i..][0] == resources[i] && resources[i..][1..] == resources[i + 1..];
        if resources[i].url == url {
          return false;
        }
        if resources[i].owner == owner {
          n := n + 1;
        }
      }
      if |url| > URL_LEN_MAX || n >= REGISTRATIONS_MAX {
        return false;
      }
      resources := [Resource(url, handler, owner)] + resources;
      ok := true;
    }

    /** `am_cleanup_registeration`: unlinks while walking. */
    method Cleanup(owner: uint32)
      modifies this
      ensures resources == Without(old(resources), owner)
    {
      hide Without;
      assert resources[..0] == [] && resources[0..] == resources;
      var i := 0;
      while i < |resources|
        invariant i <= |resources|
        invariant resources[..i] + Without(resources[i..], owner) == Without(old(resources), owner)
        decreases |resources| - i
      {
        CleanupStep(resources, i, owner);
        if resources[i].owner == owner {
          resources := resources[..i] + resources[i + 1..];
        } else {
          i := i + 1;
        }
      }
      assert resources[..i] == resources && resources[i..] == [];
      NothingLeft(owner);
    }

    /** `am_dispatch_request`. */
    method DispatchRequest(url: seq<byte>) returns (r: Option<Resource>)
      ensures r == Dispatch(resources, url)
    {
      hide Matches;
      r := None;
      for i := 0 to |resources|
        invariant r.None? && Dispatch(resources[i..], url) == Dispatch(resources, url)
      {
        assert resources[i..][1..] == resources[i + 1..];
        if Matches(resources[i], url) {
          return Some(resources[i]);
        }
      }
    }
  }
}
