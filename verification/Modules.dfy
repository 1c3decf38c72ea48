/**
 The list of installed modules: core/app-mgr/app-manager/module_utils.c. A record is identified by its address, as the
 pointer comparisons of the source do; names and ids are data.
 */
module Modules {
  import opened Bytes

  const FIRST_ID: uint32 := 1
  const ID_LIMIT: uint32 := 0xFFFF_FFF0

  const ID_HOST: uint32 := 0xFFFF_FFFD
  const ID_APP_MGR: uint32 := 0xFFFF_FFFE
  const ID_NONE: uint32 := 0xFFFF_FFFF

  datatype Module = Module(address: nat, id: uint32, name: seq<byte>)

  /** The id the next module gets, `idMax` being the static counter. */
  function NextId(idMax: uint32): (id: uint32)
    requires FIRST_ID <= idMax <= ID_LIMIT
    ensures FIRST_ID <= id < ID_LIMIT && id !in {ID_HOST, ID_APP_MGR, ID_NONE}
    ensures 1 <= id <= 0xFFFF_FFEF
  {
    if idMax == ID_LIMIT then FIRST_ID else idMax
  }

  predicate Live(ms: seq<Module>, id: uint32) {
    exists i | 0 <= i < |ms| :: ms[i].id == id
  }

  predicate Present(ms: seq<Module>, address: nat) {
    exists i | 0 <= i < |ms| :: ms[i].address == address
  }

  predicate UniqueIds(ms: seq<Module>) {
    forall i, j | 0 <= i < j < |ms| :: ms[i].id != ms[j].id
  }

  predicate UniqueAddresses(ms: seq<Module>) {
    forall i, j | 0 <= i < j < |ms| :: ms[i].address != ms[j].address
  }

  /** The first record `p` holds of, or the length of the list. */
  function IndexOf(ms: seq<Module>, p: Module -> bool): (k: nat)
    ensures k <= |ms| && (k < |ms| ==> p(ms[k])) && forall i | 0 <= i < k :: !p(ms[i])
  {
    if ms == [] || p(ms[0]) then 0 else 1 + IndexOf(ms[1..], p)
  }

  /** The record at an address is unlinked; nothing happens when there is none. */
  function Remove(ms: seq<Module>, address: nat): seq<Module> {
    var k := IndexOf(ms, (m: Module) => m.address == address);
    if k < |ms| then ms[..k] + ms[k + 1..] else ms
  }

  /** Adding a module keeps ids unique exactly when the counter has not come round to an id still in use. */
  lemma AddKeepsIdsUnique(ms: seq<Module>, m: Module)
    requires UniqueIds(ms)
    ensures UniqueIds([m] + ms) <==> !Live(ms, m.id)
  {
    var ms' := [m] + ms;
    assert forall i | 0 <= i < |ms| :: ms'[i + 1] == ms[i];
    if Live(ms, m.id) {
      var i :| 0 <= i < |ms| && ms[i].id == m.id;
      assert ms'[0].id == ms'[i + 1].id;
    }
  }

  /** What remains after a removal: the other records, in their order. */
  lemma RemoveMeaning(ms: seq<Module>, k: nat)
    requires UniqueAddresses(ms) && k < |ms|
    ensures Remove(ms, ms[k].address) == ms[..k] + ms[k + 1..]
  {
    assert IndexOf(ms, (m: Module) => m.address == ms[k].address) == k;
  }

  /** `module_data_list` with the static counter of `module_data_list_add`. */
  class ModuleList {
    var modules: seq<Module>
    var idMax: uint32

    ghost predicate Valid()
      reads this
    {
      FIRST_ID <= idMax <= ID_LIMIT
    }

    constructor ()
      ensures Valid() && modules == [] && idMax == FIRST_ID
    {
      modules, idMax := [], FIRST_ID;
    }

    /** `module_data_list_add`: the record is given its id and becomes the head. */
    method Add(address: nat, name: seq<byte>) returns (id: uint32)
      requires Valid()
      modifies this
      ensures Valid() && id == NextId(old(idMax)) && idMax == id + 1
      ensures modules == [Module(address, id, name)] + old(modules)
    {
      if idMax == ID_LIMIT {
        idMax := FIRST_ID;
      }
      id := idMax;
      idMax := idMax + 1;
      modules := [Module(address, id, name)] + modules;
    }

    /** `module_data_list_remove`. */
    method RemoveModule(address: nat)
      modifies this`modules
      ensures modules == Remove(old(modules), address)
    {
      var i := Search((m: Module) => m.address == address);
      if i < |modules| {
        modules := modules[..i] + modules[i + 1..];
      }
    }

    method Search(p: Module -> bool) returns (i: nat)
      ensures i == IndexOf(modules, p)
    {
      i := 0;
      while i < |modules| && !p(modules[i])
        invariant i <= |modules| && i + IndexOf(modules[i..], p) == IndexOf(modules, p)
      {
        assert modules[i..][1..] == modules[i + 1..];
        i := i + 1;
      }
    }

    /** `module_data_list_lookup_id`: the module with this id, whichever way it is listed when ids are unique. */
    method LookupId(id: uint32) returns (m: Option<Module>)
      ensures m.Some? <==> Live(modules, id)
      ensures m.Some? ==> m.value in modules && m.value.id == id
      ensures UniqueIds(modules) ==> forall k | 0 <= k < |modules| && modules[k].id == id :: m == Some(modules[k])
    {
      var i := Search((m: Module) => m.id == id);
      m := if i < |modules| then Some(modules[i]) else None;
    }

    /** `module_data_list_lookup`: the most recently added module of that name. */
    method LookupName(name: seq<byte>) returns (m: Option<Module>)
      ensures m.None? ==> forall k | 0 <= k < |modules| :: modules[k].name != name
      ensures m.Some? ==> exists k | 0 <= k < |modules| ::
                            m.value == modules[k] && modules[k].name == name
                              && forall i | 0 <= i < k :: modules[i].name != name
    {
      var i := Search((m: Module) => m.name == name);
      m := if i < |modules| then Some(modules[i]) else None;
    }
  }
}
