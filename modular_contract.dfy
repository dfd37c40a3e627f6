/**
 * The client-side wrapper of the Modular Contracts Standard: it turns a
 * module's ABI into a batch of change-actions for the registry's
 * `changeModules` entry point, and keeps the wrapper's own ABI tables
 * (functions, structs, events) in step with the modules added and removed.
 */
module ModularContracts {
  import opened Wrappers
  import opened OrderedDict

  /** A StarkNet field element: addresses, selectors and calldata words. */
  type Felt = int

  /** One ABI entry (a function, struct or event description); the helpers only copy it. */
  datatype AbiEntry = AbiEntry(json: string)

  /** The name a module reserves for its setup operation; it is never registered. */
  const Initializer: string := "initializer"

  /** The change kinds of the standard, with the codes sent on the wire. */
  datatype ModuleAction = Add | Replace | Remove {
    function Code(): (c: nat)
      ensures c <= 2
    {
      match this
      case Add => 0
      case Replace => 1
      case Remove => 2
    }
  }

  /** Looking an action up by its code, as `ModuleAction(code)` does. */
  function ActionOf(code: nat): (r: Option<ModuleAction>)
    ensures r.Some? <==> code <= 2
    ensures r.Some? ==> r.value.Code() == code
  {
    if code == 0 then Some(Add)
    else if code == 1 then Some(Replace)
    else if code == 2 then Some(Remove)
    else None
  }

  /** Each action is recovered from its code, so no two actions share one. */
  lemma ActionCodeRoundTrip(a: ModuleAction)
    ensures ActionOf(a.Code()) == Some(a)
    ensures forall b: ModuleAction :: b.Code() == a.Code() ==> b == a
  {
  }

  /** One `(module address, action code, selector)` triple of a `changeModules` batch. */
  datatype ChangeAction = ChangeAction(address: Felt, code: nat, selector: Felt)

  /**
   * The arguments of one `changeModules` call sent to the wrapped contract:
   * the action batch, then the initializer target (0 meaning none) and the
   * initializer's arguments.
   */
  datatype ChangeModulesCall = ChangeModulesCall(
    contract: Felt,
    actions: seq<ChangeAction>,
    initializerTarget: Felt,
    initializerArgs: seq<Felt>)

  /**
   * What the wrapper reads of a module: its address and its ABI tables
   * (function mapping, struct definitions, event mapping, selector-to-name).
   */
  datatype ContractAbi = ContractAbi(
    address: Felt,
    functions: Dict<string, AbiEntry>,
    structs: Dict<string, AbiEntry>,
    events: Dict<string, AbiEntry>,
    selectorToName: Dict<Felt, string>)
  {
    ghost predicate Valid() {
      functions.Valid() && structs.Valid() && events.Valid() && selectorToName.Valid()
    }
  }

  /** The function names that get registered: all but the initializer, in order. */
  function Registered(names: seq<string>): (r: seq<string>)
    ensures forall n :: n in r <==> n in names && n != Initializer
    ensures |r| <= |names|
  {
    if names == [] then []
    else
      var last := names[|names| - 1];
      assert names == names[..|names| - 1] + [last];
      Registered(names[..|names| - 1]) + (if last == Initializer then [] else [last])
  }

  /**
   * The action batch for a module whose functions are `names`: one triple per
   * registered name, in order, each carrying the module's address, the same
   * action code and the selector of that name.
   */
  function Actions(address: Felt, action: ModuleAction, names: seq<string>, selectorOf: string -> Felt)
    : (r: seq<ChangeAction>)
    ensures |r| == |Registered(names)|
    ensures forall i :: 0 <= i < |r| ==>
      r[i] == ChangeAction(address, action.Code(), selectorOf(Registered(names)[i]))
  {
    if names == [] then []
    else
      var last := names[|names| - 1];
      Actions(address, action, names[..|names| - 1], selectorOf)
        + (if last == Initializer then [] else [ChangeAction(address, action.Code(), selectorOf(last))])
  }

  /** With no initializer among the names, every name is registered, in order. */
  lemma {:induction false} RegisteredKeepsAll(names: seq<string>)
    requires Initializer !in names
    ensures Registered(names) == names
  {
    if names != [] {
      var prefix := names[..|names| - 1];
      assert names == prefix + [names[|names| - 1]];
      RegisteredKeepsAll(prefix);
    }
  }

  /** With distinct names, the initializer at index `i` is the one name cut out. */
  lemma {:induction false} RegisteredCutsInitializer(names: seq<string>, i: nat)
    requires Distinct(names)
    requires i < |names| && names[i] == Initializer
    ensures Registered(names) == names[..i] + names[i + 1..]
  {
    var prefix := names[..|names| - 1];
    var last := names[|names| - 1];
    assert names == prefix + [last];
    if i == |names| - 1 {
      assert Initializer !in prefix;
      RegisteredKeepsAll(prefix);
      assert names[i + 1..] == [];
    } else {
      assert Distinct(prefix);
      RegisteredCutsInitializer(prefix, i);
      assert names[i + 1..] == prefix[i + 1..] + [last];
      assert prefix[..i] == names[..i];
    }
  }

  /**
   * For distinct names (a dict's keys), the batch has one entry per name,
   * less one exactly when the module has an initializer.
   */
  lemma RegisteredCount(names: seq<string>)
    requires Distinct(names)
    ensures |Registered(names)| == if Initializer in names then |names| - 1 else |names|
  {
    if Initializer in names {
      var i :| 0 <= i < |names| && names[i] == Initializer;
      RegisteredCutsInitializer(names, i);
    } else {
      RegisteredKeepsAll(names);
    }
  }

  /**
   * Every action comes from a function name of the module other than the
   * initializer, and every such name gives an action; all carry the module's
   * address and the one action code.
   */
  lemma ActionsCoverFunctions(address: Felt, action: ModuleAction, names: seq<string>, selectorOf: string -> Felt)
    ensures forall a :: a in Actions(address, action, names, selectorOf) ==>
      a.address == address && a.code == action.Code() &&
      exists n :: n in names && n != Initializer && a.selector == selectorOf(n)
    ensures forall n :: n in names && n != Initializer ==>
      ChangeAction(address, action.Code(), selectorOf(n)) in Actions(address, action, names, selectorOf)
  {
    var r := Actions(address, action, names, selectorOf);
    var reg := Registered(names);
    forall a | a in r
      ensures a.address == address && a.code == action.Code()
      ensures exists n :: n in names && n != Initializer && a.selector == selectorOf(n)
    {
      var i :| 0 <= i < |r| && r[i] == a;
      assert reg[i] in reg;
    }
    forall n | n in names && n != Initializer
      ensures ChangeAction(address, action.Code(), selectorOf(n)) in r
    {
      var i :| 0 <= i < |reg| && reg[i] == n;
      assert r[i] == ChangeAction(address, action.Code(), selectorOf(n));
    }
  }

  /**
   * `call` is the `changeModules` call that `_change_module` makes on the
   * contract at `contract` for `module`: the module's action batch, then no
   * initializer (target 0, no arguments) when no argument list is given, or
   * the module's own address with the arguments passed through unchanged.
   */
  ghost predicate IsChangeCall(call: ChangeModulesCall, contract: Felt, moduleAbi: ContractAbi,
                               action: ModuleAction, initializerArgs: Option<seq<Felt>>,
                               selectorOf: string -> Felt)
  {
    && call.contract == contract
    && call.actions == Actions(moduleAbi.address, action, moduleAbi.functions.keys, selectorOf)
    && (initializerArgs.None? ==> call.initializerTarget == 0 && call.initializerArgs == [])
    && (initializerArgs.Some? ==>
          call.initializerTarget == moduleAbi.address && call.initializerArgs == initializerArgs.value)
  }

  /**
   * Skipping the initializer and calling it with no arguments are different
   * calls, for any module not at address 0.
   */
  lemma InitializerSkipIsDistinct(c1: ChangeModulesCall, c2: ChangeModulesCall, contract: Felt,
                                  moduleAbi: ContractAbi, action: ModuleAction, selectorOf: string -> Felt)
    requires moduleAbi.address != 0
    requires IsChangeCall(c1, contract, moduleAbi, action, None, selectorOf)
    requires IsChangeCall(c2, contract, moduleAbi, action, Some([]), selectorOf)
    ensures c1 != c2 && c1.initializerArgs == c2.initializerArgs
  {
  }

  /** `StructManager`: the struct definitions known to a contract wrapper. */
  class StructManager {
    var structDefinitions: Dict<string, AbiEntry>

    ghost predicate Valid()
      reads this
    {
      structDefinitions.Valid()
    }
  }

  /** `EventManager`: the event ABI entries and the selector-to-name table of a wrapper. */
  class EventManager {
    var abiEvents: Dict<string, AbiEntry>
    var selectorToName: Dict<Felt, string>

    ghost predicate Valid()
      reads this
    {
      abiEvents.Valid() && selectorToName.Valid()
    }
  }

  /** A wrapper around a contract that follows the Modular Contracts Standard. */
  class ModularContract {
    const address: Felt
    var functions: Dict<string, AbiEntry>
    const structManager: StructManager
    const eventManager: EventManager

    ghost predicate Valid()
      reads this, structManager, eventManager
    {
      functions.Valid() && structManager.Valid() && eventManager.Valid()
    }

    /** A wrapper for the contract at `address`, starting from the tables read off its ABI. */
    constructor (address: Felt, functions: Dict<string, AbiEntry>,
                 structManager: StructManager, eventManager: EventManager)
      requires functions.Valid() && structManager.Valid() && eventManager.Valid()
      ensures Valid()
      ensures this.address == address && this.functions == functions
      ensures this.structManager == structManager && this.eventManager == eventManager
    {
      this.address := address;
      this.functions := functions;
      this.structManager := structManager;
      this.eventManager := eventManager;
    }

    /** `_change_module`: build the `changeModules` call for `module` and `action`. */
    method ChangeModule(moduleAbi: ContractAbi, action: ModuleAction, initializerArgs: Option<seq<Felt>>,
                        selectorOf: string -> Felt)
      returns (call: ChangeModulesCall)
      ensures IsChangeCall(call, address, moduleAbi, action, initializerArgs, selectorOf)
    {
      var names := moduleAbi.functions.keys;
      var actions: seq<ChangeAction> := [];
      var i := 0;
      while i < |names|
        invariant 0 <= i <= |names|
        invariant actions == Actions(moduleAbi.address, action, names[..i], selectorOf)
      {
        assert names[..i + 1][..i] == names[..i];
        assert Actions(moduleAbi.address, action, names[..i + 1], selectorOf) ==
          Actions(moduleAbi.address, action, names[..i], selectorOf) +
          (if names[i] == Initializer then [] else [ChangeAction(moduleAbi.address, action.Code(), selectorOf(names[i]))]);
        if names[i] != Initializer {
          actions := actions + [ChangeAction(moduleAbi.address, action.Code(), selectorOf(names[i]))];
        }
        i := i + 1;
      }
      assert names[..i] == names;
      if initializerArgs.None? {
        return ChangeModulesCall(address, actions, 0, []);
      }
      call := ChangeModulesCall(address, actions, moduleAbi.address, initializerArgs.value);
    }

    /**
     * `add_module`: build the ADD batch for `module`, then copy the module's
     * struct, event and function tables into this wrapper's.
     */
    method AddModule(moduleAbi: ContractAbi, initializerArgs: Option<seq<Felt>>, selectorOf: string -> Felt)
      returns (res: ChangeModulesCall)
      requires Valid() && moduleAbi.Valid()
      modifies this, structManager, eventManager
      ensures Valid()
      ensures IsChangeCall(res, address, moduleAbi, Add, initializerArgs, selectorOf)
      ensures functions == Update(old(functions), moduleAbi.functions)
      ensures structManager.structDefinitions == Update(old(structManager.structDefinitions), moduleAbi.structs)
      ensures eventManager.abiEvents == Update(old(eventManager.abiEvents), moduleAbi.events)
      ensures eventManager.selectorToName == Update(old(eventManager.selectorToName), moduleAbi.selectorToName)
    {
      res := ChangeModule(moduleAbi, Add, initializerArgs, selectorOf);
      AddToStructManager(structManager, moduleAbi.structs);
      AddToEventManager(eventManager, moduleAbi.events, moduleAbi.selectorToName);
      AddFunctions(this, moduleAbi.functions);
    }

    /**
     * `remove_module`: build the REMOVE batch for `module` (never with an
     * initializer), then delete the module's function names from this
     * wrapper's function table; structs and events are kept. A name the
     * table lacks raises `KeyError`, and the names deleted before it stay
     * deleted.
     */
    method RemoveModule(moduleAbi: ContractAbi, selectorOf: string -> Felt)
      returns (res: Result<ChangeModulesCall, string>)
      requires Valid() && moduleAbi.Valid()
      modifies this
      ensures Valid()
      ensures structManager.structDefinitions == old(structManager.structDefinitions)
      ensures eventManager.abiEvents == old(eventManager.abiEvents)
      ensures eventManager.selectorToName == old(eventManager.selectorToName)
      ensures res.Ok? <==> forall k :: k in moduleAbi.functions.keys ==> k in old(functions.entries)
      ensures res.Ok? ==> IsChangeCall(res.value, address, moduleAbi, Remove, None, selectorOf)
      ensures res.Ok? ==> functions == Without(old(functions), moduleAbi.functions.entries.Keys)
      ensures res.Err? ==> PartiallyRemoved(old(functions), functions, moduleAbi.functions.keys, res.error)
    {
      var call := ChangeModule(moduleAbi, Remove, None, selectorOf);
      var missing := RemoveFunctions(this, moduleAbi.functions);
      if missing.Some? {
        return Err(missing.value);
      }
      res := Ok(call);
    }
  }

  /**
   * `add_module` followed by `remove_module` of the same module: the removal
   * does not raise, the function table ends as the original minus the
   * module's function names, and the structs and events added stay.
   */
  method AddThenRemoveModule(c: ModularContract, moduleAbi: ContractAbi, initializerArgs: Option<seq<Felt>>,
                             selectorOf: string -> Felt)
    returns (added: ChangeModulesCall, removed: Result<ChangeModulesCall, string>)
    requires c.Valid() && moduleAbi.Valid()
    modifies c, c.structManager, c.eventManager
    ensures c.Valid()
    ensures removed.Ok?
    ensures IsChangeCall(added, c.address, moduleAbi, Add, initializerArgs, selectorOf)
    ensures IsChangeCall(removed.value, c.address, moduleAbi, Remove, None, selectorOf)
    ensures c.functions == Without(old(c.functions), moduleAbi.functions.entries.Keys)
    ensures c.structManager.structDefinitions == Update(old(c.structManager.structDefinitions), moduleAbi.structs)
    ensures c.eventManager.abiEvents == Update(old(c.eventManager.abiEvents), moduleAbi.events)
    ensures c.eventManager.selectorToName == Update(old(c.eventManager.selectorToName), moduleAbi.selectorToName)
  {
    added := c.AddModule(moduleAbi, initializerArgs, selectorOf);
    RemoveAfterUpdate(old(c.functions), moduleAbi.functions);
    removed := c.RemoveModule(moduleAbi, selectorOf);
  }

  /**
   * `after` is `before` with the names of `names` deleted up to the first one
   * that `before` lacks, which is `missing`.
   */
  ghost predicate PartiallyRemoved<V>(before: Dict<string, V>, after: Dict<string, V>,
                                      names: seq<string>, missing: string)
    requires before.Valid()
  {
    exists j :: PartiallyRemovedAt(before, after, names, missing, j)
  }

  /** As `PartiallyRemoved`, with the missing name at index `j` of `names`. */
  ghost predicate PartiallyRemovedAt<V>(before: Dict<string, V>, after: Dict<string, V>,
                                        names: seq<string>, missing: string, j: int)
    requires before.Valid()
  {
    0 <= j < |names| && names[j] == missing && missing !in before.entries &&
    (forall i :: 0 <= i < j ==> names[i] in before.entries) &&
    after == DeleteEach(before, names[..j])
  }

  /**
   * One step of deleting `names` from `before` in order, with the first `i`
   * already deleted: when name `i` is missing the deletion stops as
   * `PartiallyRemoved` describes; otherwise it was present in `before` too,
   * and deleting it extends the deleted prefix by one.
   */
  lemma RemoveStep<V>(before: Dict<string, V>, names: seq<string>, i: nat)
    requires before.Valid() && Distinct(names) && i < |names|
    requires forall j :: 0 <= j < i ==> names[j] in before.entries
    ensures names[i] !in DeleteEach(before, names[..i]).entries ==>
      PartiallyRemovedAt(before, DeleteEach(before, names[..i]), names, names[i], i)
    ensures names[i] in DeleteEach(before, names[..i]).entries ==>
      && names[i] in before.entries
      && DeleteEach(before, names[..i + 1]) == Without(DeleteEach(before, names[..i]), {names[i]})
  {
    var prefix := names[..i];
    var k := names[i];
    ElemsPrefix(names, i);
    DeleteEachSpec(before, prefix);
    var after := DeleteEach(before, prefix);
    assert after.entries == before.entries - Elems(prefix);
    assert k in after.entries <==> k in before.entries;
    if k in after.entries {
      var longer := names[..i + 1];
      assert longer[..|longer| - 1] == prefix && longer[|longer| - 1] == k;
    }
  }

  /** Deleting every key of `src` from a dict holding them all. */
  lemma RemoveAll<V>(before: Dict<string, V>, src: Dict<string, V>)
    requires before.Valid() && src.Valid()
    requires forall j :: 0 <= j < |src.keys| ==> src.keys[j] in before.entries
    ensures forall k :: k in src.keys ==> k in before.entries
    ensures DeleteEach(before, src.keys[..|src.keys|]) == Without(before, src.entries.Keys)
  {
    assert src.keys[..|src.keys|] == src.keys;
    DeleteEachSpec(before, src.keys);
    assert Elems(src.keys) == src.entries.Keys;
  }

  /** `_add_to_struct_manager`: copy every struct definition of `src` into `dest`. */
  method AddToStructManager(dest: StructManager, src: Dict<string, AbiEntry>)
    requires dest.Valid() && src.Valid()
    modifies dest
    ensures dest.Valid()
    ensures dest.structDefinitions == Update(old(dest.structDefinitions), src)
    ensures dest.structDefinitions.entries == old(dest.structDefinitions.entries) + src.entries
  {
    var i := 0;
    while i < |src.keys|
      invariant 0 <= i <= |src.keys|
      invariant dest.structDefinitions == PutAll(old(dest.structDefinitions), src.keys[..i], src.entries)
    {
      var k := src.keys[i];
      assert src.keys[..i + 1][..i] == src.keys[..i];
      dest.structDefinitions := Put(dest.structDefinitions, k, src.entries[k]);
      i := i + 1;
    }
    assert src.keys[..i] == src.keys;
    UpdateEntries(old(dest.structDefinitions), src);
  }

  /**
   * `_add_to_event_manager`: copy every event entry of `events` and then
   * every selector-to-name pair of `selectorToName` into `dest`.
   */
  method AddToEventManager(dest: EventManager, events: Dict<string, AbiEntry>, selectorToName: Dict<Felt, string>)
    requires dest.Valid() && events.Valid() && selectorToName.Valid()
    modifies dest
    ensures dest.Valid()
    ensures dest.abiEvents == Update(old(dest.abiEvents), events)
    ensures dest.abiEvents.entries == old(dest.abiEvents.entries) + events.entries
    ensures dest.selectorToName == Update(old(dest.selectorToName), selectorToName)
    ensures dest.selectorToName.entries == old(dest.selectorToName.entries) + selectorToName.entries
  {
    var i := 0;
    while i < |events.keys|
      invariant 0 <= i <= |events.keys|
      invariant dest.abiEvents == PutAll(old(dest.abiEvents), events.keys[..i], events.entries)
      invariant dest.selectorToName == old(dest.selectorToName)
    {
      var k := events.keys[i];
      assert events.keys[..i + 1][..i] == events.keys[..i];
      dest.abiEvents := Put(dest.abiEvents, k, events.entries[k]);
      i := i + 1;
    }
    assert events.keys[..i] == events.keys;
    ghost var merged := dest.abiEvents;

    var j := 0;
    while j < |selectorToName.keys|
      invariant 0 <= j <= |selectorToName.keys|
      invariant dest.selectorToName
        == PutAll(old(dest.selectorToName), selectorToName.keys[..j], selectorToName.entries)
      invariant dest.abiEvents == merged
    {
      var k := selectorToName.keys[j];
      assert selectorToName.keys[..j + 1][..j] == selectorToName.keys[..j];
      dest.selectorToName := Put(dest.selectorToName, k, selectorToName.entries[k]);
      j := j + 1;
    }
    assert selectorToName.keys[..j] == selectorToName.keys;
    UpdateEntries(old(dest.abiEvents), events);
    UpdateEntries(old(dest.selectorToName), selectorToName);
  }

  /** `_add_functions`: copy every function entry of `src` into `dest`'s function table. */
  method AddFunctions(dest: ModularContract, src: Dict<string, AbiEntry>)
    requires dest.functions.Valid() && src.Valid()
    modifies dest
    ensures dest.functions == Update(old(dest.functions), src)
    ensures dest.functions.entries == old(dest.functions.entries) + src.entries
  {
    var i := 0;
    while i < |src.keys|
      invariant 0 <= i <= |src.keys|
      invariant dest.functions == PutAll(old(dest.functions), src.keys[..i], src.entries)
    {
      var k := src.keys[i];
      assert src.keys[..i + 1][..i] == src.keys[..i];
      dest.functions := Put(dest.functions, k, src.entries[k]);
      i := i + 1;
    }
    assert src.keys[..i] == src.keys;
    UpdateEntries(old(dest.functions), src);
  }

  /**
   * `_remove_functions`: delete every function name of `src` from `dest`'s
   * function table, in `src`'s order. When a name is missing the deletion
   * stops there with that name (Python's `KeyError`), and the names deleted
   * before it stay deleted.
   */
  method RemoveFunctions(dest: ModularContract, src: Dict<string, AbiEntry>) returns (missing: Option<string>)
    requires dest.functions.Valid() && src.Valid()
    modifies dest
    ensures dest.functions.Valid()
    ensures missing.None? <==> forall k :: k in src.keys ==> k in old(dest.functions.entries)
    ensures missing.None? ==> dest.functions == Without(old(dest.functions), src.entries.Keys)
    ensures missing.Some? ==> PartiallyRemoved(old(dest.functions), dest.functions, src.keys, missing.value)
  {
    ghost var before := dest.functions;
    var i := 0;
    while i < |src.keys| && src.keys[i] in dest.functions.entries
      invariant 0 <= i <= |src.keys|
      invariant forall j :: 0 <= j < i ==> src.keys[j] in before.entries
      invariant dest.functions == DeleteEach(before, src.keys[..i])
    {
      RemoveStep(before, src.keys, i);
      dest.functions := Without(dest.functions, {src.keys[i]});
      i := i + 1;
    }
    if i < |src.keys| {
      RemoveStep(before, src.keys, i);
      missing := Some(src.keys[i]);
    } else {
      RemoveAll(before, src);
      missing := None;
    }
  }
}
