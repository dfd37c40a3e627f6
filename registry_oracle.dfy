/**
 * A test oracle for the registry side of `changeModules`. What the wrapper's
 * tests observe of the deployed contract: a non-owner's change fails, adding a
 * module emits one event, an added function name routes to its module, and
 * after removal a call to it fails again. The oracle assumes the owner check
 * rather than deriving it. It also makes choices of its own that no test
 * observes: REPLACE maps the selector to the module as ADD does, a code
 * above 2 fails the batch, and every successful change (a removal too)
 * counts one event. REMOVE deletes the selector.
 */
module RegistryOracle {
  import opened Wrappers
  import opened ModularContracts

  /** What the tests observe of one deployed contract. */
  datatype Registry = Registry(owner: Felt, table: map<Felt, Felt>, changeEvents: nat)

  datatype Failure = Unauthorized | UnknownAction(code: nat)

  /** One action of a batch, applied to the selector table. */
  function ApplyAction(table: map<Felt, Felt>, a: ChangeAction): (r: Result<map<Felt, Felt>, Failure>) {
    match ActionOf(a.code)
    case None => Err(UnknownAction(a.code))
    case Some(Remove) => Ok(table - {a.selector})
    case Some(_) => Ok(table[a.selector := a.address])
  }

  /** The actions of a batch, applied in order; the first failure fails the batch. */
  function ApplyActions(table: map<Felt, Felt>, actions: seq<ChangeAction>): (r: Result<map<Felt, Felt>, Failure>) {
    if actions == [] then Ok(table)
    else
      match ApplyActions(table, actions[..|actions| - 1])
      case Err(e) => Err(e)
      case Ok(t) => ApplyAction(t, actions[|actions| - 1])
  }

  /** A `changeModules` call made by `caller`. */
  function ChangeModules(reg: Registry, caller: Felt, call: ChangeModulesCall): (r: Result<Registry, Failure>) {
    if caller != reg.owner then Err(Unauthorized)
    else
      match ApplyActions(reg.table, call.actions)
      case Err(e) => Err(e)
      case Ok(t) => Ok(Registry(reg.owner, t, reg.changeEvents + 1))
  }

  /** The module a call to `selector` is routed to; `None` when the call fails. */
  function Route(reg: Registry, selector: Felt): (r: Option<Felt>) {
    if selector in reg.table then Some(reg.table[selector]) else None
  }

  /** The selectors of the registered function names among `names`. */
  ghost function Selectors(names: seq<string>, selectorOf: string -> Felt): (r: set<Felt>) {
    set n | n in names && n != Initializer :: selectorOf(n)
  }

  lemma SelectorsStep(names: seq<string>, selectorOf: string -> Felt)
    requires names != []
    ensures var last := names[|names| - 1];
      Selectors(names, selectorOf) ==
        Selectors(names[..|names| - 1], selectorOf) + (if last == Initializer then {} else {selectorOf(last)})
  {
    assert names == names[..|names| - 1] + [names[|names| - 1]];
  }

  lemma ActionsStep(address: Felt, action: ModuleAction, names: seq<string>, selectorOf: string -> Felt)
    requires names != []
    ensures var prefix := Actions(address, action, names[..|names| - 1], selectorOf);
      var last := names[|names| - 1];
      var r := Actions(address, action, names, selectorOf);
      if last == Initializer then r == prefix
      else |r| > 0 && r[..|r| - 1] == prefix && r[|r| - 1] == ChangeAction(address, action.Code(), selectorOf(last))
  {
  }

  /**
   * Applying an ADD batch built for `names` succeeds; afterwards every
   * registered name's selector maps to `address`, and every other selector
   * keeps its entry.
   */
  lemma {:induction false} AddBatchRegisters(table: map<Felt, Felt>, address: Felt, names: seq<string>,
                                             selectorOf: string -> Felt)
    ensures ApplyActions(table, Actions(address, Add, names, selectorOf)).Ok?
    ensures var t := ApplyActions(table, Actions(address, Add, names, selectorOf)).value;
      && (forall s :: s in t <==> s in table || s in Selectors(names, selectorOf))
      && (forall s :: s in Selectors(names, selectorOf) ==> t[s] == address)
      && (forall s :: s in table && s !in Selectors(names, selectorOf) ==> t[s] == table[s])
  {
    if names != [] {
      var prefix := names[..|names| - 1];
      AddBatchRegisters(table, address, prefix, selectorOf);
      SelectorsStep(names, selectorOf);
      ActionsStep(address, Add, names, selectorOf);
    }
  }

  /** Applying a REMOVE batch built for `names` succeeds and deletes exactly their selectors. */
  lemma {:induction false} RemoveBatchUnregisters(table: map<Felt, Felt>, address: Felt, names: seq<string>,
                                                  selectorOf: string -> Felt)
    ensures ApplyActions(table, Actions(address, Remove, names, selectorOf)) == Ok(table - Selectors(names, selectorOf))
  {
    if names == [] {
      assert Selectors(names, selectorOf) == {};
      DeleteAbsent(table, {});
    } else {
      var prefix := names[..|names| - 1];
      var last := names[|names| - 1];
      RemoveBatchUnregisters(table, address, prefix, selectorOf);
      SelectorsStep(names, selectorOf);
      ActionsStep(address, Remove, names, selectorOf);
      if last != Initializer {
        var r := Actions(address, Remove, names, selectorOf);
        var a := r[|r| - 1];
        assert ActionOf(a.code) == Some(Remove);
        assert ApplyActions(table, r) == ApplyAction(table - Selectors(prefix, selectorOf), a);
        DeleteOneMore(table, Selectors(prefix, selectorOf), selectorOf(last));
      } else {
        assert Selectors(names, selectorOf) == Selectors(prefix, selectorOf);
      }
    }
  }

  /**
   * `add_module` by the owner succeeds with one event, and each of the
   * module's function names, except the initializer, then routes to the module.
   */
  lemma AddModuleRoutes(reg: Registry, call: ChangeModulesCall, contract: Felt, moduleAbi: ContractAbi,
                        initializerArgs: Option<seq<Felt>>, selectorOf: string -> Felt)
    requires IsChangeCall(call, contract, moduleAbi, Add, initializerArgs, selectorOf)
    ensures ChangeModules(reg, reg.owner, call).Ok?
    ensures var added := ChangeModules(reg, reg.owner, call).value;
      && added.owner == reg.owner
      && added.changeEvents == reg.changeEvents + 1
      && forall n :: n in moduleAbi.functions.keys && n != Initializer ==>
           Route(added, selectorOf(n)) == Some(moduleAbi.address)
  {
    AddBatchRegisters(reg.table, moduleAbi.address, moduleAbi.functions.keys, selectorOf);
  }

  /**
   * `remove_module` by the owner succeeds (counting one event, as the oracle
   * counts every change), and a call to any of the module's function names
   * fails afterwards.
   */
  lemma RemoveModuleUnroutes(reg: Registry, call: ChangeModulesCall, contract: Felt, moduleAbi: ContractAbi,
                             selectorOf: string -> Felt)
    requires IsChangeCall(call, contract, moduleAbi, Remove, None, selectorOf)
    ensures ChangeModules(reg, reg.owner, call) ==
      Ok(Registry(reg.owner, reg.table - Selectors(moduleAbi.functions.keys, selectorOf), reg.changeEvents + 1))
    ensures forall n :: n in moduleAbi.functions.keys && n != Initializer ==>
      Route(ChangeModules(reg, reg.owner, call).value, selectorOf(n)) == None
  {
    var names := moduleAbi.functions.keys;
    RemoveBatchUnregisters(reg.table, moduleAbi.address, names, selectorOf);
    var removed := Registry(reg.owner, reg.table - Selectors(names, selectorOf), reg.changeEvents + 1);
    assert ChangeModules(reg, reg.owner, call) == Ok(removed);
    forall n | n in names && n != Initializer
      ensures Route(removed, selectorOf(n)) == None
    {
      assert selectorOf(n) in Selectors(names, selectorOf);
    }
  }

  /**
   * Adding a module and then removing it leaves the selector table as it was
   * minus the module's selectors; when none of the module's functions could
   * be called before, the table is back to what it was.
   */
  lemma AddThenRemove(reg: Registry, addCall: ChangeModulesCall, removeCall: ChangeModulesCall, contract: Felt,
                      moduleAbi: ContractAbi, initializerArgs: Option<seq<Felt>>, selectorOf: string -> Felt)
    requires IsChangeCall(addCall, contract, moduleAbi, Add, initializerArgs, selectorOf)
    requires IsChangeCall(removeCall, contract, moduleAbi, Remove, None, selectorOf)
    ensures ChangeModules(reg, reg.owner, addCall).Ok?
    ensures var added := ChangeModules(reg, reg.owner, addCall).value;
      var sels := Selectors(moduleAbi.functions.keys, selectorOf);
      && ChangeModules(added, reg.owner, removeCall) ==
           Ok(Registry(reg.owner, reg.table - sels, reg.changeEvents + 2))
      && ((forall n :: n in moduleAbi.functions.keys && n != Initializer ==> Route(reg, selectorOf(n)).None?) ==>
           ChangeModules(added, reg.owner, removeCall).value.table == reg.table)
  {
    var names := moduleAbi.functions.keys;
    var sels := Selectors(names, selectorOf);
    AddModuleRoutes(reg, addCall, contract, moduleAbi, initializerArgs, selectorOf);
    var added := ChangeModules(reg, reg.owner, addCall).value;
    AddBatchRegisters(reg.table, moduleAbi.address, names, selectorOf);
    RemoveModuleUnroutes(added, removeCall, contract, moduleAbi, selectorOf);
    InsertThenDelete(reg.table, added.table, sels);
    if forall n :: n in names && n != Initializer ==> Route(reg, selectorOf(n)).None? {
      DeleteAbsent(reg.table, sels);
    }
  }

  /** Deleting keys from a table that differs from `table` only on those keys. */
  lemma InsertThenDelete(table: map<Felt, Felt>, t: map<Felt, Felt>, sels: set<Felt>)
    requires forall s :: s in t <==> s in table || s in sels
    requires forall s :: s in table && s !in sels ==> t[s] == table[s]
    ensures t - sels == table - sels
  {
    var a := t - sels;
    var b := table - sels;
    assert forall s :: s in a <==> s in b;
    assert forall s :: s in a ==> a[s] == b[s];
  }

  lemma DeleteAbsent(table: map<Felt, Felt>, sels: set<Felt>)
    requires forall s :: s in sels ==> s !in table
    ensures table - sels == table
  {
    var a := table - sels;
    assert forall s :: s in a <==> s in table;
    assert forall s :: s in a ==> a[s] == table[s];
  }

  lemma DeleteOneMore(table: map<Felt, Felt>, sels: set<Felt>, x: Felt)
    ensures (table - sels) - {x} == table - (sels + {x})
  {
    var a := (table - sels) - {x};
    var b := table - (sels + {x});
    assert forall s :: s in a <==> s in b;
    assert forall s :: s in a ==> a[s] == b[s];
  }
}
