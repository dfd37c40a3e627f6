# Modular Contracts Standard: the client-side module helper

This project models the client-side wrapper of the StarkNet Modular Contracts
Standard (`smc/testing/modular_contract.py`). A modular contract delegates
its functions to separately deployed modules. The owner changes the set of
delegated functions with a single `changeModules` call that carries:

- a batch of `(module address, action code, selector)` triples;
- an optional initializer target;
- the initializer's arguments.

The wrapper `ModularContract` does two jobs.

- `_change_module` turns a module's ABI function mapping into that batch.
  The reserved name `initializer` is skipped. It also picks the initializer
  part of the call: target 0 with no arguments when no argument list is
  given, otherwise the module's own address with the arguments unchanged.
- `add_module` and `remove_module` keep the wrapper's own ABI tables in step
  with the modules added or removed. These tables are the function mapping,
  the struct definitions, the event mapping and the selector-to-name table.
  Adding merges the module's entries in. Removing deletes the module's
  function names and keeps its structs and events.

Files:

- `wrappers.dfy`: `Option` and `Result`.
- `ordered_dict.dfy`: Python dicts as the helpers use them. A `Dict` is the
  key order plus the key-to-value map. `d[k] = v` keeps an existing key in
  place and appends a new key (`Put`). `del` removes keys (`Without`).
  Copying one dict into another item by item is `Update`. Its lemmas state
  what the copy overwrites, what it keeps and in which order keys end up.
- `modular_contract.dfy`: the action codes, the batch (`Registered`,
  `Actions`, `IsChangeCall`), and the classes `StructManager`, `EventManager`
  and `ModularContract`. The class methods update their dict fields in place,
  as the source does. The module-level methods `AddToStructManager`,
  `AddToEventManager`, `AddFunctions` and `RemoveFunctions` are the source's
  four free helper functions.
- `registry_oracle.dfy`: a test oracle for the registry side. Its rules come
  from what the repository's tests observe. A change by anyone but the owner
  fails: the oracle assumes this owner check from the test at
  `tests/test_smc.py:182-183` and proves nothing about it. Adding a module
  emits one event. ADD maps a selector to the module and REMOVE deletes it.
  A call to a selector routes to its module, or fails when the selector is
  absent. The rules no test observes are listed under "Left out". With this
  oracle, the round trip the tests perform is proved: add a module, call it,
  remove it, and the call fails again.

`get_selector_from_name` (StarkNet's keccak-based selector) is a function
parameter `selectorOf`. Nothing assumes it is injective.

## Model

| member | source | states |
|---|---|---|
| `ModularContracts.ActionOf` | smc/testing/modular_contract.py:9-12 | exactly the codes 0, 1 and 2 name an action, and the action found has that code |
| `ModularContracts.ActionCodeRoundTrip` | smc/testing/modular_contract.py:9-12 | ADD, REPLACE and REMOVE are recovered from their codes, and no two actions share a code |
| `ModularContracts.Registered` | smc/testing/modular_contract.py:36-38 | a name is registered iff it is one of the module's function names and is not `initializer`; there are never more registered names than function names |
| `ModularContracts.RegisteredKeepsAll` | smc/testing/modular_contract.py:36-38 | with no `initializer` among the names, every name is registered, in iteration order |
| `ModularContracts.RegisteredCutsInitializer` | smc/testing/modular_contract.py:36-38 | with distinct names (dict keys), exactly the `initializer` entry is cut out and the rest keep their order |
| `ModularContracts.RegisteredCount` | smc/testing/modular_contract.py:35-43 | for a dict's keys, the batch has one entry per function name, less one exactly when the module has an `initializer` |
| `ModularContracts.Actions` | smc/testing/modular_contract.py:34-43 | one triple per registered name, in order, each carrying the module's address, the same action code and the selector of that name |
| `ModularContracts.ActionsCoverFunctions` | smc/testing/modular_contract.py:36-43 | every triple carries the module address and action code and comes from a non-initializer function name, and every non-initializer name yields a triple |
| `ModularContracts.InitializerSkipIsDistinct` | smc/testing/modular_contract.py:45-48 | with no arguments the call has target 0; with an empty argument list it has the module's address; so skipping the initializer differs from calling it with zero arguments |
| `ModularContracts.ModularContract.ChangeModule` | smc/testing/modular_contract.py:34-48 | the loop builds exactly the `Actions` batch for the module's function names; the initializer target is 0 with `[]` when no arguments are given, otherwise the module's address with the arguments unchanged |
| `ModularContracts.ModularContract.AddModule` | smc/testing/modular_contract.py:20-26 | returns the ADD (code 0) call for the module, and the function, struct, event and selector-to-name tables become the module's tables copied into the old ones |
| `ModularContracts.ModularContract.RemoveModule` | smc/testing/modular_contract.py:28-32 | succeeds iff every function name of the module is in the table; then returns the REMOVE (code 2) call with no initializer, and the function table loses exactly those names; on failure, names up to the missing one are deleted; structs and events never change |
| `ModularContracts.AddToStructManager` | smc/testing/modular_contract.py:51-53 | every source struct maps to its source definition (overwriting), every other struct is unchanged, and new names are appended in source order |
| `ModularContracts.AddToEventManager` | smc/testing/modular_contract.py:56-61 | the event mapping and the selector-to-name table each become the old one with every source item copied in (overwriting on collision, others unchanged) |
| `ModularContracts.AddFunctions` | smc/testing/modular_contract.py:64-66 | every source function maps to the source's entry (overwriting), every other function is unchanged, and new names are appended in source order |
| `ModularContracts.RemoveFunctions` | smc/testing/modular_contract.py:69-71 | reports no missing key iff every source key is in the table, and then no source key remains and every other key is unchanged; otherwise it reports the first missing key, and the keys before it stay deleted |
| `ModularContracts.AddThenRemoveModule` | smc/testing/modular_contract.py:20-32 | after `add_module` then `remove_module` of one module the removal does not raise, the function table is the original minus the module's names, and the added structs, events and selector-to-name entries stay |
| `OrderedDict.PutAllEntries` | smc/testing/modular_contract.py:65-66 | assigning keys one by one leaves each assigned key at its new value and every other key at its old one |
| `OrderedDict.PutAllKeys` | smc/testing/modular_contract.py:65-66 | assigning distinct keys one by one keeps the old keys' order and appends the new keys in assignment order |
| `OrderedDict.UpdateSpec` | smc/testing/modular_contract.py:64-66 | copying a dict in item by item gives the old entries overridden by the source's, with the source's new keys appended in the source's order |
| `OrderedDict.RemoveAfterUpdate` | smc/testing/modular_contract.py:20-32 | after copying a dict in, all its keys are present, and deleting them leaves the original minus those keys, in the original order |
| `OrderedDict.DeleteEachSpec` | smc/testing/modular_contract.py:70-71 | `del` of each key of a sequence in turn leaves the dict minus exactly those keys, the rest in their original order |
| `OrderedDict.WithoutOneMore` | smc/testing/modular_contract.py:70-71 | deleting keys one at a time equals deleting them all at once |
| `RegistryOracle.AddBatchRegisters` | tests/test_smc.py:103-108 | an ADD batch succeeds, maps every registered name's selector to the module, and keeps every other entry |
| `RegistryOracle.RemoveBatchUnregisters` | tests/test_smc.py:143-151 | a REMOVE batch succeeds and deletes exactly the module's selectors |
| `RegistryOracle.AddModuleRoutes` | tests/test_smc.py:182-186 | the owner's `add_module` call succeeds with exactly one event, and every non-initializer function of the module then routes to it |
| `RegistryOracle.RemoveModuleUnroutes` | tests/test_smc.py:143-151 | the owner's `remove_module` call succeeds and deletes exactly the module's selectors, so every function of the module then fails to route (the one event it also counts is the oracle's own convention) |
| `RegistryOracle.AddThenRemove` | tests/test_smc.py:95-151 | adding then removing a module leaves the selector table as it was minus the module's selectors, which is the original table when none of its functions could be called before |

## Left out

- The Cairo contracts (`main`, `module_registry`, `module_introspection`):
  dispatch, the owner check, rollback and event emission. They are not part
  of this model. `RegistryOracle` is a test oracle built from the tests'
  assertions, not a model of that code.
- The oracle assumes the owner check instead of proving it, and it adds
  three rules of its own that no test observes. REPLACE (code 1) maps the
  selector to the module, as ADD does. An action code above 2 fails the
  batch with `UnknownAction`. Every successful change counts one event,
  a removal too, although the tests count events only after `add_module`.
- The oracle checks neither "ADD requires the selector to be absent" nor
  "REPLACE/REMOVE require it to be present". The tests never show these
  rules. Its REMOVE ignores the action's address.
- The oracle does not model the initializer call, its failure and rollback,
  contract storage (`getReference`/`setReference`), isolation between two
  deployed instances, or the introspection queries (`moduleAddresses` and
  the rest).
- `get_selector_from_name` is an uninterpreted function parameter. The
  StarkNet keccak it computes is not modelled.
- `StarknetContract`, `StructManager` and `EventManager` internals are not
  modelled. Neither is the `changeModules(...)` call object with its
  `.invoke`/`.call`. `ChangeModule`, `AddModule` and `RemoveModule` return
  the call's arguments instead. The wrapper's constructor takes the tables
  that `StarknetContract` would read off the ABI.
- ABI entries and struct definitions (Python namedtuple types) are one opaque
  `AbiEntry` value. The helpers only copy them.
- The module passed to `add_module`/`remove_module` is a value
  (`ContractAbi`), not a shared object. So aliasing is not modelled: a
  wrapper added to or removed from itself, where Python would fail when
  deleting from a dict while iterating over it.
- `RemoveModule`: Python raises `KeyError` after building the
  `changeModules` call object. The model returns `Err(name)` carrying the
  missing name instead of the exception.
- Felt arithmetic modulo the StarkNet prime is not modelled. Addresses,
  selectors and arguments are only compared and copied.
- The wrapper's function table keeps an `initializer` entry when the module
  has one, as the source does (`_add_functions` copies every key). Only the
  action batch leaves it out.
