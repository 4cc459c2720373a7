# Kando item-type registry and factory, in Dafny

This project models the menu-item type system of Kando, a cross-platform pie
menu: the `IItemType` descriptor every kind of menu item implements, and the
`ItemFactory` singleton that registers the four built-in kinds (`command`,
`hotkey`, `submenu`, `uri`), looks them up, enumerates them and creates new menu
items seeded with a kind's defaults.

Modules:

- `Wrappers` — `Option` (a JavaScript value that may be `undefined`) and
  `Result` (a call that returns or throws).
- `OrderedMaps` — the JavaScript `Map` the registry is stored in: a sequence of
  `(key, value)` entries in insertion order; `Set` replaces the value of a present
  key in place and appends a new key at the end; `Get` returns `None` for a key
  that is not there.
- `MenuItems` — the fields of a menu item that the factory sets. `children` is an
  `Option`, so an absent field (`None`) and a present empty list (`Some([])`) are
  different items.
- `ItemTypes` — the `IItemType` descriptor, generic over the opaque payload type
  `D`, with `getDescription` as a pure function field.
- `ItemFactory` — the registry (`Factory`), its constructor (`NewFactory`),
  `GetItemType`, `GetAllTypes`, `CreateMenuItem`, and the lazily initialised
  static instance (`Singleton`, `GetInstance`).

The four concrete descriptor classes are not part of this model: the constructor
takes them as a `BuiltinTypes` parameter of four arbitrary descriptors, and
nothing here assumes which of them has children or what their defaults are.

`createMenuItem` on a name that is not registered reads `defaultData` of
`undefined` and throws a `TypeError`. The model returns
`Failure(UndefinedItemType(typeName))` in that case instead of forbidding it with
a precondition, and proves that creation fails exactly for unregistered names.

## Model

| member | source | states |
|---|---|---|
| OrderedMaps.Get | src/common/item-factory.ts:96 | `Map.get` yields nothing exactly when the key is not among the map's keys, and otherwise a value stored under that key in some entry |
| OrderedMaps.GetEntry | src/common/item-factory.ts:96 | in a map without duplicate keys, `get` on any entry's key yields that entry's value |
| OrderedMaps.Set | src/common/item-factory.ts:71-74 | `Map.set` with a new key appends `(key, value)` after all existing entries; with a present key the key order is unchanged |
| OrderedMaps.SetPreservesValid | src/common/item-factory.ts:71-74 | `Map.set` never creates a second entry for a key |
| OrderedMaps.GetSetSame | src/common/item-factory.ts:71-74 | after `set(k, v)`, `get(k)` yields `v` |
| OrderedMaps.GetSetOther | src/common/item-factory.ts:71-74 | `set(k, v)` leaves `get` of every other key unchanged |
| ItemFactory.NewFactory | src/common/item-factory.ts:64-75 | after construction the registry holds exactly `command`, `hotkey`, `submenu`, `uri`, each once, in that order, each with its own descriptor |
| ItemFactory.GetItemType | src/common/item-factory.ts:95-97 | returns nothing exactly for unregistered names, and otherwise a descriptor registered under that name |
| ItemFactory.BuiltinLookup | src/common/item-factory.ts:70-75 | in the constructed registry each built-in name resolves to its own descriptor, and a name resolves at all exactly when it is one of the four |
| ItemFactory.GetAllTypes | src/common/item-factory.ts:104-106 | the enumerated map has the registry's keys in the registry's order, and agrees with `getItemType` on every name |
| ItemFactory.EnumerationAgreesWithLookup | src/common/item-factory.ts:104-106 | every enumerated entry is what lookup returns for its name, and lookup finds a name exactly when enumeration lists it |
| ItemFactory.CreateMenuItem | src/common/item-factory.ts:114-129 | fails with the undefined-type error exactly when the name is unregistered; otherwise the item has the requested type, the descriptor's default data, name, icon and icon theme, and `children` present and empty exactly when the descriptor has children, absent otherwise |
| ItemFactory.CreatedItemIsWellFormed | src/common/item-factory.ts:124-128 | every created item's type resolves in the registry and its `children` field exists exactly when that type has children |
| ItemFactory.CreateBuiltin | src/common/item-factory.ts:114-129 | creating each built-in kind from the constructed registry succeeds with that kind's defaults, and any other name fails |
| ItemFactory.GetInstance | src/common/item-factory.ts:82-87 | the returned instance is the one stored afterwards; a stored instance is returned with the state untouched; the first call builds the registry the constructor builds (the four kinds, no name twice) and stores it |
| ItemFactory.GetInstanceIdempotent | src/common/item-factory.ts:82-87 | a second call returns the same instance and state as the first, whatever descriptors it could have built from |
| ItemFactory.InstancesAfterInit | src/common/item-factory.ts:83-86 | once an instance is stored, every one of any number of further calls returns it |
| ItemFactory.EveryCallReturnsTheFirstInstance | src/common/item-factory.ts:82-87 | from the initial state, every one of any number of calls returns the registry the constructor builds |

## Left out

- The concrete classes `CommandItemType`, `HotkeyItemType`, `SubmenuItemType` and `URIItemType` (src/common/item-factory.ts:13-16) are not part of this model; their descriptors are parameters.
- The contents of `genericDescription` and `getDescription`: human-readable, localisable text; `getDescription` is an arbitrary pure function field.
- The full `IMenuItem` interface is not part of this model; only the fields the factory sets are modelled.
- Sharing of `defaultData`: `createMenuItem` stores the descriptor's own `defaultData` reference in the new item (src/common/item-factory.ts:118). Editing one item's object payload in place therefore changes the default every later item of that kind receives; the model's values are immutable, so this aliasing effect is not modelled.
- Sharing of the registry: `getAllTypes` returns the live `types` map (src/common/item-factory.ts:104-106), so a caller's `set` or `delete` on it changes later `getItemType` and `createMenuItem` results; the model returns the registry as an immutable value, so this aliasing effect is not modelled.
- `getItemType` and `createMenuItem` leaving the registry unchanged is not stated as a contract: both are pure functions of the registry value, so no other outcome is expressible.
- JavaScript static-field and module-loading semantics beyond "the instance is created once": the static field is an explicit `Singleton` state passed in and returned.
- `OrderedMaps.Set` for a key already present: only the unchanged key order is stated, not the replaced value's position; the registry's constructor only ever sets new keys.
