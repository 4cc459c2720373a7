/** The item-type registry and factory (`ItemFactory`): a table from type name to
    descriptor, filled once with the four built-in types, plus lookup, enumeration
    and creation of default menu items, and the lazily built shared instance. */
module ItemFactory {
  import opened Wrappers
  import opened OrderedMaps
  import opened MenuItems
  import opened ItemTypes

  /** The registry: type names to descriptors, in registration order. */
  datatype Factory<!D> = Factory(types: OrderedMap<string, ItemType<D>>)

  /** The descriptors of the four built-in kinds. Their contents live in classes
      that are not part of this model, so they are a parameter. */
  datatype BuiltinTypes<!D> = BuiltinTypes(
    command: ItemType<D>,
    hotkey: ItemType<D>,
    submenu: ItemType<D>,
    uri: ItemType<D>
  )

  /** The names the constructor registers, in registration order. */
  const BuiltinNames: seq<string> := ["command", "hotkey", "submenu", "uri"]

  /** The error thrown by `createMenuItem` when the type name is not registered:
      reading `defaultData` of `undefined`. */
  datatype FactoryError = UndefinedItemType(typeName: string)

  /** The private constructor: four `set` calls on an empty `Map`. */
  function NewFactory<D>(b: BuiltinTypes<D>): (f: Factory<D>)
    ensures f.types.entries ==
      [("command", b.command), ("hotkey", b.hotkey), ("submenu", b.submenu), ("uri", b.uri)]
    ensures Keys(f.types) == BuiltinNames
    ensures Valid(f.types)
  {
    var m0 := Empty<string, ItemType<D>>();
    var m1 := Set(m0, "command", b.command);
    assert Keys(m1) == ["command"];
    var m2 := Set(m1, "hotkey", b.hotkey);
    assert Keys(m2) == ["command", "hotkey"];
    var m3 := Set(m2, "submenu", b.submenu);
    assert Keys(m3) == ["command", "hotkey", "submenu"];
    var m4 := Set(m3, "uri", b.uri);
    Factory(m4)
  }

  /** `getItemType`: the descriptor registered under `typeName`, or `None`. */
  function GetItemType<D>(f: Factory<D>, typeName: string): (r: Option<ItemType<D>>)
    ensures r.None? <==> typeName !in Keys(f.types)
    ensures r.Some? ==> exists i :: 0 <= i < |f.types.entries| && f.types.entries[i] == (typeName, r.value)
  {
    Get(f.types, typeName)
  }

  /** `getAllTypes`: the registry's own map, not a copy. */
  function GetAllTypes<D>(f: Factory<D>): (m: OrderedMap<string, ItemType<D>>)
    ensures Keys(m) == Keys(f.types)
    ensures forall n :: Get(m, n) == GetItemType(f, n)
  {
    f.types
  }

  /** `createMenuItem`: a new item seeded from the descriptor's defaults; the
      `children` field exists only for types that have children. */
  function CreateMenuItem<D>(f: Factory<D>, typeName: string): (r: Result<MenuItem<D>, FactoryError>)
    ensures r.Failure? <==> GetItemType(f, typeName).None?
    ensures r.Failure? ==> r.error == UndefinedItemType(typeName)
    ensures r.Success? ==> IsDefaultItem(GetItemType(f, typeName).value, typeName, r.value)
  {
    match GetItemType(f, typeName)
    case None => Failure(UndefinedItemType(typeName))
    case Some(t) =>
      var item := MenuItem(typeName, t.defaultData, t.defaultName, t.defaultIcon, t.defaultIconTheme, None);
      if t.hasChildren then Success(item.(children := Some([]))) else Success(item)
  }

  /** `item` is a fresh item of type `typeName` described by `t`: every field holds
      the descriptor's default and `children` is present, and empty, exactly when
      the descriptor has children. */
  ghost predicate IsDefaultItem<D>(t: ItemType<D>, typeName: string, item: MenuItem<D>) {
    && item.typeName == typeName
    && item.data == t.defaultData
    && item.name == t.defaultName
    && item.icon == t.defaultIcon
    && item.iconTheme == t.defaultIconTheme
    && (item.children.Some? <==> t.hasChildren)
    && (item.children.Some? ==> item.children.value == [])
  }

  /** An item is well formed in `f` when its type is registered and its
      `children` field exists exactly when that type has children. */
  ghost predicate WellFormed<D>(f: Factory<D>, item: MenuItem<D>) {
    match GetItemType(f, item.typeName)
    case None => false
    case Some(t) => item.children.Some? <==> t.hasChildren
  }

  /** After construction each built-in name resolves to its own descriptor and
      every other name resolves to nothing. */
  lemma BuiltinLookup<D>(b: BuiltinTypes<D>, typeName: string)
    ensures GetItemType(NewFactory(b), "command") == Some(b.command)
    ensures GetItemType(NewFactory(b), "hotkey") == Some(b.hotkey)
    ensures GetItemType(NewFactory(b), "submenu") == Some(b.submenu)
    ensures GetItemType(NewFactory(b), "uri") == Some(b.uri)
    ensures GetItemType(NewFactory(b), typeName).Some? <==> typeName in BuiltinNames
  {
    var m := NewFactory(b).types;
    GetEntry(m, 0);
    GetEntry(m, 1);
    GetEntry(m, 2);
    GetEntry(m, 3);
  }

  /** Enumeration and lookup agree: every enumerated entry is what lookup returns
      for its name, and lookup finds a name exactly when it is enumerated. */
  lemma EnumerationAgreesWithLookup<D>(f: Factory<D>, typeName: string)
    requires Valid(f.types)
    ensures forall i :: 0 <= i < |GetAllTypes(f).entries| ==>
      GetItemType(f, GetAllTypes(f).entries[i].0) == Some(GetAllTypes(f).entries[i].1)
    ensures GetItemType(f, typeName).Some? <==> typeName in Keys(GetAllTypes(f))
  {
    forall i | 0 <= i < |GetAllTypes(f).entries|
      ensures GetItemType(f, GetAllTypes(f).entries[i].0) == Some(GetAllTypes(f).entries[i].1)
    {
      GetEntry(f.types, i);
    }
  }

  /** Every item the factory creates is well formed in that factory. */
  lemma CreatedItemIsWellFormed<D>(f: Factory<D>, typeName: string)
    requires CreateMenuItem(f, typeName).Success?
    ensures WellFormed(f, CreateMenuItem(f, typeName).value)
    ensures CreateMenuItem(f, typeName).value.typeName == typeName
  {
  }

  /** Creating an item of a built-in kind yields that kind's defaults; any other
      name fails. */
  lemma CreateBuiltin<D>(b: BuiltinTypes<D>, typeName: string)
    ensures typeName == "command" ==>
      CreateMenuItem(NewFactory(b), typeName).Success? &&
      IsDefaultItem(b.command, typeName, CreateMenuItem(NewFactory(b), typeName).value)
    ensures typeName == "hotkey" ==>
      CreateMenuItem(NewFactory(b), typeName).Success? &&
      IsDefaultItem(b.hotkey, typeName, CreateMenuItem(NewFactory(b), typeName).value)
    ensures typeName == "submenu" ==>
      CreateMenuItem(NewFactory(b), typeName).Success? &&
      IsDefaultItem(b.submenu, typeName, CreateMenuItem(NewFactory(b), typeName).value)
    ensures typeName == "uri" ==>
      CreateMenuItem(NewFactory(b), typeName).Success? &&
      IsDefaultItem(b.uri, typeName, CreateMenuItem(NewFactory(b), typeName).value)
    ensures typeName !in BuiltinNames ==> CreateMenuItem(NewFactory(b), typeName) == Failure(UndefinedItemType(typeName))
  {
    BuiltinLookup(b, typeName);
  }

  /** The static `instance` field of the class: `None` until the first
      `getInstance` call, the shared registry afterwards. */
  datatype Singleton<!D> = Singleton(instance: Option<Factory<D>>)

  /** `getInstance`: builds the registry on the first call and returns the stored
      one, leaving the state as it is, on every later call. Returns the instance
      and the state after the call. */
  function GetInstance<D>(s: Singleton<D>, b: BuiltinTypes<D>): (r: (Factory<D>, Singleton<D>))
    ensures r.1.instance == Some(r.0)
    ensures s.instance.Some? ==> r == (s.instance.value, s)
    ensures s.instance.None? ==> r == (NewFactory(b), Singleton(Some(NewFactory(b))))
    ensures s.instance.None? ==> Keys(r.0.types) == BuiltinNames && Valid(r.0.types)
  {
    match s.instance
    case Some(f) => (f, s)
    case None =>
      var f := NewFactory(b);
      (f, Singleton(Some(f)))
  }

  /** A second call returns the same instance and state as the first, whatever
      descriptors it would have used to build one. */
  lemma GetInstanceIdempotent<D>(s: Singleton<D>, b: BuiltinTypes<D>, b': BuiltinTypes<D>)
    ensures GetInstance(GetInstance(s, b).1, b') == GetInstance(s, b)
  {
  }

  /** The instances returned by `n` successive calls of `getInstance` from state `s`. */
  function Instances<D>(s: Singleton<D>, b: BuiltinTypes<D>, n: nat): (fs: seq<Factory<D>>)
    ensures |fs| == n
    decreases n
  {
    if n == 0 then []
    else
      var (f, s') := GetInstance(s, b);
      [f] + Instances(s', b, n - 1)
  }

  /** Once the instance exists, every call returns it. */
  lemma {:induction false} InstancesAfterInit<D>(s: Singleton<D>, b: BuiltinTypes<D>, n: nat)
    requires s.instance.Some?
    ensures forall i :: 0 <= i < n ==> Instances(s, b, n)[i] == s.instance.value
    decreases n
  {
    if n > 0 {
      InstancesAfterInit(s, b, n - 1);
    }
  }

  /** From the initial state the first call builds the registry from the
      built-in descriptors, and every later call returns that same registry. */
  lemma {:induction false} EveryCallReturnsTheFirstInstance<D>(b: BuiltinTypes<D>, n: nat)
    ensures forall i :: 0 <= i < n ==> Instances(Singleton(None), b, n)[i] == NewFactory(b)
  {
    if n > 0 {
      var f := NewFactory(b);
      InstancesAfterInit(Singleton(Some(f)), b, n - 1);
    }
  }
}
