/** A menu item as the factory produces it: the fields of `IMenuItem` that the
    factory sets. `D` is the type of the opaque, type-specific payload. */
module MenuItems {
  import opened Wrappers

  /** `children` is `None` when the field is absent and `Some([])` when it is
      present but empty; the two are distinct states of an item. */
  datatype MenuItem<D> = MenuItem(
    typeName: string,
    data: D,
    name: string,
    icon: string,
    iconTheme: string,
    children: Option<seq<MenuItem<D>>>
  )
}

/** The descriptor every menu-item type implements (`IItemType`). */
module ItemTypes {
  import opened MenuItems

  /** Meta information about one kind of menu item. `getDescription` is a pure
      function from an item of this kind to a human-readable summary. */
  datatype ItemType<!D> = ItemType(
    hasChildren: bool,
    defaultName: string,
    defaultIcon: string,
    defaultIconTheme: string,
    defaultData: D,
    genericDescription: string,
    getDescription: MenuItem<D> -> string
  )
}
