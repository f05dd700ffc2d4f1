/**
 * The accessibility menu tree and the recursive shortcut walk
 * (AppShortcutsHandler.extractShortcuts and the menu-bar step of
 * getAppShortcutsViaAccessibility).
 *
 * Every attribute query on an element may fail, so every attribute of a
 * node is optional. The walk is depth-first and pre-order: a menu item
 * yields at most one record, a menu or menu-bar item yields the in-order
 * concatenation of its children's walks, and every other element yields
 * nothing.
 */
module MenuWalk {
  import opened Wrappers
  import Modifiers

  const MenuItemRole: string := "AXMenuItem"
  const MenuRole: string := "AXMenu"
  const MenuBarItemRole: string := "AXMenuBarItem"
  /** The role the application's menu bar reports; the walk does not recognise it. */
  const MenuBarRole: string := "AXMenuBar"

  /** The AXChildren attribute: unreadable, or the ordered child elements. */
  datatype Children = Unreadable | Readable(items: seq<Node>)

  /**
   * An accessibility element as the walk sees it: AXRole, AXTitle,
   * AXMenuItemCmdChar, AXMenuItemModifiers and AXChildren, each None when
   * the query fails or the value has another type.
   */
  datatype Node = Node(
    role: Option<string>,
    title: Option<string>,
    cmdChar: Option<string>,
    cmdModifiers: Option<Modifiers.Mask>,
    children: Children)

  /** One extracted shortcut: the item's title, the rendered keys and the application name. */
  datatype Shortcut = Shortcut(description: string, shortcut: string, category: string)

  /** Every record names the application and carries a non-empty shortcut. */
  ghost predicate Tagged(rs: seq<Shortcut>, appName: string)
  {
    forall k :: 0 <= k < |rs| ==> rs[k].category == appName && rs[k].shortcut != []
  }

  /** The modifiers that count for an item: unreadable modifiers render as no glyph, like mask 0. */
  function ModifiersOf(n: Node): Modifiers.Mask
  {
    match n.cmdModifiers
    case Some(m) => m & 63
    case None => 0
  }

  /**
   * The record a menu item yields: present exactly when its title and a
   * non-empty command character are readable. The shortcut is the command
   * character preceded by the rendering of the modifiers, which reads back
   * as the modifiers that count.
   */
  function ItemShortcut(n: Node, appName: string): (r: Option<Shortcut>)
    ensures r.Some? <==> n.title.Some? && n.cmdChar.Some? && n.cmdChar.value != ""
    ensures r.Some? ==> r.value.description == n.title.value && r.value.category == appName
    ensures r.Some? ==>
      var s, key := r.value.shortcut, n.cmdChar.value;
      |key| <= |s| && s[|s| - |key|..] == key
      && Modifiers.ParseModifiers(s[..|s| - |key|]) == Some(ModifiersOf(n))
  {
    match n.title
    case None => None
    case Some(title) =>
      match n.cmdChar
      case None => None
      case Some(key) =>
        if key == "" then None
        else
          var prefix := match n.cmdModifiers
            case Some(m) => Modifiers.ModifierString(m)
            case None => "";
          Modifiers.ParseModifierString(match n.cmdModifiers case Some(m) => m case None => 0);
          Modifiers.ModifierStringExamples();
          var s := prefix + key;
          assert s[|s| - |key|..] == key && s[..|s| - |key|] == prefix;
          Some(Shortcut(title, s, appName))
  }

  /** Number of AXMenuItem elements anywhere in the tree, readable or not. */
  function ItemCount(n: Node): nat
    decreases n
  {
    (if n.role == Some(MenuItemRole) then 1 else 0)
    + match n.children
      case Readable(cs) => ItemCountAll(cs)
      case Unreadable => 0
  }

  function ItemCountAll(cs: seq<Node>): nat
    decreases cs
  {
    if cs == [] then 0 else ItemCountAll(cs[..|cs| - 1]) + ItemCount(cs[|cs| - 1])
  }

  /** The walk of one element. */
  function Walk(n: Node, appName: string): (r: seq<Shortcut>)
    ensures Tagged(r, appName)
    ensures |r| <= ItemCount(n)
    decreases n
  {
    match n.role
    case None => []
    case Some(role) =>
      if role == MenuItemRole then
        match ItemShortcut(n, appName)
        case Some(rec) => [rec]
        case None => []
      else if role == MenuRole || role == MenuBarItemRole then
        match n.children
        case Readable(cs) => WalkAll(cs, appName)
        case Unreadable => []
      else []
  }

  /** The walks of a list of sibling elements, concatenated in order. */
  function WalkAll(cs: seq<Node>, appName: string): (r: seq<Shortcut>)
    ensures Tagged(r, appName)
    ensures |r| <= ItemCountAll(cs)
    decreases cs
  {
    if cs == [] then []
    else WalkAll(cs[..|cs| - 1], appName) + Walk(cs[|cs| - 1], appName)
  }

  /** The menu items the walk visits, in the order it visits them. */
  function Reached(n: Node): (items: seq<Node>)
    ensures forall k :: 0 <= k < |items| ==> items[k].role == Some(MenuItemRole)
    decreases n
  {
    match n.role
    case None => []
    case Some(role) =>
      if role == MenuItemRole then [n]
      else if role == MenuRole || role == MenuBarItemRole then
        match n.children
        case Readable(cs) => ReachedAll(cs)
        case Unreadable => []
      else []
  }

  function ReachedAll(cs: seq<Node>): (items: seq<Node>)
    ensures forall k :: 0 <= k < |items| ==> items[k].role == Some(MenuItemRole)
    decreases cs
  {
    if cs == [] then [] else ReachedAll(cs[..|cs| - 1]) + Reached(cs[|cs| - 1])
  }

  /** The records of a list of menu items: one per item that has one, in item order. */
  function Emit(items: seq<Node>, appName: string): (r: seq<Shortcut>)
    ensures |r| <= |items|
    ensures forall k :: 0 <= k < |r| ==>
      exists j :: 0 <= j < |items| && ItemShortcut(items[j], appName) == Some(r[k])
  {
    if items == [] then []
    else
      var last := items[|items| - 1];
      var init := Emit(items[..|items| - 1], appName);
      var r := init + match ItemShortcut(last, appName) case Some(rec) => [rec] case None => [];
      assert forall k :: 0 <= k < |init| ==> r[k] == init[k];
      r
  }

  lemma {:induction false} EmitAppend(a: seq<Node>, b: seq<Node>, appName: string)
    ensures Emit(a + b, appName) == Emit(a, appName) + Emit(b, appName)
    decreases |b|
  {
    if b != [] {
      var b' := b[..|b| - 1];
      assert (a + b)[..|a + b| - 1] == a + b';
      assert (a + b)[|a + b| - 1] == b[|b| - 1];
      EmitAppend(a, b', appName);
    } else {
      assert a + b == a;
    }
  }

  /** The walk emits exactly the records of the menu items it reaches, in pre-order. */
  lemma {:induction false} WalkEmitsReached(n: Node, appName: string)
    ensures Walk(n, appName) == Emit(Reached(n), appName)
    decreases n
  {
    match n.role
    case None =>
    case Some(role) =>
      if role == MenuItemRole {
        assert [n][..0] == [];
      } else if role == MenuRole || role == MenuBarItemRole {
        match n.children
        case Readable(cs) => WalkAllEmitsReached(cs, appName);
        case Unreadable =>
      }
  }

  lemma {:induction false} WalkAllEmitsReached(cs: seq<Node>, appName: string)
    ensures WalkAll(cs, appName) == Emit(ReachedAll(cs), appName)
    decreases cs
  {
    if cs != [] {
      WalkAllEmitsReached(cs[..|cs| - 1], appName);
      WalkEmitsReached(cs[|cs| - 1], appName);
      EmitAppend(ReachedAll(cs[..|cs| - 1]), Reached(cs[|cs| - 1]), appName);
    }
  }

  /** Every record of a walk is the record of a menu item the walk reaches. */
  lemma WalkRecordsComeFromItems(n: Node, appName: string)
    ensures forall k :: 0 <= k < |Walk(n, appName)| ==>
      exists j :: 0 <= j < |Reached(n)| && Reached(n)[j].role == Some(MenuItemRole)
        && ItemShortcut(Reached(n)[j], appName) == Some(Walk(n, appName)[k])
  {
    WalkEmitsReached(n, appName);
  }

  /**
   * A menu item yields, in closed form, the record of its title and of its
   * command character preceded by its modifier glyphs; its children are never
   * visited.
   */
  lemma ItemIsLeaf(n: Node, appName: string)
    requires n.role == Some(MenuItemRole)
    ensures n.title.Some? && n.cmdChar.Some? && n.cmdChar.value != "" ==>
      Walk(n, appName) == [Shortcut(n.title.value,
                                    Modifiers.ModifierString(ModifiersOf(n)) + n.cmdChar.value,
                                    appName)]
    ensures !(n.title.Some? && n.cmdChar.Some? && n.cmdChar.value != "") ==> Walk(n, appName) == []
  {
    match n.cmdModifiers
    case Some(m) =>
      Modifiers.ModifierStringDeterminedByLowBits(m, m & 63);
    case None =>
      Modifiers.ModifierStringExamples();
  }

  /** The records of the application's menu bar: the walks of its children, in order. */
  function MenuBarShortcuts(menuBar: Option<Node>, appName: string): (r: seq<Shortcut>)
    ensures Tagged(r, appName)
  {
    match menuBar
    case None => []
    case Some(bar) =>
      match bar.children
      case Readable(cs) => WalkAll(cs, appName)
      case Unreadable => []
  }

  /**
   * The menu bar's own role is never examined: for any bar with readable
   * children the step is the records of the menu items reached under them.
   */
  lemma MenuBarStepStartsAtChildren(bar: Node, appName: string)
    requires bar.children.Readable?
    ensures MenuBarShortcuts(Some(bar), appName) == Emit(ReachedAll(bar.children.items), appName)
    ensures |MenuBarShortcuts(Some(bar), appName)| <= ItemCountAll(bar.children.items)
  {
    WalkAllEmitsReached(bar.children.items, appName);
  }

  /** Walking the bar element itself, whose role is AXMenuBar, would yield nothing. */
  lemma MenuBarNotWalkedDirectly(bar: Node, appName: string)
    requires bar.role == Some(MenuBarRole)
    ensures Walk(bar, appName) == []
  {
  }

  // A File menu with a shortcut item, an item without a command character
  // and an About item.
  const ExampleNew := Node(Some(MenuItemRole), Some("New"), Some("N"), Some(1), Unreadable)
  const ExampleSeparator := Node(Some(MenuItemRole), Some(""), None, None, Unreadable)
  const ExampleAbout := Node(Some(MenuItemRole), Some("About TextEdit"), Some(","), None, Unreadable)
  const ExampleMenu := Node(Some(MenuRole), None, None, None,
                            Readable([ExampleNew, ExampleSeparator, ExampleAbout]))
  const ExampleFile := Node(Some(MenuBarItemRole), Some("File"), None, None, Readable([ExampleMenu]))
  const ExampleBar := Node(Some(MenuBarRole), None, None, None, Readable([ExampleFile]))

  lemma ExampleItems()
    ensures Walk(ExampleNew, "TextEdit") == [Shortcut("New", "⌘N", "TextEdit")]
    ensures Walk(ExampleSeparator, "TextEdit") == []
    ensures Walk(ExampleAbout, "TextEdit") == [Shortcut("About TextEdit", ",", "TextEdit")]
  {
    assert Modifiers.ModifierString(1) == "⌘";
    assert "⌘" + "N" == "⌘N";
  }

  /** Both items with a command character are kept, About included, in menu order. */
  lemma ExampleMenuWalk()
    ensures Walk(ExampleMenu, "TextEdit")
      == [Shortcut("New", "⌘N", "TextEdit"), Shortcut("About TextEdit", ",", "TextEdit")]
  {
    var app := "TextEdit";
    ExampleItems();
    var items := [ExampleNew, ExampleSeparator, ExampleAbout];
    var newRec := Shortcut("New", "⌘N", app);
    assert WalkAll(items[..1], app) == [newRec] by {
      assert items[..1][..0] == [];
    }
    assert WalkAll(items[..2], app) == [newRec] by {
      assert items[..2][..1] == items[..1];
    }
    assert items[..3 - 1] == items[..2];
  }

  /** The menu bar yields the File menu's records. */
  lemma ExampleMenuBar()
    ensures MenuBarShortcuts(Some(ExampleBar), "TextEdit")
      == [Shortcut("New", "⌘N", "TextEdit"), Shortcut("About TextEdit", ",", "TextEdit")]
  {
    ExampleMenuWalk();
    assert [ExampleMenu][..0] == [];
    assert Walk(ExampleFile, "TextEdit") == Walk(ExampleMenu, "TextEdit");
    assert [ExampleFile][..0] == [];
  }

  /**
   * The menu-bar step as the source runs it: a loop over the bar's children
   * that appends each child's walk.
   */
  method ShortcutsViaAccessibility(menuBar: Option<Node>, appName: string) returns (shortcuts: seq<Shortcut>)
    ensures shortcuts == MenuBarShortcuts(menuBar, appName)
  {
    if menuBar.None? {
      return [];
    }
    var bar := menuBar.value;
    if bar.children.Unreadable? {
      return [];
    }
    var cs := bar.children.items;
    shortcuts := [];
    for i := 0 to |cs|
      invariant shortcuts == WalkAll(cs[..i], appName)
    {
      shortcuts := shortcuts + Walk(cs[i], appName);
      assert cs[..i + 1][..i] == cs[..i];
    }
    assert cs[..|cs|] == cs;
  }
}
