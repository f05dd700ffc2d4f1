/**
 * AppShortcutsHandler.getAppShortcuts: resolve the name, then read the
 * resolved process's menu bar and walk it.
 *
 * The accessibility tree of each process is an input: menuBarOf maps a
 * process id to the AXMenuBar attribute of its application element, None
 * when that query fails. Bringing the application forward and the settle
 * delay that follows it are not modelled.
 */
module AppShortcuts {
  import opened Wrappers
  import opened MenuWalk
  import opened Processes

  /** What getAppShortcuts returns for a given process list and accessibility state. */
  function AppShortcutsOf(apps: seq<RunningApp>, appName: string, menuBarOf: int -> Option<Node>): seq<Shortcut>
  {
    match Resolve(apps, appName)
    case None => []
    case Some(i) =>
      var target := apps[i];
      MenuBarShortcuts(menuBarOf(target.pid), match target.name case Some(n) => n case None => "")
  }

  /**
   * getAppShortcuts: no match gives no shortcuts; otherwise every record is
   * categorised under the resolved application's own name, which may differ
   * from the requested one after a case-insensitive match.
   */
  method GetAppShortcuts(apps: seq<RunningApp>, appName: string, menuBarOf: int -> Option<Node>)
    returns (shortcuts: seq<Shortcut>)
    ensures shortcuts == AppShortcutsOf(apps, appName, menuBarOf)
    ensures Resolve(apps, appName).None? ==> shortcuts == []
    ensures Resolve(apps, appName).Some? ==>
      var target := apps[Resolve(apps, appName).value];
      Tagged(shortcuts, target.name.value)
      && shortcuts == MenuBarShortcuts(menuBarOf(target.pid), target.name.value)
  {
    var found := FindApp(apps, appName);
    if found.None? {
      return [];
    }
    var target := found.value;
    var actualAppName := if target.name.Some? then target.name.value else "";
    shortcuts := ShortcutsViaAccessibility(menuBarOf(target.pid), actualAppName);
  }

  /** A process without a readable menu bar yields nothing, even when it is found. */
  lemma NoMenuBarNoShortcuts(apps: seq<RunningApp>, appName: string, menuBarOf: int -> Option<Node>)
    requires Resolve(apps, appName).Some?
    requires menuBarOf(apps[Resolve(apps, appName).value].pid).None?
    ensures AppShortcutsOf(apps, appName, menuBarOf) == []
  {
  }

  /** The number of records never exceeds the number of menu items under the resolved menu bar. */
  lemma ShortcutsBoundedByItems(apps: seq<RunningApp>, appName: string, menuBarOf: int -> Option<Node>)
    requires Resolve(apps, appName).Some?
    requires menuBarOf(apps[Resolve(apps, appName).value].pid).Some?
    ensures
      var bar := menuBarOf(apps[Resolve(apps, appName).value].pid).value;
      |AppShortcutsOf(apps, appName, menuBarOf)|
        <= match bar.children case Readable(cs) => ItemCountAll(cs) case Unreadable => 0
  {
  }
}
