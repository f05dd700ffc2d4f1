# App shortcut extraction, modelled in Dafny

This project models the macOS shortcut extractor of the toolbox application
(`macos/Runner/AppShortcutsHandler.swift`). Given an application name, it
finds the running application and reads that application's menu bar through
the Accessibility API. It then walks the menu tree and returns one record
(description, shortcut, category) for every menu item that meets all of these:

- it is reached from the menu bar's children through elements whose role is
  readable and is `AXMenu` or `AXMenuBarItem`, and whose children are readable;
- its role is `AXMenuItem`;
- its title is readable;
- its `AXMenuItemCmdChar` is readable and non-empty.

The model has five modules:

- `Wrappers` (`wrappers.dfy`): the `Option` type. It stands for attribute
  queries that fail and for searches that find nothing.
- `Modifiers` (`modifiers.dfy`): `getModifierStringFromCmdModifiers`, which
  turns the `AXMenuItemModifiers` bitmask into a glyph string.
  - The source tests the bits 1, 2, 4, 8, 16 and 32 in that order.
  - Their glyphs are ⌘, ⇧, ⌥, ^, • and fn, joined with no separator.
  - The mask is a `bv32`, because the only caller passes a `UInt32` widened to
    `Int`.
  - `ParseModifiers` reads a modifier string back into a mask. It is the
    inverse that the round-trip lemmas are about.
- `MenuWalk` (`menu_walk.dfy`): the menu tree and the walk over it.
  - `Node` is an accessibility element. Every attribute it has is optional:
    role, title, `AXMenuItemCmdChar`, `AXMenuItemModifiers` and children.
  - `Walk` and `WalkAll` are `extractShortcuts`. The walk is depth-first and
    pre-order.
  - `ShortcutsViaAccessibility` is the menu-bar loop of
    `getAppShortcutsViaAccessibility`. It is proved against `MenuBarShortcuts`.
  - `Reached` and `Emit` factor the walk into two steps. `Reached` lists the
    menu items the walk visits, and `Emit` produces their records. `Reached`
    repeats `Walk`'s role dispatch branch for branch, so it is not an
    independent check of that dispatch. What `WalkEmitsReached` adds is that
    records are produced per item, in visiting order.
- `Processes` (`processes.dfy`): the running-application list as an input
  sequence, with `getRunningApps` and `findApp`.
  - Both are loop methods, proved against the specification functions
    `ListedInfos` and `Resolve`.
  - The loops follow the source: two passes with early return, and one
    filtering pass that appends.
- `AppShortcuts` (`app_shortcuts.dfy`): the glue in `getAppShortcuts`.
  - If no application is found, the result is empty.
  - Otherwise the category of every record is the resolved application's own
    name.
  - The accessibility state is an input: `menuBarOf` maps a process id to the
    `AXMenuBar` attribute of that application, or to `None` when the query
    fails.

What the source does, and the model with it:

- The menu bar is read only through the application element's `AXMenuBar`
  attribute (lines 110-112). The source declares the `AXWindows` attribute
  name (line 19) and mentions windows in a comment (line 108), but it never
  reads a window.
- The `AXKeyEquivalent` attribute is queried (lines 165-167) but its value is
  never used. Only `AXMenuItemCmdChar` and `AXMenuItemModifiers` produce
  shortcuts.
- The command character goes into the shortcut as it was read, after the
  modifier glyphs (line 200).
- No item is dropped because of its title: an "About …" item that has a
  command character is emitted (`MenuWalk.ExampleMenuBar`).
- The menu bar's own role is never checked. The step starts from the bar's
  children (`MenuWalk.MenuBarStepStartsAtChildren`); walking an `AXMenuBar`
  element would yield nothing (`MenuWalk.MenuBarNotWalkedDirectly`).

Dafny functions are deterministic, so walking the same tree twice always gives
the same ordered records. No lemma is needed for that.

## Model

| member | source | states |
|---|---|---|
| `Modifiers.GlyphPresence` | macos/Runner/AppShortcutsHandler.swift:260-279 | ⌘ appears iff bit 1 is set, ⇧ iff bit 2, ⌥ iff bit 4, ^ iff bit 8, • iff bit 16 and fn iff bit 32. The string is at most seven characters long (six glyphs, one of them two characters). |
| `Modifiers.ModifierStringIsRender` | macos/Runner/AppShortcutsHandler.swift:259-279 | The bit-by-bit string equals the table-driven rendering: the glyphs of the set bits, in the fixed order ⌘ ⇧ ⌥ ^ • fn, with no separator. |
| `Modifiers.ParseModifierString` | macos/Runner/AppShortcutsHandler.swift:250-279 | Round trip: reading back the modifier string of any mask gives exactly `mask & 63`. |
| `Modifiers.ModifierStringOfParsed` | macos/Runner/AppShortcutsHandler.swift:250-279 | Reverse round trip: any string that reads back as a mask is that mask's modifier string, and the mask has no bits above 32. |
| `Modifiers.ModifierStringDeterminedByLowBits` | macos/Runner/AppShortcutsHandler.swift:250-279 | Two masks give the same string iff they agree on `& 63`. Higher bits are ignored, and distinct six-bit masks render differently. |
| `Modifiers.ModifierStringExamples` | macos/Runner/AppShortcutsHandler.swift:254-279 | Mask 0 gives "", 2 gives "⇧", 28 (= 16 + 8 + 4) gives "⌥^•" and 63 gives "⌘⇧⌥^•fn". |
| `MenuWalk.ItemShortcut` | macos/Runner/AppShortcutsHandler.swift:179-215 | A menu item has a record iff its title and a non-empty command character are readable. The description is the title and the category is the application name. The shortcut ends with the command character, and what comes before it reads back as the modifiers (`& 63`, or 0 when they are unreadable). |
| `MenuWalk.Walk` | macos/Runner/AppShortcutsHandler.swift:147-247 | Every record of a walk has category = appName and a non-empty shortcut. The number of records is at most the number of `AXMenuItem` elements in the tree, so a tree without menu items yields nothing. |
| `MenuWalk.WalkAll` | macos/Runner/AppShortcutsHandler.swift:226-235 | The in-order concatenation of the children's walks keeps the same two guarantees, bounded by the items under those children. |
| `MenuWalk.ItemIsLeaf` | macos/Runner/AppShortcutsHandler.swift:158-218 | An `AXMenuItem` element with a readable title and a readable, non-empty command character yields exactly one record: the title, the modifier glyphs of its mask (none when unreadable) followed by the command character, and the application name. Any other `AXMenuItem` yields nothing. Its children are never visited. |
| `MenuWalk.WalkEmitsReached` | macos/Runner/AppShortcutsHandler.swift:147-247 | The walk equals the records of the menu items it reaches, in pre-order. It descends only through readable `AXMenu` and `AXMenuBarItem` children; an unreadable role and every other role contribute nothing. |
| `MenuWalk.WalkAllEmitsReached` | macos/Runner/AppShortcutsHandler.swift:226-235 | The same correspondence holds for a list of siblings. |
| `MenuWalk.WalkRecordsComeFromItems` | macos/Runner/AppShortcutsHandler.swift:179-215 | Every record of a walk is the record of one `AXMenuItem` element that the walk reaches. |
| `MenuWalk.MenuBarShortcuts` | macos/Runner/AppShortcutsHandler.swift:110-143 | The menu-bar step yields only records with category = appName and a non-empty shortcut. |
| `MenuWalk.MenuBarStepStartsAtChildren` | macos/Runner/AppShortcutsHandler.swift:110-137 | For any bar with readable children, whatever its role, the step is the records of the menu items reached under those children, in order, and never more records than their menu items. |
| `MenuWalk.MenuBarNotWalkedDirectly` | macos/Runner/AppShortcutsHandler.swift:155-244 | Walking an element whose role is `AXMenuBar` yields nothing, because only `AXMenuItem`, `AXMenu` and `AXMenuBarItem` are handled. |
| `MenuWalk.ShortcutsViaAccessibility` | macos/Runner/AppShortcutsHandler.swift:102-144 | The loop's result is the in-order concatenation of the walks of the menu bar's children. It is `[]` when the menu bar or its children cannot be read. |
| `MenuWalk.ExampleItems` | macos/Runner/AppShortcutsHandler.swift:179-215 | "New" with command character N and mask 1 gives "⌘N". An item with no command character gives nothing. "About TextEdit" with no modifiers gives ",". |
| `MenuWalk.ExampleMenuWalk` | macos/Runner/AppShortcutsHandler.swift:219-235 | A menu yields its items' records in menu order. |
| `MenuWalk.ExampleMenuBar` | macos/Runner/AppShortcutsHandler.swift:110-136 | Menu bar → File → menu yields the records of "New" and "About TextEdit", in that order. Nothing is filtered out. |
| `Processes.GetRunningApps` | macos/Runner/AppShortcutsHandler.swift:25-43 | The loop's result is `ListedInfos`: the entries of the applications that have a bundle id and the regular policy, in list order. |
| `Processes.ListedInfoAt` | macos/Runner/AppShortcutsHandler.swift:29-39 | Every kept application has its entry at the position given by the number of kept applications before it. name = localizedName, or the bundle id when that is nil; path = bundle path, or "" when that is nil. |
| `Processes.ListedInfoFrom` | macos/Runner/AppShortcutsHandler.swift:29-39 | Every entry is the entry of some kept application, at that application's position. Nothing else is emitted. |
| `Processes.ListedInOrder` | macos/Runner/AppShortcutsHandler.swift:29-40 | Kept applications keep their relative order in the output. |
| `Processes.FirstMatch` | macos/Runner/AppShortcutsHandler.swift:50-71 | A search pass returns the least index, at or after its start, whose application the pass accepts. It returns none when no such application exists. |
| `Processes.Resolve` | macos/Runner/AppShortcutsHandler.swift:46-75 | If an exact match exists, the result is the first regular, named application whose name equals the query. Otherwise it is the first one whose name contains the query ignoring case. It is none iff neither exists, and never a non-regular or unnamed application. |
| `Processes.FindApp` | macos/Runner/AppShortcutsHandler.swift:46-75 | The two loops with early return find an application iff `Resolve` does, and then return exactly the application at that index. |
| `Processes.ExampleResolution` | macos/Runner/AppShortcutsHandler.swift:49-71 | An exact "Code" wins over an earlier "Code Helper". The query "helper" finds "Code Helper" ignoring case. |
| `AppShortcuts.GetAppShortcuts` | macos/Runner/AppShortcutsHandler.swift:78-99 | No resolved application gives `[]`. Otherwise the result is the menu-bar step for the resolved process, and every record's category is the resolved application's own name. |
| `AppShortcuts.NoMenuBarNoShortcuts` | macos/Runner/AppShortcutsHandler.swift:110-143 | A resolved application whose menu bar cannot be read yields no shortcuts. |
| `AppShortcuts.ShortcutsBoundedByItems` | macos/Runner/AppShortcutsHandler.swift:97-98 | The number of records never exceeds the number of menu items under the resolved menu bar. |

## Left out

- Accessibility API calls (`AXUIElementCreateApplication`, `AXUIElementCopyAttributeValue`, CFArray access, `unsafeBitCast`): these are foreign OS calls. They are replaced by the `Node` datatype, whose attributes are present or absent.
- Forced casts (`as! String?`, `as! UInt32?`, `as! AXUIElement`, `as! CFArray?`), which would trap on a value of another type: an attribute is modelled as either present with the right type or absent.
- The `AXKeyEquivalent` query (lines 165-167): its result is never used, so it is not modelled.
- `targetApp.activate` and `usleep(500000)` (lines 91-94): the source activates the target and waits so that its menus become available (comments at lines 90 and 93). These OS side effects are not modelled; `menuBarOf` stands for the accessibility state as it is after the activation and the delay.
- `NSWorkspace.shared.runningApplications`: the list is an input sequence, and its order is whatever the OS gives.
- Processes.ContainsIgnoringCase: ASCII case folding stands in for the locale-aware `localizedCaseInsensitiveContains`, because Dafny has no Unicode case mapping or locale. An empty query never matches in this pass, as in Foundation.
- Processes.Matches: both passes compare names code point by code point, without Unicode normalisation. Swift's `String ==` (line 53) and Foundation's search (line 64) treat canonically equivalent strings as equal, so a decomposed "Cafe\u{0301}" matches the query "Caf\u{00E9}" in the source but not in the model. Dafny has no Unicode normalisation.
- Logging with `print`: it has no effect on results.
- `macos/Runner/AppDelegate.swift` is not part of this model: it is the Flutter method-channel plumbing, file picking and Info.plist reading.
