/**
 * The running-application list and the two operations over it
 * (AppShortcutsHandler.getRunningApps and AppShortcutsHandler.findApp).
 *
 * The list itself is an input: the OS decides its contents and order.
 */
module Processes {
  import opened Wrappers

  /**
   * One NSRunningApplication: localizedName, bundleIdentifier, whether its
   * activation policy is .regular, the path of bundleURL and the process id.
   */
  datatype RunningApp = RunningApp(
    name: Option<string>,
    bundleId: Option<string>,
    regular: bool,
    path: Option<string>,
    pid: int)

  /** The "name" / "bundleId" / "path" dictionary getRunningApps emits. */
  datatype AppInfo = AppInfo(name: string, bundleId: string, path: string)

  // ---------------------------------------------------------------- listing

  /** getRunningApps keeps the applications that have a bundle id and the regular policy. */
  predicate IsListed(app: RunningApp)
  {
    app.bundleId.Some? && app.regular
  }

  /** The entry of a kept application: the name falls back to the bundle id, the path to "". */
  function Info(app: RunningApp): AppInfo
    requires IsListed(app)
  {
    AppInfo(
      match app.name case Some(n) => n case None => app.bundleId.value,
      app.bundleId.value,
      match app.path case Some(p) => p case None => "")
  }

  /** How many applications of the list are kept. */
  function CountListed(apps: seq<RunningApp>): nat
  {
    if apps == [] then 0
    else CountListed(apps[..|apps| - 1]) + if IsListed(apps[|apps| - 1]) then 1 else 0
  }

  /** The entries of the kept applications, in list order. */
  function ListedInfos(apps: seq<RunningApp>): (r: seq<AppInfo>)
    ensures |r| == CountListed(apps)
  {
    if apps == [] then []
    else
      var last := apps[|apps| - 1];
      ListedInfos(apps[..|apps| - 1]) + if IsListed(last) then [Info(last)] else []
  }

  /** getRunningApps: one pass over the list, appending the entry of every kept application. */
  method GetRunningApps(apps: seq<RunningApp>) returns (infos: seq<AppInfo>)
    ensures infos == ListedInfos(apps)
  {
    infos := [];
    for i := 0 to |apps|
      invariant infos == ListedInfos(apps[..i])
    {
      assert apps[..i + 1][..i] == apps[..i];
      var app := apps[i];
      if app.bundleId.None? {
        continue;
      }
      if app.regular {
        var entry := AppInfo(
          if app.name.Some? then app.name.value else app.bundleId.value,
          app.bundleId.value,
          if app.path.Some? then app.path.value else "");
        infos := infos + [entry];
      }
    }
    assert apps[..|apps|] == apps;
  }

  lemma {:induction false} CountListedPrefix(apps: seq<RunningApp>, i: nat, j: nat)
    requires i <= j <= |apps|
    ensures CountListed(apps[..i]) <= CountListed(apps[..j])
    decreases j - i
  {
    if i < j {
      CountListedPrefix(apps, i, j - 1);
      assert apps[..j][..j - 1] == apps[..j - 1];
    }
  }

  /** A kept application's entry sits at the position given by the kept applications before it. */
  lemma {:induction false} ListedInfoAt(apps: seq<RunningApp>, i: nat)
    requires i < |apps| && IsListed(apps[i])
    ensures CountListed(apps[..i]) < |ListedInfos(apps)|
    ensures ListedInfos(apps)[CountListed(apps[..i])] == Info(apps[i])
    ensures Info(apps[i]).bundleId == apps[i].bundleId.value
    ensures Info(apps[i]).name == if apps[i].name.Some? then apps[i].name.value else apps[i].bundleId.value
    ensures Info(apps[i]).path == if apps[i].path.Some? then apps[i].path.value else ""
    decreases |apps|
  {
    var init := apps[..|apps| - 1];
    if i == |apps| - 1 {
      assert init == apps[..i];
    } else {
      ListedInfoAt(init, i);
      assert init[..i] == apps[..i];
    }
  }

  /** Every entry is the entry of a kept application, at the position that application's rank gives. */
  lemma {:induction false} ListedInfoFrom(apps: seq<RunningApp>, k: nat)
    requires k < |ListedInfos(apps)|
    ensures exists i :: (0 <= i < |apps| && IsListed(apps[i])
                         && CountListed(apps[..i]) == k && ListedInfos(apps)[k] == Info(apps[i]))
    decreases |apps|
  {
    var init := apps[..|apps| - 1];
    var last := |apps| - 1;
    if k < |ListedInfos(init)| {
      ListedInfoFrom(init, k);
      var i :| 0 <= i < |init| && IsListed(init[i])
        && CountListed(init[..i]) == k && ListedInfos(init)[k] == Info(init[i]);
      assert init[..i] == apps[..i];
    } else {
      assert init == apps[..last];
    }
  }

  /** Kept applications keep their relative order. */
  lemma ListedInOrder(apps: seq<RunningApp>, i: nat, j: nat)
    requires i < j < |apps| && IsListed(apps[i])
    ensures CountListed(apps[..i]) < CountListed(apps[..j])
  {
    CountListedPrefix(apps, i + 1, j);
    assert apps[..i + 1][..i] == apps[..i];
  }

  // ------------------------------------------------------------- resolution

  /** The two passes of findApp. */
  datatype Pass = Exact | Fuzzy

  /** Both passes consider only regular applications whose name is readable. */
  predicate Candidate(app: RunningApp)
  {
    app.regular && app.name.Some?
  }

  /** ASCII case folding, standing in for the locale-aware comparison of Foundation. */
  function Lower(c: char): char
  {
    if 'A' <= c <= 'Z' then (c as int + 32) as char else c
  }

  function LowerString(s: string): (r: string)
    ensures |r| == |s|
  {
    seq(|s|, i requires 0 <= i < |s| => Lower(s[i]))
  }

  predicate OccursAt(hay: string, needle: string, k: nat)
    requires k + |needle| <= |hay|
  {
    LowerString(hay[k..k + |needle|]) == LowerString(needle)
  }

  /**
   * localizedCaseInsensitiveContains: the needle occurs somewhere, ignoring
   * case. An empty needle is never found, as Foundation's range search finds
   * no empty range.
   */
  predicate ContainsIgnoringCase(hay: string, needle: string)
  {
    needle != [] && exists k: nat :: k <= |hay| - |needle| && OccursAt(hay, needle, k)
  }

  predicate Matches(app: RunningApp, query: string, pass: Pass)
  {
    Candidate(app) &&
    match pass
    case Exact => app.name.value == query
    case Fuzzy => ContainsIgnoringCase(app.name.value, query)
  }

  /** i is the first application of the list that the pass accepts. */
  ghost predicate IsFirst(apps: seq<RunningApp>, query: string, pass: Pass, i: nat)
  {
    i < |apps| && Matches(apps[i], query, pass)
    && forall j :: 0 <= j < i ==> !Matches(apps[j], query, pass)
  }

  ghost predicate AnyMatch(apps: seq<RunningApp>, query: string, pass: Pass)
  {
    exists i :: 0 <= i < |apps| && Matches(apps[i], query, pass)
  }

  /** The first application at or after from that the pass accepts. */
  function FirstMatch(apps: seq<RunningApp>, query: string, pass: Pass, from: nat): (r: Option<nat>)
    requires from <= |apps|
    ensures r.Some? ==> (from <= r.value < |apps| && Matches(apps[r.value], query, pass)
                         && forall j :: from <= j < r.value ==> !Matches(apps[j], query, pass))
    ensures r.None? ==> forall j :: from <= j < |apps| ==> !Matches(apps[j], query, pass)
    decreases |apps| - from
  {
    if from == |apps| then None
    else if Matches(apps[from], query, pass) then Some(from)
    else FirstMatch(apps, query, pass, from + 1)
  }

  /**
   * The index findApp resolves a name to: the first exact match if there is
   * one, otherwise the first case-insensitive substring match, otherwise none.
   */
  function Resolve(apps: seq<RunningApp>, query: string): (r: Option<nat>)
    ensures r.Some? ==> r.value < |apps| && Candidate(apps[r.value])
    ensures AnyMatch(apps, query, Exact) ==> r.Some? && IsFirst(apps, query, Exact, r.value)
    ensures !AnyMatch(apps, query, Exact) && AnyMatch(apps, query, Fuzzy) ==>
      r.Some? && IsFirst(apps, query, Fuzzy, r.value)
    ensures r.None? <==> !AnyMatch(apps, query, Exact) && !AnyMatch(apps, query, Fuzzy)
  {
    match FirstMatch(apps, query, Exact, 0)
    case Some(i) => Some(i)
    case None => FirstMatch(apps, query, Fuzzy, 0)
  }

  /** findApp: an exact pass, then a case-insensitive pass; the first match wins. */
  method FindApp(apps: seq<RunningApp>, name: string) returns (found: Option<RunningApp>)
    ensures found.Some? <==> Resolve(apps, name).Some?
    ensures found.Some? ==> found.value == apps[Resolve(apps, name).value]
  {
    for i := 0 to |apps|
      invariant forall j :: 0 <= j < i ==> !Matches(apps[j], name, Exact)
    {
      var app := apps[i];
      if app.regular && app.name.Some? && app.name.value == name {
        assert IsFirst(apps, name, Exact, i);
        return Some(app);
      }
    }
    for i := 0 to |apps|
      invariant forall j :: 0 <= j < i ==> !Matches(apps[j], name, Fuzzy)
    {
      var app := apps[i];
      if app.regular && app.name.Some? && ContainsIgnoringCase(app.name.value, name) {
        assert IsFirst(apps, name, Fuzzy, i);
        return Some(app);
      }
    }
    return None;
  }

  /** An exact match wins over an earlier case-insensitive one, and case is ignored in the second pass. */
  lemma ExampleResolution()
    ensures
      var helper := RunningApp(Some("Code Helper"), Some("com.example.helper"), true, None, 10);
      var code := RunningApp(Some("Code"), Some("com.example.code"), true, None, 11);
      Resolve([helper, code], "Code") == Some(1) && Resolve([helper, code], "helper") == Some(0)
  {
    var helper := RunningApp(Some("Code Helper"), Some("com.example.helper"), true, None, 10);
    var code := RunningApp(Some("Code"), Some("com.example.code"), true, None, 11);
    assert Matches(code, "Code", Exact);
    assert !Matches(helper, "helper", Exact) && !Matches(code, "helper", Exact);
    assert OccursAt("Code Helper", "helper", 5) by {
      assert "Code Helper"[5..11] == "Helper";
    }
    assert Matches(helper, "helper", Fuzzy);
  }
}
