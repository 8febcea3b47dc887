/**
 * The QGIS plugin object of gis_shp_loader.py: it registers one menu and
 * toolbar action, and on demand asks for a root folder and a file name,
 * then loads `<root>/<subfolder>/<file name>` as a vector layer from every
 * subfolder of the root, counting the files it loaded, failed to load and
 * did not find.
 *
 * The QGIS application is a recorder (`Host`) of the calls the plugin makes
 * into it: toolbar and menu registration, layers added to the project and
 * message boxes shown. The file system and the layer-validity check are
 * oracles passed in as an `Environment`.
 */
module ShpLoader {
  import opened Wrappers

  // ---------------------------------------------------------------------
  // Paths (posixpath rules)
  // ---------------------------------------------------------------------

  /** `os.path.join(a, b)`: an absolute `b` replaces `a`; otherwise a `/`
      separates them unless `a` is empty or already ends in one. */
  function PathJoin(a: string, b: string): string
  {
    if b != [] && b[0] == '/' then b
    else if a == [] || a[|a| - 1] == '/' then a + b
    else a + "/" + b
  }

  /** Python's `s.rfind(c)`: the last index of `c` in `s`, or -1. */
  function RFind(s: string, c: char): (r: int)
    ensures -1 <= r < |s|
    ensures r >= 0 ==> s[r] == c
    ensures forall k :: r < k < |s| ==> s[k] != c
  {
    if s == [] then -1
    else if s[|s| - 1] == c then |s| - 1
    else RFind(s[..|s| - 1], c)
  }

  /** Some character of `s[lo..hi]` is not a dot. */
  predicate HasNonDot(s: string, lo: int, hi: int)
    requires 0 <= lo && hi <= |s|
  {
    exists k :: lo <= k < hi && s[k] != '.'
  }

  /** `os.path.splitext(p)[0]`: `p` without the part from its last dot on,
      when that dot lies in the last path component and is not one of the
      component's leading dots; `p` itself otherwise. */
  function SplitExtRoot(p: string): (root: string)
    ensures root <= p
  {
    var sepIndex := RFind(p, '/');
    var dotIndex := RFind(p, '.');
    if dotIndex > sepIndex && HasNonDot(p, sepIndex + 1, dotIndex) then p[..dotIndex] else p
  }

  /** The layer name: the subfolder, `_`, then the file name's stem. */
  function LayerName(subfolder: string, fileName: string): string
  {
    subfolder + "_" + SplitExtRoot(fileName)
  }

  /** `os.path.join(base, subfolder, fileName)`. */
  function CandidatePath(base: string, subfolder: string, fileName: string): string
  {
    PathJoin(PathJoin(base, subfolder), fileName)
  }

  /** A file name with an extension loses exactly `.` and the extension. */
  lemma StemOfExtension(stem: string, ext: string)
    requires '/' !in stem && '/' !in ext && '.' !in ext
    requires exists k :: 0 <= k < |stem| && stem[k] != '.'
    ensures SplitExtRoot(stem + "." + ext) == stem
  {
    var p := stem + "." + ext;
    var dot := RFind(p, '.');
    assert p[|stem|] == '.';
    assert dot == |stem|;
    var sep := RFind(p, '/');
    assert sep == -1;
    var k :| 0 <= k < |stem| && stem[k] != '.';
    assert p[k] == stem[k];
    assert p[..dot] == stem;
  }

  /** A file name without a dot is its own stem. */
  lemma StemWithoutDot(fileName: string)
    requires '.' !in fileName
    ensures SplitExtRoot(fileName) == fileName
  {
    assert RFind(fileName, '.') == -1;
  }

  /** The naming rule on the plugin's default file name. */
  lemma LayerNameExample()
    ensures LayerName("district_01", "A0010000.shp") == "district_01_A0010000"
  {
    var stem, ext := "A0010000", "shp";
    assert "A0010000.shp" == stem + "." + ext;
    assert stem[0] != '.';
    assert '/' !in stem && '/' !in ext && '.' !in ext;
    StemOfExtension(stem, ext);
  }

  /** Below a root that does not end in `/`, each relative piece is
      separated by exactly one `/`. */
  lemma CandidatePathShape(base: string, subfolder: string, fileName: string)
    requires base != [] && base[|base| - 1] != '/'
    requires subfolder != [] && subfolder[0] != '/' && subfolder[|subfolder| - 1] != '/'
    requires fileName != [] && fileName[0] != '/'
    ensures CandidatePath(base, subfolder, fileName) == base + "/" + subfolder + "/" + fileName
  {
    var dir := base + "/" + subfolder;
    assert PathJoin(base, subfolder) == dir;
    assert dir[|dir| - 1] == subfolder[|subfolder| - 1];
  }

  // ---------------------------------------------------------------------
  // The environment: file system and layer provider
  // ---------------------------------------------------------------------

  /** The answers the file system gives: `os.path.exists`, `os.path.isdir`,
      and `os.listdir`, whose `None` stands for a raised exception. */
  datatype FileSystem = FileSystem(
    pathExists: string -> bool,
    isDir: string -> bool,
    listDir: string -> Option<seq<string>>)

  /** A `QgsVectorLayer(source, name, provider)`. */
  datatype Layer = Layer(source: string, name: string, provider: string)

  /** The file system and `QgsVectorLayer.isValid()`. */
  datatype Environment = Environment(fs: FileSystem, isValid: Layer -> bool)

  /** The layer built for one subfolder. */
  function LayerFor(base: string, subfolder: string, fileName: string): Layer
  {
    Layer(CandidatePath(base, subfolder, fileName), LayerName(subfolder, fileName), "ogr")
  }

  /** The subfolder's file exists and the layer built from it is valid. */
  predicate Loads(env: Environment, base: string, subfolder: string, fileName: string)
  {
    env.fs.pathExists(CandidatePath(base, subfolder, fileName)) && env.isValid(LayerFor(base, subfolder, fileName))
  }

  // ---------------------------------------------------------------------
  // The scan
  // ---------------------------------------------------------------------

  /** The entries of the root listing that are directories, in listing order. */
  function Subfolders(fs: FileSystem, base: string, entries: seq<string>): (subs: seq<string>)
    ensures |subs| <= |entries|
    ensures forall e :: e in subs <==> e in entries && fs.isDir(PathJoin(base, e))
  {
    if entries == [] then []
    else (if fs.isDir(PathJoin(base, entries[0])) then [entries[0]] else []) + Subfolders(fs, base, entries[1..])
  }

  /** The three counters and the layers added to the project, in order. */
  datatype Tally = Tally(loaded: nat, failed: nat, notFound: nat, added: seq<Layer>)

  const NoneYet := Tally(0, 0, 0, [])

  /** One pass of the loop body for `subfolder`. */
  function Step(env: Environment, base: string, fileName: string, t: Tally, subfolder: string): Tally
  {
    var path := CandidatePath(base, subfolder, fileName);
    if !env.fs.pathExists(path) then t.(notFound := t.notFound + 1)
    else
      var layer := LayerFor(base, subfolder, fileName);
      if env.isValid(layer) then t.(loaded := t.loaded + 1, added := t.added + [layer])
      else t.(failed := t.failed + 1)
  }

  /** The loop over `subs`, in order. */
  function Scan(env: Environment, base: string, subs: seq<string>, fileName: string): (t: Tally)
    ensures t.loaded + t.failed + t.notFound == |subs|
    ensures |t.added| == t.loaded
  {
    if subs == [] then NoneYet
    else Step(env, base, fileName, Scan(env, base, subs[..|subs| - 1], fileName), subs[|subs| - 1])
  }

  /** The scan of one more subfolder is one more step. */
  lemma ScanSnoc(env: Environment, base: string, subs: seq<string>, fileName: string, i: nat)
    requires i < |subs|
    ensures Scan(env, base, subs[..i + 1], fileName) == Step(env, base, fileName, Scan(env, base, subs[..i], fileName), subs[i])
  {
    assert subs[..i + 1][..i] == subs[..i];
  }

  /** Each subfolder moves exactly one counter by one: loaded when its file
      exists and is a valid layer, failed when it exists but is not valid,
      not-found when it does not exist. Only a loaded file adds a layer. */
  lemma StepCountsOnce(env: Environment, base: string, fileName: string, t: Tally, subfolder: string)
    ensures var u := Step(env, base, fileName, t, subfolder);
      var exists_ := env.fs.pathExists(CandidatePath(base, subfolder, fileName));
      && (u.loaded == t.loaded + 1 <==> exists_ && env.isValid(LayerFor(base, subfolder, fileName)))
      && (u.failed == t.failed + 1 <==> exists_ && !env.isValid(LayerFor(base, subfolder, fileName)))
      && (u.notFound == t.notFound + 1 <==> !exists_)
      && u.loaded + u.failed + u.notFound == t.loaded + t.failed + t.notFound + 1
      && t.loaded <= u.loaded && t.failed <= u.failed && t.notFound <= u.notFound
      && u.added == (if u.loaded == t.loaded then t.added else t.added + [LayerFor(base, subfolder, fileName)])
  {
  }

  /** Two tallies of consecutive runs of the loop, combined. */
  function Combine(t1: Tally, t2: Tally): Tally
  {
    Tally(t1.loaded + t2.loaded, t1.failed + t2.failed, t1.notFound + t2.notFound, t1.added + t2.added)
  }

  /** Scanning `a` then `b` is scanning `a + b`: subfolders are handled
      independently and in listing order. */
  lemma {:induction false} ScanAppend(env: Environment, base: string, a: seq<string>, b: seq<string>, fileName: string)
    ensures Scan(env, base, a + b, fileName) == Combine(Scan(env, base, a, fileName), Scan(env, base, b, fileName))
    decreases |b|
  {
    if b == [] {
      assert a + b == a;
      assert Scan(env, base, a, fileName).added + [] == Scan(env, base, a, fileName).added;
    } else {
      var b' := b[..|b| - 1];
      assert (a + b)[..|a + b| - 1] == a + b';
      assert (a + b)[|a + b| - 1] == b[|b| - 1];
      ScanAppend(env, base, a, b', fileName);
      StepCombine(env, base, fileName, Scan(env, base, a, fileName), Scan(env, base, b', fileName), b[|b| - 1]);
    }
  }

  /** A step after two combined tallies is a step of the second one. */
  lemma StepCombine(env: Environment, base: string, fileName: string, t1: Tally, t2: Tally, subfolder: string)
    ensures Step(env, base, fileName, Combine(t1, t2), subfolder) == Combine(t1, Step(env, base, fileName, t2, subfolder))
  {
    var layer := LayerFor(base, subfolder, fileName);
    assert t1.added + (t2.added + [layer]) == (t1.added + t2.added) + [layer];
  }

  /** `l` is the layer of `subfolder`, and that layer loads. */
  predicate LoadedLayer(env: Environment, base: string, fileName: string, subfolder: string, l: Layer)
  {
    l == LayerFor(base, subfolder, fileName) && Loads(env, base, subfolder, fileName)
  }

  /** A layer is added if and only if it is the layer of some subfolder whose
      file exists and is valid. */
  lemma {:induction false} AddedIff(env: Environment, base: string, subs: seq<string>, fileName: string, l: Layer)
    ensures l in Scan(env, base, subs, fileName).added <==>
      exists k :: 0 <= k < |subs| && LoadedLayer(env, base, fileName, subs[k], l)
  {
    if subs != [] {
      var init := subs[..|subs| - 1];
      AddedIff(env, base, init, fileName, l);
      StepAdded(env, base, fileName, Scan(env, base, init, fileName), subs[|subs| - 1], l);
      PrefixWitness(env, base, fileName, subs, init, l);
    }
  }

  /** A step adds exactly the layer of its subfolder, and only when it loads. */
  lemma StepAdded(env: Environment, base: string, fileName: string, t: Tally, subfolder: string, l: Layer)
    ensures l in Step(env, base, fileName, t, subfolder).added <==>
      l in t.added || LoadedLayer(env, base, fileName, subfolder, l)
  {
  }

  /** A witness among `subs` lies in its prefix or is its last element. */
  lemma PrefixWitness(env: Environment, base: string, fileName: string, subs: seq<string>, init: seq<string>, l: Layer)
    requires subs != [] && init == subs[..|subs| - 1]
    ensures (exists k :: 0 <= k < |subs| && LoadedLayer(env, base, fileName, subs[k], l)) <==>
      (exists k :: 0 <= k < |init| && LoadedLayer(env, base, fileName, init[k], l))
      || LoadedLayer(env, base, fileName, subs[|subs| - 1], l)
  {
    WitnessInPrefix(subs, init, sub => LoadedLayer(env, base, fileName, sub, l));
  }

  /** Whatever the test, an element of `s` passing it lies in its prefix or
      is its last element. */
  lemma WitnessInPrefix<T>(s: seq<T>, init: seq<T>, p: T -> bool)
    requires s != [] && init == s[..|s| - 1]
    ensures (exists k :: 0 <= k < |s| && p(s[k])) <==> (exists k :: 0 <= k < |init| && p(init[k])) || p(s[|s| - 1])
  {
    if exists k :: 0 <= k < |s| && p(s[k]) {
      var k :| 0 <= k < |s| && p(s[k]);
      if k < |init| {
        assert init[k] == s[k];
      }
    }
    if exists k :: 0 <= k < |init| && p(init[k]) {
      var k :| 0 <= k < |init| && p(init[k]);
      assert s[k] == init[k];
    }
  }

  /** The directory filter distributes over concatenation: it keeps the
      listing order and drops only non-directories. */
  lemma {:induction false} SubfoldersAppend(fs: FileSystem, base: string, a: seq<string>, b: seq<string>)
    ensures Subfolders(fs, base, a + b) == Subfolders(fs, base, a) + Subfolders(fs, base, b)
    decreases |a|
  {
    if a == [] {
      assert a + b == b;
    } else {
      assert (a + b)[0] == a[0];
      assert (a + b)[1..] == a[1..] + b;
      SubfoldersAppend(fs, base, a[1..], b);
    }
  }

  /** How many of `subs` load: an independent count, first to last. */
  function CountLoading(env: Environment, base: string, subs: seq<string>, fileName: string): nat
  {
    if subs == [] then 0
    else (if Loads(env, base, subs[0], fileName) then 1 else 0) + CountLoading(env, base, subs[1..], fileName)
  }

  /** How many of `subs` have no file at the candidate path. */
  function CountMissing(env: Environment, base: string, subs: seq<string>, fileName: string): nat
  {
    if subs == [] then 0
    else
      var missing := if env.fs.pathExists(CandidatePath(base, subs[0], fileName)) then 0 else 1;
      missing + CountMissing(env, base, subs[1..], fileName)
  }

  /** The counters the loop reports: loaded counts the subfolders whose layer
      loads, not-found those without the file, failed all the others. */
  lemma {:induction false} ScanCounts(env: Environment, base: string, subs: seq<string>, fileName: string)
    ensures Scan(env, base, subs, fileName).loaded == CountLoading(env, base, subs, fileName)
    ensures Scan(env, base, subs, fileName).notFound == CountMissing(env, base, subs, fileName)
    ensures Scan(env, base, subs, fileName).failed
      == |subs| - CountLoading(env, base, subs, fileName) - CountMissing(env, base, subs, fileName)
    decreases |subs|
  {
    if subs != [] {
      assert [subs[0]] + subs[1..] == subs;
      assert [subs[0]][..0] == [];
      ScanAppend(env, base, [subs[0]], subs[1..], fileName);
      ScanCounts(env, base, subs[1..], fileName);
    }
  }

  /** Three subfolders: the first loads, the second lacks the file, the
      third has it but it is not a valid layer. One of each is counted, and
      only the first layer is added. */
  lemma ThreeSubfolders(env: Environment, base: string, fileName: string, a: string, b: string, c: string)
    requires Loads(env, base, a, fileName)
    requires !env.fs.pathExists(CandidatePath(base, b, fileName))
    requires env.fs.pathExists(CandidatePath(base, c, fileName)) && !env.isValid(LayerFor(base, c, fileName))
    ensures Scan(env, base, [a, b, c], fileName) == Tally(1, 1, 1, [LayerFor(base, a, fileName)])
  {
    var l := LayerFor(base, a, fileName);
    assert [a][..0] == [];
    assert Scan(env, base, [a], fileName) == Tally(1, 0, 0, [l]);
    assert [a, b][..1] == [a];
    assert Scan(env, base, [a, b], fileName) == Tally(1, 0, 1, [l]);
    assert [a, b, c][..2] == [a, b];
  }

  // ---------------------------------------------------------------------
  // What one run reports
  // ---------------------------------------------------------------------

  /** The message box a run ends with. */
  datatype Message =
    | MissingInput
    | FolderNotFound(folder: string)
    | ListingFailed(folder: string)
    | NoSubfolders
    | Completed(loaded: nat, failed: nat, notFound: nat)

  /** `QMessageBox.warning`, `critical` or `information`. */
  datatype Severity = Warning | Critical | Information

  function SeverityOf(m: Message): Severity
  {
    match m
    case MissingInput => Warning
    case FolderNotFound(_) => Critical
    case ListingFailed(_) => Critical
    case NoSubfolders => Warning
    case Completed(_, _, _) => Information
  }

  /** The outcome of a run once the dialog was accepted. */
  datatype Report = Report(message: Message, added: seq<Layer>)

  /** The checks before the loop, then the loop, for root `base` and file
      name `fileName` as typed into the dialog. */
  function Load(env: Environment, base: string, fileName: string): Report
  {
    if base == [] || fileName == [] then Report(MissingInput, [])
    else if !env.fs.pathExists(base) then Report(FolderNotFound(base), [])
    else match env.fs.listDir(base)
      case None => Report(ListingFailed(base), [])
      case Some(entries) =>
        var subs := Subfolders(env.fs, base, entries);
        if subs == [] then Report(NoSubfolders, [])
        else
          var t := Scan(env, base, subs, fileName);
          Report(Completed(t.loaded, t.failed, t.notFound), t.added)
  }

  /** A run completes exactly when both inputs are given, the root exists and
      can be listed, and it has a subfolder; only then are layers added, and
      its counts then cover every subfolder once. */
  lemma LoadCompletes(env: Environment, base: string, fileName: string)
    ensures var r := Load(env, base, fileName);
      && (r.message.Completed? <==>
           && base != [] && fileName != [] && env.fs.pathExists(base)
           && env.fs.listDir(base).Some?
           && Subfolders(env.fs, base, env.fs.listDir(base).value) != [])
      && (!r.message.Completed? ==> r.added == [])
      && (r.message.Completed? ==>
           && r.message.loaded + r.message.failed + r.message.notFound
                == |Subfolders(env.fs, base, env.fs.listDir(base).value)|
           && |r.added| == r.message.loaded)
  {
  }

  /** With a missing input the run warns and consults neither the file
      system nor the layer provider. */
  lemma MissingInputIgnoresEnvironment(env1: Environment, env2: Environment, base: string, fileName: string)
    requires base == [] || fileName == []
    ensures Load(env1, base, fileName) == Load(env2, base, fileName) == Report(MissingInput, [])
    ensures SeverityOf(Load(env1, base, fileName).message) == Warning
  {
  }

  /** With a root that does not exist the run reports an error and neither
      lists a folder nor builds a layer. */
  lemma MissingRootIgnoresListing(env1: Environment, env2: Environment, base: string, fileName: string)
    requires base != [] && fileName != []
    requires !env1.fs.pathExists(base) && !env2.fs.pathExists(base)
    ensures Load(env1, base, fileName) == Load(env2, base, fileName) == Report(FolderNotFound(base), [])
    ensures SeverityOf(Load(env1, base, fileName).message) == Critical
  {
  }

  /** A root with no subfolder is a warning and loads nothing, whatever the
      layer provider answers. */
  lemma NoSubfolderLoadsNothing(env: Environment, base: string, fileName: string)
    requires base != [] && fileName != [] && env.fs.pathExists(base)
    requires env.fs.listDir(base).Some?
    requires forall e :: e in env.fs.listDir(base).value ==> !env.fs.isDir(PathJoin(base, e))
    ensures Load(env, base, fileName) == Report(NoSubfolders, [])
    ensures SeverityOf(Load(env, base, fileName).message) == Warning
  {
    var subs := Subfolders(env.fs, base, env.fs.listDir(base).value);
    assert forall e :: e !in subs;
  }

  // ---------------------------------------------------------------------
  // The QGIS application and the plugin object
  // ---------------------------------------------------------------------

  /** A `QAction` with its icon path and text. */
  class Action {
    const icon: string
    const text: string

    constructor (icon: string, text: string)
      ensures this.icon == icon && this.text == text
    {
      this.icon := icon;
      this.text := text;
    }
  }

  /** A call the plugin makes into QGIS. */
  datatype HostEvent =
    | ToolBarIconAdded(action: Action)
    | PluginMenuAdded(menu: string, action: Action)
    | PluginMenuRemoved(menu: string, action: Action)
    | ToolBarIconRemoved(action: Action)
    | LayerAdded(layer: Layer)
    | MessageShown(severity: Severity, message: Message)

  /** QGIS as the plugin sees it: the calls made into it, in order. */
  class Host {
    var events: seq<HostEvent>

    constructor ()
      ensures events == []
    {
      events := [];
    }
  }

  /** The plugin-menu entry every action is filed under. */
  const MenuName: string := "SHP 로더"

  /** The text of the action `initGui` registers. */
  const ActionText: string := "SHP 파일 로더"

  /** The calls `add_action` makes for each of `actions`, in order. */
  function RegistrationEvents(actions: seq<Action>): seq<HostEvent>
  {
    if actions == [] then []
    else
      var a := actions[|actions| - 1];
      RegistrationEvents(actions[..|actions| - 1]) + [ToolBarIconAdded(a), PluginMenuAdded(MenuName, a)]
  }

  /** The calls `unload` makes for each of `actions`, in order. */
  function UnloadEvents(actions: seq<Action>): seq<HostEvent>
  {
    if actions == [] then []
    else
      var a := actions[|actions| - 1];
      UnloadEvents(actions[..|actions| - 1]) + [PluginMenuRemoved(MenuName, a), ToolBarIconRemoved(a)]
  }

  /** The `addMapLayer` calls for `layers`, in order. */
  function LayerEvents(layers: seq<Layer>): (r: seq<HostEvent>)
    ensures |r| == |layers|
    ensures forall k :: 0 <= k < |layers| ==> r[k] == LayerAdded(layers[k])
  {
    seq(|layers|, k requires 0 <= k < |layers| => LayerAdded(layers[k]))
  }

  /** The calls for two runs of layers are those of the first, then those of
      the second: each layer gets its own call, in order. */
  lemma LayerEventsAppend(a: seq<Layer>, b: seq<Layer>)
    ensures LayerEvents(a + b) == LayerEvents(a) + LayerEvents(b)
  {
    var r := LayerEvents(a) + LayerEvents(b);
    forall k | 0 <= k < |a + b|
      ensures LayerEvents(a + b)[k] == r[k]
    {
      if k < |a| {
        assert (a + b)[k] == a[k];
      } else {
        assert (a + b)[k] == b[k - |a|];
      }
    }
  }

  /** One more layer adds one more event. */
  lemma LayerEventsSnoc(layers: seq<Layer>, layer: Layer)
    ensures LayerEvents(layers + [layer]) == LayerEvents(layers) + [LayerAdded(layer)]
  {
    LayerEventsAppend(layers, [layer]);
  }

  /** The calls a run makes: nothing when the dialog is cancelled, otherwise
      the layers added, then one message box. */
  function RunEvents(answer: DialogAnswer, env: Environment): seq<HostEvent>
  {
    if !answer.accepted then []
    else
      var r := Load(env, answer.folder, answer.fileName);
      LayerEvents(r.added) + [MessageShown(SeverityOf(r.message), r.message)]
  }

  /** The toolbar after one more event. */
  function ToolBarAfter(icons: multiset<Action>, ev: HostEvent): multiset<Action>
  {
    match ev
    case ToolBarIconAdded(a) => icons + multiset{a}
    case ToolBarIconRemoved(a) => icons - multiset{a}
    case _ => icons
  }

  /** The icons on the toolbar after `events`, counted with multiplicity. */
  function ToolBar(events: seq<HostEvent>): multiset<Action>
  {
    if events == [] then multiset{}
    else ToolBarAfter(ToolBar(events[..|events| - 1]), events[|events| - 1])
  }

  /** The plugin menu after one more event. */
  function MenuAfter(entries: multiset<(string, Action)>, ev: HostEvent): multiset<(string, Action)>
  {
    match ev
    case PluginMenuAdded(m, a) => entries + multiset{(m, a)}
    case PluginMenuRemoved(m, a) => entries - multiset{(m, a)}
    case _ => entries
  }

  /** The plugin-menu entries after `events`, counted with multiplicity. */
  function Menu(events: seq<HostEvent>): multiset<(string, Action)>
  {
    if events == [] then multiset{}
    else MenuAfter(Menu(events[..|events| - 1]), events[|events| - 1])
  }

  /** Each action `unload` visits loses its menu entry, then its toolbar icon. */
  lemma {:induction false} UnloadRemovesEach(actions: seq<Action>, k: nat)
    requires k < |actions|
    ensures |UnloadEvents(actions)| == 2 * |actions|
    ensures UnloadEvents(actions)[2 * k] == PluginMenuRemoved(MenuName, actions[k])
    ensures UnloadEvents(actions)[2 * k + 1] == ToolBarIconRemoved(actions[k])
  {
    UnloadLength(actions);
    var init := actions[..|actions| - 1];
    UnloadLength(init);
    if k < |init| {
      UnloadRemovesEach(init, k);
      assert init[k] == actions[k];
    }
  }

  lemma {:induction false} UnloadLength(actions: seq<Action>)
    ensures |UnloadEvents(actions)| == 2 * |actions|
  {
    if actions != [] {
      UnloadLength(actions[..|actions| - 1]);
    }
  }

  /** One more event changes the toolbar as that event says. */
  lemma ToolBarSnoc(e: seq<HostEvent>, ev: HostEvent)
    ensures ToolBar(e + [ev]) == ToolBarAfter(ToolBar(e), ev)
  {
    assert (e + [ev])[..|e|] == e;
  }

  /** One more event changes the menu as that event says. */
  lemma MenuSnoc(e: seq<HostEvent>, ev: HostEvent)
    ensures Menu(e + [ev]) == MenuAfter(Menu(e), ev)
  {
    assert (e + [ev])[..|e|] == e;
  }

  /** Two events appended one after the other. */
  lemma AppendTwo(before: seq<HostEvent>, r: seq<HostEvent>, x: HostEvent, y: HostEvent)
    ensures before + (r + [x, y]) == (before + r + [x]) + [y]
  {
  }

  /** Registering `actions` puts each of them on the toolbar. */
  lemma {:induction false} RegistrationAddsIcons(before: seq<HostEvent>, actions: seq<Action>)
    ensures ToolBar(before + RegistrationEvents(actions)) == ToolBar(before) + multiset(actions)
  {
    if actions == [] {
      assert before + [] == before;
    } else {
      var init := actions[..|actions| - 1];
      var a := actions[|actions| - 1];
      RegistrationAddsIcons(before, init);
      var mid := before + RegistrationEvents(init);
      AppendTwo(before, RegistrationEvents(init), ToolBarIconAdded(a), PluginMenuAdded(MenuName, a));
      ToolBarSnoc(mid + [ToolBarIconAdded(a)], PluginMenuAdded(MenuName, a));
      ToolBarSnoc(mid, ToolBarIconAdded(a));
      MultisetOfLast(actions);
    }
  }

  /** Registering `actions` files each of them in the plugin menu. */
  lemma {:induction false} RegistrationAddsEntries(before: seq<HostEvent>, actions: seq<Action>)
    ensures Menu(before + RegistrationEvents(actions)) == Menu(before) + MenuEntries(actions)
  {
    if actions == [] {
      assert before + [] == before;
    } else {
      var init := actions[..|actions| - 1];
      var a := actions[|actions| - 1];
      RegistrationAddsEntries(before, init);
      var mid := before + RegistrationEvents(init);
      AppendTwo(before, RegistrationEvents(init), ToolBarIconAdded(a), PluginMenuAdded(MenuName, a));
      MenuSnoc(mid + [ToolBarIconAdded(a)], PluginMenuAdded(MenuName, a));
      MenuSnoc(mid, ToolBarIconAdded(a));
    }
  }

  /** The elements of a non-empty sequence: those before the last, and the last. */
  lemma MultisetOfLast<T>(s: seq<T>)
    requires s != []
    ensures multiset(s) == multiset(s[..|s| - 1]) + multiset{s[|s| - 1]}
  {
    assert s == s[..|s| - 1] + [s[|s| - 1]];
  }

  /** Taking away `s` and then `t` is taking away both. */
  lemma SubtractTwice<T>(m: multiset<T>, s: multiset<T>, t: multiset<T>, prev: multiset<T>, result: multiset<T>, both: multiset<T>)
    requires prev == m - s && result == prev - t && both == s + t
    ensures result == m - both
  {
    forall x
      ensures (m - s - t)[x] == (m - (s + t))[x]
    {
    }
  }

  /** Unloading `actions` takes each of them off the toolbar. */
  lemma {:induction false} UnloadRemovesIcons(before: seq<HostEvent>, actions: seq<Action>)
    ensures ToolBar(before + UnloadEvents(actions)) == ToolBar(before) - multiset(actions)
  {
    if actions == [] {
      assert before + [] == before;
    } else {
      var init := actions[..|actions| - 1];
      var a := actions[|actions| - 1];
      UnloadRemovesIcons(before, init);
      var mid := before + UnloadEvents(init);
      AppendTwo(before, UnloadEvents(init), PluginMenuRemoved(MenuName, a), ToolBarIconRemoved(a));
      ToolBarSnoc(mid + [PluginMenuRemoved(MenuName, a)], ToolBarIconRemoved(a));
      ToolBarSnoc(mid, PluginMenuRemoved(MenuName, a));
      assert ToolBar(mid + [PluginMenuRemoved(MenuName, a)]) == ToolBar(before) - multiset(init);
      MultisetOfLast(actions);
      SubtractTwice(ToolBar(before), multiset(init), multiset{a},
        ToolBar(mid + [PluginMenuRemoved(MenuName, a)]), ToolBar(before + UnloadEvents(actions)), multiset(actions));
    }
  }

  /** Unloading `actions` takes each of them out of the plugin menu. */
  lemma {:induction false} UnloadRemovesEntries(before: seq<HostEvent>, actions: seq<Action>)
    ensures Menu(before + UnloadEvents(actions)) == Menu(before) - MenuEntries(actions)
  {
    if actions == [] {
      assert before + [] == before;
    } else {
      var init := actions[..|actions| - 1];
      var a := actions[|actions| - 1];
      UnloadRemovesEntries(before, init);
      var mid := before + UnloadEvents(init);
      AppendTwo(before, UnloadEvents(init), PluginMenuRemoved(MenuName, a), ToolBarIconRemoved(a));
      MenuSnoc(mid + [PluginMenuRemoved(MenuName, a)], ToolBarIconRemoved(a));
      MenuSnoc(mid, PluginMenuRemoved(MenuName, a));
      SubtractTwice(Menu(before), MenuEntries(init), multiset{(MenuName, a)},
        Menu(mid), Menu(mid + [PluginMenuRemoved(MenuName, a)]), MenuEntries(actions));
    }
  }

  /** The menu entries `add_action` files `actions` under. */
  function MenuEntries(actions: seq<Action>): multiset<(string, Action)>
  {
    if actions == [] then multiset{}
    else MenuEntries(actions[..|actions| - 1]) + multiset{(MenuName, actions[|actions| - 1])}
  }

  /** `unload` undoes what registering the same actions did: the toolbar and
      the menu are as they were before. */
  lemma UnloadUndoesRegistration(before: seq<HostEvent>, actions: seq<Action>)
    ensures ToolBar(before + RegistrationEvents(actions) + UnloadEvents(actions)) == ToolBar(before)
    ensures Menu(before + RegistrationEvents(actions) + UnloadEvents(actions)) == Menu(before)
  {
    RegistrationAddsIcons(before, actions);
    RegistrationAddsEntries(before, actions);
    UnloadRemovesIcons(before + RegistrationEvents(actions), actions);
    UnloadRemovesEntries(before + RegistrationEvents(actions), actions);
  }

  /** What the dialog returned: whether it was accepted, and the two texts. */
  datatype DialogAnswer = DialogAnswer(accepted: bool, folder: string, fileName: string)

  /** The plugin object `GisShpLoader`. */
  class GisShpLoader {
    const iface: Host
    const pluginDir: string
    var actions: seq<Action>
    var dialog: Option<DialogAnswer>

    /** `__init__`: `pluginDir` is the directory the plugin is installed in. */
    constructor (iface: Host, pluginDir: string)
      ensures this.iface == iface && this.pluginDir == pluginDir
      ensures actions == [] && dialog == None
    {
      this.iface := iface;
      this.pluginDir := pluginDir;
      actions := [];
      dialog := None;
    }

    /** `add_action`: a new action on the toolbar and in the plugin menu,
        recorded as the last of `actions`. */
    method AddAction(iconPath: string, text: string) returns (action: Action)
      modifies this, iface
      ensures fresh(action) && action.icon == iconPath && action.text == text
      ensures actions == old(actions) + [action]
      ensures dialog == old(dialog)
      ensures iface.events == old(iface.events) + RegistrationEvents([action])
    {
      action := new Action(iconPath, text);
      iface.events := iface.events + [ToolBarIconAdded(action)];
      iface.events := iface.events + [PluginMenuAdded(MenuName, action)];
      actions := actions + [action];
      assert [action][..0] == [];
    }

    /** `initGui`: registers the plugin's one action, with the icon shipped
        in the plugin directory. */
    method InitGui()
      modifies this, iface
      ensures |actions| == |old(actions)| + 1 && actions[..|old(actions)|] == old(actions)
      ensures actions[|actions| - 1].icon == PathJoin(pluginDir, "icon.png")
      ensures actions[|actions| - 1].text == ActionText
      ensures iface.events == old(iface.events) + RegistrationEvents([actions[|actions| - 1]])
      ensures dialog == old(dialog)
    {
      var action := AddAction(PathJoin(pluginDir, "icon.png"), ActionText);
      assert actions[|actions| - 1] == action;
    }

    /** `unload`: every recorded action loses its menu entry and its toolbar
        icon. The list itself is kept. */
    method Unload()
      modifies iface
      ensures iface.events == old(iface.events) + UnloadEvents(actions)
    {
      var i := 0;
      while i < |actions|
        invariant 0 <= i <= |actions|
        invariant iface.events == old(iface.events) + UnloadEvents(actions[..i])
      {
        assert actions[..i + 1][..i] == actions[..i];
        iface.events := iface.events + [PluginMenuRemoved(MenuName, actions[i])];
        iface.events := iface.events + [ToolBarIconRemoved(actions[i])];
        i := i + 1;
      }
      assert actions[..i] == actions;
    }

    /** A message box. */
    method Show(m: Message)
      modifies iface
      ensures iface.events == old(iface.events) + [MessageShown(SeverityOf(m), m)]
    {
      iface.events := iface.events + [MessageShown(SeverityOf(m), m)];
    }

    /** The loop of `run`: loads `fileName` from each of `subs` below
        `base`, adding the valid layers to the project in order, and counts
        the files loaded, failed and not found. */
    method LoadSubfolders(env: Environment, base: string, subs: seq<string>, fileName: string)
      returns (loaded: nat, failed: nat, notFound: nat)
      modifies iface
      ensures var t := Scan(env, base, subs, fileName);
        loaded == t.loaded && failed == t.failed && notFound == t.notFound
      ensures iface.events == old(iface.events) + LayerEvents(Scan(env, base, subs, fileName).added)
    {
      var t := NoneYet;
      for i := 0 to |subs|
        invariant t == Scan(env, base, subs[..i], fileName)
        invariant iface.events == old(iface.events) + LayerEvents(t.added)
      {
        ScanSnoc(env, base, subs, fileName, i);
        t := LoadOne(env, base, subs[i], fileName, t, old(iface.events));
      }
      assert subs[..|subs|] == subs;
      loaded, failed, notFound := t.loaded, t.failed, t.notFound;
    }

    /** One pass of that loop for `subfolder`: when its file exists and is
        a valid layer the layer is added to the project; one counter moves. */
    method LoadOne(env: Environment, base: string, subfolder: string, fileName: string, t: Tally,
                   ghost before: seq<HostEvent>) returns (u: Tally)
      requires iface.events == before + LayerEvents(t.added)
      modifies iface
      ensures u == Step(env, base, fileName, t, subfolder)
      ensures iface.events == before + LayerEvents(u.added)
    {
      var path := CandidatePath(base, subfolder, fileName);
      if env.fs.pathExists(path) {
        var layer := LayerFor(base, subfolder, fileName);
        if env.isValid(layer) {
          LayerEventsSnoc(t.added, layer);
          iface.events := iface.events + [LayerAdded(layer)];
          u := t.(loaded := t.loaded + 1, added := t.added + [layer]);
        } else {
          u := t.(failed := t.failed + 1);
        }
      } else {
        u := t.(notFound := t.notFound + 1);
      }
    }

    /** `run`: shows the dialog, and when it is accepted checks the inputs,
        lists the subfolders of the root and loads the file from each,
        then reports the three counts. */
    method Run(answer: DialogAnswer, env: Environment)
      modifies this, iface
      ensures dialog == Some(answer) && actions == old(actions)
      ensures iface.events == old(iface.events) + RunEvents(answer, env)
    {
      dialog := Some(answer);
      if !answer.accepted {
        return;
      }
      var base, fileName := answer.folder, answer.fileName;
      if base == [] || fileName == [] {
        Show(MissingInput);
        return;
      }
      if !env.fs.pathExists(base) {
        Show(FolderNotFound(base));
        return;
      }
      var listing := env.fs.listDir(base);
      if listing.None? {
        Show(ListingFailed(base));
        return;
      }
      var subs := Subfolders(env.fs, base, listing.value);
      if subs == [] {
        Show(NoSubfolders);
        return;
      }
      var loaded, failed, notFound := LoadSubfolders(env, base, subs, fileName);
      Show(Completed(loaded, failed, notFound));
    }
  }
}
