/**
  The environment of a helper: an array sized by the two parameter counts and
  filled by the two iterations.  The counts and the iterations walk the same trees
  in different ways; that they agree is what keeps the array from being overrun.
  */
module RequestEnv {
  import opened RbTree
  import opened ParamTree
  import opened TreeWalk
  import opened Params
  import DeviceText

  datatype Option<T> = None | Some(value: T)

  /** An entry of the environment array, or the null pointer. */
  datatype Slot = Null | Str(text: string)

  datatype ReqType = Any | Add | Remove | Change

  /** The parts of a request and of the daemon's state that are passed on; `dev` is the pair of device numbers. */
  datatype Request = Request(kind: ReqType, path: Option<string>, renamedPath: Option<string>,
                             dev: Option<(nat, nat)>, mode: bv32, mountpoint: string, configPath: string,
                             helpersDir: string, logfile: Option<string>, instance: string,
                             debugLevel: int, errorLevel: int, daemonlet: bool)

  const PATH_MAX: nat := 4096
  const S_IFMT: bv32 := 0xf000
  const S_IFBLK: bv32 := 0x6000
  const S_IFCHR: bv32 := 0x2000

  // ---------- the texts ----------

  function TypeText(kind: ReqType): string {
    match kind
    case Add => "add"
    case Remove => "remove"
    case Change => "change"
    case Any => "none"
  }

  function ModeText(mode: bv32): string {
    if mode & S_IFMT == S_IFBLK then "block" else if mode & S_IFMT == S_IFCHR then "char" else "none"
  }

  function LevelText(debugLevel: int, errorLevel: int): string {
    if debugLevel > 0 then if debugLevel == 1 then "info" else "debug"
    else if errorLevel == 1 then "error" else "warning"
  }

  /** The path of the request, or the one it was renamed to. */
  function PathOf(req: Request): Option<string> { if req.renamedPath.Some? then req.renamedPath else req.path }

  /** `snprintf` into a buffer of `PATH_MAX` characters. */
  function Bounded(s: string): string { if |s| < PATH_MAX then s else s[..PATH_MAX - 1] }

  function Lower(c: char): char { if 'A' <= c <= 'Z' then ((c as int) + 32) as char else c }

  /** `strcasecmp` finds no difference. */
  predicate SameName(a: string, b: string) { |a| == |b| && forall i :: 0 <= i < |a| ==> Lower(a[i]) == Lower(b[i]) }

  // ---------- the fixed variables ----------

  function Var(name: string, value: string): Slot { Str(name + "=" + value) }

  function VarIf(name: string, value: Option<string>): seq<Slot> {
    if value.Some? then [Var(name, value.value)] else []
  }

  /** A variable that may be given, by name and value. */
  datatype Given = Given(name: string, value: Option<string>)

  function When(b: bool, value: string): Option<string> { if b then Some(value) else None }

  function Place(req: Request): seq<Given> {
    var path := PathOf(req);
    [Given("VDEV_MOUNTPOINT", Some(req.mountpoint)),
     Given("VDEV_ACTION", Some(TypeText(req.kind))),
     Given("VDEV_PATH", path),
     Given("VDEV_METADATA",
           if path.Some? then Some(Bounded(req.mountpoint + "/metadata//dev/" + path.value)) else None),
     Given("VDEV_GLOBAL_METADATA", Some(Bounded(req.mountpoint + "/metadata/"))),
     Given("VDEV_CONFIG_FILE", Some(req.configPath))]
  }

  function Numbers(req: Request): seq<Given> {
    [Given("VDEV_MAJOR", if req.dev.Some? then Some(DeviceText.Decimal(req.dev.value.0)) else None),
     Given("VDEV_MINOR", if req.dev.Some? then Some(DeviceText.Decimal(req.dev.value.1)) else None),
     Given("VDEV_MODE", When(req.mode & (S_IFBLK | S_IFCHR) != 0, ModeText(req.mode)))]
  }

  function Daemon(req: Request): seq<Given> {
    [Given("VDEV_HELPERS", Some(req.helpersDir)),
     Given("VDEV_LOGFILE", if req.logfile.Some? && !SameName(req.logfile.value, "syslog") then req.logfile else None),
     Given("VDEV_INSTANCE", Some(req.instance)),
     Given("VDEV_DAEMONLET", Some(if req.daemonlet then "1" else "0")),
     Given("VDEV_LOGLEVEL", Some(LevelText(req.debugLevel, req.errorLevel)))]
  }

  /** The variables that do not come from a parameter list. */
  function Fixed(req: Request): seq<Given> { Place(req) + Numbers(req) + Daemon(req) }

  function VarsGiven(gs: seq<Given>): (r: seq<Slot>)
    ensures |r| <= |gs| && Null !in r
  {
    if gs == [] then [] else VarsGiven(gs[..|gs| - 1]) + VarIf(gs[|gs| - 1].name, gs[|gs| - 1].value)
  }

  function FixedVars(req: Request): (r: seq<Slot>)
    ensures |r| <= 14 && Null !in r
  {
    VarsGiven(Fixed(req))
  }

  /** What is in the list is what is given, name by name. */
  lemma {:induction false} GivenIn(gs: seq<Given>, x: Slot)
    ensures x in VarsGiven(gs) <==>
      exists k :: 0 <= k < |gs| && gs[k].value.Some? && x == Var(gs[k].name, gs[k].value.value)
  {
    if gs != [] {
      var n := |gs| - 1;
      GivenIn(gs[..n], x);
      assert forall k :: 0 <= k < n ==> gs[..n][k] == gs[k];
      assert x in VarIf(gs[n].name, gs[n].value) <==> gs[n].value.Some? && x == Var(gs[n].name, gs[n].value.value);
    }
  }

  /** Names are told apart, and so are values of one name. */
  lemma VarsDiffer(a: string, v: string, b: string, w: string)
    requires '=' !in a && '=' !in b
    ensures Var(a, v) == Var(b, w) <==> a == b && v == w
  {
    if Var(a, v) == Var(b, w) {
      var s := a + "=" + v;
      assert s == a + ['='] + v && s == b + ['='] + w;
      DeviceText.IndexIs(a, '=', v);
      DeviceText.IndexIs(b, '=', w);
      assert a == s[..|a|] && b == s[..|b|] && v == s[|a| + 1..] && w == s[|b| + 1..];
    }
  }

  lemma NameAt(req: Request, k: nat, v: string)
    requires k < 14
    ensures Var(Fixed(req)[k].name, v) in FixedVars(req) <==> Fixed(req)[k].value == Some(v)
  {
    var gs := Fixed(req);
    NamesDiffer(req);
    hide Fixed;
    GivenIn(gs, Var(gs[k].name, v));
    forall j | 0 <= j < 14 && gs[j].value.Some?
      ensures Var(gs[j].name, gs[j].value.value) == Var(gs[k].name, v) <==> j == k && gs[j].value == Some(v)
    {
      VarsDiffer(gs[j].name, gs[j].value.value, gs[k].name, v);
    }
  }

  const NAMES: seq<string> :=
    ["VDEV_MOUNTPOINT", "VDEV_ACTION", "VDEV_PATH", "VDEV_METADATA", "VDEV_GLOBAL_METADATA",
     "VDEV_CONFIG_FILE", "VDEV_MAJOR", "VDEV_MINOR", "VDEV_MODE", "VDEV_HELPERS",
     "VDEV_LOGFILE", "VDEV_INSTANCE", "VDEV_DAEMONLET", "VDEV_LOGLEVEL"]

  // The names differ in their lengths or in their seventh characters.
  const LENGTHS: seq<nat> := [15, 11, 9, 13, 20, 16, 10, 10, 9, 12, 12, 13, 14, 13]
  const SEVENTH: string := "OCAELOAIOEONAO"

  lemma NameIs(k: nat)
    requires k < 14
    ensures |NAMES| == 14 && |NAMES[k]| == LENGTHS[k] && NAMES[k][6] == SEVENTH[k] && '=' !in NAMES[k]
  {
  }

  lemma FixedNames(req: Request)
    ensures |Fixed(req)| == 14 && forall k :: 0 <= k < 14 ==> Fixed(req)[k].name == NAMES[k]
  {
    hide TypeText, ModeText, LevelText, Bounded, SameName, PathOf, When, DeviceText.Decimal;
  }

  lemma NamesDiffer(req: Request)
    ensures var gs := Fixed(req);
      && |gs| == 14 && (forall j :: 0 <= j < 14 ==> '=' !in gs[j].name)
      && forall j, k :: 0 <= j < 14 && 0 <= k < 14 && gs[j].name == gs[k].name ==> j == k
  {
    FixedNames(req);
    hide Fixed;
    forall k | 0 <= k < 14
      ensures |NAMES[k]| == LENGTHS[k] && NAMES[k][6] == SEVENTH[k] && '=' !in NAMES[k]
    {
      NameIs(k);
    }
    MarksDiffer();
  }

  lemma MarksDiffer()
    ensures |LENGTHS| == |SEVENTH| == 14
    ensures forall j, k :: 0 <= j < k < 14 ==> LENGTHS[j] != LENGTHS[k] || SEVENTH[j] != SEVENTH[k]
  {
  }

  lemma VarAt(req: Request, k: nat, text: string, v: string)
    requires k < 14 && text == NAMES[k] + "="
    ensures |Fixed(req)| == 14 && (Str(text + v) in FixedVars(req) <==> Fixed(req)[k].value == Some(v))
  {
    FixedNames(req);
    NameAt(req, k, v);
    assert NAMES[k] + "=" + v == text + v;
  }

  /** What is asked for, and where. */
  lemma RequestThere(req: Request, v: string)
    ensures Str("VDEV_MOUNTPOINT=" + v) in FixedVars(req) <==>
      v == req.mountpoint
    ensures Str("VDEV_ACTION=" + v) in FixedVars(req) <==>
      v == (match req.kind case Add => "add" case Remove => "remove" case Change => "change" case Any => "none")
    ensures Str("VDEV_GLOBAL_METADATA=" + v) in FixedVars(req) <==>
      var s := req.mountpoint + "/metadata/"; v == if |s| < 4096 then s else s[..4095]
    ensures Str("VDEV_CONFIG_FILE=" + v) in FixedVars(req) <==>
      v == req.configPath
  {
    hide FixedVars, DeviceText.Decimal;
    VarAt(req, 0, "VDEV_MOUNTPOINT=", v);
    VarAt(req, 1, "VDEV_ACTION=", v);
    VarAt(req, 4, "VDEV_GLOBAL_METADATA=", v);
    VarAt(req, 5, "VDEV_CONFIG_FILE=", v);
  }

  /** The path, if the request has one. */
  lemma PathThere(req: Request, v: string)
    ensures Str("VDEV_PATH=" + v) in FixedVars(req) <==>
      if req.renamedPath.Some? then req.renamedPath.value == v else req.path == Some(v)
    ensures Str("VDEV_METADATA=" + v) in FixedVars(req) <==>
      var path := if req.renamedPath.Some? then req.renamedPath else req.path;
      path.Some? && var s := req.mountpoint + "/metadata//dev/" + path.value; v == if |s| < 4096 then s else s[..4095]
  {
    hide FixedVars, DeviceText.Decimal;
    VarAt(req, 2, "VDEV_PATH=", v);
    VarAt(req, 3, "VDEV_METADATA=", v);
  }

  /** The numbers and the kind of the device, if they are given. */
  lemma DeviceThere(req: Request, v: string)
    ensures Str("VDEV_MAJOR=" + v) in FixedVars(req) <==>
      req.dev.Some? && v == DeviceText.Decimal(req.dev.value.0)
    ensures Str("VDEV_MINOR=" + v) in FixedVars(req) <==>
      req.dev.Some? && v == DeviceText.Decimal(req.dev.value.1)
    ensures Str("VDEV_MODE=" + v) in FixedVars(req) <==>
      req.mode & 0x6000 != 0
      && v == if req.mode & 0xf000 == 0x6000 then "block" else if req.mode & 0xf000 == 0x2000 then "char" else "none"
  {
    hide FixedVars, DeviceText.Decimal;
    VarAt(req, 6, "VDEV_MAJOR=", v);
    VarAt(req, 7, "VDEV_MINOR=", v);
    VarAt(req, 8, "VDEV_MODE=", v);
  }

  /** The settings of the daemon. */
  lemma DaemonThere(req: Request, v: string)
    ensures Str("VDEV_HELPERS=" + v) in FixedVars(req) <==>
      v == req.helpersDir
    ensures Str("VDEV_LOGFILE=" + v) in FixedVars(req) <==>
      req.logfile == Some(v) && !SameName(v, "syslog")
    ensures Str("VDEV_INSTANCE=" + v) in FixedVars(req) <==>
      v == req.instance
    ensures Str("VDEV_DAEMONLET=" + v) in FixedVars(req) <==>
      v == if req.daemonlet then "1" else "0"
    ensures Str("VDEV_LOGLEVEL=" + v) in FixedVars(req) <==>
      v == if req.debugLevel == 1 then "info" else if req.debugLevel > 1 then "debug"
           else if req.errorLevel == 1 then "error" else "warning"
  {
    hide FixedVars, DeviceText.Decimal;
    VarAt(req, 9, "VDEV_HELPERS=", v);
    VarAt(req, 10, "VDEV_LOGFILE=", v);
    VarAt(req, 11, "VDEV_INSTANCE=", v);
    VarAt(req, 12, "VDEV_DAEMONLET=", v);
    VarAt(req, 13, "VDEV_LOGLEVEL=", v);
  }

  /** The variables of a list, entry by entry. */
  lemma {:induction false} VarsAre(prefix: string, s: seq<Node>, i: nat)
    requires i < |s|
    ensures VarsOf(prefix, s)[i] == Str(prefix + s[i].elem.key + "=" + s[i].value)
  {
    if i < |s| - 1 { VarsAre(prefix, s[..|s| - 1], i); }
  }

  /** The variables of a parameter list, in key order. */
  function VarsOf(prefix: string, s: seq<Node>): (r: seq<Slot>)
    ensures |r| == |s| && Null !in r
  {
    if s == [] then [] else VarsOf(prefix, s[..|s| - 1]) + [Var(prefix + s[|s| - 1].elem.key, s[|s| - 1].value)]
  }

  /** The array holds `vars` and nothing behind them. */
  ghost predicate Filled(env: seq<Slot>, vars: seq<Slot>) {
    |vars| <= |env| && env[..|vars|] == vars && forall i :: |vars| <= i < |env| ==> env[i] == Null
  }

  lemma FilledOn(env: seq<Slot>, vars: seq<Slot>, x: Slot)
    requires Filled(env, vars) && |vars| < |env|
    ensures Filled(env[|vars| := x], vars + [x])
  {
  }

  /** The array holds `vars`, the variables of the entries `done`, and nothing behind them. */
  ghost predicate Appended(env: seq<Slot>, vars: seq<Slot>, prefix: string, done: seq<Node>) {
    Filled(env, vars + VarsOf(prefix, done))
  }

  /** Appends one variable for each entry of a parameter list. */
  method AddParams(env: array<Slot>, i: nat, prefix: string, root: Node?, ghost tt: Tree, ghost vars: seq<Slot>)
    returns (j: nat)
    requires Holds(tt, root) && Height(tt) <= MAX_TREE_DEEP
    requires Appended(env[..], vars, prefix, []) && i == |vars| && i + |Ino(tt)| <= env.Length
    modifies env
    ensures Appended(env[..], vars, prefix, Ino(tt)) && j == i + |Ino(tt)|
  {
    assert allocated(Nodes(tt));
    ghost var all: seq<Node>, done: seq<Node> := Ino(tt), [];
    InorderIsIno(tt);
    hide Walk, Intact, AllIntact, Fits, Holds, Todo, Needs, NeedsOf, Halfway, Appended, Ino;
    Ends(all);
    j := i;
    var it := new TreeIterator();
    it.Init(root, INORDER, tt);
    while it.currentelem != null
      invariant fresh(it) && fresh(it.path) && fresh(it.pass)
      invariant it.Valid() && Halfway(done, it.Ahead(), all) && |done| <= |all|
      invariant Appended(env[..], vars, prefix, done) && j == i + |done|
      decreases |all| - |done|
    {
      ghost var dp: Node := it.currentelem;
      InAll(done, dp, Todo(it.order, it.frames), all);
      j := AddCurrent(it, env, j, prefix, done, vars);
      OneOn(done, dp, it.Ahead(), all);
      done := done + [dp];
    }
    AllDone(done, all);
  }

  method AddCurrent(it: TreeIterator, env: array<Slot>, i: nat, prefix: string, ghost done: seq<Node>,
                    ghost vars: seq<Slot>)
    returns (j: nat)
    requires it.Valid() && it.currentelem != null
    requires Appended(env[..], vars, prefix, done) && i == |vars| + |done| < env.Length
    modifies env, it`pathi, it`frames, it`currentelem, it.path, it.pass
    ensures it.Valid() && old(it.Ahead()) == [old(it.currentelem)] + it.Ahead()
    ensures Appended(env[..], vars, prefix, done + [old(it.currentelem)]) && j == i + 1
  {
    hide Intact, AllIntact, Fits, Todo, Needs, NeedsOf, Appended;
    assert allocated(Needs(it.frames));
    j := AddOne(env, i, prefix, it.currentelem, done, vars);
    it.Next({});
  }

  method AddOne(env: array<Slot>, i: nat, prefix: string, dp: Node, ghost done: seq<Node>, ghost vars: seq<Slot>)
    returns (j: nat)
    requires Appended(env[..], vars, prefix, done) && i == |vars| + |done| < env.Length
    modifies env
    ensures Appended(env[..], vars, prefix, done + [dp]) && j == i + 1
  {
    var x := Var(prefix + dp.elem.key, dp.value);
    ghost var was, old' := vars + VarsOf(prefix, done), env[..];
    FilledOn(old', was, x);
    assert (done + [dp])[..|done|] == done;
    assert was + [x] == vars + VarsOf(prefix, done + [dp]);
    env[i] := x;
    assert env[..] == old'[i := x];
    j := i + 1;
  }

  lemma NoneYet(env: seq<Slot>, vars: seq<Slot>, prefix: string)
    ensures Filled(env, vars) ==> Appended(env, vars, prefix, [])
  {
    assert vars + VarsOf(prefix, []) == vars;
  }

  /** Puts a variable at the cursor, if it is given. */
  method PutGiven(env: array<Slot>, i: nat, ghost gs: seq<Given>, name: string, value: Option<string>)
    returns (j: nat, ghost gs': seq<Given>)
    requires Filled(env[..], VarsGiven(gs)) && i == |VarsGiven(gs)| && |gs| < env.Length
    modifies env
    ensures gs' == gs + [Given(name, value)]
    ensures Filled(env[..], VarsGiven(gs')) && j == |VarsGiven(gs')|
  {
    ghost var was := env[..];
    gs' := gs + [Given(name, value)];
    assert gs'[..|gs|] == gs;
    j := i;
    if value.Some? {
      FilledOn(was, VarsGiven(gs), Var(name, value.value));
      env[i] := Var(name, value.value);
      assert env[..] == was[i := Var(name, value.value)];
      j := i + 1;
    }
  }

  method AddFixed(env: array<Slot>, req: Request) returns (num: nat)
    requires Filled(env[..], []) && 14 <= env.Length
    modifies env
    ensures Filled(env[..], FixedVars(req)) && num == |FixedVars(req)|
  {
    hide Filled, VarsGiven, Place, Numbers, Daemon;
    NothingGiven();
    FixedSizes(req);
    num := 0;
    ghost var gs: seq<Given> := [];
    num, gs := AddPlace(env, num, gs, req);
    num, gs := AddNumbers(env, num, gs, req);
    num, gs := AddDaemon(env, num, gs, req);
    assert gs == Fixed(req);
  }

  lemma FixedSizes(req: Request)
    ensures |Place(req)| == 6 && |Numbers(req)| == 3 && |Daemon(req)| == 5
  {
  }

  method AddPlace(env: array<Slot>, i: nat, ghost gs: seq<Given>, req: Request)
    returns (num: nat, ghost gs': seq<Given>)
    requires Filled(env[..], VarsGiven(gs)) && i == |VarsGiven(gs)| && |gs| + 6 <= env.Length
    modifies env
    ensures gs' == gs + Place(req)
    ensures Filled(env[..], VarsGiven(gs')) && num == |VarsGiven(gs')|
  {
    hide Filled, VarsGiven, TypeText, ModeText, LevelText, Bounded, SameName, DeviceText.Decimal;
    var path, metadata := req.path, None;
    if req.renamedPath.Some? { path := req.renamedPath; }
    if path.Some? { metadata := Some(Bounded(req.mountpoint + "/metadata//dev/" + path.value)); }
    num, gs' := i, gs;
    num, gs' := PutGiven(env, num, gs', "VDEV_MOUNTPOINT", Some(req.mountpoint));
    num, gs' := PutGiven(env, num, gs', "VDEV_ACTION", Some(TypeText(req.kind)));
    num, gs' := PutGiven(env, num, gs', "VDEV_PATH", path);
    num, gs' := PutGiven(env, num, gs', "VDEV_METADATA", metadata);
    num, gs' := PutGiven(env, num, gs', "VDEV_GLOBAL_METADATA", Some(Bounded(req.mountpoint + "/metadata/")));
    num, gs' := PutGiven(env, num, gs', "VDEV_CONFIG_FILE", Some(req.configPath));
  }

  method AddNumbers(env: array<Slot>, i: nat, ghost gs: seq<Given>, req: Request)
    returns (num: nat, ghost gs': seq<Given>)
    requires Filled(env[..], VarsGiven(gs)) && i == |VarsGiven(gs)| && |gs| + 3 <= env.Length
    modifies env
    ensures gs' == gs + Numbers(req)
    ensures Filled(env[..], VarsGiven(gs')) && num == |VarsGiven(gs')|
  {
    hide Filled, VarsGiven, TypeText, ModeText, LevelText, Bounded, SameName, DeviceText.Decimal;
    var maj, min, mode := None, None, None;
    if req.dev.Some? {
      maj, min := Some(DeviceText.Decimal(req.dev.value.0)), Some(DeviceText.Decimal(req.dev.value.1));
    }
    if req.mode & (S_IFBLK | S_IFCHR) != 0 { mode := Some(ModeText(req.mode)); }
    num, gs' := i, gs;
    num, gs' := PutGiven(env, num, gs', "VDEV_MAJOR", maj);
    num, gs' := PutGiven(env, num, gs', "VDEV_MINOR", min);
    num, gs' := PutGiven(env, num, gs', "VDEV_MODE", mode);
  }

  method AddDaemon(env: array<Slot>, i: nat, ghost gs: seq<Given>, req: Request)
    returns (num: nat, ghost gs': seq<Given>)
    requires Filled(env[..], VarsGiven(gs)) && i == |VarsGiven(gs)| && |gs| + 5 <= env.Length
    modifies env
    ensures gs' == gs + Daemon(req)
    ensures Filled(env[..], VarsGiven(gs')) && num == |VarsGiven(gs')|
  {
    hide Filled, VarsGiven, TypeText, ModeText, LevelText, Bounded, SameName, DeviceText.Decimal;
    var logfile := None;
    if req.logfile.Some? && !SameName(req.logfile.value, "syslog") { logfile := req.logfile; }
    num, gs' := i, gs;
    num, gs' := PutGiven(env, num, gs', "VDEV_HELPERS", Some(req.helpersDir));
    num, gs' := PutGiven(env, num, gs', "VDEV_LOGFILE", logfile);
    num, gs' := PutGiven(env, num, gs', "VDEV_INSTANCE", Some(req.instance));
    num, gs' := PutGiven(env, num, gs', "VDEV_DAEMONLET", Some(if req.daemonlet then "1" else "0"));
    num, gs' := PutGiven(env, num, gs', "VDEV_LOGLEVEL", Some(LevelText(req.debugLevel, req.errorLevel)));
  }

  lemma NothingGiven()
    ensures VarsGiven([]) == []
  {
  }

  lemma LastIsNull(env: seq<Slot>, vars: seq<Slot>, prefix: string, done: seq<Node>)
    requires Appended(env, vars, prefix, done) && |vars| + |done| < |env|
    ensures Filled(env, vars + VarsOf(prefix, done)) && env[|vars| + |done|] == Null
  {
  }

  /** The array is large enough, and its last entry stays null. */
  method RequestToEnv(req: Request, params: ParamList, helperVars: ParamList) returns (env: array<Slot>, num: nat)
    requires params.Valid() && helperVars.Valid()
    requires |Ino(params.tree)| < Pow2(63) && |Ino(helperVars.tree)| < Pow2(63)
    ensures fresh(env)
    ensures Filled(env[..], FixedVars(req) + VarsOf("VDEV_OS_", Ino(params.tree))
      + VarsOf("VDEV_VAR_", Ino(helperVars.tree)))
    ensures num == |FixedVars(req)| + |Ino(params.tree)| + |Ino(helperVars.tree)| < env.Length
    ensures env[num] == Null
  {
    DepthFits(params.tree);
    DepthFits(helperVars.tree);
    hide Pow2;
    env, num := BuildEnv(req, params.root, params.tree, helperVars.root, helperVars.tree);
  }

  method BuildEnv(req: Request, params: Node?, ghost pt: Tree, helperVars: Node?, ghost ht: Tree)
    returns (env: array<Slot>, num: nat)
    requires Holds(pt, params) && Height(pt) < MAX_TREE_DEEP && Holds(ht, helperVars) && Height(ht) < MAX_TREE_DEEP
    ensures fresh(env)
    ensures Filled(env[..], FixedVars(req) + VarsOf("VDEV_OS_", Ino(pt)) + VarsOf("VDEV_VAR_", Ino(ht)))
    ensures num == |FixedVars(req)| + |Ino(pt)| + |Ino(ht)| < env.Length
    ensures env[num] == Null
  {
    assert allocated(Nodes(pt)) && allocated(Nodes(ht));
    hide Holds, Ino, Nodes, Height, FixedVars, VarsOf, Appended;
    var lenParams := Length(params, pt);
    var lenHelpers := Length(helperVars, ht);
    var numVars := 15 + lenParams + lenHelpers;
    env := new Slot[numVars + 1](_ => Null);
    num := AddFixed(env, req);
    num := AddBoth(env, num, params, pt, helperVars, ht, FixedVars(req));
  }

  method AddBoth(env: array<Slot>, i: nat, params: Node?, ghost pt: Tree, helperVars: Node?, ghost ht: Tree,
                 ghost fixed: seq<Slot>)
    returns (num: nat)
    requires Holds(pt, params) && Height(pt) < MAX_TREE_DEEP && Holds(ht, helperVars) && Height(ht) < MAX_TREE_DEEP
    requires Filled(env[..], fixed) && i == |fixed| && i + |Ino(pt)| + |Ino(ht)| < env.Length
    modifies env
    ensures Filled(env[..], fixed + VarsOf("VDEV_OS_", Ino(pt)) + VarsOf("VDEV_VAR_", Ino(ht)))
    ensures num == i + |Ino(pt)| + |Ino(ht)| && env[num] == Null
  {
    assert allocated(Nodes(pt)) && allocated(Nodes(ht));
    hide Holds, Ino, Nodes, Height, VarsOf, Appended, Filled;
    NoneYet(env[..], fixed, "VDEV_OS_");
    num := AddParams(env, i, "VDEV_OS_", params, pt, fixed);
    LastIsNull(env[..], fixed, "VDEV_OS_", Ino(pt));
    ghost var vars := fixed + VarsOf("VDEV_OS_", Ino(pt));
    NoneYet(env[..], vars, "VDEV_VAR_");
    num := AddParams(env, num, "VDEV_VAR_", helperVars, ht, vars);
    LastIsNull(env[..], vars, "VDEV_VAR_", Ino(ht));
  }
}
