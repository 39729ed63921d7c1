/** What holds of everything that wrappers do with an interpreter, in any order. */
module SwigRuns {
  import opened CStrings
  import opened SwigCasts
  import opened SwigMarking
  import opened SwigModules
  import opened SwigRuntime

  // ----- Client data

  /** The graph of the cast lists of all types. */
  ghost function CastGraph(interpreter: Interpreter): Graph
    reads interpreter, interpreter.modules, interpreter.infos, interpreter.nodes
    requires interpreter.Valid()
  {
    map t | t in interpreter.infos :: Targets(t.casts)
  }

  /** In every state of an interpreter the cast lists give a graph on which client data can spread from every type. */
  lemma ReachableGraph(interpreter: Interpreter)
    requires interpreter.Valid()
    ensures Describes(CastGraph(interpreter))
  {
    var g := CastGraph(interpreter);
    forall t, u | t in g && u in g[t]
      ensures u in g
    {
      var n :| n in t.casts && !n.converter && n.ty == u;
      assert n in interpreter.nodes;
    }
    assert forall t :: t in g ==> t.Linked();
  }

  /** A wrapper gives client data to one of its types: the data spreads, and the interpreter keeps its invariant. */
  method GiveClientData(interpreter: Interpreter, ti: TypeInfo, d: nat) returns (ghost marked: set<TypeInfo>)
    requires interpreter.Valid() && ti in interpreter.infos && d != 0
    modifies interpreter`data, interpreter.infos`clientdata
    ensures interpreter.Valid()
    ensures forall t :: t in interpreter.infos ==>
              (t in marked <==> Reaches(old(CastGraph(interpreter)), old(Unset(CastGraph(interpreter))), ti, t)) &&
              t.clientdata == if t in marked then d else old(t.clientdata)
    ensures ti in marked && forall t, n :: t in marked && n in t.casts && !n.converter ==> n.ty.clientdata != 0
    ensures forall u :: u in interpreter.infos && u in marked && u != ti ==>
              old(u.clientdata) == 0 && exists t, n :: t in marked && n in t.casts && !n.converter && n.ty == u
  {
    ghost var g := CastGraph(interpreter);
    ReachableGraph(interpreter);
    marked := TypeClientData(ti, d, g);
    interpreter.data := map t | t in interpreter.infos :: t.clientdata;
    interpreter.StillValidWithData();
  }

  // ----- Runs

  /** What a wrapper may do: load a module, look a cast or a type up, or give client data to a type. */
  datatype Action =
    | Load(m: ModuleInfo)
    | LookUp(t: TypeInfo, c: CString)
    | Query(m: ModuleInfo, name: CString)
    | Give(t: TypeInfo, d: nat)

  datatype Answer = Nothing | FoundCast(cast: CastInfo?) | FoundType(ty: TypeInfo?)

  /** What the answers depend on: the ring, the types in use, and what lookups find. */
  datatype World = World(ring: seq<ModuleInfo>, known: map<CString, TypeInfo>, casting: Casting)

  ghost function Now(interpreter: Interpreter): World
    reads interpreter
  {
    World(interpreter.ring, interpreter.known, interpreter.casting)
  }

  /** Loads a module, unless it is loaded. */
  ghost function Loaded(w: World, m: ModuleInfo): World {
    if m in w.ring || !m.Generated() then w
    else
      World(Inserted(w.ring, m), RegisterAll(Registry(w.known, map[]), m.typeInitial).known,
            OfferRows(w.casting, m, 0, w.known))
  }

  ghost function After(w: World, action: Action): World {
    if action.Load? then Loaded(w, action.m) else w
  }

  /** Only loading modules matters: neither lookups nor client data do. */
  ghost function AfterAll(w: World, actions: seq<Action>): World {
    if actions == [] then w else After(AfterAll(w, actions[..|actions| - 1]), actions[|actions| - 1])
  }

  /** The answer to an action is the one that the loaded modules determine. */
  ghost predicate Right(action: Action, answer: Answer, w: World) {
    match action
    case LookUp(t, c) => answer == FoundCast(if c in FindsOn(w.casting, t) then FindsOn(w.casting, t)[c] else null)
    case Query(m, name) => answer == FoundType(if name in w.known then w.known[name] else null)
    case _ => answer == Nothing
  }

  /** Wrappers act on what was generated, and query from loaded modules. */
  ghost predicate Allowed(interpreter: Interpreter, ring: seq<ModuleInfo>, action: Action) {
    match action
    case Load(m) => m in interpreter.modules
    case LookUp(t, _) => t in interpreter.infos
    case Query(m, _) => m in ring
    case Give(t, d) => t in interpreter.infos && d != 0
  }

  ghost predicate AllAllowed(interpreter: Interpreter, w: World, actions: seq<Action>) {
    forall k :: 0 <= k < |actions| ==> Allowed(interpreter, AfterAll(w, actions[..k]).ring, actions[k])
  }

  /** Every answer is the one that the modules loaded before it determine. */
  ghost predicate AllRight(w: World, actions: seq<Action>, answers: seq<Answer>) {
    |answers| == |actions| && forall k :: 0 <= k < |actions| ==> RightAt(w, actions, answers, k)
  }

  ghost predicate RightAt(w: World, actions: seq<Action>, answers: seq<Answer>, k: nat)
    requires k < |actions| == |answers|
  {
    Right(actions[k], answers[k], AfterAll(w, actions[..k]))
  }

  lemma AllAllowedBefore(interpreter: Interpreter, w: World, actions: seq<Action>)
    requires actions != [] && AllAllowed(interpreter, w, actions)
    ensures var n := |actions| - 1;
            AllAllowed(interpreter, w, actions[..n]) &&
            Allowed(interpreter, AfterAll(w, actions[..n]).ring, actions[n])
  {
    var n := |actions| - 1;
    assert forall k :: 0 <= k < n ==> actions[..n][..k] == actions[..k];
  }

  lemma AllRightNext(w: World, actions: seq<Action>, answers: seq<Answer>, answer: Answer)
    requires actions != [] && AllRight(w, actions[..|actions| - 1], answers)
    requires var n := |actions| - 1; Right(actions[n], answer, AfterAll(w, actions[..n]))
    ensures AllRight(w, actions, answers + [answer])
  {
    var n := |actions| - 1;
    var before := actions[..n];
    forall k | 0 <= k < |actions|
      ensures RightAt(w, actions, answers + [answer], k)
    {
      if k < n {
        assert RightAt(w, before, answers, k);
        assert before[..k] == actions[..k];
      }
    }
  }

  /** What was in use and found stays in use and found, for the names of types that were loaded. */
  ghost predicate Kept(w: World, after: World) {
    && (forall c :: c in w.known ==> c in after.known && after.known[c] == w.known[c])
    && forall t, c :: t in w.known.Values && c in w.known && c in FindsOn(w.casting, t) ==>
         FindsNode(after.casting, t, c, FindsOn(w.casting, t)[c])
  }

  lemma KeptTwice(w: World, v: World, u: World)
    requires Kept(w, v) && Kept(v, u)
    ensures Kept(w, u)
  {
    forall t, c | t in w.known.Values && c in w.known && c in FindsOn(w.casting, t)
      ensures FindsNode(u.casting, t, c, FindsOn(w.casting, t)[c])
    {
      var name :| name in w.known && w.known[name] == t;
      assert v.known[name] == t;
    }
  }

  /** One action. */
  method Act(interpreter: Interpreter, action: Action) returns (answer: Answer)
    requires interpreter.Valid() && Allowed(interpreter, interpreter.ring, action)
    modifies interpreter, interpreter.modules, interpreter.infos, interpreter.nodes
    ensures interpreter.Valid()
    ensures Now(interpreter) == After(old(Now(interpreter)), action)
    ensures Kept(old(Now(interpreter)), Now(interpreter))
    ensures Right(action, answer, old(Now(interpreter)))
  {
    answer := Nothing;
    match action
    case Load(m) =>
      Initialize(interpreter, m);
    case LookUp(t, c) =>
      var found := interpreter.LookUpCast(t, c);
      answer := FoundCast(found);
    case Query(m, name) =>
      var found := interpreter.Query(m, name);
      answer := FoundType(found);
    case Give(t, d) =>
      var _ := GiveClientData(interpreter, t, d);
  }

  /** A wrapper loads its module. */
  method Initialize(interpreter: Interpreter, m: ModuleInfo)
    requires interpreter.Valid() && m in interpreter.modules
    modifies interpreter, interpreter.modules, interpreter.infos, interpreter.nodes
    ensures interpreter.Valid()
    ensures Now(interpreter) == Loaded(old(Now(interpreter)), m)
    ensures Kept(old(Now(interpreter)), Now(interpreter))
  {
    ghost var w, r := Now(interpreter), interpreter.Now();
    NowNamed(interpreter);
    interpreter.InitializeModule(m);
    if m !in w.ring {
      LoadedKept(w, r, m, Now(interpreter));
    }
  }

  lemma NowNamed(interpreter: Interpreter)
    requires interpreter.Valid()
    ensures Named(interpreter.Now()) && forall m :: m in interpreter.modules ==> m.Generated()
  {
  }

  lemma LoadedKept(w: World, r: Registry, m: ModuleInfo, after: World)
    requires m !in w.ring && m.Generated() && Named(r) && r.known == w.known
    requires after.ring == Inserted(w.ring, m) && after.known == RegisterAll(r, m.typeInitial).known
    requires after.casting == OfferRows(w.casting, m, 0, w.known)
    requires KeepsFinds(w.casting, after.casting, m, w.known)
    ensures after == Loaded(w, m) && Kept(w, after)
  {
    KnownStays(r, m.typeInitial);
    KnownIgnoresData(r, Registry(r.known, map[]), m.typeInitial);
  }

  /**
   * Any sequence of actions keeps the invariant, and every answer depends only on which modules were loaded before it,
   * in which order: lookups and client data change no answer. What a lookup for a loaded type finds is found for ever.
   */
  method Perform(interpreter: Interpreter, actions: seq<Action>) returns (answers: seq<Answer>)
    requires interpreter.Valid() && AllAllowed(interpreter, Now(interpreter), actions)
    modifies interpreter, interpreter.modules, interpreter.infos, interpreter.nodes
    ensures interpreter.Valid()
    ensures Now(interpreter) == AfterAll(old(Now(interpreter)), actions)
    ensures AllRight(old(Now(interpreter)), actions, answers)
    ensures Kept(old(Now(interpreter)), Now(interpreter))
    decreases |actions|
  {
    if actions == [] {
      answers := [];
    } else {
      ghost var w := Now(interpreter);
      var before, last := actions[..|actions| - 1], actions[|actions| - 1];
      AllAllowedBefore(interpreter, w, actions);
      answers := Perform(interpreter, before);
      ghost var v := Now(interpreter);
      var answer := Act(interpreter, last);
      KeptTwice(w, v, Now(interpreter));
      AllRightNext(w, actions, answers, answer);
      answers := answers + [answer];
    }
  }
}
