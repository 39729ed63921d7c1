/** The ring of modules in an interpreter, and how a module is added to it. */
module SwigRuntime {
  import opened CStrings
  import opened SwigCasts
  import opened SwigModules

  // ----- What loading modules does, on values

  /** The ring after module `m` is initialised: it goes behind the head, unless it is there already. */
  function Inserted<T(==)>(ring: seq<T>, m: T): seq<T> {
    if m in ring then ring else if ring == [] then [m] else [ring[0], m] + ring[1..]
  }

  ghost function InsertedAll<T>(ring: seq<T>, ms: seq<T>): seq<T> {
    if ms == [] then ring else Inserted(InsertedAll(ring, ms[..|ms| - 1]), ms[|ms| - 1])
  }

  lemma {:induction false} InsertedOnce<T>(ring: seq<T>, ms: seq<T>)
    requires Distinct(ring)
    ensures Distinct(InsertedAll(ring, ms))
    ensures forall m :: m in InsertedAll(ring, ms) <==> m in ring || m in ms
    ensures ring != [] ==> InsertedAll(ring, ms) != [] && InsertedAll(ring, ms)[0] == ring[0]
  {
    if ms == [] {
    } else {
      InsertedOnce(ring, ms[..|ms| - 1]);
      var before, last := InsertedAll(ring, ms[..|ms| - 1]), ms[|ms| - 1];
      assert ms == ms[..|ms| - 1] + [last];
      assert before != [] ==> before == [before[0]] + before[1..];
    }
  }

  /** The types in use by name, and the client data of all types. */
  datatype Registry = Registry(known: map<CString, TypeInfo>, data: map<TypeInfo, nat>)

  ghost function DataIn(data: map<TypeInfo, nat>, t: TypeInfo): nat {
    if t in data then data[t] else 0
  }

  ghost function DataOf(r: Registry, t: TypeInfo): nat {
    DataIn(r.data, t)
  }

  /** Client data that a generated type brings replaces what there was. */
  function Merged(generated: nat, was: nat): nat {
    if generated != 0 then generated else was
  }

  /** The type in use for a generated type: the one that is known under its name, or else itself. */
  ghost function Choice(r: Registry, generated: TypeInfo): TypeInfo {
    if generated.name in r.known then r.known[generated.name] else generated
  }

  ghost predicate InUse(r: Registry, t: TypeInfo) {
    t.name in r.known && r.known[t.name] == t
  }

  /** Loads a generated type: its client data, if it has any, goes to the type in use. */
  ghost function Register(r: Registry, generated: TypeInfo): Registry {
    var t := Choice(r, generated);
    Registry(r.known[generated.name := t], r.data[t := Merged(DataOf(r, generated), DataOf(r, t))])
  }

  ghost function RegisterAll(r: Registry, generated: seq<TypeInfo>): Registry {
    if generated == [] then r
    else Register(RegisterAll(r, generated[..|generated| - 1]), generated[|generated| - 1])
  }

  /** Loads the types from place `i` on, the first one first. */
  ghost function RegisterFrom(r: Registry, generated: seq<TypeInfo>, i: nat): Registry
    requires i <= |generated|
    decreases |generated| - i
  {
    if i == |generated| then r else RegisterFrom(Register(r, generated[i]), generated, i + 1)
  }

  lemma {:induction false} RegisterFromIsAll(r: Registry, generated: seq<TypeInfo>, i: nat)
    requires i <= |generated|
    ensures RegisterFrom(RegisterAll(r, generated[..i]), generated, i) == RegisterAll(r, generated)
    decreases |generated| - i
  {
    if i == |generated| {
      assert generated[..i] == generated;
    } else {
      assert generated[..i + 1][..i] == generated[..i];
      RegisterFromIsAll(r, generated, i + 1);
    }
  }

  lemma {:induction false} RegisterAppend(r: Registry, generated: seq<TypeInfo>, more: seq<TypeInfo>)
    ensures RegisterAll(r, generated + more) == RegisterAll(RegisterAll(r, generated), more)
  {
    if more == [] {
      assert generated + more == generated;
    } else {
      var n := |more| - 1;
      assert (generated + more)[..|generated| + n] == generated + more[..n];
      assert (generated + more)[|generated| + n] == more[n];
      RegisterAppend(r, generated, more[..n]);
    }
  }

  /** Names are known by the types that bear them. */
  ghost predicate Named(r: Registry) {
    forall c :: c in r.known ==> r.known[c].name == c
  }

  /** A known name keeps its type; the names that are loaded become known. */
  lemma {:induction false} KnownStays(r: Registry, generated: seq<TypeInfo>)
    requires Named(r)
    ensures Named(RegisterAll(r, generated))
    ensures forall c :: c in r.known ==>
              c in RegisterAll(r, generated).known && RegisterAll(r, generated).known[c] == r.known[c]
    ensures forall c :: c in RegisterAll(r, generated).known <==>
              c in r.known || exists i :: 0 <= i < |generated| && generated[i].name == c
  {
    if generated == [] {
    } else {
      KnownStays(r, generated[..|generated| - 1]);
    }
  }

  /** The type in use for a name is the first one that was loaded under it. */
  lemma {:induction false} FirstLoadedIsUsed(r: Registry, generated: seq<TypeInfo>, i: nat)
    requires Named(r) && i < |generated|
    requires forall j :: 0 <= j < i ==> generated[j].name != generated[i].name
    ensures generated[i].name in RegisterAll(r, generated).known
    ensures RegisterAll(r, generated).known[generated[i].name] == Choice(r, generated[i])
  {
    var n := |generated| - 1;
    KnownStays(r, generated[..n]);
    if i == n {
    } else {
      FirstLoadedIsUsed(r, generated[..n], i);
    }
  }

  /** Type `other` brings client data for another type `t` of its name. */
  ghost predicate Brings(r: Registry, other: TypeInfo, t: TypeInfo) {
    other.name == t.name && other != t && DataOf(r, other) != 0
  }

  /** Type `i` is the last one that brings client data for `t`. */
  ghost predicate BringsLast(r: Registry, generated: seq<TypeInfo>, t: TypeInfo, i: int) {
    && 0 <= i < |generated| && Brings(r, generated[i], t)
    && forall k :: i < k < |generated| ==> !Brings(r, generated[k], t)
  }

  /** What loading the types, from `r` to `after`, does to the client data of `t`. */
  ghost predicate DataMoved(r: Registry, generated: seq<TypeInfo>, after: Registry, t: TypeInfo) {
    && (!InUse(after, t) || (forall i :: !BringsLast(r, generated, t, i)) ==> DataOf(after, t) == DataOf(r, t))
    && (InUse(after, t) ==> forall i :: BringsLast(r, generated, t, i) ==> DataOf(after, t) == DataOf(r, generated[i]))
  }

  /**
   * A type in use has the client data of the last other type of its name that brought some, or else its own; the
   * client data of a type that is not in use stays as it is.
   */
  lemma {:induction false} ClientDataMoves(r: Registry, generated: seq<TypeInfo>, t: TypeInfo)
    requires Named(r)
    ensures DataMoved(r, generated, RegisterAll(r, generated), t)
    decreases |generated|
  {
    if generated == [] {
    } else {
      var n := |generated| - 1;
      KnownStays(r, generated[..n]);
      ClientDataMoves(r, generated[..n], t);
      ClientDataMoves(r, generated[..n], generated[n]);
      DataMovesOn(r, generated, RegisterAll(r, generated[..n]), t);
    }
  }

  lemma DataMovesOn(r: Registry, generated: seq<TypeInfo>, before: Registry, t: TypeInfo)
    requires generated != [] && Named(before)
    requires forall c :: c in before.known <==>
               c in r.known || exists i :: 0 <= i < |generated| - 1 && generated[i].name == c
    requires DataMoved(r, generated[..|generated| - 1], before, t)
    requires DataMoved(r, generated[..|generated| - 1], before, generated[|generated| - 1])
    ensures DataMoved(r, generated, Register(before, generated[|generated| - 1]), t)
  {
    var n := |generated| - 1;
    LastBringer(r, generated, t);
    assert Brings(r, generated[n], t) ==> BringsLast(r, generated, t, n);
  }

  /** The last type either brings client data itself or leaves the last one that does where it is. */
  lemma LastBringer(r: Registry, generated: seq<TypeInfo>, t: TypeInfo)
    requires generated != []
    ensures var n := |generated| - 1;
            forall i :: BringsLast(r, generated, t, i) <==>
              if Brings(r, generated[n], t) then i == n else BringsLast(r, generated[..n], t, i)
  {
  }

  /** Which types are in use does not depend on client data. */
  lemma {:induction false} KnownIgnoresData(r: Registry, s: Registry, generated: seq<TypeInfo>)
    requires r.known == s.known
    ensures RegisterAll(r, generated).known == RegisterAll(s, generated).known
  {
    if generated == [] {
    } else {
      KnownIgnoresData(r, s, generated[..|generated| - 1]);
    }
  }

  /** The generated types of those modules of `ms` that are loaded when the modules of `ring` are loaded already. */
  ghost function NewTypes(ring: seq<ModuleInfo>, ms: seq<ModuleInfo>): seq<TypeInfo> {
    if ms == [] then []
    else
      var before, last := ms[..|ms| - 1], ms[|ms| - 1];
      NewTypes(ring, before) + if last in InsertedAll(ring, before) then [] else last.typeInitial
  }

  lemma NewTypesNext(r: Registry, ring: seq<ModuleInfo>, ms: seq<ModuleInfo>)
    requires ms != []
    ensures var before, last := ms[..|ms| - 1], ms[|ms| - 1];
            var were := RegisterAll(r, NewTypes(ring, before));
            RegisterAll(r, NewTypes(ring, ms)) ==
            if last in InsertedAll(ring, before) then were else RegisterAll(were, last.typeInitial)
  {
    var before, last := ms[..|ms| - 1], ms[|ms| - 1];
    if last in InsertedAll(ring, before) {
      assert NewTypes(ring, before) + [] == NewTypes(ring, before);
    } else {
      RegisterAppend(r, NewTypes(ring, before), last.typeInitial);
    }
  }

  /** A lookup on `t` for `c` finds the node. */
  ghost predicate FindsNode(w: Casting, t: TypeInfo, c: CString, node: CastInfo) {
    c in FindsOn(w, t) && FindsOn(w, t)[c] == node
  }

  lemma {:induction false} OfferedFinds(w: Casting, row: seq<CastInfo>, j: nat, u: TypeInfo, own: bool,
                                        before: map<CString, TypeInfo>, t: TypeInfo, c: CString, node: CastInfo)
    requires j <= |row| && node !in row && (own ==> u != t)
    ensures FindsNode(OfferFrom(w, row, j, u, own, before), t, c, node) <==>
            FindsNode(w, t, c, node) && (u != t || c in before || c !in Froms(row[j..]))
    decreases |row| - j
  {
    if j == |row| {
    } else {
      OfferedFinds(Offer(w, row[j], u, own, before), row, j + 1, u, own, before, t, c, node);
      FromsSplit(row, j);
    }
  }

  /**
   * When a module is loaded, a lookup on a type of another module finds the same node as before exactly when it is for
   * a type that was loaded before, or when the module has no cast from that type.
   */
  lemma {:induction false} LoadedFinds(w: Casting, m: ModuleInfo, i: nat, before: map<CString, TypeInfo>,
                                       t: TypeInfo, c: CString, node: CastInfo)
    requires i <= |m.typeInitial| == |m.castInitial|
    requires t !in m.typeInitial && forall k :: 0 <= k < |m.castInitial| ==> node !in m.castInitial[k]
    ensures FindsNode(OfferRows(w, m, i, before), t, c, node) <==>
            && FindsNode(w, t, c, node)
            && (c in before ||
                forall k :: i <= k < |m.typeInitial| && TypeFor(m, k, before) == t ==> c !in Froms(m.castInitial[k]))
    decreases |m.typeInitial| - i
  {
    if i == |m.typeInitial| {
    } else {
      var u := TypeFor(m, i, before);
      LoadedFinds(OfferRow(w, m, i, u, before), m, i + 1, before, t, c, node);
      OfferedFinds(w, m.castInitial[i], 0, u, u == m.typeInitial[i], before, t, c, node);
      FromsAll(m.castInitial[i]);
    }
  }

  lemma {:induction false} OfferedRefers(w: Casting, row: seq<CastInfo>, j: nat, t: TypeInfo, own: bool,
                                         before: map<CString, TypeInfo>, node: CastInfo)
    requires j <= |row| && node in w.refers
    ensures node in OfferFrom(w, row, j, t, own, before).refers
    ensures OfferFrom(w, row, j, t, own, before).refers[node] ==
            if own && node in row[j..] && node.from in before then before[node.from] else w.refers[node]
    decreases |row| - j
  {
    if j == |row| {
    } else {
      OfferedRefers(Offer(w, row[j], t, own, before), row, j + 1, t, own, before, node);
      assert row[j..] == [row[j]] + row[j + 1..];
    }
  }

  /** A row from `i` on for which `m` brings the type holds the cast. */
  ghost predicate BringsCast(m: ModuleInfo, i: nat, before: map<CString, TypeInfo>, node: CastInfo)
    requires |m.typeInitial| == |m.castInitial|
  {
    exists k :: i <= k < |m.typeInitial| && TypeFor(m, k, before) == m.typeInitial[k] && node in m.castInitial[k]
  }

  /** `m` has a cast from `c` for the loaded type `t`. */
  ghost predicate BringsFor(m: ModuleInfo, known: map<CString, TypeInfo>, t: TypeInfo, c: CString)
    requires |m.typeInitial| == |m.castInitial|
  {
    exists i :: 0 <= i < |m.typeInitial| && TypeFor(m, i, known) == t && c in Froms(m.castInitial[i])
  }

  /**
   * Between `was` and `now` the lookups on loaded types find the same nodes, except for the names of types that are not
   * loaded and from which `m` has casts.
   */
  ghost predicate KeepsFinds(was: Casting, now: Casting, m: ModuleInfo, known: map<CString, TypeInfo>)
    requires |m.typeInitial| == |m.castInitial|
  {
    forall t, c :: t in known.Values && c in FindsOn(was, t) ==>
      (FindsNode(now, t, c, FindsOn(was, t)[c]) <==> c in known || !BringsFor(m, known, t, c))
  }

  /** The casts for types that `m` brings refer to the loaded types of their names. */
  ghost predicate RefersToLoaded(now: Casting, m: ModuleInfo, known: map<CString, TypeInfo>)
    requires |m.typeInitial| == |m.castInitial|
  {
    forall i, j ::
      0 <= i < |m.typeInitial| && 0 <= j < |m.castInitial[i]| && TypeFor(m, i, known) == m.typeInitial[i] ==>
      var n := m.castInitial[i][j];
      n.from in known ==> n in now.refers && now.refers[n] == known[n.from]
  }

  /** The casts on types that a module brings refer to the types that were in use before, if there are any. */
  lemma {:induction false} LoadedRefers(w: Casting, m: ModuleInfo, i: nat, before: map<CString, TypeInfo>,
                                        node: CastInfo)
    requires i <= |m.typeInitial| == |m.castInitial| && node in w.refers
    ensures node in OfferRows(w, m, i, before).refers
    ensures OfferRows(w, m, i, before).refers[node] ==
            if BringsCast(m, i, before, node) && node.from in before then before[node.from] else w.refers[node]
    decreases |m.typeInitial| - i
  {
    if i == |m.typeInitial| {
    } else {
      var u, row := TypeFor(m, i, before), m.castInitial[i];
      OfferedRefers(w, row, 0, u, u == m.typeInitial[i], before, node);
      LoadedRefers(OfferRow(w, m, i, u, before), m, i + 1, before, node);
      assert row[0..] == row;
      assert BringsCast(m, i, before, node) <==>
             BringsCast(m, i + 1, before, node) || (u == m.typeInitial[i] && node in row);
    }
  }

  /** A module of `ring` declares a cast from the type named `c` to `t`, which is in use for the name of the row. */
  ghost predicate Declares(ring: seq<ModuleInfo>, known: map<CString, TypeInfo>, t: TypeInfo, c: CString) {
    exists m, i ::
      && m in ring && 0 <= i < |m.typeInitial| && i < |m.castInitial|
      && m.typeInitial[i].name in known && known[m.typeInitial[i].name] == t
      && c in Froms(m.castInitial[i])
  }

  /** What lookups find, and which types the casts refer to. */
  datatype Casting = Casting(finds: map<TypeInfo, map<CString, CastInfo>>, refers: map<CastInfo, TypeInfo>)

  ghost function FindsOn(w: Casting, t: TypeInfo): map<CString, CastInfo> {
    if t in w.finds then w.finds[t] else map[]
  }

  ghost function Insert(w: Casting, cast: CastInfo, t: TypeInfo): Casting {
    w.(finds := w.finds[t := FindsOn(w, t)[cast.from := cast]])
  }

  ghost function Refer(w: Casting, cast: CastInfo, t: TypeInfo): Casting {
    w.(refers := w.refers[cast := t])
  }

  /**
   * Offers a cast to `t`. A type that the module brings takes every cast, and lets it refer to the type that was in use
   * before for its name; a loaded type takes the casts that it does not have, or that are from no type loaded before.
   */
  ghost function Offer(w: Casting, cast: CastInfo, t: TypeInfo, own: bool, before: map<CString, TypeInfo>): Casting {
    if cast.from !in before then Insert(w, cast, t)
    else if own then Insert(Refer(w, cast, before[cast.from]), cast, t)
    else if cast.from in FindsOn(w, t) then w
    else Insert(w, cast, t)
  }

  /** Offers the casts of a row from place `j` on to `t`, one after the other. */
  ghost function OfferFrom(w: Casting, row: seq<CastInfo>, j: nat, t: TypeInfo, own: bool,
                           before: map<CString, TypeInfo>): Casting
    requires j <= |row|
    decreases |row| - j
  {
    if j == |row| then w else OfferFrom(Offer(w, row[j], t, own, before), row, j + 1, t, own, before)
  }

  /** The type in use for row `i` of `m`: the one that was in use before for its name, or else the generated one. */
  ghost function TypeFor(m: ModuleInfo, i: nat, before: map<CString, TypeInfo>): TypeInfo
    requires i < |m.typeInitial|
  {
    if m.typeInitial[i].name in before then before[m.typeInitial[i].name] else m.typeInitial[i]
  }

  /** Offers row `i` of `m` to `t`. */
  ghost function OfferRow(w: Casting, m: ModuleInfo, i: nat, t: TypeInfo, before: map<CString, TypeInfo>): Casting
    requires i < |m.typeInitial| == |m.castInitial|
  {
    OfferFrom(w, m.castInitial[i], 0, t, t == m.typeInitial[i], before)
  }

  /** Offers the rows of `m` from row `i` on, each to the type in use for it. */
  ghost function OfferRows(w: Casting, m: ModuleInfo, i: nat, before: map<CString, TypeInfo>): Casting
    requires i <= |m.typeInitial| == |m.castInitial|
    decreases |m.typeInitial| - i
  {
    if i == |m.typeInitial| then w else OfferRows(OfferRow(w, m, i, TypeFor(m, i, before), before), m, i + 1, before)
  }

  lemma OfferedName(w: Casting, cast: CastInfo, t: TypeInfo, own: bool, before: map<CString, TypeInfo>)
    ensures FindsOn(Offer(w, cast, t, own, before), t).Keys == FindsOn(w, t).Keys + {cast.from}
    ensures forall u :: u != t ==> FindsOn(Offer(w, cast, t, own, before), u) == FindsOn(w, u)
  {
  }

  lemma {:induction false} OfferedNames(w: Casting, row: seq<CastInfo>, j: nat, t: TypeInfo, own: bool,
                                        before: map<CString, TypeInfo>)
    requires j <= |row|
    ensures FindsOn(OfferFrom(w, row, j, t, own, before), t).Keys == FindsOn(w, t).Keys + Froms(row[j..])
    ensures forall u :: u != t ==> FindsOn(OfferFrom(w, row, j, t, own, before), u) == FindsOn(w, u)
    decreases |row| - j
  {
    if j == |row| {
    } else {
      var next := Offer(w, row[j], t, own, before);
      OfferedName(w, row[j], t, own, before);
      OfferedNames(next, row, j + 1, t, own, before);
      FromsSplit(row, j);
    }
  }

  // ----- The interpreter

  class Interpreter {
    /** The module that `SWIG_GetModule` returns. */
    var head: ModuleInfo?
    /** The loaded modules, in the order of the ring. */
    ghost var ring: seq<ModuleInfo>
    /** The one type in use for every name that is known. */
    ghost var known: map<CString, TypeInfo>
    /** The types in use when the last module was entered. */
    ghost var before: map<CString, TypeInfo>
    /** The client data of every type. */
    ghost var data: map<TypeInfo, nat>
    /** What lookups find on every type, and the type that every cast refers to. */
    ghost var casting: Casting
    /** The table entry that generated the type in use for a name. */
    ghost var origin: map<CString, (ModuleInfo, nat)>
    /** Everything that was generated, loaded or not. */
    ghost const modules: set<ModuleInfo>
    ghost const infos: set<TypeInfo>
    ghost const nodes: set<CastInfo>
    /** Modules differ in their numbers. */
    ghost const byId: map<nat, ModuleInfo>

    // ----- Invariant

    /** The modules are generated each on its own. */
    ghost predicate Separate() {
      && (forall m {:trigger m.Generated()} {:trigger m.castInitial} :: m in modules ==> m.Generated())
      && (forall m, i {:trigger m.typeInitial[i]} :: m in modules && 0 <= i < |m.typeInitial| ==>
            m.typeInitial[i] in infos && m.typeInitial[i].home == m.id)
      && (forall m, i, j :: m in modules && 0 <= i < |m.castInitial| && 0 <= j < |m.castInitial[i]| ==>
            m.castInitial[i][j] in nodes && m.castInitial[i][j].place == (m.id, i, j))
      && (forall m {:trigger m.id} :: m in modules ==> m.id in byId && byId[m.id] == m)
    }

    /** The loaded modules form one cycle. */
    ghost predicate Ring()
      reads this`head, this`ring, modules`next
    {
      && (forall m :: m in ring ==> m in modules)
      && Cycle(ring)
      && head == (if ring == [] then null else ring[0])
      && (forall m {:trigger m.next} :: m in modules ==> (m.next == null <==> m !in ring))
    }

    /** Every cast list is well formed. */
    ghost predicate Lists()
      reads infos`cast, infos`casts, nodes`next, nodes`prev, nodes`owner
    {
      && (forall t {:trigger t.casts} :: t in infos ==> forall n :: n in t.casts ==> n in nodes)
      && (forall t {:trigger t.Linked()} :: t in infos ==> t.Linked())
      && (forall n {:trigger n.owner} :: n in nodes && n.owner == null ==> n.next == null && n.prev == null)
    }

    /** The records are true, and casts refer to types of their names. */
    ghost predicate Indexed()
      reads this`casting, infos`casts, nodes`ty
    {
      && (forall t {:trigger Finds(t.casts)} ::
            t in infos ==> FindsOn(casting, t) == Finds(t.casts))
      && (forall n {:trigger n.ty} {:trigger casting.refers[n]} :: n in nodes ==>
            n in casting.refers && casting.refers[n] == n.ty && n.ty in infos && n.ty.name == n.from)
    }

    /** The client data of every type is recorded. */
    ghost predicate Carried()
      reads this`data, infos`clientdata
    {
      forall t {:trigger DataIn(data, t)} {:trigger t.clientdata} :: t in infos ==> t.clientdata == DataIn(data, t)
    }

    /** Tables are full, except that of `busy`; those of modules that are not loaded are empty. */
    ghost predicate Full(busy: ModuleInfo?)
      reads this`ring, modules`types
    {
      forall m {:trigger m.types} :: m in modules && m != busy ==> |m.types| == if m in ring then |m.typeInitial| else 0
    }

    ghost predicate Represents(t: TypeInfo, name: CString)
      reads this`known
    {
      name in known && t == known[name]
    }

    /** Every table refers to the one type in use for each name. */
    ghost predicate Unified()
      reads this`known, modules`types
    {
      && (forall c {:trigger known[c]} :: c in known ==> known[c] in infos && known[c].name == c)
      && (forall m {:trigger m.types} :: m in modules ==> |m.types| <= |m.typeInitial|)
      && (forall m, i :: m in modules && 0 <= i < |m.types| ==> Represents(m.types[i], m.typeInitial[i].name))
    }

    /** Every type in use is generated in a loaded module, and in `busy` before entry `n`. */
    ghost predicate Backed(busy: ModuleInfo?, n: nat)
      reads this`ring, this`known, this`origin
    {
      forall c :: c in known ==>
        && c in origin && origin[c].0 in ring && origin[c].1 < |origin[c].0.typeInitial|
        && origin[c].0.typeInitial[origin[c].1] == known[c]
        && (origin[c].0 == busy ==> origin[c].1 < n)
    }

    /** Every cast that was declared so far is found by name on the type in use. */
    ghost predicate Declared()
      reads this`casting, modules`types
    {
      forall m, i {:trigger m.types[i]} ::
        m in modules && 0 <= i < |m.types| && i < |m.castInitial| && m.types[i] in infos ==>
        Froms(m.castInitial[i]) <= Sources(m.types[i])
    }

    /** The names of the types that can be cast to `t`. */
    ghost function Sources(t: TypeInfo): set<CString>
      reads this`casting
    {
      FindsOn(casting, t).Keys
    }

    /**
     * The casts in the lists are generated in loaded modules, each for the type that the table entry of its row refers
     * to; the next row of `busy` is at its cast `j` and goes to `t`.
     */
    ghost predicate Used(busy: ModuleInfo?, j: nat, t: TypeInfo?)
      reads this`ring, modules`types, nodes`owner
    {
      forall n {:trigger n.owner} :: n in nodes && n.owner != null ==>
        && n.place.0 in byId && byId[n.place.0] in modules && byId[n.place.0] in ring
        && Generates(byId[n.place.0], n)
        && var o := byId[n.place.0];
           if n.place.1 < |o.types| then n.owner == o.types[n.place.1]
           else o == busy && n.place.1 == |o.types| && n.place.2 < j && n.owner == t
    }

    ghost predicate Generates(m: ModuleInfo, n: CastInfo) {
      n.place.1 < |m.castInitial| && n.place.2 < |m.castInitial[n.place.1]| && m.castInitial[n.place.1][n.place.2] == n
    }

    ghost function Now(): Registry
      reads this`known, this`data
    {
      Registry(known, data)
    }

    ghost predicate Valid()
      reads this, modules, infos, nodes
    {
      && Separate() && Ring() && Full(null) && Unified() && Backed(null, 0)
      && Lists() && Indexed() && Carried() && Declared() && Used(null, 0, null)
    }

    /** An interpreter that has loaded nothing yet, and the generated modules as the compiler laid them out. */
    constructor (modules: set<ModuleInfo>, infos: set<TypeInfo>, nodes: set<CastInfo>, ghost byId: map<nat, ModuleInfo>)
      requires forall m :: m in modules ==>
                 m.Generated() && m.next == null && m.types == [] && m.id in byId && byId[m.id] == m
      requires forall m, i :: m in modules && 0 <= i < |m.typeInitial| ==>
                 m.typeInitial[i] in infos && m.typeInitial[i].home == m.id
      requires forall m, i, j :: m in modules && 0 <= i < |m.castInitial| && 0 <= j < |m.castInitial[i]| ==>
                 m.castInitial[i][j] in nodes && m.castInitial[i][j].place == (m.id, i, j)
      requires forall t :: t in infos ==> t.cast == null && t.casts == []
      requires forall n :: n in nodes ==>
                 n.ty in infos && n.ty.name == n.from && n.owner == null && n.next == null && n.prev == null
      ensures Valid() && ring == [] && known == map[]
      ensures this.modules == modules && this.infos == infos && this.nodes == nodes
    {
      head, ring, known, before, origin := null, [], map[], map[], map[];
      data := map t | t in infos :: t.clientdata;
      casting := Casting(map t | t in infos :: map[], map n | n in nodes :: n.ty);
      this.modules, this.infos, this.nodes, this.byId := modules, infos, nodes, byId;
    }

    // ----- The ring

    /** Enters a module into the ring, behind the head; answers whether it was there already. */
    method Enter(m: ModuleInfo) returns (again: bool)
      requires m in modules && Ring()
      modifies this`head, this`ring, this`before, modules`next
      ensures Ring() && again == (m in old(ring))
      ensures again ==> unchanged(this, modules)
      ensures ring == Inserted(old(ring), m) && (!again ==> Last(m) && before == known)
      ensures !again ==> m.next == if old(head) == null then m else old(head.next)
      ensures !again && old(head) != null ==> head == old(head) && head.next == m
      ensures forall o :: o in modules && o != m && o != old(head) ==> o.next == old(o.next)
    {
      if m.next == null {
        m.next := m;
      }
      if head == null {
        head := m;
        ring, before := [m], known;
        return false;
      }
      var iter: ModuleInfo := head;
      ghost var k := 0;
      while true
        invariant unchanged(this) && forall n :: n in modules && (n != m || m in ring) ==> n.next == old(n.next)
        invariant 0 <= k < |ring| && iter == ring[k] && m !in ring[..k]
        decreases |ring| - k
      {
        if iter == m {
          return true;
        }
        iter := iter.next;
        k := k + 1;
        if iter == head {
          break;
        }
      }
      assert ring == ring[..k];
      m.next := head.next;
      head.next := m;
      ring, before := [ring[0], m] + ring[1..], known;
      return false;
    }

    /** `m` is the module that was entered last: it stands behind the head. */
    ghost predicate Last(m: ModuleInfo)
      reads this`ring
    {
      ring == [m] || (|ring| >= 2 && ring[1] == m)
    }

    /** The modules on the way from the one behind `m`, which was entered last, up to `m`. */
    ghost function Others(m: ModuleInfo): seq<ModuleInfo>
      requires Last(m)
      reads this`ring
    {
      if |ring| == 1 then [] else Arc(ring, if |ring| == 2 then 0 else 2, 1)
    }

    /** From the module entered last, the ring leads through all others back to it. */
    lemma MeetsOthers(m: ModuleInfo)
      requires Cycle(ring) && Last(m)
      ensures |ring| == 1 <==> m.next == m
      ensures |ring| > 1 ==> m.next == ring[if |ring| == 2 then 0 else 2]
      ensures forall o :: o in Others(m) <==> o in ring && o != m
    {
      if |ring| > 2 {
        assert Others(m) == ring[2..] + [ring[0]];
        assert ring == [ring[0], m] + ring[2..];
      } else if |ring| == 2 {
        assert Others(m) == [ring[0]];
        assert ring == [ring[0], m];
      }
    }

    // ----- Casts

    /** `m` was entered last, and the loaded modules other than `m` can be searched. */
    ghost predicate Searchable(m: ModuleInfo)
      reads this`head, this`ring, this`known, this`before, this`origin, modules`next, modules`types
    {
      Separate() && m in modules && Ring() && Last(m) && Full(m) && Unified() && Recorded(m)
    }

    /** The types in use before are those for the names that the loaded modules other than `m` know. */
    ghost predicate Recorded(m: ModuleInfo)
      reads this`ring, this`known, this`before, this`origin
    {
      && (forall c {:trigger before[c]} {:trigger origin[c]} :: c in before ==>
            && c in known && known[c] == before[c]
            && c in origin && origin[c].0 in ring && origin[c].0 != m && origin[c].0.Knows(c))
      && (forall o: ModuleInfo, c {:trigger o.Knows(c)} :: o in ring && o != m && o.Knows(c) ==> c in before)
    }

    /** Looks a name up in the modules loaded before `m`; the half filled table of `m` is not searched. */
    method FindLoaded(m: ModuleInfo, name: CString) returns (t: TypeInfo?)
      requires Searchable(m)
      ensures t == if name in before then before[name] else null
    {
      MeetsOthers(m);
      assert name in before ==> origin[name].0.Knows(name);
      if m.next == m {
        return null;
      }
      t := MangledTypeQuery(m.next, m, name, ring, if |ring| == 2 then 0 else 2, 1);
    }

    /** `SWIG_TypeCheck` on one list: all lists stay well formed, and every name finds what it found before. */
    method CheckList(t: TypeInfo, c: CString) returns (found: CastInfo?)
      requires t in infos && Lists() && t.Named()
      modifies t`cast, t`casts, nodes`next, nodes`prev
      ensures t.Entries() == Touch(old(t.Entries()), c) && Finds(t.casts) == Finds(old(t.casts))
      ensures Lookup(old(t.Entries()), c) == if found == null then None else Some(found)
      ensures if found == null then t.casts == old(t.casts) else t.Raised(found, c, old(t.casts))
      ensures forall n :: n in t.casts <==> n in old(t.casts)
      ensures forall u {:trigger u.Linked()} :: u in infos ==> u.Linked()
      ensures forall n :: n in nodes && n.owner != t ==> n.next == old(n.next) && n.prev == old(n.prev)
    {
      assert t.Linked();
      found := t.Check(c);
      forall u | u in infos && u != t
        ensures u.Linked()
      {
        assert old(u.Linked());
        assert forall n :: n in u.casts ==> n !in old(t.casts);
        assert forall n :: n in u.casts ==> n.next == old(n.next) && n.prev == old(n.prev) && n.owner == old(n.owner);
        LinkedStays();
      }
    }

    /** A list stays well formed while it and the links of its nodes stay the same. */
    twostate lemma LinkedStays()
      ensures forall u {:trigger u.Linked()} ::
                u in infos && old(u.Linked()) && unchanged(u`cast, u`casts) &&
                (forall n :: n in u.casts ==>
                   n.next == old(n.next) && n.prev == old(n.prev) && n.owner == old(n.owner)) ==>
                u.Linked()
    {
    }

    /** `SWIG_TypeCheck`: finds what is recorded for the name, and changes nothing of the record. */
    method CheckCast(t: TypeInfo, c: CString) returns (found: CastInfo?)
      requires t in infos && Lists() && Indexed()
      modifies t`cast, t`casts, nodes`next, nodes`prev
      ensures Lists() && Indexed() && t.Entries() == Touch(old(t.Entries()), c)
      ensures Lookup(old(t.Entries()), c) == if found == null then None else Some(found)
      ensures found == if c in FindsOn(casting, t) then FindsOn(casting, t)[c] else null
      ensures if found == null then t.casts == old(t.casts) else t.Raised(found, c, old(t.casts))
      ensures forall n :: n in t.casts <==> n in old(t.casts)
    {
      t.FindsFound(c);
      found := CheckList(t, c);
      forall u | u in infos
        ensures FindsOn(casting, u) == Finds(u.casts)
      {
        assert FindsOn(casting, u) == old(Finds(u.casts));
      }
      forall n | n in nodes
        ensures n in casting.refers && casting.refers[n] == n.ty && n.ty in infos && n.ty.name == n.from
      {
        assert n.ty == old(n.ty);
      }
    }

    /** Puts a node that is in no list at the head of the list of `t`. */
    method PushCast(t: TypeInfo, node: CastInfo)
      requires t in infos && node in nodes && Lists() && node.owner == null
      modifies t`cast, t`casts, nodes`next, nodes`prev, node`owner
      ensures Lists() && t.casts == [node] + old(t.casts) && node.owner == t
    {
      assert t.Linked();
      t.Push(node);
      forall u | u in infos && u != t
        ensures u.Linked()
      {
        assert old(u.Linked());
        assert forall n :: n in u.casts ==> n !in old(t.casts) && n != node;
        assert forall n :: n in u.casts ==> n.next == old(n.next) && n.prev == old(n.prev) && n.owner == old(n.owner);
        LinkedStays();
      }
    }

    /** Puts a node that is in no list at the head of the list of `t`, so that a lookup finds it. */
    method InsertCast(t: TypeInfo, node: CastInfo)
      requires t in infos && node in nodes && Lists() && Indexed() && node.owner == null
      modifies this`casting, t`cast, t`casts, nodes`next, nodes`prev, node`owner
      ensures Lists() && Indexed() && casting == Insert(old(casting), node, t)
      ensures t.casts == [node] + old(t.casts) && node.owner == t
    {
      FindsMore(node, t.casts);
      PushCast(t, node);
      casting := Insert(casting, node, t);
    }

    /** Lets a cast refer to the type in use for its name. */
    method Redirect(cast: CastInfo, t: TypeInfo)
      requires cast in nodes && t in infos && t.name == cast.from && Indexed()
      modifies this`casting, cast`ty
      ensures Indexed() && cast.ty == t && casting == Refer(old(casting), cast, t)
    {
      cast.ty := t;
      casting := Refer(casting, cast, t);
    }

    /**
     * Adds a cast to the list of `t`, given the type `ret` that is loaded under its name. A type that the module brings
     * takes every cast; a type that was loaded takes those that it does not have.
     */
    method AddCast(t: TypeInfo, own: bool, cast: CastInfo, ret: TypeInfo?)
      requires t in infos && cast in nodes && cast.owner == null && Lists() && Indexed()
      requires ret != null ==> ret in infos && ret.name == cast.from
      modifies this`casting, t`cast, t`casts, nodes`next, nodes`prev, cast`owner, cast`ty
      ensures Lists() && Indexed()
      ensures if ret == null || own || cast.from !in FindsOn(old(casting), t) then t.casts == [cast] + old(t.casts)
              else t.Raised(FindsOn(old(casting), t)[cast.from], cast.from, old(t.casts))
      ensures cast.ty == if ret != null && own then ret else old(cast.ty)
      ensures casting ==
              if ret == null then Insert(old(casting), cast, t)
              else if own then Insert(Refer(old(casting), cast, ret), cast, t)
              else if cast.from in FindsOn(old(casting), t) then old(casting)
              else Insert(old(casting), cast, t)
      ensures cast.owner == null || cast.owner == t
    {
      if ret == null {
        InsertCast(t, cast);
      } else if own {
        Redirect(cast, ret);
        InsertCast(t, cast);
      } else {
        var ocast := CheckCast(t, ret.name);
        if ocast == null {
          InsertCast(t, cast);
        }
      }
    }

    /** Offers the cast at place `(i, j)` of `m` to `t`. */
    method AddCastAt(m: ModuleInfo, i: nat, j: nat, cast: CastInfo, t: TypeInfo, ret: TypeInfo?)
      requires Separate() && m in modules && m in ring && i < |m.castInitial| && j < |m.castInitial[i]| && t in infos
      requires Lists() && Indexed() && Used(m, j, t) && i == |m.types| && cast == m.castInitial[i][j]
      requires ret == (if cast.from in before then before[cast.from] else null)
      requires ret != null ==> ret in infos && ret.name == cast.from
      modifies this`casting, t`cast, t`casts, nodes`next, nodes`prev, nodes`owner, cast`ty
      ensures Lists() && Indexed() && Used(m, j + 1, t)
      ensures casting == Offer(old(casting), cast, t, t == m.typeInitial[i], before)
    {
      AddCast(t, t == m.typeInitial[i], cast, ret);
      forall n | n in nodes && n != cast
        ensures n.owner == old(n.owner)
      {
      }
    }

    /** Looks up the type of the cast at place `(i, j)` of `m` and offers the cast to `t`. */
    method AddNext(m: ModuleInfo, i: nat, j: nat, cast: CastInfo, t: TypeInfo)
      requires Searchable(m) && i < |m.castInitial| && j < |m.castInitial[i]| && t in infos
      requires Lists() && Indexed() && Used(m, j, t) && i == |m.types| && cast == m.castInitial[i][j]
      modifies this`casting, t`cast, t`casts, nodes`next, nodes`prev, nodes`owner, cast`ty
      ensures Lists() && Indexed() && Used(m, j + 1, t)
      ensures casting == Offer(old(casting), cast, t, t == m.typeInitial[i], before)
    {
      var ret := FindLoaded(m, cast.ty.name);
      AddCastAt(m, i, j, cast, t, ret);
    }

    /** Which tables can be searched depends only on the ring and the tables. */
    twostate lemma SearchableStays()
      requires unchanged(this`head, this`ring, this`known, this`before, this`origin, modules)
      ensures forall m :: m in modules && old(Searchable(m)) ==> Searchable(m)
    {
      forall m | m in modules && old(Searchable(m))
        ensures Searchable(m)
      {
        assert Searchable(m) == old(Searchable(m));
      }
    }

    /** Offers the casts of row `i` of `m` to `t`. */
    method AddCasts(m: ModuleInfo, i: nat, t: TypeInfo)
      requires Searchable(m) && i < |m.castInitial| && t in infos
      requires Lists() && Indexed() && Used(m, 0, null) && i == |m.types|
      modifies this`casting, t`cast, t`casts, nodes`next, nodes`prev, nodes`owner, nodes`ty
      ensures Lists() && Indexed() && Used(m, |m.castInitial[i]|, t)
      ensures casting == OfferRow(old(casting), m, i, t, before)
    {
      var row, j := m.castInitial[i], 0;
      ghost var own, all := t == m.typeInitial[i], OfferRow(casting, m, i, t, before);
      while j < |row|
        invariant j <= |row| && i == |m.types|
        invariant OfferFrom(casting, row, j, t, own, before) == all
        invariant Used(m, j, t)
        invariant Lists() && Indexed()
      {
        SearchableStays();
        AddNext(m, i, j, row[j], t);
        j := j + 1;
      }
    }

    // ----- Types

    /** There is a next entry to fill. */
    ghost predicate Unfinished(m: ModuleInfo)
      reads m`types
    {
      |m.types| < |m.typeInitial| == |m.castInitial|
    }

    /** A name that no module loaded before knows is not known from the earlier entries of `m` either. */
    lemma NotKnown(m: ModuleInfo)
      requires Searchable(m) && Unfinished(m) && Backed(m, |m.types|)
      requires m.typeInitial[|m.types|].name !in before
      ensures m.typeInitial[|m.types|].name !in known
    {
      var name := m.typeInitial[|m.types|].name;
      if name in known {
        var (o, k) := origin[name];
        assert o.typeInitial[k].name == name;
        assert o.Knows(name);
        m.NamesDiffer(k, |m.types|);
      }
    }

    /** The type in use for the next entry of `m`: the one that is loaded under its name, or else the generated one. */
    method ChooseType(m: ModuleInfo) returns (t: TypeInfo)
      requires Searchable(m) && Backed(m, |m.types|) && Unfinished(m)
      ensures t in infos && t.name == m.typeInitial[|m.types|].name
      ensures t == if t.name in known then known[t.name] else m.typeInitial[|m.types|]
      ensures t == TypeFor(m, |m.types|, before)
    {
      var found := FindLoaded(m, m.typeInitial[|m.types|].name);
      if found != null {
        t := found;
      } else {
        NotKnown(m);
        t := m.typeInitial[|m.types|];
      }
    }

    /** A type that is loaded takes the client data of the generated type, if that has any. */
    method TakeClientData(generated: TypeInfo, t: TypeInfo)
      requires generated in infos && t in infos && Carried()
      modifies this`data, t`clientdata
      ensures Carried() && data == old(data)[t := Merged(DataIn(old(data), generated), DataIn(old(data), t))]
    {
      if t != generated && generated.clientdata != 0 {
        t.clientdata := generated.clientdata;
      }
      data := data[t := t.clientdata];
    }

    /** Makes `t` the type in use for the name of the next entry of `m`. */
    method Publish(m: ModuleInfo, t: TypeInfo)
      requires m in ring && Unfinished(m) && t in infos
      requires t.name == m.typeInitial[|m.types|].name && t == Choice(Now(), m.typeInitial[|m.types|])
      requires Unified() && Backed(m, |m.types|) && Recorded(m)
      modifies this`known, this`origin
      ensures Unified() && Backed(m, |m.types| + 1) && Recorded(m) && known == old(known)[t.name := t]
    {
      if t.name !in known {
        known := known[t.name := t];
        origin := origin[t.name := (m, |m.types|)];
      }
    }

    /** Fills the next entry of the table of `m` with the type in use for its name. */
    method SetEntry(m: ModuleInfo, t: TypeInfo)
      requires m in modules && Unfinished(m)
      requires m.typeInitial[|m.types|].name in known && known[m.typeInitial[|m.types|].name] == t
      requires Unified() && Declared() && Froms(m.castInitial[|m.types|]) <= Sources(t)
      requires Used(m, |m.castInitial[|m.types|]|, t)
      modifies m`types
      ensures Unified() && Declared() && Used(m, 0, null) && m.types == old(m.types) + [t]
    {
      m.types := m.types + [t];
    }

    /** The table of `m`, which was entered last, is filled up to some entry. */
    ghost predicate Filling(m: ModuleInfo)
      reads this, modules, infos, nodes
    {
      && Searchable(m) && Backed(m, |m.types|) && Carried()
      && Lists() && Indexed() && Declared() && Used(m, 0, null)
    }

    /** Chooses the type in use for the next entry of `m` and gives it the client data. */
    method AdoptType(m: ModuleInfo) returns (t: TypeInfo)
      requires Filling(m) && Unfinished(m)
      modifies this`data, infos`clientdata
      ensures Filling(m)
      ensures t in infos && t.name == m.typeInitial[|m.types|].name && t == Choice(Now(), m.typeInitial[|m.types|])
      ensures t == TypeFor(m, |m.types|, before)
      ensures Register(old(Now()), m.typeInitial[|m.types|]) == Registry(known[t.name := t], data)
    {
      t := ChooseType(m);
      TakeClientData(m.typeInitial[|m.types|], t);
      FillingStays();
    }

    /** Client data matters only for its record. */
    twostate lemma FillingStays()
      requires unchanged(this`head, this`ring, this`known, this`before, this`origin, this`casting)
      requires unchanged(modules, nodes, infos`cast, infos`casts) && Carried()
      ensures forall m :: m in modules && old(Filling(m)) ==> Filling(m)
    {
      forall m | m in modules && old(Filling(m))
        ensures Filling(m)
      {
        assert Searchable(m) == old(Searchable(m)) && Backed(m, |m.types|) == old(Backed(m, |m.types|));
        assert Lists() == old(Lists()) && Indexed() == old(Indexed());
        assert Declared() == old(Declared()) && Used(m, 0, null) == old(Used(m, 0, null));
      }
    }

    /** Offers the casts of the next row of `m` to `t`. */
    method AddRow(m: ModuleInfo, i: nat, t: TypeInfo)
      requires Searchable(m) && Unfinished(m) && t in infos && i == |m.types|
      requires Declared() && Lists() && Indexed() && Used(m, 0, null)
      modifies this`casting, t`cast, t`casts, nodes`next, nodes`prev, nodes`owner, nodes`ty
      ensures Declared() && Lists() && Indexed() && Used(m, |m.castInitial[i]|, t)
      ensures Froms(m.castInitial[i]) <= Sources(t)
      ensures casting == OfferRow(old(casting), m, i, t, before)
    {
      AddCasts(m, i, t);
      OfferedNames(old(casting), m.castInitial[i], 0, t, t == m.typeInitial[i], before);
      FromsAll(m.castInitial[i]);
      DeclaredStays();
    }

    /** Declared casts stay declared while types only gain casts. */
    twostate lemma DeclaredStays()
      requires old(Declared()) && unchanged(modules`types)
      requires forall u :: u in infos ==> old(Sources(u)) <= Sources(u)
      ensures Declared()
    {
    }

    /** Records `t`, which was offered the casts of the next row of `m`, as the type in use for the next entry. */
    method Record(m: ModuleInfo, t: TypeInfo)
      requires Searchable(m) && Unfinished(m) && t in infos
      requires t.name == m.typeInitial[|m.types|].name && t == Choice(Now(), m.typeInitial[|m.types|])
      requires Backed(m, |m.types|) && Declared() && Froms(m.castInitial[|m.types|]) <= Sources(t)
      requires Lists() && Indexed() && Carried() && Used(m, |m.castInitial[|m.types|]|, t)
      modifies this`known, this`origin, m`types
      ensures Filling(m) && known == old(known)[t.name := t] && m.types == old(m.types) + [t]
    {
      Publish(m, t);
      SetEntry(m, t);
      FillingGoesOn();
    }

    /** Filling an entry leaves the ring, the lists and the client data alone. */
    twostate lemma FillingGoesOn()
      requires unchanged(this`head, this`ring, this`casting, this`data, modules`next, infos, nodes)
      requires Unified() && Declared()
      requires old(Lists() && Indexed() && Carried())
      ensures forall m | m in modules && old(Searchable(m)) ::
                Full(m) && Recorded(m) && Backed(m, |m.types|) && Used(m, 0, null) ==> Filling(m)
    {
      assert Ring() == old(Ring()) && Lists() == old(Lists());
      assert Indexed() == old(Indexed()) && Carried() == old(Carried());
    }

    /** Adds the casts of the next row of `m` to `t` and makes `t` the type in use for the next entry. */
    method UseType(m: ModuleInfo, i: nat, t: TypeInfo)
      requires Filling(m) && Unfinished(m) && t in infos && i == |m.types|
      requires t.name == m.typeInitial[i].name && t == Choice(Now(), m.typeInitial[i])
      modifies this`known, this`casting, this`origin, m`types, t`cast, t`casts,
               nodes`next, nodes`prev, nodes`owner, nodes`ty
      ensures Filling(m) && known == old(known)[t.name := t] && m.types == old(m.types) + [t]
      ensures casting == OfferRow(old(casting), m, i, t, before)
    {
      AddRow(m, i, t);
      SearchableStays();
      Record(m, t);
    }

    /** Fills the next entry of the table of `m`. */
    method FillEntry(m: ModuleInfo, i: nat) returns (t: TypeInfo)
      requires Filling(m) && Unfinished(m) && i == |m.types|
      modifies this`known, this`data, this`casting, this`origin, m`types, infos`clientdata, infos`cast, infos`casts,
               nodes`next, nodes`prev, nodes`owner, nodes`ty
      ensures Filling(m) && m.types == old(m.types) + [t]
      ensures Now() == Register(old(Now()), m.typeInitial[i])
      ensures casting == OfferRow(old(casting), m, i, TypeFor(m, i, before), before)
    {
      t := AdoptType(m);
      UseType(m, i, t);
    }

    // ----- Modules

    /** Filling the table of a module that was just entered may begin. */
    twostate lemma Entered()
      requires old(Valid()) && Ring() && before == known
      requires unchanged(this`known, this`origin, this`casting, this`data, modules`types, infos, nodes)
      ensures forall m {:trigger Last(m)} ::
                m in modules && m !in old(ring) && ring == Inserted(old(ring), m) && Last(m) ==>
                m.types == [] && Filling(m)
    {
      EntryStays();
      EntryBegins();
      forall m {:trigger Last(m)} | m in modules && m !in old(ring) && ring == Inserted(old(ring), m)
        ensures forall o :: o in ring <==> o == m || o in old(ring)
      {
        InsertedOnce(old(ring), [m]);
        assert InsertedAll(old(ring), [m]) == Inserted(InsertedAll(old(ring), []), m);
      }
    }

    /** What does not depend on the ring stays. */
    twostate lemma EntryStays()
      requires unchanged(this`known, this`casting, this`data, modules`types, infos, nodes)
      ensures old(Unified()) ==> Unified()
      ensures old(Declared()) ==> Declared()
      ensures old(Lists()) ==> Lists()
      ensures old(Indexed()) ==> Indexed()
      ensures old(Carried()) ==> Carried()
    {
      assert Unified() == old(Unified()) && Declared() == old(Declared()) && Lists() == old(Lists());
      assert Indexed() == old(Indexed()) && Carried() == old(Carried());
    }

    /** A module that was just entered has an empty table, and none of its casts is in a list. */
    twostate lemma EntryBegins()
      requires Separate() && Ring() && before == known
      requires unchanged(this`known, this`origin, modules`types, nodes`owner)
      requires old(Full(null) && Unified() && Backed(null, 0) && Used(null, 0, null))
      ensures forall m :: m in modules && m !in old(ring) && (forall o :: o in ring <==> o == m || o in old(ring)) ==>
                m.types == [] && Full(m) && Backed(m, 0) && Used(m, 0, null) && Recorded(m)
    {
      forall o: ModuleInfo, c | o in old(ring) && o in ring && o.Knows(c)
        ensures c in before
      {
        var i :| 0 <= i < |o.typeInitial| && o.typeInitial[i].name == c;
        assert Represents(o.types[i], c);
      }
      forall c | c in before
        ensures origin[c].0.Knows(c)
      {
        assert origin[c].0.typeInitial[origin[c].1].name == c;
      }
    }

    /** Fills the table of `m`. */
    method FillTable(m: ModuleInfo)
      requires Filling(m) && m.types == []
      modifies this`known, this`data, this`casting, this`origin, m`types, infos`clientdata, infos`cast, infos`casts,
               nodes`next, nodes`prev, nodes`owner, nodes`ty
      ensures Filling(m) && |m.types| == |m.typeInitial|
      ensures Now() == RegisterAll(old(Now()), m.typeInitial)
      ensures casting == OfferRows(old(casting), m, 0, before)
    {
      ghost var all, loaded := OfferRows(casting, m, 0, before), RegisterAll(Now(), m.typeInitial);
      RegisterFromIsAll(Now(), m.typeInitial, 0);
      while |m.types| < |m.typeInitial|
        invariant |m.types| <= |m.typeInitial| == |m.castInitial|
        invariant OfferRows(casting, m, |m.types|, before) == all
        invariant RegisterFrom(Now(), m.typeInitial, |m.types|) == loaded
        invariant Filling(m)
      {
        var _ := FillEntry(m, |m.types|);
      }
    }

    /** Loads a module that was just entered. */
    method Load(m: ModuleInfo)
      requires Filling(m) && m.types == []
      modifies this`known, this`data, this`casting, this`origin, m`types, infos`clientdata, infos`cast, infos`casts,
               nodes`next, nodes`prev, nodes`owner, nodes`ty
      ensures Valid() && Now() == RegisterAll(old(Now()), m.typeInitial)
      ensures casting == OfferRows(old(casting), m, 0, before)
    {
      FillTable(m);
    }

    twostate lemma StillValid()
      requires old(Valid()) && unchanged(this, modules, infos, nodes)
      ensures Valid()
    {
    }

    /** Enters a module and loads it, unless it was there already. */
    method EnterAndLoad(m: ModuleInfo)
      requires Valid() && m in modules
      modifies this`head, this`ring, this`known, this`before, this`data, this`casting, this`origin,
               modules`next, m`types, infos`clientdata, infos`cast, infos`casts,
               nodes`next, nodes`prev, nodes`owner, nodes`ty
      ensures Valid() && ring == Inserted(old(ring), m)
      ensures m in old(ring) ==> unchanged(this, modules, infos, nodes)
      ensures m !in old(ring) ==>
                Now() == RegisterAll(old(Now()), m.typeInitial) && casting == OfferRows(old(casting), m, 0, old(known))
    {
      var again := Enter(m);
      if again {
        StillValid();
      } else {
        Entered();
        Load(m);
      }
    }

    /** A type in use, and a node that a lookup finds, are not those of a module that is not loaded. */
    lemma FoundElsewhere(m: ModuleInfo, t: TypeInfo, c: CString)
      requires Valid() && m in modules && m !in ring && t in infos
      ensures t in known.Values ==> t !in m.typeInitial
      ensures c in FindsOn(casting, t) ==>
                FindsOn(casting, t)[c] in nodes &&
                forall k :: 0 <= k < |m.castInitial| ==> FindsOn(casting, t)[c] !in m.castInitial[k]
    {
      if t in known.Values {
        var name :| name in known && known[name] == t;
        assert origin[name].0.typeInitial[origin[name].1].home == origin[name].0.id;
      }
      if c in FindsOn(casting, t) {
        var node := FindsOn(casting, t)[c];
        assert FindsOn(casting, t) == Finds(t.casts);
        FindsNodes(t.casts);
        assert t.Linked() && node.owner == t;
      }
    }

    lemma ReferIsRecorded(n: CastInfo)
      requires Indexed() && n in nodes
      ensures n in casting.refers && casting.refers[n] == n.ty
    {
      var t := n.ty;
      assert t in infos;
    }

    /** The lookups on loaded types that loading `m` would change. */
    lemma LoadKeeps(m: ModuleInfo)
      requires Valid() && m in modules && m !in ring
      ensures KeepsFinds(casting, OfferRows(casting, m, 0, known), m, known)
    {
      forall t, c | t in known.Values && c in FindsOn(casting, t)
        ensures FindsNode(OfferRows(casting, m, 0, known), t, c, FindsOn(casting, t)[c]) <==>
                c in known || !BringsFor(m, known, t, c)
      {
        FoundElsewhere(m, t, c);
        LoadedFinds(casting, m, 0, known, t, c, FindsOn(casting, t)[c]);
      }
    }

    /** What the casts of `m` would refer to when `m` is loaded. */
    lemma LoadRefers(m: ModuleInfo)
      requires Valid() && m in modules
      ensures RefersToLoaded(OfferRows(casting, m, 0, known), m, known)
    {
      forall i, j | 0 <= i < |m.typeInitial| && 0 <= j < |m.castInitial[i]| && TypeFor(m, i, known) == m.typeInitial[i]
        ensures var n := m.castInitial[i][j];
                n.from in known ==>
                  n in OfferRows(casting, m, 0, known).refers &&
                  OfferRows(casting, m, 0, known).refers[n] == known[n.from]
      {
        var n := m.castInitial[i][j];
        ReferIsRecorded(n);
        LoadedRefers(casting, m, 0, known, n);
      }
    }

    /** The types that a loaded module uses, when it was loaded in state `r`. */
    lemma TypesChosen(m: ModuleInfo, r: Registry)
      requires Valid() && m in ring && Named(r) && Now() == RegisterAll(r, m.typeInitial)
      ensures |m.types| == |m.typeInitial| && forall i :: 0 <= i < |m.types| ==> m.types[i] == TypeFor(m, i, r.known)
    {
      forall i | 0 <= i < |m.types|
        ensures m.types[i] == TypeFor(m, i, r.known)
      {
        forall j | 0 <= j < i
          ensures m.typeInitial[j].name != m.typeInitial[i].name
        {
          m.NamesDiffer(j, i);
        }
        FirstLoadedIsUsed(r, m.typeInitial, i);
        assert Represents(m.types[i], m.typeInitial[i].name);
      }
    }

    lemma ReferNow(m: ModuleInfo, before: map<CString, TypeInfo>)
      requires Valid() && m in modules && RefersToLoaded(casting, m, before)
      ensures forall i, j :: 0 <= i < |m.typeInitial| && 0 <= j < |m.castInitial[i]| &&
                             TypeFor(m, i, before) == m.typeInitial[i] && m.castInitial[i][j].from in before ==>
                m.castInitial[i][j].ty == before[m.castInitial[i][j].from]
    {
      forall n | n in nodes
        ensures n in casting.refers && n.ty == casting.refers[n]
      {
        ReferIsRecorded(n);
      }
    }

    /**
     * `SWIG_InitializeModule`. Loading a module changes what a lookup finds on a loaded type only for the names of
     * types that were not loaded, and the casts on the types that the module brings refer to the loaded types.
     */
    method InitializeModule(m: ModuleInfo)
      requires Valid() && m in modules
      modifies this`head, this`ring, this`known, this`before, this`data, this`casting, this`origin,
               modules`next, m`types, infos`clientdata, infos`cast, infos`casts,
               nodes`next, nodes`prev, nodes`owner, nodes`ty
      ensures Valid() && ring == Inserted(old(ring), m)
      ensures m in old(ring) ==> unchanged(this, modules, infos, nodes)
      ensures forall t :: t in infos ==> t.clientdata == DataOf(Now(), t)
      ensures m !in old(ring) ==>
                && Now() == RegisterAll(old(Now()), m.typeInitial)
                && casting == OfferRows(old(casting), m, 0, old(known))
                && KeepsFinds(old(casting), casting, m, old(known))
      ensures m !in old(ring) ==>
                |m.types| == |m.typeInitial| &&
                forall i :: 0 <= i < |m.types| ==> m.types[i] == TypeFor(m, i, old(known))
      ensures m !in old(ring) ==>
                forall i, j :: 0 <= i < |m.typeInitial| && 0 <= j < |m.castInitial[i]| &&
                               m.types[i] == m.typeInitial[i] && m.castInitial[i][j].from in old(known) ==>
                  m.castInitial[i][j].ty == old(known)[m.castInitial[i][j].from]
    {
      ghost var r, unknown := Now(), m !in ring;
      if m !in ring {
        LoadKeeps(m);
        LoadRefers(m);
      }
      EnterAndLoad(m);
      if unknown {
        TypesChosen(m, r);
        ReferNow(m, r.known);
      }
    }

    /** Any sequence of first or repeated initialisations. */
    method InitializeAll(ms: seq<ModuleInfo>)
      requires Valid() && forall m :: m in ms ==> m in modules
      modifies this`head, this`ring, this`known, this`before, this`data, this`casting, this`origin,
               modules`next, modules`types,
               infos`clientdata, infos`cast, infos`casts, nodes`next, nodes`prev, nodes`owner, nodes`ty
      ensures Valid()
      ensures ring == InsertedAll(old(ring), ms)
      ensures Now() == RegisterAll(old(Now()), NewTypes(old(ring), ms))
      decreases |ms|
    {
      if ms != [] {
        var before, last := ms[..|ms| - 1], ms[|ms| - 1];
        InitializeAll(before);
        InitializeModule(last);
        NewTypesNext(old(Now()), old(ring), ms);
      }
    }

    // ----- What holds in every state

    /** Modules that know a name use the same type for it. */
    lemma TypesAgree(m: ModuleInfo, i: nat, n: ModuleInfo, j: nat)
      requires Valid() && m in ring && n in ring
      requires i < |m.typeInitial| && j < |n.typeInitial| && m.typeInitial[i].name == n.typeInitial[j].name
      ensures |m.types| == |m.typeInitial| && |n.types| == |n.typeInitial| && m.types[i] == n.types[j]
    {
    }

    /** The table of a loaded module lists the generated names in their order. */
    lemma TablesInOrder(m: ModuleInfo)
      requires Valid() && m in ring
      ensures m.Table() && forall i, j :: 0 <= i < j < |m.types| ==> Compare(m.types[i].name, m.types[j].name) < 0
    {
      forall i, j | 0 <= i < j < |m.types|
        ensures Compare(m.types[i].name, m.types[j].name) < 0
      {
        m.InOrder(i, j);
      }
    }

    /** A lookup finds what is recorded. */
    lemma FoundIsRecorded(t: TypeInfo, c: CString)
      requires Valid() && t in infos
      ensures Lookup(t.Entries(), c) == if c in FindsOn(casting, t) then Some(FindsOn(casting, t)[c]) else None
    {
      assert FindsOn(casting, t) == Finds(t.casts);
      t.FindsFound(c);
    }

    /** `SWIG_TypeCheck` finds every cast that a loaded module declares, on the type in use. */
    lemma DeclaredCastIsFound(m: ModuleInfo, i: nat, j: nat)
      requires Valid() && m in ring && i < |m.typeInitial|
      requires i < |m.castInitial| && j < |m.castInitial[i]| && i < |m.types|
      ensures m.castInitial[i][j].ty.name == m.castInitial[i][j].from
      ensures Lookup(m.types[i].Entries(), m.castInitial[i][j].from) != None
    {
      assert m.castInitial[i][j].from in Sources(m.types[i]);
      FoundIsRecorded(m.types[i], m.castInitial[i][j].from);
    }

    /** `SWIG_TypeCheck` finds a cast exactly when a loaded module declares one. */
    lemma FoundExactlyIfDeclared(t: TypeInfo, c: CString)
      requires Valid() && t in infos
      ensures Lookup(t.Entries(), c) != None <==> Declares(ring, known, t, c)
    {
      FoundIsRecorded(t, c);
      if c in FindsOn(casting, t) {
        var n := FindsOn(casting, t)[c];
        assert FindsOn(casting, t) == Finds(t.casts);
        FindsNodes(t.casts);
        assert t.Linked() && n.owner == t;
        var m := byId[n.place.0];
        assert m.types[n.place.1] == t && m.castInitial[n.place.1][n.place.2] == n;
      }
      if Declares(ring, known, t, c) {
        var m, i :| m in ring && 0 <= i < |m.typeInitial| && i < |m.castInitial| &&
                    m.typeInitial[i].name in known && known[m.typeInitial[i].name] == t && c in Froms(m.castInitial[i]);
        assert m.types[i] == t;
      }
    }

    /**
     * `SWIG_MangledTypeQueryModule` between two loaded modules: the type in use, if a module on the way knows the name.
     */
    method QueryFrom(start: ModuleInfo, end: ModuleInfo, name: CString, ghost i: nat, ghost j: nat)
      returns (t: TypeInfo?)
      requires Valid() && i < |ring| && j < |ring| && ring[i] == start && ring[j] == end
      ensures t == null <==> forall m :: m in Arc(ring, i, j) ==> !m.Knows(name)
      ensures t != null ==> name in known && t == known[name]
    {
      ArcOnce(ring, i, j);
      t := MangledTypeQuery(start, end, name, ring, i, j);
    }

    /** `SWIG_TypeQuery` from a loaded module: it searches the whole ring, and finds exactly the types in use. */
    method Query(m: ModuleInfo, name: CString) returns (t: TypeInfo?)
      requires Valid() && m in ring
      ensures t == null <==> name !in known
      ensures t != null ==> t == known[name]
    {
      ghost var i :| 0 <= i < |ring| && ring[i] == m;
      ArcOnce(ring, i, i);
      t := QueryFrom(m, m, name, i, i);
      assert name in known ==> origin[name].0.Knows(name);
    }

    /** The invariant stays while lists are reordered. */
    twostate lemma StillValidBut()
      requires old(Valid()) && unchanged(this, modules, nodes`owner, infos`clientdata) && Lists() && Indexed()
      ensures Valid()
    {
      assert Ring() == old(Ring()) && Unified() == old(Unified()) && Declared() == old(Declared());
    }

    /** The invariant stays while client data changes together with its record. */
    twostate lemma StillValidWithData()
      requires unchanged(this`head, this`ring, this`known, this`before, this`origin, this`casting)
      requires old(Valid()) && unchanged(modules, nodes, infos`cast, infos`casts) && Carried()
      ensures Valid()
    {
      assert Ring() == old(Ring()) && Full(null) == old(Full(null)) && Unified() == old(Unified());
      assert Backed(null, 0) == old(Backed(null, 0)) && Used(null, 0, null) == old(Used(null, 0, null));
      assert Lists() == old(Lists()) && Indexed() == old(Indexed()) && Declared() == old(Declared());
    }

    /** `SWIG_TypeCheck` in a running interpreter: the invariant stays, and so does what is found by every name. */
    method LookUpCast(t: TypeInfo, c: CString) returns (found: CastInfo?)
      requires Valid() && t in infos
      modifies t`cast, t`casts, nodes`next, nodes`prev
      ensures Valid()
      ensures found == if c in FindsOn(casting, t) then FindsOn(casting, t)[c] else null
      ensures if found == null then t.casts == old(t.casts) else t.Raised(found, c, old(t.casts))
      ensures t.Entries() == Touch(old(t.Entries()), c)
      ensures Lookup(old(t.Entries()), c) == if found == null then None else Some(found)
    {
      found := CheckCast(t, c);
      StillValidBut();
    }
  }
}
