/** How client data spreads from a type to the types that need no conversion. */
module SwigMarking {
  import opened SwigCasts

  // ----- Graphs

  type Graph = map<TypeInfo, set<TypeInfo>>

  /** `n` steps along the graph lead from `a` to `b`, and each of them enters a white type. */
  ghost predicate ReachesIn(g: Graph, white: set<TypeInfo>, a: TypeInfo, b: TypeInfo, n: nat) {
    if n == 0 then a == b
    else b in white && exists c :: c in g && b in g[c] && ReachesIn(g, white, a, c, n - 1)
  }

  ghost predicate Reaches(g: Graph, white: set<TypeInfo>, a: TypeInfo, b: TypeInfo) {
    exists n: nat :: ReachesIn(g, white, a, b, n)
  }

  lemma ReachesItself(g: Graph, white: set<TypeInfo>, a: TypeInfo)
    ensures Reaches(g, white, a, a)
  {
    assert ReachesIn(g, white, a, a, 0);
  }

  lemma ReachesNext(g: Graph, white: set<TypeInfo>, a: TypeInfo, b: TypeInfo, c: TypeInfo)
    requires Reaches(g, white, a, b) && b in g && c in g[b] && c in white
    ensures Reaches(g, white, a, c)
  {
    var n: nat :| ReachesIn(g, white, a, b, n);
    assert ReachesIn(g, white, a, c, n + 1);
  }

  /** A step to a white type, and then a way through some of the white types. */
  lemma {:induction false} ReachesThrough(g: Graph, white: set<TypeInfo>, less: set<TypeInfo>,
                                          a: TypeInfo, b: TypeInfo, c: TypeInfo, n: nat)
    requires a in g && b in g[a] && b in white && less <= white && ReachesIn(g, less, b, c, n)
    ensures Reaches(g, white, a, c)
  {
    if n == 0 {
      ReachesItself(g, white, a);
      ReachesNext(g, white, a, a, b);
    } else {
      var t :| t in g && c in g[t] && ReachesIn(g, less, b, t, n - 1);
      ReachesThrough(g, white, less, a, b, t, n - 1);
      ReachesNext(g, white, a, t, c);
    }
  }

  /** The set holds the white successors of its members, except perhaps those of `open`. */
  ghost predicate Closed(g: Graph, white: set<TypeInfo>, s: set<TypeInfo>, open: TypeInfo) {
    forall t, u :: t in s && t != open && t in g && u in g[t] && u in white ==> u in s
  }

  lemma {:induction false} ClosedHoldsReached(g: Graph, white: set<TypeInfo>, s: set<TypeInfo>,
                                              a: TypeInfo, b: TypeInfo, n: nat)
    requires Closed(g, white, s, a) && (a in g ==> g[a] * white <= s) && a in s
    requires ReachesIn(g, white, a, b, n)
    ensures b in s
  {
    if n == 0 {
    } else {
      var c :| c in g && b in g[c] && ReachesIn(g, white, a, c, n - 1);
      ClosedHoldsReached(g, white, s, a, c, n - 1);
      assert c == a ==> b in g[a] * white;
    }
  }

  /** A set that holds the white successors of its members holds all that they reach. */
  lemma ClosedIsReached(g: Graph, white: set<TypeInfo>, s: set<TypeInfo>, a: TypeInfo)
    requires Closed(g, white, s, a) && (a in g ==> g[a] * white <= s)
    requires a in s
    requires forall t :: t in s ==> Reaches(g, white, a, t)
    ensures forall t :: t in g ==> (t in s <==> Reaches(g, white, a, t))
  {
    forall t | t in g && Reaches(g, white, a, t)
      ensures t in s
    {
      var n: nat :| ReachesIn(g, white, a, t, n);
      ClosedHoldsReached(g, white, s, a, t, n);
    }
  }

  /** Adding what a successor `b` reaches through the types that are left white. */
  lemma Extend(g: Graph, white: set<TypeInfo>, less: set<TypeInfo>, a: TypeInfo, b: TypeInfo,
               s: set<TypeInfo>, more: set<TypeInfo>)
    requires Closed(g, white, s, a) && less == white - s
    requires a in g && b in g[a] && b in white
    requires more <= g.Keys && (forall t, u :: t in g && u in g[t] ==> u in g)
    requires forall t :: t in g ==> (t in more <==> Reaches(g, less, b, t))
    ensures Closed(g, white, s + more, a) && b in more
    ensures forall t :: t in more ==> Reaches(g, white, a, t)
  {
    ReachesItself(g, less, b);
    forall t, u | t in more && t in g && u in g[t] && u in white
      ensures u in s + more
    {
      if u !in s {
        ReachesNext(g, less, b, t, u);
      }
    }
    forall t | t in more
      ensures Reaches(g, white, a, t)
    {
      var n: nat :| ReachesIn(g, less, b, t, n);
      ReachesThrough(g, white, less, a, b, t, n);
    }
  }

  // ----- The types

  /** The types that casts without conversion lead to. */
  ghost function Targets(ns: seq<CastInfo>): set<TypeInfo>
    reads ns`ty
  {
    set n | n in ns && !n.converter :: n.ty
  }

  lemma TargetsMarked(ns: seq<CastInfo>, k: nat, white: set<TypeInfo>, marked: set<TypeInfo>)
    requires k < |ns| && Targets(ns[..k]) * white <= marked
    requires !ns[k].converter && ns[k].ty in white ==> ns[k].ty in marked
    ensures Targets(ns[..k + 1]) * white <= marked
  {
    assert ns[..k + 1] == ns[..k] + [ns[k]];
  }

  lemma TargetsAll(ns: seq<CastInfo>)
    ensures Targets(ns[..|ns|]) == Targets(ns)
  {
    assert ns[..|ns|] == ns;
  }

  /** The graph is that of the cast lists of the types `g.Keys`. */
  ghost predicate Describes(g: Graph)
    reads *
  {
    && (forall t {:trigger t.Linked()} :: t in g ==> t.Linked())
    && (forall t {:trigger Targets(t.casts)} :: t in g ==> g[t] == Targets(t.casts))
    && (forall t, u :: t in g && u in g[t] ==> u in g)
  }

  ghost function Unset(g: Graph): set<TypeInfo>
    reads g.Keys`clientdata
  {
    set t | t in g.Keys && t.clientdata == 0
  }

  /**
   * `SWIG_TypeClientData`: sets the client data of `ti` and of exactly the types that it reaches through types without
   * client data.
   */
  method TypeClientData(ti: TypeInfo, d: nat, ghost g: Graph)
    returns (ghost marked: set<TypeInfo>)
    requires d != 0 && ti in g && Describes(g)
    modifies g.Keys`clientdata
    ensures forall t :: t in g ==> (t in marked <==> Reaches(g, old(Unset(g)), ti, t))
    ensures forall t :: t in g ==> t.clientdata == if t in marked then d else old(t.clientdata)
    ensures forall t, n :: t in marked && n in t.casts && !n.converter ==> n.ty.clientdata != 0
    ensures forall u :: u in g && u in marked && u != ti ==>
              old(u.clientdata) == 0 && exists t, n :: t in marked && n in t.casts && !n.converter && n.ty == u
    ensures ti in marked && marked <= g.Keys && Describes(g)
    decreases Unset(g) - {ti}
  {
    ghost var white := Unset(g);
    var cast := ti.cast;
    ti.clientdata := d;
    marked := {ti};
    ReachesItself(g, white, ti);
    assert ti.Linked();

    ghost var k := 0;
    while cast != null
      invariant 0 <= k <= |ti.casts| && cast == NodeAt(ti.casts, k)
      invariant ti in marked && marked <= g.Keys && Describes(g)
      invariant forall t :: t in g ==> t.clientdata == if t in marked then d else old(t.clientdata)
      invariant forall t :: t in marked ==> Reaches(g, white, ti, t)
      invariant Closed(g, white, marked, ti)
      invariant Targets(ti.casts[..k]) * white <= marked
      decreases |ti.casts| - k
    {
      if !cast.converter {
        var tc := cast.ty;
        assert tc in Targets(ti.casts);
        if tc.clientdata == 0 {
          assert Unset(g) == white - marked;
          ghost var more := TypeClientData(tc, d, g);
          Extend(g, white, white - marked, ti, tc, marked, more);
          marked := marked + more;
        }
      }
      TargetsMarked(ti.casts, k, white, marked);
      assert ti.Linked();
      cast := cast.next;
      k := k + 1;
    }
    TargetsAll(ti.casts);
    ClosedIsReached(g, white, marked, ti);
    SpreadOnNodes(g, white, marked, ti);
  }

  /** What was reached in the graph, in terms of the nodes of the lists. */
  lemma SpreadOnNodes(g: Graph, white: set<TypeInfo>, marked: set<TypeInfo>, ti: TypeInfo)
    requires Describes(g) && ti in g && ti in marked && marked <= g.Keys
    requires Closed(g, white, marked, ti) && g[ti] * white <= marked
    requires forall t :: t in marked ==> Reaches(g, white, ti, t)
    requires forall t :: t in g ==> t.clientdata != 0 || (t in white && t !in marked)
    ensures forall t, n :: t in marked && n in t.casts && !n.converter ==> n.ty.clientdata != 0
    ensures forall u :: u in marked && u != ti ==>
              u in white && exists t, n :: t in marked && n in t.casts && !n.converter && n.ty == u
  {
    forall t, n | t in marked && n in t.casts && !n.converter
      ensures n.ty.clientdata != 0
    {
      assert n.ty in Targets(t.casts);
    }
    forall u | u in marked && u != ti
      ensures u in white && exists t, n :: t in marked && n in t.casts && !n.converter && n.ty == u
    {
      var k: nat :| ReachesIn(g, white, ti, u, k);
      var t :| t in g && u in g[t] && ReachesIn(g, white, ti, t, k - 1);
      ClosedHoldsReached(g, white, marked, ti, t, k - 1);
      assert u in Targets(t.casts);
    }
  }
}
