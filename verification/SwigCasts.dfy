/** The doubly linked cast lists of the SWIG runtime, which a lookup reorders. */
module SwigCasts {
  import opened CStrings

  // ----- Move to front, on values

  /** A node of a cast list and the name of its type. */
  datatype Entry<T> = Entry(node: T, name: CString)

  /** The first place of a name, or the length. */
  ghost function Find<T>(es: seq<Entry<T>>, c: CString): (k: nat)
    ensures First(es, c, k)
  {
    if es == [] || es[0].name == c then 0 else 1 + Find(es[1..], c)
  }

  /** The first node with a name. */
  ghost function Lookup<T>(es: seq<Entry<T>>, c: CString): Option<T> {
    if Find(es, c) == |es| then None else Some(es[Find(es, c)].node)
  }

  /** Element `k`, if there is one, before all the others. */
  function ToFront<T>(s: seq<T>, k: nat): seq<T> {
    if k >= |s| then s
    else seq(|s|, i requires 0 <= i < |s| => if i == 0 then s[k] else if i <= k then s[i - 1] else s[i])
  }

  ghost function Touch<T>(es: seq<Entry<T>>, c: CString): seq<Entry<T>> {
    ToFront(es, Find(es, c))
  }

  /** A history of lookups. */
  ghost function TouchAll<T>(es: seq<Entry<T>>, history: seq<CString>): seq<Entry<T>>
    decreases |history|
  {
    if history == [] then es else TouchAll(Touch(es, history[0]), history[1..])
  }

  /** Place `k` is the first one of a name, or the length. */
  ghost predicate First<T>(es: seq<Entry<T>>, c: CString, k: nat) {
    k <= |es| && (k < |es| ==> es[k].name == c) && forall j :: 0 <= j < k ==> es[j].name != c
  }

  lemma FindIs<T>(es: seq<Entry<T>>, c: CString, k: nat)
    ensures First(es, c, k) <==> Find(es, c) == k
  {
  }

  /** The elements other than element `k`. */
  function Without<T>(s: seq<T>, k: nat): seq<T>
    requires k < |s|
  {
    s[..k] + s[k + 1..]
  }

  lemma WithoutAt<T>(s: seq<T>, k: nat, i: nat)
    requires k < |s| && i < |s| - 1
    ensures Without(s, k)[i] == if i < k then s[i] else s[i + 1]
  {
  }

  lemma ToFrontSplit<T>(s: seq<T>, k: nat)
    requires k < |s|
    ensures ToFront(s, k) == [s[k]] + Without(s, k)
  {
    forall i | 0 < i < |s|
      ensures Without(s, k)[i - 1] == ToFront(s, k)[i]
    {
      WithoutAt(s, k, i - 1);
    }
    assert ToFront(s, k)[0] == s[k];
  }

  lemma ToFrontSame<T>(s: seq<T>, k: nat)
    requires k < |s|
    ensures multiset(ToFront(s, k)) == multiset(s)
  {
    var front, back := s[..k], s[k + 1..];
    ToFrontSplit(s, k);
    assert s == front + [s[k]] + back;
    assert multiset(s) == multiset(front) + multiset{s[k]} + multiset(back);
  }

  lemma ToFrontMembers<T>(s: seq<T>, k: nat)
    requires k < |s|
    ensures forall x :: x in ToFront(s, k) <==> x in s
  {
    forall i | 0 <= i < |s|
      ensures s[i] == ToFront(s, k)[if i < k then i + 1 else if i == k then 0 else i]
    {
    }
  }

  lemma ToFrontKeepsOthers<T>(es: seq<Entry<T>>, k: nat, c: CString, f: nat)
    requires k < |es| && es[k].name != c && First(es, c, f)
    ensures First(ToFront(es, k), c, if f < k then f + 1 else f)
  {
  }

  /** A lookup changes no other lookup, although it reorders the list. */
  lemma TouchKeepsLookup<T>(es: seq<Entry<T>>, n: CString, c: CString)
    ensures Lookup(Touch(es, n), c) == Lookup(es, c)
  {
    var k := Find(es, n);
    if k < |es| {
      if n == c {
        FindIs(ToFront(es, k), c, 0);
      } else {
        var f := Find(es, c);
        ToFrontKeepsOthers(es, k, c, f);
        FindIs(ToFront(es, k), c, if f < k then f + 1 else f);
      }
    }
  }

  /** A lookup neither adds nor drops a node. */
  lemma TouchKeepsNodes<T>(es: seq<Entry<T>>, n: CString)
    ensures multiset(Touch(es, n)) == multiset(es)
  {
    var k := Find(es, n);
    if k < |es| {
      ToFrontSame(es, k);
    }
  }

  /** After any history of lookups, every name still finds the node that it found first. */
  lemma {:induction false} HistoryKeepsLookup<T>(es: seq<Entry<T>>, history: seq<CString>, c: CString)
    ensures Lookup(TouchAll(es, history), c) == Lookup(es, c)
    ensures multiset(TouchAll(es, history)) == multiset(es)
    decreases |history|
  {
    if history == [] {
    } else {
      TouchKeepsLookup(es, history[0], c);
      TouchKeepsNodes(es, history[0]);
      HistoryKeepsLookup(Touch(es, history[0]), history[1..], c);
    }
  }

  // ----- The lists

  ghost function NodeAt(ns: seq<CastInfo>, i: int): CastInfo? {
    if 0 <= i < |ns| then ns[i] else null
  }

  /** The names of the types that the nodes cast from. */
  ghost function Froms(ns: seq<CastInfo>): set<CString> {
    set n | n in ns :: n.from
  }

  /** For every name the first node from it, which is the one that a lookup finds. */
  ghost function Finds(ns: seq<CastInfo>): map<CString, CastInfo> {
    if ns == [] then map[] else Finds(ns[1..])[ns[0].from := ns[0]]
  }

  lemma {:induction false} FindsNodes(ns: seq<CastInfo>)
    ensures forall n :: n in ns ==> n.from in Finds(ns)
    ensures forall c :: c in Finds(ns) ==> Finds(ns)[c] in ns && Finds(ns)[c].from == c
  {
    if ns == [] {
    } else {
      FindsNodes(ns[1..]);
    }
  }

  lemma FindsMore(node: CastInfo, ns: seq<CastInfo>)
    ensures Finds([node] + ns) == Finds(ns)[node.from := node]
  {
    assert ([node] + ns)[1..] == ns;
  }

  lemma {:induction false} FindsLookup(ns: seq<CastInfo>, es: seq<Entry<CastInfo>>, c: CString)
    requires |es| == |ns| && forall i :: 0 <= i < |ns| ==> es[i] == Entry(ns[i], ns[i].from)
    ensures Lookup(es, c) == if c in Finds(ns) then Some(Finds(ns)[c]) else None
  {
    if ns == [] {
    } else if ns[0].from == c {
    } else {
      FindsLookup(ns[1..], es[1..], c);
    }
  }

  /** Moving the first node from a name to the front changes no lookup. */
  lemma FindsToFront(ns: seq<CastInfo>, k: nat)
    requires k < |ns| && forall j :: 0 <= j < k ==> ns[j].from != ns[k].from
    ensures Finds(ToFront(ns, k)) == Finds(ns)
  {
    forall d: CString
      ensures d in Finds(ns) <==> d in Finds(ToFront(ns, k))
      ensures d in Finds(ns) ==> Finds(ToFront(ns, k))[d] == Finds(ns)[d]
    {
      FindsToFrontAt(ns, k, d);
    }
  }

  lemma FindsToFrontAt(ns: seq<CastInfo>, k: nat, d: CString)
    requires k < |ns| && forall j :: 0 <= j < k ==> ns[j].from != ns[k].from
    ensures d in Finds(ns) <==> d in Finds(ToFront(ns, k))
    ensures d in Finds(ns) ==> Finds(ToFront(ns, k))[d] == Finds(ns)[d]
  {
    var es := seq(|ns|, i requires 0 <= i < |ns| => Entry(ns[i], ns[i].from));
    var c := ns[k].from;
    FindIs(es, c, k);
    FindsLookup(ns, es, d);
    FindsLookup(ToFront(ns, k), ToFront(es, k), d);
    TouchKeepsLookup(es, c, d);
  }

  lemma FromsSplit(ns: seq<CastInfo>, j: nat)
    requires j < |ns|
    ensures Froms(ns[j..]) == {ns[j].from} + Froms(ns[j + 1..])
  {
    assert ns[j..] == [ns[j]] + ns[j + 1..];
  }

  lemma FromsAll(ns: seq<CastInfo>)
    ensures Froms(ns[0..]) == Froms(ns)
  {
    assert ns[0..] == ns;
  }

  /** The nodes `ns`, from `head` on, form a doubly linked list that ends. */
  ghost predicate Chain(head: CastInfo?, ns: seq<CastInfo>)
    reads ns`next, ns`prev
  {
    && head == NodeAt(ns, 0)
    && (forall i {:trigger ns[i].next} :: 0 <= i < |ns| ==> ns[i].next == NodeAt(ns, i + 1))
    && (forall i {:trigger ns[i].prev} :: 0 <= i < |ns| ==> ns[i].prev == NodeAt(ns, i - 1))
    && forall i, j :: 0 <= i < j < |ns| ==> ns[i] != ns[j]
  }

  /** `rest` are the nodes other than node `k`, in their order. */
  ghost predicate Drops(ns: seq<CastInfo>, k: nat, rest: seq<CastInfo>) {
    && k < |ns| && |rest| == |ns| - 1
    && (forall i :: 0 <= i < k ==> rest[i] == ns[i])
    && (forall i :: k <= i < |rest| ==> rest[i] == ns[i + 1])
  }

  lemma DropsWithout(ns: seq<CastInfo>, k: nat)
    requires k < |ns|
    ensures Drops(ns, k, Without(ns, k))
    ensures forall n :: n in Without(ns, k) ==> n in ns
  {
    forall i | 0 <= i < |ns| - 1
      ensures Without(ns, k)[i] == if i < k then ns[i] else ns[i + 1]
    {
      WithoutAt(ns, k, i);
    }
  }

  /** Takes node `k`, which is not the first, out of a list; `rest` are the others. */
  method Unlink(iter: CastInfo, ghost head: CastInfo?, ghost ns: seq<CastInfo>, ghost k: nat,
                ghost rest: seq<CastInfo>)
    requires Chain(head, ns) && 0 < k < |ns| && iter == ns[k] && Drops(ns, k, rest)
    modifies ns`next, ns`prev
    ensures Chain(head, rest) && iter !in rest
  {
    iter.prev.next := iter.next;
    if iter.next != null {
      iter.next.prev := iter.prev;
    }
  }

  /** Puts a node in front of a list. */
  method Link(head: CastInfo?, node: CastInfo, ghost ns: seq<CastInfo>)
    requires Chain(head, ns) && node !in ns
    modifies ns`prev, node`next, node`prev
    ensures Chain(node, [node] + ns)
  {
    node.next := head;
    node.prev := null;
    if head != null {
      head.prev := node;
    }
  }

  class TypeInfo {
    const name: CString
    /** The client data pointer; 0 is null. */
    var clientdata: nat
    /** The head of the list of types that can be cast to this one. */
    var cast: CastInfo?
    /** The nodes of that list. */
    ghost var casts: seq<CastInfo>
    /** The module that the type was generated in. */
    ghost const home: nat

    /** A generated type structure. */
    constructor (name: CString, clientdata: nat, ghost home: nat)
      ensures this.name == name && this.clientdata == clientdata && this.home == home
      ensures casts == [] && Linked()
    {
      this.name, this.clientdata, this.home := name, clientdata, home;
      cast, casts := null, [];
    }

    /** The list is well formed and its nodes are in no other list. */
    ghost predicate Linked()
      reads this`cast, this`casts, casts`next, casts`prev, casts`owner
    {
      Chain(cast, casts) && forall n :: n in casts ==> n.owner == this
    }

    /** The nodes refer to types of the names that they were generated for. */
    ghost predicate Named()
      reads this`casts, casts`ty
    {
      forall n :: n in casts ==> n.ty.name == n.from
    }

    /** A lookup finds the first node from a name. */
    lemma FindsFound(c: CString)
      requires Named()
      ensures Lookup(Entries(), c) == if c in Finds(casts) then Some(Finds(casts)[c]) else None
    {
      FindsLookup(casts, Entries(), c);
    }

    ghost function Entries(): (es: seq<Entry<CastInfo>>)
      reads this, casts
      ensures |es| == |casts|
      ensures forall i :: 0 <= i < |casts| ==> es[i] == Entry(casts[i], casts[i].ty.name)
    {
      seq(|casts|, i requires 0 <= i < |casts| reads this, casts => Entry(casts[i], casts[i].ty.name))
    }

    /** `SWIG_TypeCheck`: finds the first cast from the type named `c` and moves it to the front. */
    method Check(c: CString) returns (found: CastInfo?)
      requires Linked() && Named()
      modifies this`cast, this`casts, casts`next, casts`prev
      ensures Linked() && Named() && Finds(casts) == Finds(old(casts)) && Entries() == Touch(old(Entries()), c)
      ensures Lookup(old(Entries()), c) == if found == null then None else Some(found)
      ensures forall n :: n in casts <==> n in old(casts)
      ensures found != null ==> Raised(found, c, old(casts))
      ensures found == null ==> casts == old(casts) && forall n :: n in casts ==> n.ty.name != c
    {
      ghost var was, es, k;
      es := Entries();
      was := casts;
      found, k := Seek(c);
      FindIs(es, c, k);
      if found != null {
        FindsToFront(casts, k);
        if found != cast {
          Raise(found, k);
        } else {
          assert casts == ToFront(casts, 0);
        }
        EntriesToFront(was, es, k);
        RaisedAt(found, c, was, k);
      }
    }

    /** The first node with a name. */
    method Seek(c: CString) returns (iter: CastInfo?, ghost k: nat)
      requires Linked()
      ensures iter == NodeAt(casts, k) && First(Entries(), c, k)
    {
      iter, k := cast, 0;
      while iter != null && iter.ty.name != c
        invariant 0 <= k <= |casts| && iter == NodeAt(casts, k)
        invariant forall j :: 0 <= j < k ==> casts[j].ty.name != c
        decreases |casts| - k
      {
        iter := iter.next;
        k := k + 1;
      }
    }

    /** The first node of the list `was` with the name `c` is now the head, before all the others in their order. */
    ghost predicate Raised(found: CastInfo, c: CString, was: seq<CastInfo>)
      reads this`cast, this`casts, found`ty, was`ty
    {
      exists k :: 0 <= k < |was| && was[k] == found && found.ty.name == c &&
                  (forall j :: 0 <= j < k ==> was[j].ty.name != c) &&
                  cast == found && casts == [found] + was[..k] + was[k + 1..]
    }

    lemma RaisedAt(found: CastInfo, c: CString, was: seq<CastInfo>, k: nat)
      requires k < |was| && was[k] == found && found.ty.name == c && cast == found && casts == ToFront(was, k)
      requires forall j :: 0 <= j < k ==> was[j].ty.name != c
      ensures Raised(found, c, was)
    {
      ToFrontSplit(was, k);
      assert casts == [found] + was[..k] + was[k + 1..];
    }

    lemma EntriesToFront(was: seq<CastInfo>, es: seq<Entry<CastInfo>>, k: nat)
      requires k < |was| == |es| && casts == ToFront(was, k)
      requires forall i :: 0 <= i < |was| ==> es[i] == Entry(was[i], was[i].ty.name)
      ensures Entries() == ToFront(es, k)
    {
    }

    /** Moves a node to the head of the list. */
    method Raise(iter: CastInfo, ghost k: nat)
      requires Linked() && 0 < k < |casts| && iter == casts[k]
      modifies this`cast, this`casts, casts`next, casts`prev
      ensures Linked() && casts == ToFront(old(casts), k)
      ensures forall n :: n in casts <==> n in old(casts)
    {
      ghost var others := Without(casts, k);
      DropsWithout(casts, k);
      ToFrontSplit(casts, k);
      ToFrontMembers(casts, k);
      Unlink(iter, cast, casts, k, others);
      Link(cast, iter, others);
      cast := iter;
      casts := [iter] + others;
    }

    /** Puts a node that is in no list at the head of the list. */
    method Push(node: CastInfo)
      requires Linked() && node.owner == null && node.next == null && node.prev == null
      modifies this`cast, this`casts, casts`prev, node`next, node`owner
      ensures Linked() && casts == [node] + old(casts)
    {
      if cast != null {
        cast.prev := node;
        node.next := cast;
      }
      cast := node;
      node.owner := this;
      casts := [node] + casts;
    }
  }

  class CastInfo {
    /** The type that can be cast. */
    var ty: TypeInfo
    /** Whether the cast needs a conversion function. */
    const converter: bool
    var next: CastInfo?
    var prev: CastInfo?
    /** The type whose list holds this node. */
    ghost var owner: TypeInfo?
    /** The name of the type that can be cast. */
    ghost const from: CString
    /** The module, row and column that the node was generated in. */
    ghost const place: (nat, nat, nat)

    /** A generated cast structure. */
    constructor (ty: TypeInfo, converter: bool, ghost place: (nat, nat, nat))
      ensures this.ty == ty && this.converter == converter && next == null && prev == null && owner == null
      ensures from == ty.name && this.place == place
    {
      this.ty, this.converter, this.place := ty, converter, place;
      next, prev, owner := null, null, null;
      from := ty.name;
    }
  }
}
