/** The type tables of SWIG modules and the search through a ring of modules. */
module SwigModules {
  import opened CStrings
  import opened SwigCasts

  // ----- strcmp

  /** Byte by byte comparison: negative, zero or positive. */
  function Compare(a: CString, b: CString): int {
    if a == [] then (if b == [] then 0 else -1)
    else if b == [] then 1
    else if a[0] != b[0] then a[0] as int - b[0] as int
    else Compare(a[1..], b[1..])
  }

  lemma {:induction false} CompareEqual(a: CString, b: CString)
    ensures Compare(a, b) == 0 <==> a == b
  {
    if a == [] || b == [] || a[0] != b[0] {
    } else {
      CompareEqual(a[1..], b[1..]);
      assert a == [a[0]] + a[1..] && b == [b[0]] + b[1..];
    }
  }

  lemma {:induction false} CompareFlipped(a: CString, b: CString)
    ensures Compare(a, b) < 0 <==> Compare(b, a) > 0
  {
    if a == [] || b == [] || a[0] != b[0] {
    } else {
      CompareFlipped(a[1..], b[1..]);
    }
  }

  lemma {:induction false} CompareTransitive(a: CString, b: CString, c: CString)
    requires Compare(a, b) < 0 && Compare(b, c) < 0
    ensures Compare(a, c) < 0
  {
    if a == [] || a[0] != b[0] || b[0] != c[0] {
    } else {
      CompareTransitive(a[1..], b[1..], c[1..]);
    }
  }

  /** The strings agree up to some place, where the first one ends or has the smaller byte. */
  ghost predicate Precedes(a: CString, b: CString) {
    exists k :: 0 <= k <= |a| && k <= |b| && a[..k] == b[..k] && PrecedesAt(a, b, k)
  }

  ghost predicate PrecedesAt(a: CString, b: CString, k: nat)
    requires k <= |a| && k <= |b|
  {
    k < |b| && (k == |a| || a[k] < b[k])
  }

  /** Comparison is the lexicographic order of bytes. */
  lemma {:induction false} CompareIsLexicographic(a: CString, b: CString)
    ensures Compare(a, b) < 0 <==> Precedes(a, b)
  {
    if a == [] || b == [] || a[0] != b[0] {
      if Compare(a, b) < 0 {
        assert a[..0] == b[..0] && PrecedesAt(a, b, 0);
      }
    } else {
      CompareIsLexicographic(a[1..], b[1..]);
      if Precedes(a[1..], b[1..]) {
        var k :| 0 <= k <= |a[1..]| && k <= |b[1..]| && a[1..][..k] == b[1..][..k] && PrecedesAt(a[1..], b[1..], k);
        assert a[..k + 1] == [a[0]] + a[1..][..k] && b[..k + 1] == [b[0]] + b[1..][..k];
        assert PrecedesAt(a, b, k + 1);
      }
      if Precedes(a, b) {
        var k :| 0 <= k <= |a| && k <= |b| && a[..k] == b[..k] && PrecedesAt(a, b, k);
        assert a[1..][..k - 1] == a[..k][1..] && b[1..][..k - 1] == b[..k][1..];
        assert PrecedesAt(a[1..], b[1..], k - 1);
      }
    }
  }

  // ----- Modules

  class ModuleInfo {
    /** Tells the generated modules apart. */
    ghost const id: nat
    /** The generated types and, for each of them, the generated casts. */
    const typeInitial: seq<TypeInfo>
    const castInitial: seq<seq<CastInfo>>
    /** The types in use, as many as are filled in so far. */
    var types: seq<TypeInfo>
    var next: ModuleInfo?

    /** A generated module. */
    constructor (ghost id: nat, typeInitial: seq<TypeInfo>, castInitial: seq<seq<CastInfo>>)
      ensures this.id == id && this.typeInitial == typeInitial && this.castInitial == castInitial
      ensures types == [] && next == null
    {
      this.id, this.typeInitial, this.castInitial := id, typeInitial, castInitial;
      types, next := [], null;
    }

    /** The generator lists the types in the order of their names. */
    ghost predicate Generated() {
      && |castInitial| == |typeInitial|
      && forall i {:trigger Before(i)} :: 0 <= i < |typeInitial| - 1 ==> Before(i)
    }

    /** Entry `i` is before the next one. */
    ghost predicate Before(i: nat)
      requires i < |typeInitial| - 1
    {
      Compare(typeInitial[i].name, typeInitial[i + 1].name) < 0
    }

    lemma {:induction false} InOrder(i: nat, j: nat)
      requires Generated() && i < j < |typeInitial|
      ensures Compare(typeInitial[i].name, typeInitial[j].name) < 0
    {
      assert Before(j - 1);
      if i + 1 == j {
      } else {
        InOrder(i, j - 1);
        CompareTransitive(typeInitial[i].name, typeInitial[j - 1].name, typeInitial[j].name);
      }
    }

    /** The table is filled, with types of the generated names. */
    ghost predicate Table()
      reads this`types
    {
      |types| == |typeInitial| && forall i :: 0 <= i < |types| ==> types[i].name == typeInitial[i].name
    }

    ghost predicate Knows(name: CString) {
      exists i :: 0 <= i < |typeInitial| && typeInitial[i].name == name
    }

    /** Binary search for a name in the table. */
    method Search(name: CString) returns (t: TypeInfo?)
      requires Generated() && Table()
      ensures t == null <==> !Knows(name)
      ensures t != null ==> t.name == name && t in types
    {
      if |typeInitial| == 0 {
        return null;
      }
      var l: nat, r: nat := 0, |typeInitial| - 1;
      while true
        invariant l <= r < |typeInitial|
        invariant forall j :: 0 <= j < l ==> typeInitial[j].name != name
        invariant forall j :: r < j < |typeInitial| ==> typeInitial[j].name != name
        decreases r - l
      {
        var i := (l + r) / 2;
        var compare := Compare(name, types[i].name);
        Halves(name, i);
        if compare == 0 {
          return types[i];
        } else if compare < 0 {
          if i == 0 {
            break;
          }
          r := i - 1;
        } else {
          l := i + 1;
        }
        if l > r {
          break;
        }
      }
      return null;
    }

    /** A comparison with entry `i` rules out the entries on one side of it. */
    lemma Halves(name: CString, i: nat)
      requires Generated() && i < |typeInitial|
      ensures Compare(name, typeInitial[i].name) == 0 <==> name == typeInitial[i].name
      ensures Compare(name, typeInitial[i].name) < 0 ==>
                forall j :: i <= j < |typeInitial| ==> typeInitial[j].name != name
      ensures Compare(name, typeInitial[i].name) > 0 ==> forall j :: 0 <= j <= i ==> typeInitial[j].name != name
    {
      CompareEqual(name, typeInitial[i].name);
      CompareFlipped(typeInitial[i].name, name);
      forall j | 0 <= j < |typeInitial| && j != i
        ensures if j < i then Compare(typeInitial[j].name, typeInitial[i].name) < 0
                else Compare(typeInitial[i].name, typeInitial[j].name) < 0
      {
        InOrder(if j < i then j else i, if j < i then i else j);
      }
    }

    /** A name stands in one place only. */
    lemma NamesDiffer(i: nat, j: nat)
      requires Generated() && i < |typeInitial| && j < |typeInitial| && i != j
      ensures typeInitial[i].name != typeInitial[j].name
    {
      InOrder(if i < j then i else j, if i < j then j else i);
      CompareEqual(typeInitial[i].name, typeInitial[j].name);
      CompareEqual(typeInitial[j].name, typeInitial[i].name);
    }
  }

  // ----- Rings

  ghost predicate Distinct<T>(s: seq<T>) {
    forall j, k :: 0 <= j < k < |s| ==> s[j] != s[k]
  }

  /** Following `next` leads once through the modules of `ring` and back to the first one. */
  ghost predicate Cycle(ring: seq<ModuleInfo>)
    reads ring`next
  {
    && Distinct(ring)
    && (forall k {:trigger ring[k].next} :: 0 <= k < |ring| - 1 ==> ring[k].next == ring[k + 1])
    && (ring != [] ==> ring[|ring| - 1].next == ring[0])
  }

  /** The modules of a ring from place `i` up to, but not including, place `j`; all of them when the two are equal. */
  ghost function Arc<T>(ring: seq<T>, i: nat, j: nat): (arc: seq<T>)
    requires i < |ring| && j < |ring|
    ensures arc != [] && arc[0] == ring[i]
  {
    if i < j then ring[i..j] else ring[i..] + ring[..j]
  }

  /** The first module behind place `k` of an arc. */
  lemma ArcNext(ring: seq<ModuleInfo>, i: nat, j: nat, k: nat)
    requires Cycle(ring) && i < |ring| && j < |ring| && k < |Arc(ring, i, j)|
    ensures Arc(ring, i, j)[k].next == if k + 1 < |Arc(ring, i, j)| then Arc(ring, i, j)[k + 1] else ring[j]
    ensures k > 0 ==> Arc(ring, i, j)[k] != ring[j]
  {
    var n := |ring|;
    assert Arc(ring, i, j)[k] == ring[if i + k < n then i + k else i + k - n];
  }

  /** An arc has each module once, and the whole ring has every module. */
  lemma ArcOnce(ring: seq<ModuleInfo>, i: nat, j: nat)
    requires Distinct(ring) && i < |ring| && j < |ring|
    ensures Distinct(Arc(ring, i, j))
    ensures forall m :: m in Arc(ring, i, j) ==> m in ring
    ensures i == j ==> forall m :: m in ring ==> m in Arc(ring, i, j)
  {
    assert ring == ring[..i] + ring[i..];
  }

  /**
   * `SWIG_MangledTypeQueryModule`: the type of the first module that knows a name, on the way along `next` from
   * `start`, at place `i` of the ring, up to `end`, at place `j`.
   */
  method MangledTypeQuery(start: ModuleInfo, end: ModuleInfo, name: CString,
                          ghost ring: seq<ModuleInfo>, ghost i: nat, ghost j: nat)
    returns (t: TypeInfo?)
    requires Cycle(ring) && i < |ring| && j < |ring| && ring[i] == start && ring[j] == end
    requires forall m :: m in Arc(ring, i, j) ==> m.Generated() && m.Table()
    ensures t == null <==> forall m :: m in Arc(ring, i, j) ==> !m.Knows(name)
    ensures t != null ==>
              t.name == name &&
              exists k :: 0 <= k < |Arc(ring, i, j)| &&
                          t in Arc(ring, i, j)[k].types && Arc(ring, i, j)[k].Knows(name) &&
                          forall l :: 0 <= l < k ==> !Arc(ring, i, j)[l].Knows(name)
  {
    ghost var p, k := Arc(ring, i, j), 0;
    var iter := start;
    while true
      invariant 0 <= k < |p| && iter == p[k]
      invariant forall l :: 0 <= l < k ==> !p[l].Knows(name)
      decreases |p| - k
    {
      t := iter.Search(name);
      if t != null {
        return;
      }
      ArcNext(ring, i, j, k);
      iter := iter.next;
      k := k + 1;
      if k < |p| {
        ArcNext(ring, i, j, k);
      }
      if iter == end {
        return null;
      }
    }
  }
}
