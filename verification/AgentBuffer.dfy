/** The query buffer of the language bindings' `Agent`. */
module AgentBuffer {

  const SIZE_MAX: nat := 0xFFFF_FFFF_FFFF_FFFF

  // ----- Powers of two

  function Pow2(k: nat): (p: nat)
    ensures p >= 1
  {
    if k == 0 then 1 else 2 * Pow2(k - 1)
  }

  ghost predicate IsPow2(n: nat) {
    exists k: nat :: n == Pow2(k)
  }

  lemma {:induction false} Pow2Gap(k: nat, l: nat)
    requires k < l
    ensures 2 * Pow2(k) <= Pow2(l)
  {
    if k + 1 == l {
    } else {
      Pow2Gap(k, l - 1);
    }
  }

  /** Between a power of two and its double there is no other one. */
  lemma NoneBetween(p: nat, q: nat)
    requires IsPow2(p) && IsPow2(q) && p < q
    ensures 2 * p <= q
  {
    var k: nat :| p == Pow2(k);
    var l: nat :| q == Pow2(l);
    if l < k {
      Pow2Gap(l, k);
    } else if k < l {
      Pow2Gap(k, l);
    }
  }

  lemma DoublePow2(p: nat)
    requires IsPow2(p)
    ensures IsPow2(2 * p)
  {
    var k: nat :| p == Pow2(k);
    assert 2 * p == Pow2(k + 1);
  }

  lemma {:induction false} Pow2Sum(k: nat, l: nat)
    ensures Pow2(k + l) == Pow2(k) * Pow2(l)
  {
    if k == 0 {
    } else {
      Pow2Sum(k - 1, l);
    }
  }

  lemma SquarePow2(p: nat)
    requires IsPow2(p)
    ensures IsPow2(p * p)
  {
    var k: nat :| p == Pow2(k);
    Pow2Sum(k, k);
  }

  lemma WordIsPow2()
    ensures IsPow2(SIZE_MAX + 1)
  {
    assert Pow2(4) == 16;
    SquarePow2(16);
    SquarePow2(0x100);
    SquarePow2(0x1_0000);
    SquarePow2(0x1_0000_0000);
  }

  lemma AtMostHalf(p: nat)
    requires IsPow2(p) && p <= SIZE_MAX
    ensures 2 * p <= SIZE_MAX + 1
  {
    WordIsPow2();
    NoneBetween(p, SIZE_MAX + 1);
  }

  // ----- The agent

  class Agent {
    var buf: array?<char>
    var bufSize: nat
    /** The query that the wrapped agent was given last. */
    var queryBuf: array?<char>
    var queryLength: nat
    /** All bytes that were ever allocated, and the longest query. */
    ghost var total: nat
    ghost var longest: nat

    ghost predicate Valid()
      reads this
    {
      && (buf == null <==> bufSize == 0) && (buf != null ==> buf.Length == bufSize)
      && queryBuf == buf && queryLength <= bufSize
      && bufSize <= SIZE_MAX && longest <= bufSize
      && (bufSize == 0 || IsPow2(bufSize) || bufSize == SIZE_MAX)
      && (IsPow2(bufSize) ==> total < 2 * bufSize)
      && total <= 2 * bufSize
      && (longest < SIZE_MAX / 2 ==> bufSize == 0 || (IsPow2(bufSize) && bufSize < 2 * longest))
    }

    constructor ()
      ensures Valid() && bufSize == 0 && longest == 0
    {
      buf, bufSize, queryBuf, queryLength := null, 0, null, 0;
      total, longest := 0, 0;
    }

    /** The size of the buffer that takes a query for which the present one is too small. */
    method GrownSize(length: nat) returns (size: nat)
      requires Valid() && bufSize < length <= SIZE_MAX
      ensures length <= size <= SIZE_MAX
      ensures length >= SIZE_MAX / 2 ==> size == SIZE_MAX
      ensures length < SIZE_MAX / 2 ==> IsPow2(size) && size < 2 * length && 2 * bufSize <= size
      ensures length < SIZE_MAX / 2 ==> forall p: nat :: IsPow2(p) && length <= p ==> size <= p
    {
      size := if bufSize != 0 then bufSize else 1;
      if length >= SIZE_MAX / 2 {
        size := SIZE_MAX;
      } else {
        assert Pow2(0) == 1;
        while size < length
          invariant IsPow2(size) && size <= SIZE_MAX && (bufSize != 0 ==> bufSize <= size)
          invariant size < 2 * length && (bufSize < size ==> 2 * bufSize <= size)
          invariant forall p: nat :: IsPow2(p) && length <= p ==> size <= p
          decreases 2 * length - size
        {
          assert size * 2 <= SIZE_MAX;
          DoublePow2(size);
          forall p: nat | IsPow2(p) && length <= p
            ensures size * 2 <= p
          {
            NoneBetween(size, p);
          }
          size := size * 2;
        }
      }
    }

    /** `Agent::set_query`: copies the query into the buffer, which grows when it is too small. */
    method SetQuery(query: seq<char>)
      requires Valid() && |query| <= SIZE_MAX
      modifies this, buf
      ensures Valid()
      ensures longest == if |query| > old(longest) then |query| else old(longest)
      ensures queryBuf == buf && queryLength == |query| && (buf == null ==> query == [])
      ensures buf != null ==> |query| <= buf.Length && buf[..|query|] == query
      ensures |query| <= old(bufSize) ==> buf == old(buf) && bufSize == old(bufSize) && total == old(total)
      ensures |query| > old(bufSize) ==> fresh(buf) && total == old(total) + bufSize
      ensures |query| > old(bufSize) ==>
                if |query| >= SIZE_MAX / 2 then bufSize == SIZE_MAX
                else IsPow2(bufSize) && bufSize < 2 * |query| && 2 * old(bufSize) <= bufSize
    {
      if |query| > bufSize {
        var newBufSize := GrownSize(|query|);
        var newBuf := new char[newBufSize];
        buf := newBuf;
        if IsPow2(bufSize) {
          AtMostHalf(bufSize);
        }
        bufSize := newBufSize;
        total := total + newBufSize;
      }
      longest := if |query| > longest then |query| else longest;
      if buf != null {
        forall i | 0 <= i < |query| {
          buf[i] := query[i];
        }
      }
      queryBuf, queryLength := buf, |query|;
    }

    /** All the buffers together are less than twice the last one, and less than four times the longest query. */
    lemma AmortizedBound()
      requires Valid() && longest < SIZE_MAX / 2
      ensures bufSize != 0 ==> total < 2 * bufSize && total < 4 * longest
      ensures bufSize == 0 ==> total == 0
    {
    }
  }
}
