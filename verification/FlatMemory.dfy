/** Equally sized buffers laid end to end, and overwriting a range of the result. */
module FlatMemory {
  import opened Words

  function Join<T>(bufs: seq<seq<T>>, k: nat): seq<T>
    requires k <= |bufs|
  {
    if k == 0 then [] else Join(bufs, k - 1) + bufs[k - 1]
  }

  /** First position of node k when every node holds `base` bytes. */
  function Offset(base: nat, k: nat): nat {
    if k == 0 then 0 else Offset(base, k - 1) + base
  }

  lemma {:induction false} OffsetIsProduct(base: nat, k: nat)
    ensures Offset(base, k) == base * k
  {
    if k != 0 {
      OffsetIsProduct(base, k - 1);
      assert base * k == base * (k - 1) + base;
    }
  }

  lemma {:induction false} OffsetMono(base: nat, j: nat, k: nat)
    requires j <= k
    ensures Offset(base, j) <= Offset(base, k)
    ensures j < k ==> Offset(base, j) + base <= Offset(base, k)
  {
    if j < k {
      OffsetMono(base, j, k - 1);
    }
  }

  /** The node of a position and the position inside it are the quotient and the remainder. */
  lemma OffsetDivMod(base: nat, k: nat, pos: nat)
    requires Offset(base, k) <= pos < Offset(base, k) + base
    ensures pos / base == k && pos % base == pos - Offset(base, k)
  {
    OffsetIsProduct(base, k);
    DivModUnique(pos, base, k, pos - Offset(base, k));
  }

  predicate Uniform<T>(bufs: seq<seq<T>>, base: nat) {
    forall i :: 0 <= i < |bufs| ==> |bufs[i]| == base
  }

  lemma {:induction false} JoinLength<T>(bufs: seq<seq<T>>, base: nat, k: nat)
    requires Uniform(bufs, base) && k <= |bufs|
    ensures |Join(bufs, k)| == Offset(base, k)
  {
    if k != 0 {
      JoinLength(bufs, base, k - 1);
    }
  }

  /** Joining fewer buffers, of a list that agrees on them, gives a prefix. */
  lemma {:induction false} JoinPrefix<T>(bufs: seq<seq<T>>, more: seq<seq<T>>, j: nat, k: nat)
    requires j <= |bufs| && j <= k <= |more|
    requires forall i :: 0 <= i < j ==> bufs[i] == more[i]
    ensures Join(bufs, j) <= Join(more, k)
  {
    if j < k {
      JoinPrefix(bufs, more, j, k - 1);
    } else if k != 0 {
      JoinPrefix(bufs, more, j - 1, k - 1);
      JoinSame(bufs, more, k - 1);
    }
  }

  lemma {:induction false} JoinSame<T>(bufs: seq<seq<T>>, more: seq<seq<T>>, k: nat)
    requires k <= |bufs| && k <= |more|
    requires forall i :: 0 <= i < k ==> bufs[i] == more[i]
    ensures Join(bufs, k) == Join(more, k)
  {
    if k != 0 {
      JoinSame(bufs, more, k - 1);
    }
  }

  /** f with the bytes from pos on replaced by data. */
  function Splice<T>(f: seq<T>, pos: nat, data: seq<T>): (r: seq<T>)
    requires pos + |data| <= |f|
    ensures |r| == |f|
    ensures forall i :: 0 <= i < |f| ==> r[i] == if pos <= i < pos + |data| then data[i - pos] else f[i]
    decreases |data|
  {
    if data == [] then f else Splice(f[pos := data[0]], pos + 1, data[1..])
  }

  /** Copying into one buffer is splicing the joined sequence at that buffer's offset. */
  lemma {:induction false} SpliceNode<T>(bufs: seq<seq<T>>, base: nat, j: nat, off: nat, data: seq<T>, k: nat)
    requires Uniform(bufs, base) && j < k <= |bufs| && off + |data| <= base
    ensures Offset(base, j) + off + |data| <= |Join(bufs, k)|
    ensures Join(bufs[j := Splice(bufs[j], off, data)], k) == Splice(Join(bufs, k), Offset(base, j) + off, data)
  {
    var b := Splice(bufs[j], off, data);
    var bufs' := bufs[j := b];
    var front := Join(bufs, k - 1);
    JoinLength(bufs, base, k - 1);
    if j == k - 1 {
      JoinSame(bufs, bufs', j);
      assert Join(bufs', k) == front + b;
      SpliceRight(front, bufs[j], off, data);
    } else {
      SpliceNode(bufs, base, j, off, data, k - 1);
      assert Join(bufs', k) == Splice(front, Offset(base, j) + off, data) + bufs[k - 1];
      SpliceLeft(front, bufs[k - 1], Offset(base, j) + off, data);
    }
  }

  lemma SpliceRight<T>(a: seq<T>, b: seq<T>, off: nat, data: seq<T>)
    requires off + |data| <= |b|
    ensures a + Splice(b, off, data) == Splice(a + b, |a| + off, data)
  {
  }

  lemma SpliceLeft<T>(a: seq<T>, b: seq<T>, off: nat, data: seq<T>)
    requires off + |data| <= |a|
    ensures Splice(a, off, data) + b == Splice(a + b, off, data)
  {
  }

  /** A range of buffer j is the range of the joined sequence at that buffer's offset. */
  lemma {:induction false} SliceNode<T>(bufs: seq<seq<T>>, base: nat, j: nat, off: nat, n: nat, k: nat)
    requires Uniform(bufs, base) && j < k <= |bufs| && off + n <= base
    ensures Offset(base, j) + off + n <= |Join(bufs, k)|
    ensures Join(bufs, k)[Offset(base, j) + off..Offset(base, j) + off + n] == bufs[j][off..off + n]
  {
    JoinLength(bufs, base, k - 1);
    if j < k - 1 {
      SliceNode(bufs, base, j, off, n, k - 1);
    }
  }

  /** The array's contents after writing data at pos: overwrite, and extend if data reaches further. */
  function Overlay<T>(prior: seq<T>, pos: nat, data: seq<T>): (r: seq<T>)
    requires pos <= |prior|
    ensures |r| == if pos + |data| > |prior| then pos + |data| else |prior|
  {
    prior[..pos] + data + (if pos + |data| < |prior| then prior[pos + |data|..] else [])
  }

  /** Byte by byte: the data where it was written, and what was there elsewhere. */
  lemma OverlayAt<T>(prior: seq<T>, pos: nat, data: seq<T>, i: nat)
    requires pos <= |prior| && i < |Overlay(prior, pos, data)|
    ensures pos <= i < pos + |data| ==> Overlay(prior, pos, data)[i] == data[i - pos]
    ensures !(pos <= i < pos + |data|) ==> i < |prior| && Overlay(prior, pos, data)[i] == prior[i]
  {
  }

  lemma SpliceNext<T>(f: seq<T>, pos: nat, buf: seq<T>, done: nat, n: nat)
    requires done + n <= |buf| && pos + |buf| <= |f|
    ensures Splice(Splice(f, pos, buf[..done]), pos + done, buf[done..done + n]) == Splice(f, pos, buf[..done + n])
  {
  }

  lemma {:induction false} OffsetAdd(base: nat, j: nat, k: nat)
    ensures Offset(base, j + k) == Offset(base, j) + Offset(base, k)
  {
    if k != 0 {
      OffsetAdd(base, j, k - 1);
    }
  }

  /** The number of the node that holds position pos. */
  function NodeOf(base: nat, pos: nat): nat
    requires base >= 1
  {
    if pos < base then 0 else 1 + NodeOf(base, pos - base)
  }

  lemma {:induction false} NodeOfOffset(base: nat, k: nat, r: nat)
    requires r < base
    ensures NodeOf(base, Offset(base, k) + r) == k
  {
    if k != 0 {
      NodeOfOffset(base, k - 1, r);
    }
  }

  lemma {:induction false} OffsetOfNode(base: nat, pos: nat)
    requires base >= 1
    ensures Offset(base, NodeOf(base, pos)) <= pos < Offset(base, NodeOf(base, pos)) + base
  {
    if pos >= base {
      OffsetOfNode(base, pos - base);
    }
  }

  /** It is the quotient, and the offset in the node is the remainder. */
  lemma {:induction false} NodeOfIsQuotient(base: nat, pos: nat)
    requires base >= 1
    ensures NodeOf(base, pos) == pos / base
    ensures pos % base == pos - Offset(base, NodeOf(base, pos))
  {
    OffsetOfNode(base, pos);
    OffsetDivMod(base, NodeOf(base, pos), pos);
  }

  /** Splicing the grown memory is overlaying the data. */
  lemma {:induction false} OverlayOfSplice<T>(f: seq<T>, roomy: seq<T>, size: nat, pos: nat, buf: seq<T>, size': nat)
    requires f <= roomy && pos <= size <= |f| && pos + |buf| <= |roomy|
    requires size' == if pos + |buf| > size then pos + |buf| else size
    ensures Splice(roomy, pos, buf)[..size'] == Overlay(f[..size], pos, buf)
  {
    var r, o := Splice(roomy, pos, buf), Overlay(f[..size], pos, buf);
    forall i | 0 <= i < size'
      ensures r[i] == o[i]
    {
      assert i < |f| ==> roomy[i] == f[i];
    }
  }

  /** Past the data the old memory is untouched. */
  lemma SpliceKeepsRest<T>(f: seq<T>, roomy: seq<T>, pos: nat, buf: seq<T>, from: nat)
    requires f <= roomy && pos + |buf| <= |roomy| && pos + |buf| <= from <= |f|
    ensures Splice(roomy, pos, buf)[from..|f|] == f[from..]
  {
  }

  /** Two writes in a row are one write of both. */
  lemma OverlayTwice<T>(d: seq<T>, pos: nat, a: seq<T>, b: seq<T>)
    requires pos <= |d|
    ensures Overlay(Overlay(d, pos, a), pos + |a|, b) == Overlay(d, pos, a + b)
  {
  }

  /** From the write position on, the array holds the data and then what was behind it. */
  lemma OverlayFrom<T>(d: seq<T>, pos: nat, e: seq<T>) returns (rest: seq<T>)
    requires pos <= |d|
    ensures Overlay(d, pos, e)[pos..] == e + rest
  {
    rest := if pos + |e| < |d| then d[pos + |e|..] else [];
  }
}
