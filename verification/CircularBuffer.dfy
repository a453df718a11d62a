/** The circular block write and read loops of arm_math.h, at unit stride. */
module CircularBuffer {
  import opened Arithmetic

  // ---------------------------------------------------------------- the buffer as a value

  /** The cells and the two offsets the callers keep. */
  datatype Ring<T> = Ring(cells: seq<T>, w: nat, r: nat)
  {
    predicate Valid() { |cells| > 0 && w < |cells| && r < |cells| }
  }

  /** One step of an offset around the buffer. */
  function Advance(offset: nat, size: nat): nat {
    if offset + 1 >= size then offset + 1 - size else offset + 1
  }

  function WriteBlock<T>(s: Ring<T>, src: seq<T>): (t: Ring<T>)
    requires s.Valid()
    ensures t.Valid() && |t.cells| == |s.cells|
  {
    if src == [] then s
    else
      var q := WriteBlock(s, src[..|src| - 1]);
      q.(cells := q.cells[q.w := src[|src| - 1]], w := Advance(q.w, |q.cells|))
  }

  /** The offset after reading n elements, and the elements. */
  function Skip(offset: nat, n: nat, size: nat): (r: nat)
    requires offset < size
    ensures r < size
  {
    if n == 0 then offset else Advance(Skip(offset, n - 1, size), size)
  }

  function Elements<T>(s: Ring<T>, n: nat): (d: seq<T>)
    requires s.Valid()
    ensures |d| == n
  {
    if n == 0 then [] else Elements(s, n - 1) + [s.cells[Skip(s.r, n - 1, |s.cells|)]]
  }

  function ReadBlock<T>(s: Ring<T>, n: nat): (t: Ring<T>)
    requires s.Valid()
    ensures t.Valid() && t.cells == s.cells
  {
    s.(r := Skip(s.r, n, |s.cells|))
  }

  // ---------------------------------------------------------------- history

  /** The buffer after, from offset `base` on, `input` has been written and `taken` elements of it read. */
  ghost predicate Holds<T(!new)>(s: Ring<T>, base: nat, input: seq<T>, taken: nat) {
    && s.Valid()
    && taken <= |input| <= taken + |s.cells|
    && s.w == (base + |input|) % |s.cells| && s.r == (base + taken) % |s.cells|
    && forall i :: taken <= i < |input| ==> s.cells[(base + i) % |s.cells|] == input[i]
  }

  lemma AdvanceIsNext(n: nat, size: nat)
    requires size > 0
    ensures Advance(n % size, size) == (n + 1) % size
  {
    var q, r := n / size, n % size;
    assert n == q * size + r;
    if r + 1 == size {
      Modulo(n + 1, q + 1, 0, size);
    } else {
      Modulo(n + 1, q, r + 1, size);
    }
  }

  lemma Modulo(n: nat, q: nat, r: nat, size: nat)
    requires size > 0 && r < size && n == q * size + r
    ensures n % size == r
  {
    var q', r' := n / size, n % size;
    assert (q - q') * size == r' - r;
    if q != q' {
      Magnitude(q - q', size);
    }
  }

  /** Elements less than a whole buffer apart lie in different cells. */
  lemma CellsApart(i: nat, j: nat, size: nat)
    requires size > 0 && i < j < i + size
    ensures i % size != j % size
  {
    if i % size == j % size {
      assert j - i == (j / size - i / size) * size;
      Magnitude(j / size - i / size, size);
    }
  }

  lemma WriteOneHolds<T(!new)>(s: Ring<T>, base: nat, input: seq<T>, taken: nat, x: T)
    requires Holds(s, base, input, taken) && |input| < taken + |s.cells|
    ensures Holds(s.(cells := s.cells[s.w := x], w := Advance(s.w, |s.cells|)), base, input + [x], taken)
  {
    var size := |s.cells|;
    AdvanceIsNext(base + |input|, size);
    var cells := s.cells[s.w := x];
    forall i | taken <= i < |input| + 1 ensures cells[(base + i) % size] == (input + [x])[i] {
      if i < |input| {
        CellsApart(base + i, base + |input|, size);
      }
    }
  }

  lemma {:induction false} WriteHolds<T(!new)>(s: Ring<T>, base: nat, input: seq<T>, taken: nat, src: seq<T>)
    requires Holds(s, base, input, taken) && |input| + |src| <= taken + |s.cells|
    ensures Holds(WriteBlock(s, src), base, input + src, taken)
    decreases |src|
  {
    if src == [] {
      assert input + src == input;
    } else {
      var n := |src| - 1;
      WriteHolds(s, base, input, taken, src[..n]);
      WriteOneHolds(WriteBlock(s, src[..n]), base, input + src[..n], taken, src[n]);
      assert input + src == input + src[..n] + [src[n]];
    }
  }

  lemma {:induction false} ReadHolds<T(!new)>(s: Ring<T>, base: nat, input: seq<T>, taken: nat, n: nat)
    requires Holds(s, base, input, taken) && taken + n <= |input|
    ensures Holds(ReadBlock(s, n), base, input, taken + n) && Elements(s, n) == input[taken..taken + n]
    decreases n
  {
    if n > 0 {
      ReadHolds(s, base, input, taken, n - 1);
      AdvanceIsNext(base + taken + n - 1, |s.cells|);
      assert input[taken..taken + n] == input[taken..taken + n - 1] + [input[taken + n - 1]];
    }
  }

  // ---------------------------------------------------------------- any sequence of blocks

  datatype Op<T> = Write(src: seq<T>) | Read(n: nat)

  /** Everything written by a list of operations, and how much they read. */
  function Input<T>(ops: seq<Op<T>>): seq<T> {
    if ops == [] then []
    else
      var e := ops[|ops| - 1];
      var before := Input(ops[..|ops| - 1]);
      if e.Write? then before + e.src else before
  }

  function Taken<T>(ops: seq<Op<T>>): nat {
    if ops == [] then 0
    else
      var e := ops[|ops| - 1];
      Taken(ops[..|ops| - 1]) + if e.Read? then e.n else 0
  }

  /** Never more outstanding than the buffer holds, never more read than is outstanding. */
  ghost predicate Disciplined<T(!new)>(ops: seq<Op<T>>, size: nat) {
    forall k :: 0 <= k <= |ops| ==> Taken(ops[..k]) <= |Input(ops[..k])| <= Taken(ops[..k]) + size
  }

  datatype Result<T> = Result(ring: Ring<T>, output: seq<T>)

  function Run<T>(s: Ring<T>, ops: seq<Op<T>>): (t: Result<T>)
    requires s.Valid()
    ensures t.ring.Valid() && |t.ring.cells| == |s.cells|
  {
    if ops == [] then Result(s, [])
    else
      var q := Run(s, ops[..|ops| - 1]);
      match ops[|ops| - 1]
      case Write(src) => Result(WriteBlock(q.ring, src), q.output)
      case Read(n) => Result(ReadBlock(q.ring, n), q.output + Elements(q.ring, n))
  }

  /** Whatever the blocks, what comes out is what went in, in order; the offsets stay inside the buffer. */
  lemma {:induction false} FirstInFirstOut<T(!new)>(s: Ring<T>, ops: seq<Op<T>>)
    requires s.Valid() && s.w == s.r && Disciplined(ops, |s.cells|)
    ensures Holds(Run(s, ops).ring, s.w, Input(ops), Taken(ops))
    ensures Run(s, ops).output == Input(ops)[..Taken(ops)]
    decreases |ops|
  {
    if ops == [] {
      Modulo(s.w, 0, s.w, |s.cells|);
    } else {
      var n := |ops| - 1;
      var a := ops[..n];
      DisciplinedSoFar(ops, |s.cells|);
      FirstInFirstOut(s, a);
      OneMoreBlock(s, ops);
    }
  }

  lemma DisciplinedSoFar<T(!new)>(ops: seq<Op<T>>, size: nat)
    requires ops != [] && Disciplined(ops, size)
    ensures Disciplined(ops[..|ops| - 1], size)
    ensures Taken(ops) <= |Input(ops)| <= Taken(ops) + size
  {
    var a := ops[..|ops| - 1];
    assert ops[..|ops|] == ops;
    assert forall k :: 0 <= k <= |a| ==> a[..k] == ops[..k];
  }

  lemma OneMoreBlock<T(!new)>(s: Ring<T>, ops: seq<Op<T>>)
    requires s.Valid() && ops != [] && Taken(ops) <= |Input(ops)| <= Taken(ops) + |s.cells|
    requires var a := ops[..|ops| - 1];
             Holds(Run(s, a).ring, s.w, Input(a), Taken(a)) && Run(s, a).output == Input(a)[..Taken(a)]
    ensures Holds(Run(s, ops).ring, s.w, Input(ops), Taken(ops))
    ensures Run(s, ops).output == Input(ops)[..Taken(ops)]
  {
    var a := ops[..|ops| - 1];
    match ops[|ops| - 1]
    case Write(src) => OneMoreWrite(s, a, ops, src);
    case Read(n) => OneMoreRead(s, a, ops, n);
  }

  lemma OneMoreWrite<T(!new)>(s: Ring<T>, a: seq<Op<T>>, ops: seq<Op<T>>, src: seq<T>)
    requires s.Valid() && ops != [] && a == ops[..|ops| - 1] && ops[|ops| - 1] == Write(src)
    requires Holds(Run(s, a).ring, s.w, Input(a), Taken(a)) && Run(s, a).output == Input(a)[..Taken(a)]
    requires |Input(ops)| <= Taken(ops) + |s.cells|
    ensures Holds(Run(s, ops).ring, s.w, Input(ops), Taken(ops))
    ensures Run(s, ops).output == Input(ops)[..Taken(ops)]
  {
    assert Input(ops) == Input(a) + src && Taken(ops) == Taken(a);
    WriteHolds(Run(s, a).ring, s.w, Input(a), Taken(a), src);
    assert (Input(a) + src)[..Taken(a)] == Input(a)[..Taken(a)];
  }

  lemma OneMoreRead<T(!new)>(s: Ring<T>, a: seq<Op<T>>, ops: seq<Op<T>>, n: nat)
    requires s.Valid() && ops != [] && a == ops[..|ops| - 1] && ops[|ops| - 1] == Read(n)
    requires Holds(Run(s, a).ring, s.w, Input(a), Taken(a)) && Run(s, a).output == Input(a)[..Taken(a)]
    requires Taken(ops) <= |Input(ops)|
    ensures Holds(Run(s, ops).ring, s.w, Input(ops), Taken(ops))
    ensures Run(s, ops).output == Input(ops)[..Taken(ops)]
  {
    var input, t, q := Input(a), Taken(a), Run(s, a);
    assert Input(ops) == input && Taken(ops) == t + n;
    assert Run(s, ops).ring == ReadBlock(q.ring, n) && Run(s, ops).output == q.output + Elements(q.ring, n);
    ReadHolds(q.ring, s.w, input, t, n);
    SliceJoins(input, t, n);
  }

  lemma SliceJoins<T>(s: seq<T>, i: nat, n: nat)
    requires i + n <= |s|
    ensures s[..i] + s[i..i + n] == s[..i + n]
  {
  }

  /** Cutting the same data into other blocks makes no difference to what has been read. */
  lemma SplitInvariant<T(!new)>(s: Ring<T>, ops: seq<Op<T>>, others: seq<Op<T>>)
    requires s.Valid() && s.w == s.r
    requires Disciplined(ops, |s.cells|) && Disciplined(others, |s.cells|)
    requires Input(ops) == Input(others) && Taken(ops) == Taken(others)
    ensures Run(s, ops).output == Run(s, others).output
  {
    FirstInFirstOut(s, ops);
    FirstInFirstOut(s, others);
  }

  // ---------------------------------------------------------------- the loops

  /** The largest buffer the uint16_t write offset can address. */
  const MAX_SIZE := 0x1_0000

  class Buffer<T> {
    const cells: array<T>
    var writeOffset: nat
    var readOffset: nat

    ghost predicate Valid()
      reads this, cells
    {
      State().Valid() && cells.Length <= MAX_SIZE
    }

    ghost function State(): Ring<T>
      reads this, cells
    {
      Ring(cells[..], writeOffset, readOffset)
    }

    constructor (size: nat, x: T)
      requires 0 < size <= MAX_SIZE
      ensures Valid() && fresh(cells) && cells.Length == size && writeOffset == readOffset == 0
    {
      cells := new T[size](_ => x);
      writeOffset, readOffset := 0, 0;
    }

    /** `arm_circularWrite_q15` with bufferInc and srcInc 1. */
    method CircularWrite(src: seq<T>)
      requires Valid()
      modifies this`writeOffset, cells
      ensures Valid() && State() == WriteBlock(old(State()), src)
    {
      var wOffset: nat := writeOffset;
      var i: nat, p: nat := |src|, 0;
      while i > 0
        invariant i + p == |src| && wOffset < cells.Length
        invariant Ring(cells[..], wOffset, readOffset) == WriteBlock(old(State()), src[..p])
        modifies cells
      {
        assert src[..p + 1][..p] == src[..p];
        cells[wOffset] := src[p];
        p := p + 1;
        wOffset := wOffset + 1;
        if wOffset >= cells.Length {
          wOffset := wOffset - cells.Length;
        }
        i := i - 1;
      }
      assert src[..p] == src;
      writeOffset := wOffset % MAX_SIZE;
    }

    /** `arm_circularRead_q15` with bufferInc and dstInc 1, into a destination that wraps as well. */
    method CircularRead(dst: array<T>, at: nat, n: nat)
      requires Valid() && dst != cells && at < dst.Length
      modifies this`readOffset, dst
      ensures Valid() && State() == ReadBlock(old(State()), n)
      ensures dst[..] == PlaceAll(old(dst[..]), at, Elements(old(State()), n))
    {
      var rOffset: nat := readOffset;
      var i: nat, p: nat := n, at;
      ghost var k: nat, all := 0, Elements(State(), n);
      while i > 0
        invariant i + k == n && p == Skip(at, k, dst.Length)
        invariant rOffset == Skip(readOffset, k, cells.Length)
        invariant dst[..] == PlaceAll(old(dst[..]), at, all[..k])
        modifies dst
      {
        ElementAt(State(), n, k);
        assert all[..k + 1][..k] == all[..k];
        dst[p] := cells[rOffset];
        p := p + 1;
        if p == dst.Length {
          p := 0;
        }
        rOffset := rOffset + 1;
        if rOffset >= cells.Length {
          rOffset := rOffset - cells.Length;
        }
        i, k := i - 1, k + 1;
      }
      assert all[..n] == all;
      readOffset := rOffset;
    }
  }

  /** The elements stored one after the other from position `at` on, around the end of dst. */
  function PlaceAll<T>(dst: seq<T>, at: nat, elements: seq<T>): (r: seq<T>)
    requires at < |dst|
    ensures |r| == |dst|
  {
    if elements == [] then dst
    else
      var n := |elements| - 1;
      PlaceAll(dst, at, elements[..n])[Skip(at, n, |dst|) := elements[n]]
  }

  /**
    The last destination's worth of elements is in place, whole blocks not longer than the destination
    included, and no cell the block does not reach is touched.
   */
  lemma {:induction false} Placed<T>(dst: seq<T>, at: nat, elements: seq<T>)
    requires at < |dst|
    ensures var r := PlaceAll(dst, at, elements);
            && (forall k :: 0 <= k < |elements| && |elements| - |dst| <= k ==> r[Skip(at, k, |dst|)] == elements[k])
            && (forall c :: 0 <= c < |dst| && !Reaches(at, |elements|, |dst|, c) ==> r[c] == dst[c])
    decreases |elements|
  {
    if elements != [] {
      var n := |elements| - 1;
      Placed(dst, at, elements[..n]);
      forall k | 0 <= k < n && n - |dst| < k ensures Skip(at, k, |dst|) != Skip(at, n, |dst|) {
        SkipsApart(at, k, n, |dst|);
      }
      forall c | 0 <= c < |dst| && !Reaches(at, n + 1, |dst|, c) ensures PlaceAll(dst, at, elements)[c] == dst[c] {
        ReachesOneMore(at, n, |dst|, c);
      }
    }
  }

  lemma ReachesOneMore(at: nat, n: nat, size: nat, c: nat)
    requires at < size
    ensures Reaches(at, n + 1, size, c) <==> Reaches(at, n, size, c) || Skip(at, n, size) == c
  {
  }

  /** One of n elements placed from `at` on comes to lie in cell c. */
  ghost predicate Reaches(at: nat, n: nat, size: nat, c: nat)
    requires at < size
  {
    exists k :: 0 <= k < n && Skip(at, k, size) == c
  }

  lemma {:induction false} ElementAt<T>(s: Ring<T>, n: nat, k: nat)
    requires s.Valid() && k < n
    ensures Elements(s, n)[k] == s.cells[Skip(s.r, k, |s.cells|)]
    decreases n
  {
    if k < n - 1 {
      ElementAt(s, n - 1, k);
    }
  }

  lemma {:induction false} SkipIsModulo(at: nat, k: nat, size: nat)
    requires at < size
    ensures Skip(at, k, size) == (at + k) % size
    decreases k
  {
    if k > 0 {
      SkipIsModulo(at, k - 1, size);
      AdvanceIsNext(at + k - 1, size);
    }
  }

  /** Positions less than a whole destination apart are different cells. */
  lemma SkipsApart(at: nat, j: nat, k: nat, size: nat)
    requires at < size && j < k < j + size
    ensures Skip(at, j, size) != Skip(at, k, size)
  {
    SkipIsModulo(at, j, size);
    SkipIsModulo(at, k, size);
    CellsApart(at + j, at + k, size);
  }
}
