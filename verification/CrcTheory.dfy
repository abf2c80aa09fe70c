/** Why slicing by four works: an update by a linear table, four bytes at a time. Everything
    here holds of any words with an exclusive or; the width plays no part. */
module CrcTheory {

  // An exclusive or, its zero, and what a word keeps of itself when its low byte is shifted
  // out: the bytes above, and the low byte.
  datatype Ops<!W(!new)> = Ops(xor: (W, W) -> W, zero: W, high: W -> W, low: W -> W)

  // ----- The laws, each at a point so that it is used only where it is named -----

  predicate AssociatesAt<W(==, !new)>(o: Ops<W>, a: W, b: W, c: W) {
    o.xor(o.xor(a, b), c) == o.xor(a, o.xor(b, c))
  }

  predicate CommutesAt<W(==, !new)>(o: Ops<W>, a: W, b: W) {
    o.xor(a, b) == o.xor(b, a)
  }

  predicate CancelsAt<W(==, !new)>(o: Ops<W>, a: W) {
    o.xor(a, a) == o.zero && o.xor(a, o.zero) == a
  }

  predicate LinearAt<W(==, !new)>(o: Ops<W>, f: W -> W, a: W, b: W) {
    f(o.xor(a, b)) == o.xor(f(a), f(b))
  }

  ghost predicate Linear<W(!new)>(o: Ops<W>, f: W -> W) {
    forall a, b :: LinearAt(o, f, a, b)
  }

  ghost predicate Lawful<W(!new)>(o: Ops<W>) {
    && (forall a, b, c :: AssociatesAt(o, a, b, c))
    && (forall a, b :: CommutesAt(o, a, b))
    && (forall a :: CancelsAt(o, a))
    && Linear(o, o.high)
    && Linear(o, o.low)
  }

  lemma {:induction false} Interchange<W(!new)>(o: Ops<W>, a: W, b: W, c: W, d: W)
    requires Lawful(o)
    ensures o.xor(o.xor(a, b), o.xor(c, d)) == o.xor(o.xor(a, c), o.xor(b, d))
  {
    assert AssociatesAt(o, a, b, o.xor(c, d));
    assert AssociatesAt(o, b, c, d);
    assert CommutesAt(o, b, c);
    assert AssociatesAt(o, c, b, d);
    assert AssociatesAt(o, a, c, o.xor(b, d));
  }

  // ----- Linear maps -----

  lemma {:induction false} LinearKeepsZero<W(!new)>(o: Ops<W>, f: W -> W)
    requires Lawful(o) && Linear(o, f)
    ensures f(o.zero) == o.zero
  {
    assert CancelsAt(o, o.zero);
    assert LinearAt(o, f, o.zero, o.zero);
    assert CancelsAt(o, f(o.zero));
  }

  function Sum<W(!new)>(o: Ops<W>, f: W -> W, g: W -> W): W -> W {
    x => o.xor(f(x), g(x))
  }

  lemma {:induction false} SumIsLinear<W(!new)>(o: Ops<W>, f: W -> W, g: W -> W)
    requires Lawful(o) && Linear(o, f) && Linear(o, g)
    ensures Linear(o, Sum(o, f, g))
  {
    SumIsLinearEverywhere(o, f, g);
  }

  lemma {:induction false} SumIsLinearEverywhere<W(!new)>(o: Ops<W>, f: W -> W, g: W -> W)
    requires Lawful(o) && Linear(o, f) && Linear(o, g)
    ensures forall a, b :: LinearAt(o, Sum(o, f, g), a, b)
  {
    forall a, b ensures LinearAt(o, Sum(o, f, g), a, b) {
      SumIsLinearThere(o, f, g, a, b);
    }
  }

  lemma {:induction false} SumIsLinearThere<W(!new)>(o: Ops<W>, f: W -> W, g: W -> W, a: W, b: W)
    requires Lawful(o) && Linear(o, f) && Linear(o, g)
    ensures LinearAt(o, Sum(o, f, g), a, b)
  {
    assert LinearAt(o, f, a, b);
    assert LinearAt(o, g, a, b);
    SumIsLinearAt(o, f, g, a, b);
  }

  lemma {:induction false} SumIsLinearAt<W(!new)>(o: Ops<W>, f: W -> W, g: W -> W, a: W, b: W)
    requires Lawful(o) && LinearAt(o, f, a, b) && LinearAt(o, g, a, b)
    ensures LinearAt(o, Sum(o, f, g), a, b)
  {
    Interchange(o, f(a), f(b), g(a), g(b));
  }

  function Times<W>(f: W -> W, n: nat, x: W): W {
    if n == 0 then x else Times(f, n - 1, f(x))
  }

  lemma {:induction false} TimesIsLinear<W(!new)>(o: Ops<W>, f: W -> W, n: nat, a: W, b: W)
    requires Linear(o, f)
    ensures Times(f, n, o.xor(a, b)) == o.xor(Times(f, n, a), Times(f, n, b))
  {
    if n > 0 {
      assert LinearAt(o, f, a, b);
      TimesIsLinear(o, f, n - 1, f(a), f(b));
    }
  }

  lemma {:induction false} TimesAdd<W>(f: W -> W, m: nat, n: nat, x: W)
    ensures Times(f, m + n, x) == Times(f, n, Times(f, m, x))
  {
    if m > 0 {
      TimesAdd(f, m - 1, n, f(x));
    }
  }

  function Repeated<W(!new)>(f: W -> W, n: nat): W -> W {
    x => Times(f, n, x)
  }

  lemma {:induction false} RepeatedIsLinear<W(!new)>(o: Ops<W>, f: W -> W, n: nat)
    requires Linear(o, f)
    ensures forall a, b :: LinearAt(o, Repeated(f, n), a, b)
  {
    forall a, b ensures LinearAt(o, Repeated(f, n), a, b) {
      TimesIsLinear(o, f, n, a, b);
    }
  }

  function Conjugate<W(!new)>(g: W -> W, f: W -> W): W -> W {
    x => g(f(g(x)))
  }

  lemma {:induction false} ConjugateIsLinear<W(!new)>(o: Ops<W>, g: W -> W, f: W -> W)
    requires Linear(o, g) && Linear(o, f)
    ensures forall a, b :: LinearAt(o, Conjugate(g, f), a, b)
  {
    forall a, b ensures LinearAt(o, Conjugate(g, f), a, b) {
      ConjugateIsLinearAt(o, g, f, a, b);
    }
  }

  lemma {:induction false} ConjugateIsLinearAt<W(!new)>(o: Ops<W>, g: W -> W, f: W -> W, a: W, b: W)
    requires Linear(o, g) && Linear(o, f)
    ensures LinearAt(o, Conjugate(g, f), a, b)
  {
    assert LinearAt(o, g, a, b);
    assert LinearAt(o, f, g(a), g(b));
    assert LinearAt(o, g, f(g(a)), f(g(b)));
  }

  // ----- Table-driven steps -----

  /** The register after a zero byte: the byte shifted out selects what is added. */
  function Next<W(!new)>(o: Ops<W>, t: W -> W, c: W): W {
    o.xor(o.high(c), t(o.low(c)))
  }

  function Nexts<W(!new)>(o: Ops<W>, t: W -> W, n: nat, c: W): W {
    if n == 0 then c else Nexts(o, t, n - 1, Next(o, t, c))
  }

  /** The big table, by slices: slice 0 is the byte table, and each further slice is the
      zero-byte step of the one before. */
  function Slice<W(!new)>(o: Ops<W>, t: W -> W, k: nat, i: W): W {
    if k == 0 then t(i) else Next(o, t, Slice(o, t, k - 1, i))
  }

  lemma {:induction false} NextIsLinear<W(!new)>(o: Ops<W>, t: W -> W, a: W, b: W)
    requires Lawful(o) && Linear(o, t)
    ensures Next(o, t, o.xor(a, b)) == o.xor(Next(o, t, a), Next(o, t, b))
  {
    assert LinearAt(o, o.high, a, b);
    assert LinearAt(o, o.low, a, b);
    assert LinearAt(o, t, o.low(a), o.low(b));
    Interchange(o, o.high(a), o.high(b), t(o.low(a)), t(o.low(b)));
  }

  lemma {:induction false} NextsAreLinear<W(!new)>(o: Ops<W>, t: W -> W, n: nat, a: W, b: W)
    requires Lawful(o) && Linear(o, t)
    ensures Nexts(o, t, n, o.xor(a, b)) == o.xor(Nexts(o, t, n, a), Nexts(o, t, n, b))
  {
    if n > 0 {
      NextIsLinear(o, t, a, b);
      NextsAreLinear(o, t, n - 1, Next(o, t, a), Next(o, t, b));
    }
  }

  lemma {:induction false} NextsAdd<W(!new)>(o: Ops<W>, t: W -> W, m: nat, n: nat, c: W)
    ensures Nexts(o, t, m + n, c) == Nexts(o, t, n, Nexts(o, t, m, c))
  {
    if m > 0 {
      NextsAdd(o, t, m - 1, n, Next(o, t, c));
    }
  }

  lemma {:induction false} SliceIsNexts<W(!new)>(o: Ops<W>, t: W -> W, k: nat, i: W)
    ensures Slice(o, t, k, i) == Nexts(o, t, k, t(i))
  {
    if k > 0 {
      SliceIsNexts(o, t, k - 1, i);
      NextsAdd(o, t, k - 1, 1, t(i));
      assert Nexts(o, t, 1, Nexts(o, t, k - 1, t(i))) == Next(o, t, Nexts(o, t, k - 1, t(i)));
    }
  }

  /** A byte that stands k bytes above the bottom of the register reaches the bottom after k
      steps, and its table entry is what the next step makes of it. */
  predicate Placed<W(==, !new)>(o: Ops<W>, t: W -> W, k: nat, byte: W, word: W) {
    Nexts(o, t, k, word) == byte && Next(o, t, byte) == t(byte)
  }

  lemma {:induction false} PlacedByte<W(!new)>(o: Ops<W>, t: W -> W, k: nat, byte: W, word: W)
    requires k < 4 && Placed(o, t, k, byte, word)
    ensures Nexts(o, t, 4, word) == Slice(o, t, 3 - k, byte)
  {
    NextsAdd(o, t, k, 4 - k, word);
    SliceIsNexts(o, t, 3 - k, byte);
  }

  /** Slicing by four: four steps of a register are one lookup for each of its bytes, each in
      the slice for its place. */
  lemma {:induction false} FourSteps<W(!new)>(o: Ops<W>, t: W -> W, b0: W, b1: W, b2: W, b3: W, w1: W, w2: W, w3: W)
    requires Lawful(o) && Linear(o, t)
    requires Placed(o, t, 0, b0, b0) && Placed(o, t, 1, b1, w1)
    requires Placed(o, t, 2, b2, w2) && Placed(o, t, 3, b3, w3)
    ensures Nexts(o, t, 4, o.xor(o.xor(o.xor(b0, w1), w2), w3))
         == o.xor(o.xor(o.xor(Slice(o, t, 3, b0), Slice(o, t, 2, b1)), Slice(o, t, 1, b2)), Slice(o, t, 0, b3))
  {
    NextsAreLinear(o, t, 4, o.xor(o.xor(b0, w1), w2), w3);
    NextsAreLinear(o, t, 4, o.xor(b0, w1), w2);
    NextsAreLinear(o, t, 4, b0, w1);
    PlacedByte(o, t, 0, b0, b0);
    PlacedByte(o, t, 1, b1, w1);
    PlacedByte(o, t, 2, b2, w2);
    PlacedByte(o, t, 3, b3, w3);
  }

  /** A word that meets the register early has the effect of its byte met later. */
  lemma {:induction false} MeetLater<W(!new)>(o: Ops<W>, t: W -> W, k: nat, c: W, byte: W, word: W)
    requires Lawful(o) && Linear(o, t) && Nexts(o, t, k, word) == byte
    ensures Nexts(o, t, k, o.xor(c, word)) == o.xor(Nexts(o, t, k, c), byte)
  {
    NextsAreLinear(o, t, k, c, word);
  }

  /** Four bytes fed one at a time are one word fed at once. */
  lemma {:induction false} FeedFour<W(!new)>(o: Ops<W>, t: W -> W, c: W, b0: W, b1: W, b2: W, b3: W, w1: W, w2: W, w3: W)
    requires Lawful(o) && Linear(o, t)
    requires Nexts(o, t, 1, w1) == b1 && Nexts(o, t, 2, w2) == b2 && Nexts(o, t, 3, w3) == b3
    ensures
      var y1 := o.xor(Next(o, t, o.xor(c, b0)), b1);
      var y2 := o.xor(Next(o, t, y1), b2);
      var y3 := o.xor(Next(o, t, y2), b3);
      Next(o, t, y3) == Nexts(o, t, 4, o.xor(o.xor(o.xor(o.xor(c, b0), w1), w2), w3))
  {
    var x0 := o.xor(c, b0);
    var x1 := o.xor(x0, w1);
    var x2 := o.xor(x1, w2);
    var x3 := o.xor(x2, w3);
    MeetLater(o, t, 1, x0, b1, w1);
    MeetLater(o, t, 2, x1, b2, w2);
    MeetLater(o, t, 3, x2, b3, w3);
    OneMore(o, t, 0, x0);
    OneMore(o, t, 1, x1);
    OneMore(o, t, 2, x2);
    OneMore(o, t, 3, x3);
  }

  lemma {:induction false} OneMore<W(!new)>(o: Ops<W>, t: W -> W, k: nat, c: W)
    ensures Nexts(o, t, k + 1, c) == Next(o, t, Nexts(o, t, k, c))
  {
    NextsAdd(o, t, k, 1, c);
    assert Nexts(o, t, 1, Nexts(o, t, k, c)) == Next(o, t, Nexts(o, t, k, c));
  }

  // ----- Messages -----

  /** A register fed a message by table, one byte at a time. */
  function Feed<W(!new)>(o: Ops<W>, t: W -> W, c: W, bytes: seq<W>): W
    decreases bytes
  {
    if |bytes| == 0 then c else Feed(o, t, Next(o, t, o.xor(c, bytes[0])), bytes[1..])
  }

  lemma {:induction false} FeedAppend<W(!new)>(o: Ops<W>, t: W -> W, c: W, a: seq<W>, b: seq<W>)
    ensures Feed(o, t, c, a + b) == Feed(o, t, Feed(o, t, c, a), b)
    decreases a
  {
    if |a| == 0 {
      assert a + b == b;
    } else {
      assert (a + b)[1..] == a[1..] + b;
      FeedAppend(o, t, Next(o, t, o.xor(c, a[0])), a[1..], b);
    }
  }

  lemma {:induction false} FeedOne<W(!new)>(o: Ops<W>, t: W -> W, c: W, bytes: seq<W>, k: nat, c': W)
    requires k < |bytes| && c' == Next(o, t, o.xor(c, bytes[k]))
    ensures Feed(o, t, c, bytes[k..]) == Feed(o, t, c', bytes[k + 1..])
  {
    assert bytes[k..][1..] == bytes[k + 1..];
  }

  /** Four bytes of a message, fed one by one, are their word fed at once. */
  lemma {:induction false} FeedFourBytes<W(!new)>(o: Ops<W>, t: W -> W, c: W, bytes: seq<W>, k: nat,
                                                  w1: W, w2: W, w3: W, all: W)
    requires Lawful(o) && Linear(o, t)
    requires k + 4 <= |bytes|
    requires Nexts(o, t, 1, w1) == bytes[k + 1] && Nexts(o, t, 2, w2) == bytes[k + 2] && Nexts(o, t, 3, w3) == bytes[k + 3]
    requires all == o.xor(o.xor(o.xor(o.xor(c, bytes[k]), w1), w2), w3)
    ensures Feed(o, t, c, bytes[k..]) == Feed(o, t, Nexts(o, t, 4, all), bytes[k + 4..])
  {
    FeedFour(o, t, c, bytes[k], bytes[k + 1], bytes[k + 2], bytes[k + 3], w1, w2, w3);
    var c1 := Next(o, t, o.xor(c, bytes[k]));
    var c2 := Next(o, t, o.xor(c1, bytes[k + 1]));
    var c3 := Next(o, t, o.xor(c2, bytes[k + 2]));
    FeedOne(o, t, c, bytes, k, c1);
    FeedOne(o, t, c1, bytes, k + 1, c2);
    FeedOne(o, t, c2, bytes, k + 2, c3);
    FeedOne(o, t, c3, bytes, k + 3, Nexts(o, t, 4, all));
  }
}
