/** Reversal of a mixed list of strings and numbers that keeps every "special" element
    (a string with a character outside `[a-zA-Z0-9]`) at its index and fills the other
    slots with the remaining elements in reverse order. */
module SpecialReverse {
  import opened Seqs

  // ---------------------------------------------------------------------------------
  // Filling the free slots of a list from a pool, for any test of which slots are fixed.

  /** The elements of `s` that are not fixed, in order. */
  function Free<T>(fixed: T -> bool, s: seq<T>): (r: seq<T>)
    ensures |r| <= |s|
  {
    if s == [] then [] else (if fixed(s[0]) then [] else [s[0]]) + Free(fixed, s[1..])
  }

  /** Walk `s` left to right; a fixed element stays, every other slot takes the next
      element of `pool`. */
  function Fill<T>(fixed: T -> bool, s: seq<T>, pool: seq<T>): (r: seq<T>)
    requires |pool| == |Free(fixed, s)|
    ensures |r| == |s|
  {
    if s == [] then []
    else if fixed(s[0]) then [s[0]] + Fill(fixed, s[1..], pool)
    else [pool[0]] + Fill(fixed, s[1..], pool[1..])
  }

  lemma {:induction false} FreeSnoc<T>(fixed: T -> bool, s: seq<T>, e: T)
    ensures Free(fixed, s + [e]) == Free(fixed, s) + (if fixed(e) then [] else [e])
  {
    FreeAppend(fixed, s, [e]);
    assert [e][1..] == [];
  }

  /** `Free` distributes over concatenation. */
  lemma {:induction false} FreeAppend<T>(fixed: T -> bool, a: seq<T>, b: seq<T>)
    ensures Free(fixed, a + b) == Free(fixed, a) + Free(fixed, b)
  {
    if a == [] {
      assert a + b == b;
    } else {
      assert (a + b)[1..] == a[1..] + b;
      FreeAppend(fixed, a[1..], b);
    }
  }
  /** Filling a concatenation fills each part from its own share of the pool. */
  lemma {:induction false} FillAppend<T>(fixed: T -> bool, a: seq<T>, b: seq<T>, p: seq<T>, q: seq<T>)
    requires |p| == |Free(fixed, a)| && |q| == |Free(fixed, b)|
    ensures |p + q| == |Free(fixed, a + b)|
    ensures Fill(fixed, a + b, p + q) == Fill(fixed, a, p) + Fill(fixed, b, q)
    decreases |a|
  {
    FreeAppend(fixed, a, b);
    if a == [] {
      assert a + b == b && p + q == q;
    } else if fixed(a[0]) {
      FreeAppend(fixed, a[1..], b);
      FillAppend(fixed, a[1..], b, p, q);
      FillHeadFixed(fixed, a, b, p, q);
    } else {
      FreeAppend(fixed, a[1..], b);
      FillAppend(fixed, a[1..], b, p[1..], q);
      FillHeadFree(fixed, a, b, p, q);
    }
  }
  lemma {:induction false} FillHeadFixed<T>(fixed: T -> bool, a: seq<T>, b: seq<T>, p: seq<T>, q: seq<T>)
    requires a != [] && fixed(a[0])
    requires |p + q| == |Free(fixed, a[1..] + b)|
    requires |p + q| == |Free(fixed, a + b)|
    requires |p| == |Free(fixed, a[1..])|
    ensures Fill(fixed, a + b, p + q) == [a[0]] + Fill(fixed, a[1..] + b, p + q)
    ensures Fill(fixed, a, p) == [a[0]] + Fill(fixed, a[1..], p)
  {
    assert (a + b)[0] == a[0] && (a + b)[1..] == a[1..] + b;
  }
  lemma {:induction false} FillHeadFree<T>(fixed: T -> bool, a: seq<T>, b: seq<T>, p: seq<T>, q: seq<T>)
    requires a != [] && !fixed(a[0]) && p != []
    requires |p[1..] + q| == |Free(fixed, a[1..] + b)|
    requires |p + q| == |Free(fixed, a + b)|
    requires |p| - 1 == |Free(fixed, a[1..])|
    ensures Fill(fixed, a + b, p + q) == [p[0]] + Fill(fixed, a[1..] + b, p[1..] + q)
    ensures Fill(fixed, a, p) == [p[0]] + Fill(fixed, a[1..], p[1..])
  {
    assert (a + b)[0] == a[0] && (a + b)[1..] == a[1..] + b;
    assert (p + q)[0] == p[0] && (p + q)[1..] == p[1..] + q;
  }

  /** Slot `k` of `Fill` holds `s[k]` when it is fixed, otherwise the pool element whose
      index is the number of free elements before `k`. */
  lemma {:induction false} FillAt<T>(fixed: T -> bool, s: seq<T>, pool: seq<T>, k: nat)
    requires |pool| == |Free(fixed, s)|
    requires k < |s|
    ensures |Free(fixed, s[..k])| < |pool| || fixed(s[k])
    ensures Fill(fixed, s, pool)[k] ==
      if fixed(s[k]) then s[k] else pool[|Free(fixed, s[..k])|]
  {
    FillHead(fixed, s, pool);
    if k == 0 {
      assert s[..0] == [];
    } else {
      FreeTakeHead(fixed, s, k);
      if fixed(s[0]) {
        FillAt(fixed, s[1..], pool, k - 1);
      } else {
        FillAt(fixed, s[1..], pool[1..], k - 1);
      }
    }
  }

  /** The free elements of a non-empty prefix: the head's share, then the tail's prefix. */
  lemma {:induction false} FreeTakeHead<T>(fixed: T -> bool, s: seq<T>, k: nat)
    requires 0 < k <= |s|
    ensures Free(fixed, s[..k]) == (if fixed(s[0]) then [] else [s[0]]) + Free(fixed, s[1..][..k - 1])
  {
    assert s[..k][0] == s[0];
    assert s[..k][1..] == s[1..][..k - 1];
  }

  /** One step of `Fill`: the head slot, then the tail filled from the rest of the pool. */
  lemma {:induction false} FillHead<T>(fixed: T -> bool, s: seq<T>, pool: seq<T>)
    requires s != [] && |pool| == |Free(fixed, s)|
    ensures fixed(s[0]) ==>
      |pool| == |Free(fixed, s[1..])| && Fill(fixed, s, pool) == [s[0]] + Fill(fixed, s[1..], pool)
    ensures !fixed(s[0]) ==>
      pool != [] && |pool[1..]| == |Free(fixed, s[1..])| &&
      Fill(fixed, s, pool) == [pool[0]] + Fill(fixed, s[1..], pool[1..])
  {
  }

  /** Reading the free slots of `Fill(fixed, s, pool)` gives back `pool`, provided the pool
      holds no fixed element. */
  lemma {:induction false} FillFree<T>(fixed: T -> bool, s: seq<T>, pool: seq<T>)
    requires |pool| == |Free(fixed, s)|
    requires forall e :: e in pool ==> !fixed(e)
    ensures Free(fixed, Fill(fixed, s, pool)) == pool
  {
    if s != [] {
      var r := Fill(fixed, s, pool);
      if fixed(s[0]) {
        FillFree(fixed, s[1..], pool);
        assert r[1..] == Fill(fixed, s[1..], pool);
      } else {
        assert pool[0] in pool;
        assert forall e :: e in pool[1..] ==> e in pool;
        FillFree(fixed, s[1..], pool[1..]);
        assert r[1..] == Fill(fixed, s[1..], pool[1..]);
        assert pool == [pool[0]] + pool[1..];
      }
    }
  }

  /** `Fill` keeps the fixed elements and spends the pool. */
  lemma {:induction false} FillMultiset<T>(fixed: T -> bool, s: seq<T>, pool: seq<T>)
    requires |pool| == |Free(fixed, s)|
    ensures multiset(Fill(fixed, s, pool)) == multiset(Filter(fixed, s)) + multiset(pool)
  {
    if s != [] {
      if fixed(s[0]) {
        FillMultiset(fixed, s[1..], pool);
        FillMultisetFixed(fixed, s, pool);
      } else {
        FillMultiset(fixed, s[1..], pool[1..]);
        FillMultisetFree(fixed, s, pool);
      }
    }
  }

  lemma {:induction false} FillMultisetFixed<T>(fixed: T -> bool, s: seq<T>, pool: seq<T>)
    requires s != [] && fixed(s[0]) && |pool| == |Free(fixed, s)|
    requires multiset(Fill(fixed, s[1..], pool)) == multiset(Filter(fixed, s[1..])) + multiset(pool)
    ensures multiset(Fill(fixed, s, pool)) == multiset(Filter(fixed, s)) + multiset(pool)
  {
    assert Fill(fixed, s, pool) == [s[0]] + Fill(fixed, s[1..], pool);
    assert Filter(fixed, s) == [s[0]] + Filter(fixed, s[1..]);
  }

  lemma {:induction false} FillMultisetFree<T>(fixed: T -> bool, s: seq<T>, pool: seq<T>)
    requires s != [] && !fixed(s[0]) && |pool| == |Free(fixed, s)|
    requires multiset(Fill(fixed, s[1..], pool[1..])) == multiset(Filter(fixed, s[1..])) + multiset(pool[1..])
    ensures multiset(Fill(fixed, s, pool)) == multiset(Filter(fixed, s)) + multiset(pool)
  {
    assert Fill(fixed, s, pool) == [pool[0]] + Fill(fixed, s[1..], pool[1..]);
    assert Filter(fixed, s) == Filter(fixed, s[1..]);
    assert pool == [pool[0]] + pool[1..];
  }

  /** The fixed and the free elements together are the whole list. */
  lemma {:induction false} FixedFreeMultiset<T>(fixed: T -> bool, s: seq<T>)
    ensures multiset(s) == multiset(Filter(fixed, s)) + multiset(Free(fixed, s))
  {
    if s != [] {
      FixedFreeMultiset(fixed, s[1..]);
      assert s == [s[0]] + s[1..];
    }
  }

  /** If `u` has the same fixed elements at the same places as `s`, refilling `u` with the
      free elements of `s` in their own order gives back `s`. */
  lemma {:induction false} FillRestores<T>(fixed: T -> bool, u: seq<T>, s: seq<T>)
    requires |u| == |s|
    requires forall k :: 0 <= k < |s| ==> (fixed(u[k]) <==> fixed(s[k]))
    requires forall k :: 0 <= k < |s| && fixed(s[k]) ==> u[k] == s[k]
    requires |Free(fixed, u)| == |Free(fixed, s)|
    ensures Fill(fixed, u, Free(fixed, s)) == s
  {
    if s != [] {
      var u', s' := u[1..], s[1..];
      forall k | 0 <= k < |s'|
        ensures (fixed(u'[k]) <==> fixed(s'[k]))
        ensures fixed(s'[k]) ==> u'[k] == s'[k]
      {
        assert u'[k] == u[k + 1] && s'[k] == s[k + 1];
      }
      assert fixed(u[0]) <==> fixed(s[0]);
      FillRestores(fixed, u', s');
      if fixed(s[0]) {
        assert Free(fixed, s) == Free(fixed, s');
        assert Fill(fixed, u, Free(fixed, s)) == [u[0]] + Fill(fixed, u', Free(fixed, s'));
      } else {
        assert Free(fixed, s)[1..] == Free(fixed, s');
        assert Fill(fixed, u, Free(fixed, s)) == [s[0]] + Fill(fixed, u', Free(fixed, s'));
      }
      assert s == [s[0]] + s';
    }
  }

  // ---------------------------------------------------------------------------------
  // The reversal itself.

  /** An element of the `(string | number)[]` input. Numbers are modelled as integers. */
  datatype Element = Str(s: string) | Num(n: int)

  predicate IsAlphanumeric(c: char)
  {
    'a' <= c <= 'z' || 'A' <= c <= 'Z' || '0' <= c <= '9'
  }

  /** The regular expression `/[^a-zA-Z0-9]/` finds a match in `s`. */
  predicate HasNonAlphanumeric(s: string)
  {
    s != [] && (!IsAlphanumeric(s[0]) || HasNonAlphanumeric(s[1..]))
  }

  /** The recursive test finds a match exactly when some character is outside the class. */
  lemma {:induction false} HasNonAlphanumericIff(s: string)
    ensures HasNonAlphanumeric(s) <==> exists k :: 0 <= k < |s| && !IsAlphanumeric(s[k])
  {
    if s != [] {
      HasNonAlphanumericIff(s[1..]);
      if exists k :: 0 <= k < |s| && !IsAlphanumeric(s[k]) {
        var k :| 0 <= k < |s| && !IsAlphanumeric(s[k]);
        if k > 0 { assert s[1..][k - 1] == s[k]; }
      }
      if exists k :: 0 <= k < |s| - 1 && !IsAlphanumeric(s[1..][k]) {
        var k :| 0 <= k < |s| - 1 && !IsAlphanumeric(s[1..][k]);
        assert s[k + 1] == s[1..][k];
      }
    }
  }

  /** `isSpecialCharacter`: only strings can be special; numbers never are. */
  predicate IsSpecialCharacter(e: Element)
  {
    e.Str? && HasNonAlphanumeric(e.s)
  }

  /** The non-special elements in input order (the source's `filter`). */
  function NonSpecials(s: seq<Element>): seq<Element>
  {
    Free(IsSpecialCharacter, s)
  }

  /** The specification of `reverseArrayKeepingSpecialChars`. */
  function ReverseKeepingSpecial(s: seq<Element>): seq<Element>
  {
    Fill(IsSpecialCharacter, s, Reverse(NonSpecials(s)))
  }

  lemma {:induction false} PoolNotSpecial(s: seq<Element>)
    ensures forall e :: e in Reverse(NonSpecials(s)) ==> !IsSpecialCharacter(e)
  {
    ReverseMultiset(NonSpecials(s));
    forall e | e in Reverse(NonSpecials(s)) ensures !IsSpecialCharacter(e) {
      assert e in multiset(Reverse(NonSpecials(s)));
      FreeNotFixed(IsSpecialCharacter, s, e);
    }
  }

  lemma {:induction false} FreeNotFixed<T>(fixed: T -> bool, s: seq<T>, e: T)
    requires e in Free(fixed, s)
    ensures !fixed(e)
  {
    if s != [] && !(fixed(s[0]) == false && e == s[0]) {
      FreeNotFixed(fixed, s[1..], e);
    }
  }

  lemma {:induction false} ReverseKeepingSpecialMultiset(s: seq<Element>)
    ensures multiset(ReverseKeepingSpecial(s)) == multiset(s)
  {
    FillMultiset(IsSpecialCharacter, s, Reverse(NonSpecials(s)));
    ReverseMultiset(NonSpecials(s));
    FixedFreeMultiset(IsSpecialCharacter, s);
  }

  lemma {:induction false} ReverseKeepingSpecialPositions(s: seq<Element>)
    ensures forall k :: 0 <= k < |s| && IsSpecialCharacter(s[k]) ==> ReverseKeepingSpecial(s)[k] == s[k]
    ensures forall k :: 0 <= k < |s| ==>
      (IsSpecialCharacter(ReverseKeepingSpecial(s)[k]) <==> IsSpecialCharacter(s[k]))
  {
    var pool := Reverse(NonSpecials(s));
    var r := ReverseKeepingSpecial(s);
    PoolNotSpecial(s);
    forall k | 0 <= k < |s|
      ensures IsSpecialCharacter(s[k]) ==> r[k] == s[k]
      ensures IsSpecialCharacter(r[k]) <==> IsSpecialCharacter(s[k])
    {
      FillAt(IsSpecialCharacter, s, pool, k);
      if !IsSpecialCharacter(s[k]) {
        assert r[k] in pool;
      }
    }
  }

  /** What the source promises of one call: same length; every special element stays at its
      index and the special positions are the same; the non-special elements, read left to
      right, are the input's in reverse; the output is a permutation of the input. */
  lemma {:induction false} ReverseKeepingSpecialCorrect(s: seq<Element>)
    ensures |ReverseKeepingSpecial(s)| == |s|
    ensures forall k :: 0 <= k < |s| && IsSpecialCharacter(s[k]) ==> ReverseKeepingSpecial(s)[k] == s[k]
    ensures forall k :: 0 <= k < |s| ==>
      (IsSpecialCharacter(ReverseKeepingSpecial(s)[k]) <==> IsSpecialCharacter(s[k]))
    ensures NonSpecials(ReverseKeepingSpecial(s)) == Reverse(NonSpecials(s))
    ensures multiset(ReverseKeepingSpecial(s)) == multiset(s)
  {
    PoolNotSpecial(s);
    FillFree(IsSpecialCharacter, s, Reverse(NonSpecials(s)));
    ReverseKeepingSpecialPositions(s);
    ReverseKeepingSpecialMultiset(s);
  }

  /** Applying the reversal twice returns the original list. */
  lemma {:induction false} ReverseKeepingSpecialInvolution(s: seq<Element>)
    ensures ReverseKeepingSpecial(ReverseKeepingSpecial(s)) == s
  {
    var r := ReverseKeepingSpecial(s);
    ReverseKeepingSpecialCorrect(s);
    ReverseReverse(NonSpecials(s));
    FillRestores(IsSpecialCharacter, r, s);
  }

  /** The input written out in the source, and the result it expects. */
  const WorkedInput: seq<Element> :=
    [Str("n"), Num(2), Str("&"), Str("a"), Str("l"), Num(9), Str("$"), Str("q"), Str("*"),
     Num(47), Str("i"), Str("a"), Str("j"), Str("b"), Str("z"), Str("%"), Num(8)]
  const WorkedExpected: seq<Element> :=
    [Num(8), Str("z"), Str("&"), Str("b"), Str("j"), Str("a"), Str("$"), Str("i"), Str("*"),
     Num(47), Str("q"), Num(9), Str("l"), Str("a"), Num(2), Str("%"), Str("n")]

  /** Reversing the free elements of `x + c + y` and filling them back in: the outer
      pieces `x`, `y` trade their free elements when they have equally many, and the
      middle piece `c` is filled from its own reversed free elements. */
  lemma {:induction false} MirrorFill<T>(fixed: T -> bool, x: seq<T>, c: seq<T>, y: seq<T>)
    requires |Free(fixed, x)| == |Free(fixed, y)|
    ensures |Reverse(Free(fixed, x + c + y))| == |Free(fixed, x + c + y)|
    ensures |Reverse(Free(fixed, y))| == |Free(fixed, x)|
    ensures |Reverse(Free(fixed, c))| == |Free(fixed, c)|
    ensures |Reverse(Free(fixed, x))| == |Free(fixed, y)|
    ensures Fill(fixed, x + c + y, Reverse(Free(fixed, x + c + y)))
            == Fill(fixed, x, Reverse(Free(fixed, y)))
             + Fill(fixed, c, Reverse(Free(fixed, c)))
             + Fill(fixed, y, Reverse(Free(fixed, x)))
  {
    var fx, fc, fy := Free(fixed, x), Free(fixed, c), Free(fixed, y);
    FreeAppend(fixed, x, c);
    FreeAppend(fixed, x + c, y);
    ReverseAppend(fx + fc, fy);
    ReverseAppend(fx, fc);
    assert Reverse(Free(fixed, x + c + y)) == Reverse(fy) + Reverse(fc) + Reverse(fx);
    FillAppend(fixed, x, c, Reverse(fy), Reverse(fc));
    FillAppend(fixed, x + c, y, Reverse(fy) + Reverse(fc), Reverse(fx));
  }

  /** `MirrorFill` twice: the middle piece is itself a mirror `b + c + d`. */
  lemma {:induction false} MirrorFill5<T>(fixed: T -> bool, s: seq<T>, a: seq<T>, b: seq<T>, c: seq<T>, d: seq<T>, e: seq<T>)
    requires s == a + (b + c + d) + e
    requires |Free(fixed, a)| == |Free(fixed, e)| && |Free(fixed, b)| == |Free(fixed, d)|
    ensures |Reverse(Free(fixed, s))| == |Free(fixed, s)|
    ensures |Reverse(Free(fixed, e))| == |Free(fixed, a)|
    ensures |Reverse(Free(fixed, d))| == |Free(fixed, b)|
    ensures |Reverse(Free(fixed, c))| == |Free(fixed, c)|
    ensures |Reverse(Free(fixed, b))| == |Free(fixed, d)|
    ensures |Reverse(Free(fixed, a))| == |Free(fixed, e)|
    ensures Fill(fixed, s, Reverse(Free(fixed, s)))
            == Fill(fixed, a, Reverse(Free(fixed, e)))
             + (Fill(fixed, b, Reverse(Free(fixed, d)))
                + Fill(fixed, c, Reverse(Free(fixed, c)))
                + Fill(fixed, d, Reverse(Free(fixed, b))))
             + Fill(fixed, e, Reverse(Free(fixed, a)))
  {
    var mid: seq<T> := b + c + d;
    FreeAppend<T>(fixed, b, c);
    FreeAppend<T>(fixed, b + c, d);
    MirrorFill<T>(fixed, a, mid, e);
    MirrorFill<T>(fixed, b, c, d);
  }

  // The worked example in five pieces with 2, 3, 3, 3 and 2 non-special elements.
  const WorkedA: seq<Element> := [Str("n"), Num(2), Str("&")]
  const WorkedB: seq<Element> := [Str("a"), Str("l"), Num(9), Str("$")]
  const WorkedC: seq<Element> := [Str("q"), Str("*"), Num(47), Str("i")]
  const WorkedD: seq<Element> := [Str("a"), Str("j"), Str("b")]
  const WorkedE: seq<Element> := [Str("z"), Str("%"), Num(8)]

  lemma WorkedSplit()
    ensures WorkedInput == WorkedA + (WorkedB + WorkedC + WorkedD) + WorkedE
    ensures WorkedExpected == [Num(8), Str("z"), Str("&")]
                            + ([Str("b"), Str("j"), Str("a"), Str("$")]
                               + [Str("i"), Str("*"), Num(47), Str("q")]
                               + [Num(9), Str("l"), Str("a")])
                            + [Num(2), Str("%"), Str("n")]
  {
  }

  // Each piece on its own: its non-special elements, and how it is filled.
  lemma WorkedFreeA()
    ensures NonSpecials(WorkedA) == [Str("n"), Num(2)]
  {
  }

  lemma WorkedFillA()
    ensures |[Num(8), Str("z")]| == |NonSpecials(WorkedA)|
    ensures Fill(IsSpecialCharacter, WorkedA, [Num(8), Str("z")]) == [Num(8), Str("z"), Str("&")]
  {
    WorkedFreeA();
  }

  lemma WorkedFreeB()
    ensures NonSpecials(WorkedB) == [Str("a"), Str("l"), Num(9)]
  {
  }

  lemma WorkedFillB()
    ensures |[Str("b"), Str("j"), Str("a")]| == |NonSpecials(WorkedB)|
    ensures Fill(IsSpecialCharacter, WorkedB, [Str("b"), Str("j"), Str("a")]) == [Str("b"), Str("j"), Str("a"), Str("$")]
  {
    WorkedFreeB();
  }

  lemma WorkedFreeC()
    ensures NonSpecials(WorkedC) == [Str("q"), Num(47), Str("i")]
  {
  }

  lemma WorkedFillC()
    ensures |[Str("i"), Num(47), Str("q")]| == |NonSpecials(WorkedC)|
    ensures Fill(IsSpecialCharacter, WorkedC, [Str("i"), Num(47), Str("q")]) == [Str("i"), Str("*"), Num(47), Str("q")]
  {
    WorkedFreeC();
  }

  lemma WorkedFreeD()
    ensures NonSpecials(WorkedD) == [Str("a"), Str("j"), Str("b")]
  {
  }

  lemma WorkedFillD()
    ensures |[Num(9), Str("l"), Str("a")]| == |NonSpecials(WorkedD)|
    ensures Fill(IsSpecialCharacter, WorkedD, [Num(9), Str("l"), Str("a")]) == [Num(9), Str("l"), Str("a")]
  {
    WorkedFreeD();
  }

  lemma WorkedFreeE()
    ensures NonSpecials(WorkedE) == [Str("z"), Num(8)]
  {
  }

  lemma WorkedFillE()
    ensures |[Num(2), Str("n")]| == |NonSpecials(WorkedE)|
    ensures Fill(IsSpecialCharacter, WorkedE, [Num(2), Str("n")]) == [Num(2), Str("%"), Str("n")]
  {
    WorkedFreeE();
  }

  /** Piece A is filled from the reversed non-special elements of piece E. */
  lemma WorkedPieceA()
    ensures |Reverse(NonSpecials(WorkedE))| == |NonSpecials(WorkedA)|
    ensures Fill(IsSpecialCharacter, WorkedA, Reverse(NonSpecials(WorkedE))) == [Num(8), Str("z"), Str("&")]
  {
    WorkedFreeE();
    assert Reverse([Str("z"), Num(8)]) == [Num(8), Str("z")];
    WorkedFillA();
  }

  /** Piece B is filled from the reversed non-special elements of piece D. */
  lemma WorkedPieceB()
    ensures |Reverse(NonSpecials(WorkedD))| == |NonSpecials(WorkedB)|
    ensures Fill(IsSpecialCharacter, WorkedB, Reverse(NonSpecials(WorkedD))) == [Str("b"), Str("j"), Str("a"), Str("$")]
  {
    WorkedFreeD();
    assert Reverse([Str("a"), Str("j"), Str("b")]) == [Str("b"), Str("j"), Str("a")];
    WorkedFillB();
  }

  /** Piece C is filled from the reversed non-special elements of piece C. */
  lemma WorkedPieceC()
    ensures |Reverse(NonSpecials(WorkedC))| == |NonSpecials(WorkedC)|
    ensures Fill(IsSpecialCharacter, WorkedC, Reverse(NonSpecials(WorkedC))) == [Str("i"), Str("*"), Num(47), Str("q")]
  {
    WorkedFreeC();
    assert Reverse([Str("q"), Num(47), Str("i")]) == [Str("i"), Num(47), Str("q")];
    WorkedFillC();
  }

  /** Piece D is filled from the reversed non-special elements of piece B. */
  lemma WorkedPieceD()
    ensures |Reverse(NonSpecials(WorkedB))| == |NonSpecials(WorkedD)|
    ensures Fill(IsSpecialCharacter, WorkedD, Reverse(NonSpecials(WorkedB))) == [Num(9), Str("l"), Str("a")]
  {
    WorkedFreeB();
    assert Reverse([Str("a"), Str("l"), Num(9)]) == [Num(9), Str("l"), Str("a")];
    WorkedFillD();
  }

  /** Piece E is filled from the reversed non-special elements of piece A. */
  lemma WorkedPieceE()
    ensures |Reverse(NonSpecials(WorkedA))| == |NonSpecials(WorkedE)|
    ensures Fill(IsSpecialCharacter, WorkedE, Reverse(NonSpecials(WorkedA))) == [Num(2), Str("%"), Str("n")]
  {
    WorkedFreeA();
    assert Reverse([Str("n"), Num(2)]) == [Num(2), Str("n")];
    WorkedFillE();
  }

  /** The input and expected output the source checks its function against. */
  lemma WorkedExample()
    ensures ReverseKeepingSpecial(WorkedInput) == WorkedExpected
  {
    WorkedSplit();
    WorkedPieceA();
    WorkedPieceB();
    WorkedPieceC();
    WorkedPieceD();
    WorkedPieceE();
    MirrorFill5(IsSpecialCharacter, WorkedInput, WorkedA, WorkedB, WorkedC, WorkedD, WorkedE);
  }

  /** One step of the output walk: the counter grows exactly at non-special slots and
      stays inside the reversed list. */
  lemma {:induction false} WalkStep(a: seq<Element>, idx: nat)
    requires idx < |a|
    ensures |NonSpecials(a[..idx + 1])| ==
      |NonSpecials(a[..idx])| + (if IsSpecialCharacter(a[idx]) then 0 else 1)
    ensures !IsSpecialCharacter(a[idx]) ==> |NonSpecials(a[..idx])| < |NonSpecials(a)|
    ensures ReverseKeepingSpecial(a)[idx] ==
      if IsSpecialCharacter(a[idx]) then a[idx]
      else Reverse(NonSpecials(a))[|NonSpecials(a[..idx])|]
  {
    FillAt(IsSpecialCharacter, a, Reverse(NonSpecials(a)), idx);
    FreeSnoc(IsSpecialCharacter, a[..idx], a[idx]);
    assert a[..idx + 1] == a[..idx] + [a[idx]];
  }

  /** The first loop of `reverseArrayKeepingSpecialChars`: the map from each special
      position to the element there. */
  method SpecialPositions(a: seq<Element>) returns (specialPositions: map<nat, Element>)
    ensures forall k: nat :: k in specialPositions <==> k < |a| && IsSpecialCharacter(a[k])
    ensures forall k :: k in specialPositions ==> specialPositions[k] == a[k]
  {
    specialPositions := map[];
    var idx := 0;
    while idx < |a|
      invariant 0 <= idx <= |a|
      invariant forall k: nat :: k in specialPositions <==> k < idx && IsSpecialCharacter(a[k])
      invariant forall k :: k in specialPositions ==> specialPositions[k] == a[k]
    {
      if IsSpecialCharacter(a[idx]) {
        specialPositions := specialPositions[idx := a[idx]];
      }
      idx := idx + 1;
    }
  }

  /** `reverseArrayKeepingSpecialChars`: record the special positions in a map, take the
      non-special elements reversed, then walk the input with a counter into that list. */
  method ReverseArrayKeepingSpecialChars(arrayToReverse: seq<Element>) returns (result: seq<Element>)
    ensures result == ReverseKeepingSpecial(arrayToReverse)
    ensures |result| == |arrayToReverse|
    ensures forall k :: 0 <= k < |result| && IsSpecialCharacter(arrayToReverse[k]) ==>
      result[k] == arrayToReverse[k]
    ensures NonSpecials(result) == Reverse(NonSpecials(arrayToReverse))
    ensures multiset(result) == multiset(arrayToReverse)
  {
    var a := arrayToReverse;
    var specialPositions := SpecialPositions(a);
    var reversed := Reverse(NonSpecials(a));
    ghost var spec := ReverseKeepingSpecial(a);
    var i := 0;
    result := [];
    var idx := 0;
    while idx < |a|
      invariant 0 <= idx <= |a|
      invariant i == |NonSpecials(a[..idx])|
      invariant result == spec[..idx]
    {
      WalkStep(a, idx);
      if idx in specialPositions {
        result := result + [specialPositions[idx]];
      } else {
        result := result + [reversed[i]];
        i := i + 1;
      }
      assert spec[..idx + 1] == spec[..idx] + [spec[idx]];
      idx := idx + 1;
    }
    assert result == spec by {
      assert spec[..|a|] == spec;
    }
    ReverseKeepingSpecialCorrect(a);
  }
}
