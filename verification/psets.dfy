/**
 * Preemptive sets: the candidate colours of one sudoku cell.
 *
 * A preemptive set (`pset_t` in the source) is a 64-bit word in which bit
 * `i` stands for the colour `ColorTable[i]`. The ghost function `Elems`
 * reads a word as the set of colour indices it holds, and every operation
 * below is specified through it: the bit tricks of the source become plain
 * set algebra in the contracts.
 */
module PSets {
  import opened Bits

  type PSet = Word

  /** `MAX_COLORS`: the number of colours a word can hold. */
  const MaxColors: nat := 64

  /** `FULL`: every colour present. */
  const Full: PSet := AllOnes

  // ---------------------------------------------------------------------
  // The colour alphabet
  // ---------------------------------------------------------------------

  /** Colour number `i`: `1`-`9`, then `A`-`Z`, then `a`-`z`, then `@&*`. */
  function ColorAt(i: nat): (c: char)
    requires i < MaxColors
    ensures ColorIndex(c) == i
  {
    if i < 9 then ('1' as int + i) as char
    else if i < 35 then ('A' as int + (i - 9)) as char
    else if i < 61 then ('a' as int + (i - 35)) as char
    else if i == 61 then '@'
    else if i == 62 then '&'
    else '*'
  }

  /** `color_table`: the 64 colour symbols in bit order. */
  const ColorTable: seq<char> := ColorPrefix(MaxColors)

  /** The first `k` colour symbols. */
  function ColorPrefix(k: nat): (t: seq<char>)
    requires k <= MaxColors
    ensures |t| == k && forall i | 0 <= i < k :: t[i] == ColorAt(i)
  {
    if k == 0 then [] else ColorPrefix(k - 1) + [ColorAt(k - 1)]
  }

  /** The position of `c` in the colour table, or -1 for any other character. */
  function ColorIndex(c: char): (r: int)
    ensures -1 <= r < MaxColors
  {
    if '1' <= c <= '9' then c as int - '1' as int
    else if 'A' <= c <= 'Z' then 9 + (c as int - 'A' as int)
    else if 'a' <= c <= 'z' then 35 + (c as int - 'a' as int)
    else if c == '@' then 61
    else if c == '&' then 62
    else if c == '*' then 63
    else -1
  }

  /** `ColorIndex` inverts the table on the alphabet and rejects everything else. */
  lemma ColorIndexInverse(c: char)
    ensures ColorIndex(c) != -1 <==> c in ColorTable
    ensures ColorIndex(c) != -1 ==> ColorTable[ColorIndex(c)] == c
  {
    if c in ColorTable {
      var i :| 0 <= i < |ColorTable| && ColorTable[i] == c;
      assert ColorIndex(ColorAt(i)) == i;
    }
    if ColorIndex(c) != -1 {
      ColorAtIndex(c);
      assert ColorTable[ColorIndex(c)] == c;
    }
  }

  /** On the alphabet, `ColorAt` undoes `ColorIndex`. */
  lemma ColorAtIndex(c: char)
    requires ColorIndex(c) != -1
    ensures ColorAt(ColorIndex(c)) == c
  {
  }

  /** The 64 symbols are pairwise distinct. */
  lemma ColorTableDistinct(i: nat, j: nat)
    requires i < MaxColors && j < MaxColors && i != j
    ensures ColorTable[i] != ColorTable[j]
  {
    assert ColorIndex(ColorTable[i]) == i;
    assert ColorIndex(ColorTable[j]) == j;
  }

  /** The table positions holding `c`. */
  ghost function Positions(c: char): set<nat>
  {
    set i: nat | i < MaxColors && ColorAt(i) == c
  }

  lemma PositionsOf(c: char)
    ensures Positions(c) == if c in ColorTable then {ColorIndex(c) as nat} else {}
  {
    ColorIndexInverse(c);
    forall i: nat | i < MaxColors && ColorAt(i) == c
      ensures i == ColorIndex(c)
    {
      assert ColorIndex(ColorAt(i)) == i;
    }
  }

  // ---------------------------------------------------------------------
  // The set view of a word
  // ---------------------------------------------------------------------

  /** Colour `i` is in `s`. */
  predicate Has(s: PSet, i: nat)
  {
    i < MaxColors && Bit(s, i as bv8)
  }

  /** The colour indices held by `s`. */
  ghost function Elems(s: PSet): set<nat>
  {
    set i: nat | i < MaxColors && Has(s, i)
  }

  ghost const Universe: set<nat> := set i: nat | i < MaxColors

  lemma ElemsInUniverse(s: PSet)
    ensures Elems(s) <= Universe
  {
  }

  lemma ElemsZero()
    ensures Elems(0) == {}
  {
    forall i: nat | i < MaxColors ensures !Has(0, i) {
      ZeroBit(i as bv8);
    }
  }

  /** A word is determined by its set of colours. */
  lemma {:induction false} ElemsInjective(a: PSet, b: PSet)
    requires Elems(a) == Elems(b)
    ensures a == b
  {
    var d := a ^ b;
    forall y: bv8 | y < 64 ensures !Bit(d, y) {
      SameBit(a, b, y);
      XorBit(a, b, y);
    }
    NoBitZero(d);
    XorSelf(a, b);
  }

  lemma SameBit(a: PSet, b: PSet, y: bv8)
    requires y < 64 && Elems(a) == Elems(b)
    ensures Bit(a, y) == Bit(b, y)
  {
    IndexRoundTripBv(y);
    IndexBoundBv(y);
    assert (y as nat in Elems(a)) == Has(a, y as nat);
    assert (y as nat in Elems(b)) == Has(b, y as nat);
  }

  lemma XorSelf(a: Word, b: Word)
    requires a ^ b == 0
    ensures a == b
  {
  }

  lemma EmptyIsZero(s: PSet)
    requires Elems(s) == {}
    ensures s == 0
  {
    ElemsZero();
    ElemsInjective(s, 0);
  }

  lemma ElemsAnd(a: PSet, b: PSet)
    ensures Elems(a & b) == Elems(a) * Elems(b)
  {
    forall i: nat | i < MaxColors ensures Has(a & b, i) <==> Has(a, i) && Has(b, i) {
      HasAnd(a, b, i);
    }
  }

  lemma HasAnd(a: PSet, b: PSet, i: nat)
    requires i < MaxColors
    ensures Has(a & b, i) <==> Has(a, i) && Has(b, i)
  {
    AndBit(a, b, i as bv8);
  }

  lemma ElemsOr(a: PSet, b: PSet)
    ensures Elems(a | b) == Elems(a) + Elems(b)
  {
    forall i: nat | i < MaxColors ensures Has(a | b, i) <==> Has(a, i) || Has(b, i) {
      HasOr(a, b, i);
    }
  }

  lemma HasOr(a: PSet, b: PSet, i: nat)
    requires i < MaxColors
    ensures Has(a | b, i) <==> Has(a, i) || Has(b, i)
  {
    OrBit(a, b, i as bv8);
  }

  lemma ElemsXor(a: PSet, b: PSet)
    ensures Elems(a ^ b) == (Elems(a) - Elems(b)) + (Elems(b) - Elems(a))
  {
    forall i: nat | i < MaxColors ensures Has(a ^ b, i) <==> Has(a, i) != Has(b, i) {
      HasXor(a, b, i);
    }
  }

  lemma HasXor(a: PSet, b: PSet, i: nat)
    requires i < MaxColors
    ensures Has(a ^ b, i) <==> Has(a, i) != Has(b, i)
  {
    XorBit(a, b, i as bv8);
  }

  lemma ElemsNot(a: PSet)
    ensures Elems(!a) == Universe - Elems(a)
  {
    forall i: nat | i < MaxColors ensures Has(!a, i) <==> !Has(a, i) {
      HasNot(a, i);
    }
  }

  lemma HasNot(a: PSet, i: nat)
    requires i < MaxColors
    ensures Has(!a, i) <==> !Has(a, i)
  {
    NotBit(a, i as bv8);
  }

  lemma ElemsAndNot(a: PSet, b: PSet)
    ensures Elems(a & !b) == Elems(a) - Elems(b)
  {
    ElemsAnd(a, !b);
    ElemsNot(b);
  }

  lemma ElemsOneShift(k: nat)
    requires k < MaxColors
    ensures Elems(1 << (k as bv8)) == {k}
  {
    var w := 1 << (k as bv8);
    forall i: nat | i < MaxColors ensures Has(w, i) <==> i == k {
      HasOneShift(k, i);
    }
  }

  lemma HasOneShift(k: nat, i: nat)
    requires k < MaxColors && i < MaxColors
    ensures Has(1 << (k as bv8), i) <==> i == k
  {
    OneShiftBit(k as bv8, i as bv8);
    IndexRoundTrip(i);
    IndexRoundTrip(k);
  }

  // ---------------------------------------------------------------------
  // The lowest colour of a set
  // ---------------------------------------------------------------------

  /** The smallest element of a non-empty set of naturals. */
  ghost function MinOf(S: set<nat>): (m: nat)
    requires S != {}
    ensures m in S && forall x | x in S :: m <= x
    decreases |S|
  {
    var x :| x in S;
    if S == {x} then
      SingletonMembers(S, x);
      x
    else
      var m' := MinOf(S - {x});
      MinOfStep(S, x, m');
      if x < m' then x else m'
  }

  lemma MinOfStep(S: set<nat>, x: nat, m': nat)
    requires x in S && forall y | y in S - {x} :: m' <= y
    ensures forall y | y in S :: y == x || m' <= y
  {
    forall y | y in S ensures y == x || m' <= y {
      if y != x {
        assert y in S - {x};
      }
    }
  }

  lemma SingletonMembers(S: set<nat>, x: nat)
    requires S == {x}
    ensures forall y | y in S :: y == x
  {
  }

  /** `s & Below(i)` vanishes exactly when no colour of `s` lies below `i`. */
  lemma BelowZeroIff(s: PSet, i: nat)
    requires i < MaxColors
    ensures s & Below(i as bv8) == 0 <==> forall j | j in Elems(s) :: i <= j
  {
    if forall j | j in Elems(s) :: i <= j {
      BelowZeroIfNone(s, i);
    } else {
      var j :| j in Elems(s) && j < i;
      BelowNonzeroIfSome(s, i, j);
    }
  }

  lemma {:induction false} BelowZeroIfNone(s: PSet, i: nat)
    requires i < MaxColors
    requires forall j | j in Elems(s) :: i <= j
    ensures s & Below(i as bv8) == 0
  {
    NoneBelowOf(s, i);
    ZeroBelow(s, i as bv8);
  }

  lemma NoneBelowOf(s: PSet, i: nat)
    requires i < MaxColors
    requires forall j | j in Elems(s) :: i <= j
    ensures NoneBelow(s, i as bv8)
  {
    forall y: bv8 | y < i as bv8 ensures !Bit(s, y) {
      NoLowerBit(s, i, y);
    }
  }

  lemma NoLowerBit(s: PSet, i: nat, y: bv8)
    requires i < MaxColors && y < i as bv8
    requires forall j | j in Elems(s) :: i <= j
    ensures !Bit(s, y)
  {
    IndexRoundTrip(i);
    IndexLessBv(y, i as bv8);
    IndexRoundTripBv(y);
    IndexBoundBv(y);
    assert y as nat !in Elems(s);
  }

  lemma {:induction false} BelowNonzeroIfSome(s: PSet, i: nat, j: nat)
    requires i < MaxColors && j in Elems(s) && j < i
    ensures s & Below(i as bv8) != 0
  {
    var x := i as bv8;
    IndexRoundTrip(i);
    IndexRoundTrip(j);
    IndexLessBv(j as bv8, x);
    BelowKeeps(s, x, j as bv8);
    ZeroBit(j as bv8);
  }

  /** `s & (s - 1)` drops the lowest colour of `s`. */
  lemma {:induction false} ElemsClearLowest(s: PSet)
    requires s != 0
    ensures Elems(s) != {}
    ensures Elems(s & (s - 1)) == Elems(s) - {MinOf(Elems(s))}
  {
    NonzeroHasElems(s);
    var w := s & (s - 1);
    forall i: nat | i < MaxColors
      ensures Has(w, i) <==> Has(s, i) && i != MinOf(Elems(s))
    {
      ClearLowestAt(s, i);
    }
  }

  lemma NonzeroHasElems(s: PSet)
    requires s != 0
    ensures Elems(s) != {}
  {
    if Elems(s) == {} {
      EmptyIsZero(s);
    }
  }

  lemma ClearLowestAt(s: PSet, i: nat)
    requires Elems(s) != {} && i < MaxColors
    ensures Has(s & (s - 1), i) <==> Has(s, i) && i != MinOf(Elems(s))
  {
    var m := MinOf(Elems(s));
    assert (i in Elems(s)) == Has(s, i);
    if i <= m {
      ClearAtOrBelowMin(s, i, m);
    } else {
      ClearAboveMin(s, i, m);
    }
  }

  lemma ClearAtOrBelowMin(s: PSet, i: nat, m: nat)
    requires i < MaxColors && i <= m && m in Elems(s)
    requires forall j | j in Elems(s) :: m <= j
    ensures !Has(s & (s - 1), i)
  {
    BelowZeroIfNone(s, i);
    ClearUpTo(s, i as bv8);
  }

  lemma ClearAboveMin(s: PSet, i: nat, m: nat)
    requires i < MaxColors && m < i && m in Elems(s)
    ensures Has(s & (s - 1), i) <==> Has(s, i)
  {
    BelowNonzeroIfSome(s, i, m);
    ClearAbove(s, i as bv8);
  }

  /** `s ^ (s & (s - 1))` keeps only the lowest colour of `s`. */
  lemma {:induction false} ElemsLowest(s: PSet)
    requires s != 0
    ensures Elems(s) != {}
    ensures Elems(s ^ (s & (s - 1))) == {MinOf(Elems(s))}
  {
    NonzeroHasElems(s);
    var w := s ^ (s & (s - 1));
    forall i: nat | i < MaxColors
      ensures Has(w, i) <==> i == MinOf(Elems(s))
    {
      LowestAt(s, i);
    }
  }

  lemma LowestAt(s: PSet, i: nat)
    requires Elems(s) != {} && i < MaxColors
    ensures Has(s ^ (s & (s - 1)), i) <==> i == MinOf(Elems(s))
  {
    var m := MinOf(Elems(s));
    assert (i in Elems(s)) == Has(s, i);
    if i <= m {
      LowestAtOrBelowMin(s, i, m);
    } else {
      LowestAboveMin(s, i, m);
    }
  }

  lemma LowestAtOrBelowMin(s: PSet, i: nat, m: nat)
    requires i < MaxColors && i <= m && m in Elems(s)
    requires forall j | j in Elems(s) :: m <= j
    ensures Has(s ^ (s & (s - 1)), i) <==> Has(s, i)
  {
    BelowZeroIfNone(s, i);
    LowestUpTo(s, i as bv8);
  }

  lemma LowestAboveMin(s: PSet, i: nat, m: nat)
    requires i < MaxColors && m < i && m in Elems(s)
    ensures !Has(s ^ (s & (s - 1)), i)
  {
    BelowNonzeroIfSome(s, i, m);
    LowestAbove(s, i as bv8);
  }

  // ---------------------------------------------------------------------
  // Operations of `preemptive_set.c`
  // ---------------------------------------------------------------------

  /** The first position at or after `from` holding `c`, or -1 (the search loop of `char2pset`). */
  function FindColor(c: char, from: nat): (r: int)
    requires from <= MaxColors
    ensures r == -1 <==> forall j | from <= j < MaxColors :: ColorAt(j) != c
    ensures r != -1 ==> from <= r < MaxColors && ColorTable[r] == c
    decreases MaxColors - from
  {
    if from == MaxColors then -1
    else if ColorTable[from] == c then from
    else FindColor(c, from + 1)
  }

  /** `char2pset`: the singleton of `c`'s colour, or the empty set for a character outside the alphabet. */
  function FromChar(c: char): (r: PSet)
    ensures Elems(r) == Positions(c)
  {
    var k := FindColor(c, 0);
    if k == -1 then
      ElemsZero();
      0
    else
      ElemsOneShift(k);
      PositionsOf(c);
      ColorIndexInverse(c);
      ColorTableDistinctAt(c, k);
      1 << (k as bv8)
  }

  lemma ColorTableDistinctAt(c: char, k: nat)
    requires k < MaxColors && ColorTable[k] == c
    ensures ColorIndex(c) == k
  {
    assert ColorIndex(ColorAt(k)) == k;
  }

  /** `pset_full`: the colours `0 .. min(range, 64) - 1`. A range of 0 is excluded: the source then shifts by 64. */
  function FullRange(range: nat): (r: PSet)
    requires 1 <= range < 0x1_0000
    ensures Elems(r) == RangeSet(Min(range, MaxColors))
  {
    var k := if range > MaxColors then MaxColors else range;
    LowOnesElems(k);
    AllOnes >> (64 - k as bv8)
  }

  lemma {:induction false} LowOnesElems(k: nat)
    requires 1 <= k <= MaxColors
    ensures Elems(AllOnes >> (64 - k as bv8)) == RangeSet(k)
  {
    var w := AllOnes >> (64 - k as bv8);
    forall i: nat | i < MaxColors ensures Has(w, i) <==> i < k {
      if i < k {
        LowOnesHas(k, i);
      } else {
        LowOnesLacks(k, i);
      }
    }
  }

  lemma LowOnesHas(k: nat, i: nat)
    requires i < k <= MaxColors
    ensures Has(AllOnes >> (64 - k as bv8), i)
  {
    IndexLessNat(i, k);
    LowOnesIn(k as bv8, i as bv8);
  }

  lemma LowOnesLacks(k: nat, i: nat)
    requires 1 <= k <= i < MaxColors
    ensures !Has(AllOnes >> (64 - k as bv8), i)
  {
    IndexRoundTrip(i);
    IndexRoundTrip(k);
    IndexLessBv(i as bv8, k as bv8);
    LowOnesOut(k as bv8, i as bv8);
  }

  function Min(a: nat, b: nat): nat
  {
    if a < b then a else b
  }

  /** `pset_empty`. */
  function Empty(): (r: PSet)
    ensures Elems(r) == {}
  {
    ElemsZero();
    0
  }

  /** `pset_set`: add the colour of `c`; a character outside the alphabet adds nothing. */
  function SetColor(s: PSet, c: char): (r: PSet)
    ensures Elems(r) == Elems(s) + Positions(c)
  {
    ElemsOr(s, FromChar(c));
    s | FromChar(c)
  }

  /** `pset_discard`: remove the colour of `c`; a character outside the alphabet removes nothing. */
  function Discard(s: PSet, c: char): (r: PSet)
    ensures Elems(r) == Elems(s) - Positions(c)
  {
    ElemsAndNot(s, FromChar(c));
    s & !FromChar(c)
  }

  /** `pset_substract`: set difference. */
  function Subtract(a: PSet, b: PSet): (r: PSet)
    ensures Elems(r) == Elems(a) - Elems(b)
  {
    ElemsAndNot(a, b);
    a & !b
  }

  /** `pset_equals`: two words are equal exactly when they hold the same colours. */
  function Equals(a: PSet, b: PSet): (r: bool)
    ensures r <==> Elems(a) == Elems(b)
  {
    EqualIff(a, b);
    a == b
  }

  lemma EqualIff(a: PSet, b: PSet)
    ensures a == b <==> Elems(a) == Elems(b)
  {
    if Elems(a) == Elems(b) {
      ElemsInjective(a, b);
    }
  }

  /** `pset_negate`: complement within the 64 colours. */
  function Negate(s: PSet): (r: PSet)
    ensures Elems(r) == Universe - Elems(s)
  {
    ElemsNot(s);
    !s
  }

  /** `pset_and`: intersection. */
  function And(a: PSet, b: PSet): (r: PSet)
    ensures Elems(r) == Elems(a) * Elems(b)
  {
    ElemsAnd(a, b);
    a & b
  }

  /** `pset_or`: union. */
  function Or(a: PSet, b: PSet): (r: PSet)
    ensures Elems(r) == Elems(a) + Elems(b)
  {
    ElemsOr(a, b);
    a | b
  }

  /** `pset_xor`: symmetric difference. */
  function Xor(a: PSet, b: PSet): (r: PSet)
    ensures Elems(r) == (Elems(a) - Elems(b)) + (Elems(b) - Elems(a))
  {
    ElemsXor(a, b);
    a ^ b
  }

  /** `pset_is_included`: `(a & b) == a` holds exactly when `a` is a subset of `b`. */
  function IsIncluded(a: PSet, b: PSet): (r: bool)
    ensures r <==> Elems(a) <= Elems(b)
  {
    IncludedIff(a, b);
    (a & b) == a
  }

  lemma IncludedIff(a: PSet, b: PSet)
    ensures (a & b) == a <==> Elems(a) <= Elems(b)
  {
    ElemsAnd(a, b);
    if Elems(a) <= Elems(b) {
      ElemsInjective(a & b, a);
    }
  }

  /** `pset_is_singleton`: `s != 0 && s & (s - 1) == 0` holds exactly when `s` has one colour. */
  function IsSingleton(s: PSet): (r: bool)
    ensures r <==> |Elems(s)| == 1
  {
    SingletonIff(s);
    s != 0 && s & (s - 1) == 0
  }

  lemma {:induction false} SingletonIff(s: PSet)
    ensures s != 0 && s & (s - 1) == 0 <==> |Elems(s)| == 1
  {
    if s != 0 {
      ElemsClearLowest(s);
      var m := MinOf(Elems(s));
      if s & (s - 1) == 0 {
        ElemsZero();
        assert Elems(s) == {m};
      } else {
        assert Elems(s & (s - 1)) != {} by {
          if Elems(s & (s - 1)) == {} {
            EmptyIsZero(s & (s - 1));
          }
        }
        var x :| x in Elems(s) - {m};
        assert {m, x} <= Elems(s);
        SubsetCard({m, x}, Elems(s));
      }
    } else {
      ElemsZero();
    }
  }

  lemma SubsetCard<T>(A: set<T>, B: set<T>)
    requires A <= B
    ensures |A| <= |B|
  {
    assert B == A + (B - A);
  }

  /** The colours of `s` below `k`. */
  ghost function ElemsBelow(s: PSet, k: nat): set<nat>
  {
    set i: nat | i < k && Has(s, i)
  }

  /** The number of colours of `s` below `k`, counted bit by bit. */
  function CountBelow(s: PSet, k: nat): (r: nat)
    requires k <= MaxColors
    ensures r == |ElemsBelow(s, k)|
  {
    if k == 0 then
      assert ElemsBelow(s, 0) == {};
      0
    else
      ElemsBelowStep(s, k);
      CountBelow(s, k - 1) + (if Has(s, k - 1) then 1 else 0)
  }

  lemma ElemsBelowStep(s: PSet, k: nat)
    requires 0 < k <= MaxColors
    ensures ElemsBelow(s, k) == ElemsBelow(s, k - 1) + (if Has(s, k - 1) then {k - 1} else {})
    ensures (k - 1) !in ElemsBelow(s, k - 1)
  {
  }

  /** `pset_cardinality`: the number of colours in `s`. */
  function Cardinality(s: PSet): (r: nat)
    ensures r == |Elems(s)|
    ensures r <= MaxColors
  {
    assert Elems(s) == ElemsBelow(s, MaxColors);
    SubsetCard(Elems(s), Universe);
    UniverseCard();
    CountBelow(s, MaxColors)
  }

  lemma UniverseCard()
    ensures |Universe| == MaxColors
  {
    assert Universe == RangeSet(MaxColors);
    RangeSetCard(MaxColors);
  }

  /** The colours `0 .. n - 1`. */
  ghost function RangeSet(n: nat): set<nat>
  {
    set i: nat | i < n && InRange(i, n)
  }

  ghost predicate InRange(i: nat, n: nat)
  {
    i < n
  }

  lemma {:induction false} RangeSetCard(n: nat)
    ensures |RangeSet(n)| == n
  {
    if n > 0 {
      RangeSetCard(n - 1);
      assert RangeSet(n) == RangeSet(n - 1) + {n - 1};
    }
  }

  /** `pset_leftmost`: the singleton of the lowest colour, or the empty set. */
  function Leftmost(s: PSet): (r: PSet)
    ensures Elems(s) == {} ==> Elems(r) == {}
    ensures Elems(s) != {} ==> Elems(r) == {MinOf(Elems(s))}
    ensures Elems(r) <= Elems(s)
  {
    LeftmostElems(s);
    s ^ (s & (s - 1))
  }

  lemma LeftmostElems(s: PSet)
    ensures Elems(s) == {} ==> Elems(s ^ (s & (s - 1))) == {}
    ensures Elems(s) != {} ==> Elems(s ^ (s & (s - 1))) == {MinOf(Elems(s))}
  {
    if s == 0 {
      ElemsZero();
    } else {
      ElemsLowest(s);
    }
  }

  // ---------------------------------------------------------------------
  // Facts the test suite of `preemptive_set.c` checks
  // ---------------------------------------------------------------------

  /** Complementing twice gives the set back. */
  lemma NegateInvolution(s: PSet)
    ensures Negate(Negate(s)) == s
  {
    ElemsInUniverse(s);
    ElemsInjective(Negate(Negate(s)), s);
  }

  /** `pset_full` of 64 or more colours is `FULL`, and its complement is empty. */
  lemma FullRangeCap(range: nat)
    requires MaxColors <= range < 0x1_0000
    ensures FullRange(range) == Full
    ensures Negate(FullRange(range)) == Empty()
  {
    assert FullRange(range) == AllOnes >> 0;
  }

  /** `pset_full(r)` holds `min(r, 64)` colours. */
  lemma FullRangeCard(range: nat)
    requires 1 <= range < 0x1_0000
    ensures Cardinality(FullRange(range)) == Min(range, MaxColors)
  {
    RangeSetCard(Min(range, MaxColors));
  }

  /** A character outside the alphabet maps to the empty set, and adding or discarding it changes nothing. */
  lemma OutsideAlphabet(c: char, s: PSet)
    requires c !in ColorTable
    ensures FromChar(c) == Empty()
    ensures SetColor(s, c) == s && Discard(s, c) == s
  {
    PositionsOf(c);
    EmptyIsZero(FromChar(c));
    ElemsInjective(SetColor(s, c), s);
    ElemsInjective(Discard(s, c), s);
  }

  lemma HashOutsideAlphabet()
    ensures '#' !in ColorTable
  {
    ColorIndexInverse('#');
  }

  // ---------------------------------------------------------------------
  // `pset_n_leftmost`: the n-th lowest colour
  // ---------------------------------------------------------------------

  /** The rank of `e` in `S`: how many elements of `S` lie below it. */
  ghost function Rank(S: set<nat>, e: nat): nat
  {
    |set j | j in S && j < e|
  }

  /** The elements of `S` of rank `k` or more. */
  ghost function RankAtLeast(S: set<nat>, k: nat): set<nat>
  {
    set e | e in S && Rank(S, e) >= k
  }

  /** The loop of `pset_n_leftmost`: `k` times, remove the lowest colour. */
  function DropLowest(s: PSet, k: nat): (r: PSet)
    ensures Elems(r) == RankAtLeast(Elems(s), k)
    decreases k
  {
    if k == 0 then
      RankAtLeastZero(Elems(s));
      s
    else
      var t := Subtract(s, Leftmost(s));
      DropOneRank(Elems(s), Elems(t), k);
      DropLowest(t, k - 1)
  }

  lemma RankAtLeastZero(S: set<nat>)
    ensures RankAtLeast(S, 0) == S
  {
  }

  /** Removing the minimum lowers every other rank by one. */
  lemma DropOneRank(S: set<nat>, T: set<nat>, k: nat)
    requires k >= 1
    requires S == {} ==> T == {}
    requires S != {} ==> T == S - {MinOf(S)}
    ensures RankAtLeast(T, k - 1) == RankAtLeast(S, k)
  {
    if S != {} {
      var m := MinOf(S);
      forall e | e in S
        ensures e in RankAtLeast(S, k) <==> e in RankAtLeast(T, k - 1)
      {
        if e == m {
          RankOfMin(S);
        } else {
          RankAfterDrop(S, e);
        }
      }
    }
  }

  lemma RankOfMin(S: set<nat>)
    requires S != {}
    ensures Rank(S, MinOf(S)) == 0
  {
    var m := MinOf(S);
    assert (set j | j in S && j < m) == {};
  }

  lemma RankAfterDrop(S: set<nat>, e: nat)
    requires S != {} && e in S && e != MinOf(S)
    ensures Rank(S, e) == Rank(S - {MinOf(S)}, e) + 1
  {
    var m := MinOf(S);
    var A := set j | j in S - {m} && j < e;
    assert (set j | j in S && j < e) == A + {m};
    assert m !in A;
  }

  /** The lowest element of rank `k` or more has rank exactly `k`. */
  lemma {:induction false} MinRankAtLeast(S: set<nat>, k: nat)
    requires RankAtLeast(S, k) != {}
    ensures Rank(S, MinOf(RankAtLeast(S, k))) == k
    decreases k
  {
    if k == 0 {
      RankAtLeastZero(S);
      RankOfMin(S);
    } else {
      var T := S - {MinOf(S)};
      DropOneRank(S, T, k);
      MinRankAtLeast(T, k - 1);
      var e := MinOf(RankAtLeast(T, k - 1));
      assert e in T;
      RankAfterDrop(S, e);
    }
  }

  /** Ranks strictly increase along the elements of a set. */
  lemma RankMonotone(S: set<nat>, a: nat, b: nat)
    requires a in S && a < b
    ensures Rank(S, a) < Rank(S, b)
  {
    var A := set j | j in S && j < a;
    var B := set j | j in S && j < b;
    assert A + {a} <= B;
    assert a !in A;
    SubsetCard(A + {a}, B);
  }

  /** The elements of rank exactly `k`: none, or the lowest of rank `k` or more. */
  lemma RankExactly(S: set<nat>, k: nat)
    ensures RankAtLeast(S, k) == {} ==> (set e | e in S && Rank(S, e) == k) == {}
    ensures RankAtLeast(S, k) != {} ==>
              (set e | e in S && Rank(S, e) == k) == {MinOf(RankAtLeast(S, k))}
  {
    var T := RankAtLeast(S, k);
    if T == {} {
      assert forall e | e in S && Rank(S, e) == k :: e in T;
    } else {
      var m := MinOf(T);
      MinRankAtLeast(S, k);
      forall e | e in S && Rank(S, e) == k
        ensures e == m
      {
        assert e in T;
        if m < e {
          RankMonotone(S, m, e);
        }
      }
    }
  }

  /** `pset_n_leftmost`: for `n > 0`, the singleton of the `n`-th lowest colour, empty when `s` has fewer
      than `n` colours; otherwise `s` itself. */
  function NLeftmost(s: PSet, n: int): (r: PSet)
    ensures n <= 0 ==> r == s
    ensures n > 0 ==> Elems(r) == set e | e in Elems(s) && Rank(Elems(s), e) == n - 1
    ensures 0 < n <= |Elems(s)| ==> |Elems(r)| == 1 && Elems(r) <= Elems(s)
    ensures n > |Elems(s)| ==> Elems(r) == {}
  {
    if n > 0 then
      var k: nat := n - 1;
      var d := DropLowest(s, k);
      var r := Leftmost(d);
      assert Elems(d) == RankAtLeast(Elems(s), k);
      LowestOfRankAtLeast(Elems(s), k, Elems(r));
      RankExactlyCard(Elems(s), k, Elems(r));
      r
    else
      s
  }

  /** There is one element of rank `k` when `k < |S|`, and none otherwise. */
  lemma RankExactlyCard(S: set<nat>, k: nat, L: set<nat>)
    requires L == set e | e in S && Rank(S, e) == k
    ensures k < |S| ==> |L| == 1 && L <= S
    ensures k >= |S| ==> L == {}
  {
    RankExactly(S, k);
    RankAtLeastCard(S, k);
  }

  /** `k` removals of the minimum leave `|S| - k` elements, or none. */
  lemma {:induction false} RankAtLeastCard(S: set<nat>, k: nat)
    ensures k <= |S| ==> |RankAtLeast(S, k)| == |S| - k
    ensures k > |S| ==> RankAtLeast(S, k) == {}
    decreases k
  {
    if k == 0 {
      RankAtLeastZero(S);
    } else if S == {} {
      assert RankAtLeast(S, k) == {};
    } else {
      var T := S - {MinOf(S)};
      DropOneRank(S, T, k);
      RankAtLeastCard(T, k - 1);
    }
  }

  lemma LowestOfRankAtLeast(S: set<nat>, k: nat, L: set<nat>)
    requires RankAtLeast(S, k) == {} ==> L == {}
    requires RankAtLeast(S, k) != {} ==> L == {MinOf(RankAtLeast(S, k))}
    ensures L == set e | e in S && Rank(S, e) == k
  {
    RankExactly(S, k);
  }

  // ---------------------------------------------------------------------
  // `pset2str` and its inverse
  // ---------------------------------------------------------------------

  /** The symbols of the colours of `s` below `k`, in increasing order. */
  ghost function ListBelow(s: PSet, k: nat): seq<char>
    requires k <= MaxColors
  {
    if k == 0 then []
    else ListBelow(s, k - 1) + (if Has(s, k - 1) then [ColorAt(k - 1)] else [])
  }

  lemma {:induction false} ListBelowLength(s: PSet, k: nat)
    requires k <= MaxColors
    ensures |ListBelow(s, k)| == |ElemsBelow(s, k)|
  {
    if k > 0 {
      ListBelowLength(s, k - 1);
      ElemsBelowStep(s, k);
    }
  }

  /** Every symbol listed below `k` names a colour of `s` below `k`. */
  lemma {:induction false} ListBelowMembers(s: PSet, k: nat)
    requires k <= MaxColors
    ensures forall j | 0 <= j < |ListBelow(s, k)| :: 0 <= ColorIndex(ListBelow(s, k)[j]) < k
    ensures forall j | 0 <= j < |ListBelow(s, k)| :: ColorIndex(ListBelow(s, k)[j]) in Elems(s)
  {
    if k > 0 {
      ListBelowMembers(s, k - 1);
    }
  }

  /** Every colour of `s` below `k` is listed. */
  lemma {:induction false} ListBelowCovers(s: PSet, k: nat)
    requires k <= MaxColors
    ensures forall i | i in Elems(s) && i < k :: ColorAt(i) in ListBelow(s, k)
  {
    if k > 0 {
      ListBelowCovers(s, k - 1);
    }
  }

  /** The symbols are listed in increasing colour order. */
  lemma {:induction false} ListBelowSorted(s: PSet, k: nat)
    requires k <= MaxColors
    ensures forall j1, j2 | 0 <= j1 < j2 < |ListBelow(s, k)| ::
              ColorIndex(ListBelow(s, k)[j1]) < ColorIndex(ListBelow(s, k)[j2])
  {
    if k > 0 {
      ListBelowSorted(s, k - 1);
      ListBelowMembers(s, k - 1);
    }
  }

  /** `s` shifted right `i` times by one bit. */
  function Shifted(s: PSet, i: nat): PSet
  {
    if i == 0 then s else Shifted(s >> 1, i - 1)
  }

  /** One more shift: what `tmp >>= 1` does to the loop variable of `pset2str`. */
  lemma {:induction false} ShiftedOnce(s: PSet, i: nat)
    ensures Shifted(s, i) >> 1 == Shifted(s, i + 1)
    decreases i
  {
    if i > 0 {
      ShiftedOnce(s >> 1, i - 1);
    }
  }

  /** One step of the `pset2str` loop: the low bit of `tmp` decides whether colour `i` is listed. */
  lemma ListBelowStep(s: PSet, i: nat, tmp: PSet)
    requires i < MaxColors && tmp == Shifted(s, i)
    ensures ListBelow(s, i + 1) == ListBelow(s, i) + (if tmp % 2 == 1 then [ColorTable[i]] else [])
  {
    ShiftedLowBit(s, i);
  }

  /** The low bit of `s` shifted `i` times is colour `i` of `s`. */
  lemma {:induction false} ShiftedLowBit(s: PSet, i: nat)
    requires i < MaxColors
    ensures Shifted(s, i) % 2 == 1 <==> Has(s, i)
    decreases i
  {
    if i == 0 {
      BitZero(s);
    } else {
      ShiftedLowBit(s >> 1, i - 1);
      HasShift(s, i);
    }
  }

  lemma HasShift(s: PSet, i: nat)
    requires 0 < i < MaxColors
    ensures Has(s >> 1, i - 1) == Has(s, i)
  {
    var y := (i - 1) as bv8;
    IndexRoundTrip(i - 1);
    IndexBelow63(y);
    IndexSucc(y);
    IndexRoundTripBv(y + 1);
    BitShift(s, y);
  }

  /** `str` lists the colours of `s`: each once, in increasing order, nothing else; reading it back gives `s`. */
  ghost predicate IsListing(s: PSet, str: string)
  {
    && |str| == |Elems(s)|
    && (forall j | 0 <= j < |str| :: ColorIndex(str[j]) in Elems(s))
    && (forall i | i in Elems(s) :: ColorAt(i) in str)
    && (forall j1, j2 | 0 <= j1 < j2 < |str| :: ColorIndex(str[j1]) < ColorIndex(str[j2]))
    && FromStr(str) == s
  }

  /** `pset2str`: the symbols of the colours of `s`, lowest colour first. */
  method ToStr(s: PSet) returns (str: string)
    ensures IsListing(s, str)
    ensures |str| == Cardinality(s)
  {
    var tmp := s;
    str := [];
    var i := 0;
    while i < MaxColors
      invariant 0 <= i <= MaxColors
      invariant tmp == Shifted(s, i)
      invariant str == ListBelow(s, i)
    {
      ListBelowStep(s, i, tmp);
      if tmp % 2 == 1 {
        str := str + [ColorTable[i]];
      }
      ShiftedOnce(s, i);
      tmp := tmp >> 1;
      i := i + 1;
    }
    ListingFacts(s);
  }

  /** The full listing is a listing of `s`. */
  lemma ListingFacts(s: PSet)
    ensures IsListing(s, ListBelow(s, MaxColors))
  {
    var str := ListBelow(s, MaxColors);
    ListingLength(s);
    ListBelowMembers(s, MaxColors);
    ListBelowCovers(s, MaxColors);
    ListBelowSorted(s, MaxColors);
    FromStrListing(s, str);
  }

  lemma ListingLength(s: PSet)
    ensures |ListBelow(s, MaxColors)| == |Elems(s)|
  {
    ListBelowLength(s, MaxColors);
    assert Elems(s) == ElemsBelow(s, MaxColors);
  }

  /** The colours named in `str`. */
  ghost function ColorsIn(str: string): set<nat>
  {
    set i: nat | i < MaxColors && ColorAt(i) in str
  }

  /** A string naming exactly the colours of `S` has `S` as its set of colours. */
  lemma ColorsInExactly(S: set<nat>, str: string)
    requires S <= Universe
    requires forall j | 0 <= j < |str| :: ColorIndex(str[j]) in S
    requires forall i | i in S :: ColorAt(i) in str
    ensures ColorsIn(str) == S
  {
    forall i: nat | i in ColorsIn(str) ensures i in S {
      var j :| 0 <= j < |str| && str[j] == ColorAt(i);
    }
  }

  /** `str` holds exactly the colours of `s`: reading it back gives `s`. */
  lemma FromStrListing(s: PSet, str: string)
    requires forall j | 0 <= j < |str| :: ColorIndex(str[j]) in Elems(s)
    requires forall i | i in Elems(s) :: ColorAt(i) in str
    ensures FromStr(str) == s
  {
    ElemsInUniverse(s);
    ColorsInExactly(Elems(s), str);
    ElemsInjective(FromStr(str), s);
  }

  /** The set of the colours named in `str`: `char2pset` and `pset_set` applied symbol by symbol. */
  function FromStr(str: string): (r: PSet)
    ensures Elems(r) == ColorsIn(str)
  {
    if str == [] then
      ElemsZero();
      0
    else
      var init := str[..|str| - 1];
      var last := str[|str| - 1];
      FromStrStep(init, last);
      assert init + [last] == str;
      SetColor(FromStr(init), last)
  }

  lemma FromStrStep(init: string, last: char)
    ensures ColorsIn(init + [last]) == ColorsIn(init) + Positions(last)
  {
  }
}
