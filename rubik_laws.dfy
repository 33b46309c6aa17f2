/** Laws of the rotation engine of `modules/rubik.js`: what `rotate` changes,
    how rotations compose, and where the whole-cube double turn departs from
    two quarter turns.

    Every table rotation has the same shape: permute the cells of up to two
    faces, then cycle a strip.  `Effect` states that shape with explicit
    face orders (the identity order standing in for a face the move does not
    turn), and the laws follow from two generic facts: effects on the same
    frame compose by composing face orders and adding strip offsets, and
    the identity orders with offset 0 change nothing. */
module RubikLaws {
  import opened Wrappers
  import opened Rubik
  import Counting

  // ---------------------------------------------------------------------
  // Construction, accessors and comparison

  /** `get_centers(create(cs)) == cs`. */
  lemma CentersOfCreate(centers: seq<int>)
    requires |centers| == 6
    ensures GetCenters(Create(centers)) == centers
  {
  }

  /** A created cube is solved with respect to its own centres. */
  lemma CreateIsSolved(centers: seq<int>)
    requires |centers| == 6
    ensures IsEqual(Create(centers), Create(GetCenters(Create(centers))))
  {
    CentersOfCreate(centers);
  }

  /** `set_at` then `get_at` at the same place reads the value back, and
      every other cell reads as before. */
  lemma SetThenGet(cube: seq<int>, face: int, row: int, col: int, value: int,
                   face': int, row': int, col': int)
    requires 0 <= Index(face, row, col) < |cube| && 0 <= Index(face', row', col') < |cube|
    ensures GetAt(cube[Index(face, row, col) := value], face, row, col) == value
    ensures Index(face', row', col') != Index(face, row, col)
            ==> GetAt(cube[Index(face, row, col) := value], face', row', col')
                == GetAt(cube, face', row', col')
  {
  }

  /** Wildcard equality holds exactly when no position has two concrete,
      different colours (c2 at least as long as c1, or padded by DONT_CARE
      cells of c1). */
  lemma IgnoredIffNoClash(c1: seq<int>, c2: seq<int>)
    requires |c1| <= |c2|
    ensures IsEqualWithIgnored(c1, c2)
            <==> !exists i :: 0 <= i < |c1| && c1[i] != DONT_CARE && c2[i] != DONT_CARE && c1[i] != c2[i]
  {
  }

  /** Wildcard equality is reflexive, and symmetric on cubes of one size. */
  lemma IgnoredReflexiveSymmetric(c1: seq<int>, c2: seq<int>)
    ensures IsEqualWithIgnored(c1, c1)
    ensures |c1| == |c2| && IsEqualWithIgnored(c1, c2) ==> IsEqualWithIgnored(c2, c1)
  {
  }

  /** A cleared cube matches any cube, on either side. */
  lemma ClearedMatchesAll(cleared: seq<int>, c: seq<int>)
    requires forall i :: 0 <= i < |cleared| ==> cleared[i] == DONT_CARE
    ensures IsEqualWithIgnored(cleared, c)
    ensures |c| <= |cleared| ==> IsEqualWithIgnored(c, cleared)
  {
  }

  /** Exact equality implies wildcard equality. */
  lemma EqualImpliesIgnored(c1: seq<int>, c2: seq<int>)
    requires IsEqual(c1, c2)
    ensures IsEqualWithIgnored(c1, c2)
  {
  }

  // ---------------------------------------------------------------------
  // Face orders

  const ID: seq<int> := [0, 1, 2, 3, 4, 5, 6, 7, 8]

  /** Permuting by o1 and then by o2 is permuting by Compose(o1, o2). */
  function Compose(o1: seq<int>, o2: seq<int>): (o: seq<int>)
    requires IsOrder(o1) && IsOrder(o2)
    ensures IsOrder(o)
  {
    seq(9, k requires 0 <= k < 9 => o1[o2[k]])
  }

  /** The three lists `rotate_face` can use, as concrete values. */
  lemma FaceOrderValues()
    ensures FaceOrder(false, false) == [6, 3, 0, 7, 4, 1, 8, 5, 2]
    ensures FaceOrder(true, false) == [2, 5, 8, 1, 4, 7, 0, 3, 6]
    ensures FaceOrder(false, true) == [8, 7, 6, 5, 4, 3, 2, 1, 0]
    ensures FaceOrder(true, true) == ID
  {
  }

  // ---------------------------------------------------------------------
  // The common shape of a table rotation

  /** Two different faces, both avoided by the strip. */
  predicate Frame(idx: seq<int>, f1: int, f2: int) {
    0 <= f1 < 6 && 0 <= f2 < 6 && f1 != f2 && StripOk(idx, f1, f2)
  }

  predicate EffectArgs(s: seq<int>, idx: seq<int>, f1: int, o1: seq<int>, f2: int,
                       o2: seq<int>, off: int)
  {
    |s| == CELLS && Frame(idx, f1, f2) && IsOrder(o1) && IsOrder(o2) && 0 <= off < |idx|
  }

  /** Permute face f1 by o1, then face f2 by o2, then cycle the strip by off. */
  function Effect(s: seq<int>, idx: seq<int>, f1: int, o1: seq<int>, f2: int, o2: seq<int>,
                  off: int): (r: seq<int>)
    requires EffectArgs(s, idx, f1, o1, f2, o2, off)
    ensures |r| == CELLS
  {
    StripCycled(FacePermuted(FacePermuted(s, f1, o1), f2, o2), idx, off)
  }

  /** Where a cell of an effect comes from. */
  function Source(idx: seq<int>, f1: int, o1: seq<int>, f2: int, o2: seq<int>, off: int,
                  p: int): int
    requires Frame(idx, f1, f2) && IsOrder(o1) && IsOrder(o2) && 0 <= off < |idx|
  {
    if p in idx then idx[Back(Pos(idx, p), off, |idx|)]
    else if InFace(f1, p) then f1 * 9 + o1[p - f1 * 9]
    else if InFace(f2, p) then f2 * 9 + o2[p - f2 * 9]
    else p
  }

  lemma EffectAt(s: seq<int>, idx: seq<int>, f1: int, o1: seq<int>, f2: int, o2: seq<int>,
                 off: int, p: int)
    requires EffectArgs(s, idx, f1, o1, f2, o2, off) && 0 <= p < CELLS
    ensures 0 <= Source(idx, f1, o1, f2, o2, off, p) < CELLS
    ensures Effect(s, idx, f1, o1, f2, o2, off)[p] == s[Source(idx, f1, o1, f2, o2, off, p)]
  {
    var s1 := FacePermuted(s, f1, o1);
    var s2 := FacePermuted(s1, f2, o2);
    if p in idx {
      var q := idx[Back(Pos(idx, p), off, |idx|)];
      assert !InFace(f1, q) && !InFace(f2, q);
      assert s2[q] == s1[q] == s[q];
    } else if InFace(f1, p) {
      assert !InFace(f2, p);
      assert s2[p] == s1[p];
    } else if InFace(f2, p) {
      var q := f2 * 9 + o2[p - f2 * 9];
      assert !InFace(f1, q);
      assert s2[p] == s1[q] == s[q];
    }
  }

  /** In a strip without repeated cells, the position of cell idx[j] is j. */
  lemma PosOf(idx: seq<int>, j: int)
    requires Distinct(idx) && 0 <= j < |idx|
    ensures Pos(idx, idx[j]) == j
  {
  }

  function AddMod(a: int, b: int, n: int): int {
    if a + b < n then a + b else a + b - n
  }

  /** Following a cell back through two effects is following it back through
      their composition. */
  lemma SourceCompose(idx: seq<int>, f1: int, f2: int, o1: seq<int>, o2: seq<int>, a: int,
                      p1: seq<int>, p2: seq<int>, b: int, p: int)
    requires Frame(idx, f1, f2) && IsOrder(o1) && IsOrder(o2) && 0 <= a < |idx|
    requires IsOrder(p1) && IsOrder(p2) && 0 <= b < |idx| && 0 <= p < CELLS
    ensures Source(idx, f1, o1, f2, o2, a, Source(idx, f1, p1, f2, p2, b, p))
         == Source(idx, f1, Compose(o1, p1), f2, Compose(o2, p2), AddMod(a, b, |idx|), p)
  {
    var n := |idx|;
    if p in idx {
      var j := Back(Pos(idx, p), b, n);
      PosOf(idx, j);
      assert idx[j] in idx;
    } else if InFace(f1, p) {
      var q := f1 * 9 + p1[p - f1 * 9];
      assert InFace(f1, q);
      assert !(q in idx);
    } else if InFace(f2, p) {
      var q := f2 * 9 + p2[p - f2 * 9];
      assert InFace(f2, q) && !InFace(f1, q);
      assert !(q in idx);
    }
  }

  /** Two effects on the same frame compose into one. */
  lemma {:induction false} EffectCompose(s: seq<int>, idx: seq<int>, f1: int, f2: int,
                                         o1: seq<int>, o2: seq<int>, a: int,
                                         p1: seq<int>, p2: seq<int>, b: int)
    requires EffectArgs(s, idx, f1, o1, f2, o2, a)
    requires IsOrder(p1) && IsOrder(p2) && 0 <= b < |idx|
    ensures Effect(Effect(s, idx, f1, o1, f2, o2, a), idx, f1, p1, f2, p2, b)
         == Effect(s, idx, f1, Compose(o1, p1), f2, Compose(o2, p2), AddMod(a, b, |idx|))
  {
    var n := |idx|;
    var t := Effect(s, idx, f1, o1, f2, o2, a);
    var lhs := Effect(t, idx, f1, p1, f2, p2, b);
    var rhs := Effect(s, idx, f1, Compose(o1, p1), f2, Compose(o2, p2), AddMod(a, b, n));
    forall p | 0 <= p < CELLS
      ensures lhs[p] == rhs[p]
    {
      EffectAt(t, idx, f1, p1, f2, p2, b, p);
      EffectAt(s, idx, f1, Compose(o1, p1), f2, Compose(o2, p2), AddMod(a, b, n), p);
      EffectAt(s, idx, f1, o1, f2, o2, a, Source(idx, f1, p1, f2, p2, b, p));
      SourceCompose(idx, f1, f2, o1, o2, a, p1, p2, b, p);
    }
  }

  /** The identity orders with offset 0 change nothing. */
  lemma EffectIdentity(s: seq<int>, idx: seq<int>, f1: int, f2: int)
    requires EffectArgs(s, idx, f1, ID, f2, ID, 0)
    ensures Effect(s, idx, f1, ID, f2, ID, 0) == s
  {
    var t := Effect(s, idx, f1, ID, f2, ID, 0);
    forall p | 0 <= p < CELLS
      ensures t[p] == s[p]
    {
      EffectAt(s, idx, f1, ID, f2, ID, 0, p);
      SourceIdentity(idx, f1, f2, p);
    }
  }

  /** With the identity orders and offset 0, every cell comes from itself. */
  lemma SourceIdentity(idx: seq<int>, f1: int, f2: int, p: int)
    requires Frame(idx, f1, f2) && 0 <= p < CELLS
    ensures Source(idx, f1, ID, f2, ID, 0, p) == p
  {
    if p in idx {
      assert Back(Pos(idx, p), 0, |idx|) == Pos(idx, p);
    } else if InFace(f1, p) {
      assert ID[p - f1 * 9] == p - f1 * 9;
    } else if InFace(f2, p) {
      assert ID[p - f2 * 9] == p - f2 * 9;
    }
  }

  // ---------------------------------------------------------------------
  // Every table entry has that shape

  /** The order a face gets: a face the move does not turn keeps its cells. */
  function OrderOf(face: Option<int>, ccw: bool, twice: bool): (o: seq<int>)
    ensures IsOrder(o)
  {
    if face.Some? then FaceOrder(ccw, twice) else ID
  }

  /** The two faces of a base move's axis: the face it turns (or, for a
      slice, one of the faces beside it) and the opposite face. */
  function AxisFaces(b: int): (int, int) {
    if b == F || b == S || b == Z then (FRONT, BACK)
    else if b == B then (BACK, FRONT)
    else if b == R || b == X then (RIGHT, LEFT)
    else if b == L || b == M then (LEFT, RIGHT)
    else if b == D then (DOWN, UP)
    else (UP, DOWN)
  }

  /** m turns no face other than f1 and f2, which frame its strip. */
  predicate MoveFrame(m: Move, f1: int, f2: int) {
    && WellFormed(m)
    && Frame(m.indices, f1, f2)
    && (m.face.Some? ==> m.face.value == f1)
    && (m.ccwFace.Some? ==> m.ccwFace.value == f2)
  }

  /** The axis faces frame every table entry. */
  lemma AxisFacesFrame(b: int)
    requires IsBase(b)
    ensures MoveFrame(RotateData(b).value, AxisFaces(b).0, AxisFaces(b).1)
  {
    FStripOk(); BStripOk(); RStripOk(); LStripOk(); DStripOk(); UStripOk();
    MStripOk(); EStripOk(); SStripOk(); XStripOk(); YStripOk(); ZStripOk();
  }

  lemma FacePermutedIdentity(s: seq<int>, face: int)
    requires |s| == CELLS && 0 <= face < 6
    ensures FacePermuted(s, face, ID) == s
  {
  }

  /** The effect of a table entry, with the orders its faces get. */
  function MoveEffect(s: seq<int>, m: Move, f1: int, f2: int, ccw: bool, twice: bool): (r: seq<int>)
    requires |s| == CELLS && MoveFrame(m, f1, f2)
    ensures |r| == CELLS
  {
    Effect(s, m.indices, f1, OrderOf(m.face, ccw, twice), f2, OrderOf(m.ccwFace, !ccw, twice),
           StripOffset(|m.indices|, ccw, twice))
  }

  /** A table rotation is an effect on its frame. */
  lemma TurnedEffect(s: seq<int>, m: Move, f1: int, f2: int, ccw: bool, twice: bool)
    requires |s| == CELLS && MoveFrame(m, f1, f2)
    ensures Turned(s, m, ccw, twice) == MoveEffect(s, m, f1, f2, ccw, twice)
  {
    FacePermutedIdentity(s, f1);
    var s1 := FacePermuted(s, f1, OrderOf(m.face, ccw, twice));
    FacePermutedIdentity(s1, f2);
  }

  /** How the face orders of `rotate_face` compose. */
  lemma OrderFacts(face: Option<int>)
    ensures Compose(OrderOf(face, false, false), OrderOf(face, true, false)) == ID
    ensures Compose(OrderOf(face, true, false), OrderOf(face, false, false)) == ID
    ensures Compose(OrderOf(face, false, false), OrderOf(face, false, false)) == OrderOf(face, false, true)
    ensures Compose(OrderOf(face, false, true), OrderOf(face, false, false)) == OrderOf(face, true, false)
    ensures Compose(OrderOf(face, true, false), OrderOf(face, true, false)) == OrderOf(face, false, true)
    ensures Compose(OrderOf(face, false, true), OrderOf(face, false, true)) == ID
    ensures Compose(OrderOf(face, true, true), OrderOf(face, true, true)) == ID
    ensures Compose(ID, ID) == ID
  {
    FaceOrderValues();
    QuarterOrdersCancel();
    QuarterOrdersAdd();
    HalfOrderCancels();
  }

  /** The clockwise and counter-clockwise face orders undo each other. */
  lemma QuarterOrdersCancel()
    ensures Compose([6, 3, 0, 7, 4, 1, 8, 5, 2], [2, 5, 8, 1, 4, 7, 0, 3, 6]) == ID
    ensures Compose([2, 5, 8, 1, 4, 7, 0, 3, 6], [6, 3, 0, 7, 4, 1, 8, 5, 2]) == ID
  {
  }

  /** Two quarter turns make a half turn; three make a quarter the other way. */
  lemma QuarterOrdersAdd()
    ensures Compose([6, 3, 0, 7, 4, 1, 8, 5, 2], [6, 3, 0, 7, 4, 1, 8, 5, 2]) == [8, 7, 6, 5, 4, 3, 2, 1, 0]
    ensures Compose([8, 7, 6, 5, 4, 3, 2, 1, 0], [6, 3, 0, 7, 4, 1, 8, 5, 2]) == [2, 5, 8, 1, 4, 7, 0, 3, 6]
    ensures Compose([2, 5, 8, 1, 4, 7, 0, 3, 6], [2, 5, 8, 1, 4, 7, 0, 3, 6]) == [8, 7, 6, 5, 4, 3, 2, 1, 0]
  {
  }

  /** A half turn undoes itself; so does the identity. */
  lemma HalfOrderCancels()
    ensures Compose([8, 7, 6, 5, 4, 3, 2, 1, 0], [8, 7, 6, 5, 4, 3, 2, 1, 0]) == ID
    ensures Compose(ID, ID) == ID
  {
  }

  /** A cell that a table rotation changes lies in its strip or on a face
      that it turns. */
  lemma TurnedChangesOnly(s: seq<int>, m: Move, f1: int, f2: int, ccw: bool, twice: bool, p: int)
    requires |s| == CELLS && MoveFrame(m, f1, f2) && 0 <= p < CELLS
    requires Turned(s, m, ccw, twice)[p] != s[p]
    ensures p in m.indices || m.face == Some(p / 9) || m.ccwFace == Some(p / 9)
  {
    TurnedEffect(s, m, f1, f2, ccw, twice);
    var o1 := OrderOf(m.face, ccw, twice);
    var o2 := OrderOf(m.ccwFace, !ccw, twice);
    EffectAt(s, m.indices, f1, o1, f2, o2, StripOffset(|m.indices|, ccw, twice), p);
    if !(p in m.indices) && InFace(f1, p) {
      assert p / 9 == f1;
    } else if !(p in m.indices) && InFace(f2, p) {
      assert p / 9 == f2;
    }
  }

  /** A quarter turn and the opposite quarter turn cancel, in either order. */
  lemma {:induction false} TurnedInverse(s: seq<int>, m: Move, f1: int, f2: int, ccw: bool)
    requires |s| == CELLS && MoveFrame(m, f1, f2)
    ensures Turned(Turned(s, m, ccw, false), m, !ccw, false) == s
  {
    var n := |m.indices|;
    var t := Turned(s, m, ccw, false);
    TurnedEffect(s, m, f1, f2, ccw, false);
    TurnedEffect(t, m, f1, f2, !ccw, false);
    EffectCompose(s, m.indices, f1, f2,
                  OrderOf(m.face, ccw, false), OrderOf(m.ccwFace, !ccw, false), StripOffset(n, ccw, false),
                  OrderOf(m.face, !ccw, false), OrderOf(m.ccwFace, ccw, false), StripOffset(n, !ccw, false));
    OrderFacts(m.face);
    OrderFacts(m.ccwFace);
    assert n == 4 * (n / 4);
    assert AddMod(StripOffset(n, ccw, false), StripOffset(n, !ccw, false), n) == 0;
    EffectIdentity(s, m.indices, f1, f2);
  }

  /** Two clockwise quarter turns of a table entry make a half-turn effect:
      the turned face gets the half-turn order and the strip moves by half;
      the counter-turned face gets the half-turn order too. */
  lemma {:induction false} TurnedTwoQuarters(s: seq<int>, m: Move, f1: int, f2: int)
    requires |s| == CELLS && MoveFrame(m, f1, f2)
    ensures var n := |m.indices|;
            Turned(Turned(s, m, false, false), m, false, false)
            == Effect(s, m.indices, f1, OrderOf(m.face, false, true), f2,
                      OrderOf(m.ccwFace, false, true), StripOffset(n, false, true))
  {
    var n := |m.indices|;
    var o1 := OrderOf(m.face, false, false);
    var o2 := OrderOf(m.ccwFace, true, false);
    var q := StripOffset(n, false, false);
    var t := Turned(s, m, false, false);
    TurnedEffect(s, m, f1, f2, false, false);
    TurnedEffect(t, m, f1, f2, false, false);
    assert t == Effect(s, m.indices, f1, o1, f2, o2, q);
    EffectCompose(s, m.indices, f1, f2, o1, o2, q, o1, o2, q);
    OrderTwice(m.face);
    OrderTwice(m.ccwFace);
    assert n == 4 * (n / 4);
    assert AddMod(q, q, n) == StripOffset(n, false, true);
  }

  /** Two quarter turns of a face, either way, make its half turn. */
  lemma OrderTwice(face: Option<int>)
    ensures Compose(OrderOf(face, false, false), OrderOf(face, false, false)) == OrderOf(face, false, true)
    ensures Compose(OrderOf(face, true, false), OrderOf(face, true, false)) == OrderOf(face, false, true)
  {
    OrderFacts(face);
  }

  /** Four clockwise quarter turns restore the cube. */
  lemma {:induction false} TurnedPeriod(s: seq<int>, m: Move, f1: int, f2: int)
    requires |s| == CELLS && MoveFrame(m, f1, f2)
    ensures Turned(Turned(Turned(Turned(s, m, false, false), m, false, false), m, false, false),
                   m, false, false) == s
  {
    var n := |m.indices|;
    var t2 := Turned(Turned(s, m, false, false), m, false, false);
    TurnedTwoQuarters(s, m, f1, f2);
    TurnedTwoQuarters(t2, m, f1, f2);
    OrderFacts(m.face);
    OrderFacts(m.ccwFace);
    assert n == 4 * (n / 4);
    EffectCompose(s, m.indices, f1, f2,
                  OrderOf(m.face, false, true), OrderOf(m.ccwFace, false, true), StripOffset(n, false, true),
                  OrderOf(m.face, false, true), OrderOf(m.ccwFace, false, true), StripOffset(n, false, true));
    assert AddMod(StripOffset(n, false, true), StripOffset(n, false, true), n) == 0;
    EffectIdentity(s, m.indices, f1, f2);
  }

  /** Two double turns restore the cube. */
  lemma {:induction false} TurnedDoublePeriod(s: seq<int>, m: Move, f1: int, f2: int)
    requires |s| == CELLS && MoveFrame(m, f1, f2)
    ensures Turned(Turned(s, m, false, true), m, false, true) == s
  {
    var n := |m.indices|;
    var t := Turned(s, m, false, true);
    TurnedEffect(s, m, f1, f2, false, true);
    TurnedEffect(t, m, f1, f2, false, true);
    EffectCompose(s, m.indices, f1, f2,
                  OrderOf(m.face, false, true), OrderOf(m.ccwFace, true, true), StripOffset(n, false, true),
                  OrderOf(m.face, false, true), OrderOf(m.ccwFace, true, true), StripOffset(n, false, true));
    OrderFacts(m.face);
    OrderFacts(m.ccwFace);
    assert n == 4 * (n / 4);
    assert AddMod(StripOffset(n, false, true), StripOffset(n, false, true), n) == 0;
    EffectIdentity(s, m.indices, f1, f2);
  }

  /** Without a counter-turned face, a double turn is two quarter turns. */
  lemma TurnedDoubleSplit(s: seq<int>, m: Move, f1: int, f2: int)
    requires |s| == CELLS && MoveFrame(m, f1, f2) && m.ccwFace.None?
    ensures Turned(s, m, false, true) == Turned(Turned(s, m, false, false), m, false, false)
  {
    TurnedTwoQuarters(s, m, f1, f2);
    TurnedEffect(s, m, f1, f2, false, true);
  }

  /** The buffer in which every cell holds its own index. */
  function Numbered(): (s: seq<int>)
    ensures |s| == CELLS && forall i :: 0 <= i < CELLS ==> s[i] == i
  {
    seq(CELLS, i => i)
  }

  /** With a counter-turned face, a double turn leaves that face alone, while
      two quarter turns give it a half turn: cell 0 of that face tells them
      apart. */
  lemma TurnedDoubleSplitFails(m: Move, f1: int, f2: int)
    requires MoveFrame(m, f1, f2) && m.ccwFace.Some?
    ensures Turned(Numbered(), m, false, true)[f2 * 9]
         != Turned(Turned(Numbered(), m, false, false), m, false, false)[f2 * 9]
  {
    var s := Numbered();
    var n := |m.indices|;
    TurnedTwoQuarters(s, m, f1, f2);
    TurnedEffect(s, m, f1, f2, false, true);
    FaceOrderValues();
    var p := f2 * 9;
    assert !(p in m.indices);
    EffectAt(s, m.indices, f1, OrderOf(m.face, false, true), f2, OrderOf(m.ccwFace, false, true),
             StripOffset(n, false, true), p);
    EffectAt(s, m.indices, f1, OrderOf(m.face, false, true), f2, OrderOf(m.ccwFace, true, true),
             StripOffset(n, false, true), p);
  }

  // ---------------------------------------------------------------------
  // Effects move cells around without copying or losing any

  /** Every order `rotate_face` uses sends different cells to different places. */
  lemma OrderOfDistinct(face: Option<int>, ccw: bool, twice: bool)
    ensures Distinct(OrderOf(face, ccw, twice))
  {
    OrderFacts(face);
    var o := OrderOf(face, ccw, twice);
    var undo := if twice then o else OrderOf(face, !ccw, false);
    LeftInverseDistinct(undo, o);
  }

  /** An order that some order undoes is one-to-one. */
  lemma LeftInverseDistinct(undo: seq<int>, o: seq<int>)
    requires IsOrder(undo) && IsOrder(o) && Compose(undo, o) == ID
    ensures Distinct(o)
  {
    forall i, j | 0 <= i < j < 9
      ensures o[i] != o[j]
    {
      assert Compose(undo, o)[i] == i && Compose(undo, o)[j] == j;
    }
  }

  /** Back is one-to-one for a fixed offset. */
  lemma BackInjective(j1: int, j2: int, off: int, n: int)
    requires 0 <= j1 < n && 0 <= j2 < n && 0 <= off < n && j1 != j2
    ensures Back(j1, off, n) != Back(j2, off, n)
  {
  }

  /** Different cells of an effect come from different cells. */
  lemma SourceDistinct(idx: seq<int>, f1: int, o1: seq<int>, f2: int, o2: seq<int>, off: int,
                       p: int, q: int)
    requires Frame(idx, f1, f2) && IsOrder(o1) && IsOrder(o2) && 0 <= off < |idx|
    requires Distinct(o1) && Distinct(o2)
    requires 0 <= p < CELLS && 0 <= q < CELLS && p != q
    ensures Source(idx, f1, o1, f2, o2, off, p) != Source(idx, f1, o1, f2, o2, off, q)
  {
    var n := |idx|;
    var sp := Source(idx, f1, o1, f2, o2, off, p);
    var sq := Source(idx, f1, o1, f2, o2, off, q);
    if p in idx && q in idx {
      BackInjective(Pos(idx, p), Pos(idx, q), off, n);
    } else if p in idx {
      assert !InFace(f1, sp) && !InFace(f2, sp);
      if !InFace(f1, q) && !InFace(f2, q) {
        assert sq == q;
      }
    } else if q in idx {
      assert !InFace(f1, sq) && !InFace(f2, sq);
      if !InFace(f1, p) && !InFace(f2, p) {
        assert sp == p;
      }
    } else if InFace(f1, p) && InFace(f1, q) {
      assert o1[p - f1 * 9] != o1[q - f1 * 9];
    } else if InFace(f2, p) && InFace(f2, q) && !InFace(f1, p) && !InFace(f1, q) {
      assert o2[p - f2 * 9] != o2[q - f2 * 9];
    }
  }

  /** The index map of an effect: cell p receives old cell SourceMap(...)[p]. */
  function SourceMap(idx: seq<int>, f1: int, o1: seq<int>, f2: int, o2: seq<int>, off: int)
    : (sigma: seq<int>)
    requires Frame(idx, f1, f2) && IsOrder(o1) && IsOrder(o2) && 0 <= off < |idx|
    ensures |sigma| == CELLS
  {
    seq(CELLS, p requires 0 <= p < CELLS => Source(idx, f1, o1, f2, o2, off, p))
  }

  /** An effect with one-to-one face orders keeps the multiset of cells. */
  lemma EffectPermutes(s: seq<int>, idx: seq<int>, f1: int, o1: seq<int>, f2: int,
                       o2: seq<int>, off: int)
    requires EffectArgs(s, idx, f1, o1, f2, o2, off) && Distinct(o1) && Distinct(o2)
    ensures multiset(Effect(s, idx, f1, o1, f2, o2, off)) == multiset(s)
  {
    var t := Effect(s, idx, f1, o1, f2, o2, off);
    var sigma := SourceMap(idx, f1, o1, f2, o2, off);
    forall i, j | 0 <= i < j < |sigma|
      ensures sigma[i] != sigma[j]
    {
      SourceDistinct(idx, f1, o1, f2, o2, off, i, j);
    }
    forall p | 0 <= p < |t|
      ensures 0 <= sigma[p] < |s| && t[p] == s[sigma[p]]
    {
      EffectAt(s, idx, f1, o1, f2, o2, off, p);
    }
    Counting.PermutedMultiset(s, t, sigma);
  }

  // ---------------------------------------------------------------------
  // The laws of `rotate`

  /** `rotate` looks up the same base as `base_rotation`. */
  lemma DecodedBase(code: int)
    requires code != 0
    ensures var twice := code % 2 == 0;
            var rot := if twice then Abs(code / 2) else code;
            Abs(rot) == BaseRotation(code)
  {
  }

  /** Code 0 changes nothing, nor does a code whose base has no table entry. */
  lemma RotatedNoOp(s: seq<int>, code: int)
    requires |s| == CELLS
    requires code == 0 || !IsBase(BaseRotation(code))
    ensures Rotated(s, code) == s
  {
    if code != 0 {
      DecodedBase(code);
    }
  }

  /** A cell that `rotate` changes lies in the strip of the code's base or
      on a face that the base turns. */
  lemma RotatedChangesOnly(s: seq<int>, code: int, p: int)
    requires |s| == CELLS && 0 <= p < CELLS
    requires Rotated(s, code)[p] != s[p]
    ensures code != 0 && IsBase(BaseRotation(code))
    ensures var m := RotateData(BaseRotation(code)).value;
            p in m.indices || m.face == Some(p / 9) || m.ccwFace == Some(p / 9)
  {
    var b := BaseRotation(code);
    if code == 0 || !IsBase(b) {
      RotatedNoOp(s, code);
    } else {
      DecodedBase(code);
      var twice := code % 2 == 0;
      var rot := if twice then Abs(code / 2) else code;
      AxisFacesFrame(b);
      TurnedChangesOnly(s, RotateData(b).value, AxisFaces(b).0, AxisFaces(b).1, rot < 0, twice, p);
    }
  }

  /** `rotate` keeps the multiset of colours: it only moves cells. */
  lemma RotatedPermutes(s: seq<int>, code: int)
    requires |s| == CELLS
    ensures multiset(Rotated(s, code)) == multiset(s)
  {
    var b := BaseRotation(code);
    if code == 0 || !IsBase(b) {
      RotatedNoOp(s, code);
    } else {
      DecodedBase(code);
      var twice := code % 2 == 0;
      var rot := if twice then Abs(code / 2) else code;
      var ccw := rot < 0;
      var m := RotateData(b).value;
      AxisFacesFrame(b);
      TurnedEffect(s, m, AxisFaces(b).0, AxisFaces(b).1, ccw, twice);
      OrderOfDistinct(m.face, ccw, twice);
      OrderOfDistinct(m.ccwFace, !ccw, twice);
      EffectPermutes(s, m.indices, AxisFaces(b).0, OrderOf(m.face, ccw, twice),
                     AxisFaces(b).1, OrderOf(m.ccwFace, !ccw, twice), StripOffset(|m.indices|, ccw, twice));
    }
  }

  /** The four codes a base move takes, decoded as `rotate` decodes them. */
  lemma RotatedCodes(s: seq<int>, b: int)
    requires |s| == CELLS && IsBase(b)
    ensures Rotated(s, b) == Turned(s, RotateData(b).value, false, false)
    ensures Rotated(s, -b) == Turned(s, RotateData(b).value, true, false)
    ensures Rotated(s, 2 * b) == Turned(s, RotateData(b).value, false, true)
    ensures Rotated(s, -2 * b) == Turned(s, RotateData(b).value, false, true)
  {
    RotatedDecodes(s, b, b, false, false);
    RotatedDecodes(s, -b, b, true, false);
    assert (2 * b) % 2 == 0 && (2 * b) / 2 == b;
    RotatedDecodes(s, 2 * b, b, false, true);
    assert (-2 * b) % 2 == 0 && (-2 * b) / 2 == -b;
    RotatedDecodes(s, -2 * b, b, false, true);
  }

  /** A code that `rotate` decodes to base b, direction ccw and doubling
      twice is the table entry of b turned that way. */
  lemma RotatedDecodes(s: seq<int>, code: int, b: int, ccw: bool, twice: bool)
    requires |s| == CELLS && IsBase(b) && code != 0
    requires twice == (code % 2 == 0)
    requires var rot := if twice then Abs(code / 2) else code;
             Abs(rot) == b && ccw == (rot < 0)
    ensures Rotated(s, code) == Turned(s, RotateData(b).value, ccw, twice)
  {
  }

  /** `rotate(b)` and `rotate(-b)` undo each other. */
  lemma InverseLaw(s: seq<int>, b: int)
    requires |s| == CELLS && IsBase(b)
    ensures Rotated(Rotated(s, b), -b) == s
    ensures Rotated(Rotated(s, -b), b) == s
  {
    AxisFacesFrame(b);
    var m := RotateData(b).value;
    RotatedCodes(s, b);
    RotatedCodes(Rotated(s, b), b);
    RotatedCodes(Rotated(s, -b), b);
    TurnedInverse(s, m, AxisFaces(b).0, AxisFaces(b).1, false);
    TurnedInverse(s, m, AxisFaces(b).0, AxisFaces(b).1, true);
  }

  /** Four applications of `rotate(b)` restore the cube. */
  lemma PeriodLaw(s: seq<int>, b: int)
    requires |s| == CELLS && IsBase(b)
    ensures Applied(s, [b, b, b, b]) == s
  {
    AxisFacesFrame(b);
    var m := RotateData(b).value;
    var s1 := Rotated(s, b);
    var s2 := Rotated(s1, b);
    var s3 := Rotated(s2, b);
    AppliedFour(s, b);
    RotatedDecodes(s, b, b, false, false);
    RotatedDecodes(s1, b, b, false, false);
    RotatedDecodes(s2, b, b, false, false);
    RotatedDecodes(s3, b, b, false, false);
    TurnedPeriod(s, m, AxisFaces(b).0, AxisFaces(b).1);
  }

  /** Four rotations by the same code, one after another. */
  lemma AppliedFour(s: seq<int>, c: int)
    requires |s| == CELLS
    ensures Applied(s, [c, c, c, c]) == Rotated(Rotated(Rotated(Rotated(s, c), c), c), c)
  {
    AppliedSnoc(s, [], c);
    AppliedSnoc(s, [c], c);
    AppliedSnoc(s, [c, c], c);
    AppliedSnoc(s, [c, c, c], c);
    assert [] + [c] == [c] && [c] + [c] == [c, c];
    assert [c, c] + [c] == [c, c, c] && [c, c, c] + [c] == [c, c, c, c];
  }

  /** Two applications of `rotate(2b)` restore the cube. */
  lemma DoublePeriodLaw(s: seq<int>, b: int)
    requires |s| == CELLS && IsBase(b)
    ensures Rotated(Rotated(s, 2 * b), 2 * b) == s
  {
    AxisFacesFrame(b);
    RotatedCodes(s, b);
    RotatedCodes(Rotated(s, 2 * b), b);
    TurnedDoublePeriod(s, RotateData(b).value, AxisFaces(b).0, AxisFaces(b).1);
  }

  /** The whole-cube rotations are exactly the entries with a counter-turned
      face. */
  lemma CounterTurnedBases(b: int)
    requires IsBase(b)
    ensures RotateData(b).value.ccwFace.Some? <==> b == X || b == Y || b == Z
  {
  }

  /** `rotate(2b)` is `rotate(b)` twice for the face and slice moves; for
      X, Y and Z it is not, because the double turn leaves the counter-turned
      face as it was. */
  lemma DoubleLaw(b: int)
    requires IsBase(b)
    ensures (forall s :: |s| == CELLS ==> Rotated(s, 2 * b) == Rotated(Rotated(s, b), b))
            <==> !(b == X || b == Y || b == Z)
  {
    AxisFacesFrame(b);
    CounterTurnedBases(b);
    var m := RotateData(b).value;
    var (f1, f2) := AxisFaces(b);
    if m.ccwFace.None? {
      forall s | |s| == CELLS
        ensures Rotated(s, 2 * b) == Rotated(Rotated(s, b), b)
      {
        RotatedCodes(s, b);
        RotatedCodes(Rotated(s, b), b);
        TurnedDoubleSplit(s, m, f1, f2);
      }
    } else {
      var s := Numbered();
      RotatedCodes(s, b);
      RotatedCodes(Rotated(s, b), b);
      TurnedDoubleSplitFails(m, f1, f2);
      assert Rotated(s, 2 * b) != Rotated(Rotated(s, b), b);
    }
  }

  // ---------------------------------------------------------------------
  // The whole-cube double turn as evidently intended

  /** A double turn gives every face it touches the half-turn list, whatever
      the direction; quarter turns are as in `rotate_face`. */
  function IntendedOrder(ccw: bool, twice: bool): (o: seq<int>)
    ensures IsOrder(o)
  {
    if twice then FaceOrder(false, true) else FaceOrder(ccw, false)
  }

  function IntendedOrderOf(face: Option<int>, ccw: bool, twice: bool): (o: seq<int>)
    ensures IsOrder(o)
  {
    if face.Some? then IntendedOrder(ccw, twice) else ID
  }

  /** `Turned` with the counter-turned face of a double turn given a half
      turn. */
  function TurnedIntended(s: seq<int>, m: Move, ccw: bool, twice: bool): (r: seq<int>)
    requires |s| == CELLS && WellFormed(m)
    ensures |r| == CELLS
  {
    var s1 := if m.face.Some? then FacePermuted(s, m.face.value, IntendedOrder(ccw, twice)) else s;
    var s2 := if m.ccwFace.Some? then FacePermuted(s1, m.ccwFace.value, IntendedOrder(!ccw, twice)) else s1;
    StripCycled(s2, m.indices, StripOffset(|m.indices|, ccw, twice))
  }

  /** `Rotated` with `TurnedIntended` in place of `Turned`. */
  function RotatedIntended(s: seq<int>, code: int): (r: seq<int>)
    requires |s| == CELLS
    ensures |r| == CELLS
  {
    if code == 0 then s
    else
      var twice := code % 2 == 0;
      var rot := if twice then Abs(code / 2) else code;
      var ccw := rot < 0;
      match RotateData(Abs(rot))
      case None => s
      case Some(m) => TurnedIntended(s, m, ccw, twice)
  }

  lemma TurnedIntendedEffect(s: seq<int>, m: Move, f1: int, f2: int, ccw: bool, twice: bool)
    requires |s| == CELLS && MoveFrame(m, f1, f2)
    ensures TurnedIntended(s, m, ccw, twice)
         == Effect(s, m.indices, f1, IntendedOrderOf(m.face, ccw, twice), f2,
                   IntendedOrderOf(m.ccwFace, !ccw, twice), StripOffset(|m.indices|, ccw, twice))
  {
    FacePermutedIdentity(s, f1);
    var s1 := FacePermuted(s, f1, IntendedOrderOf(m.face, ccw, twice));
    FacePermutedIdentity(s1, f2);
  }

  /** The intended rotation differs from `rotate` only on the counter-turned
      face of a double turn. */
  lemma TurnedIntendedAgrees(s: seq<int>, m: Move, f1: int, f2: int, ccw: bool, twice: bool)
    requires |s| == CELLS && MoveFrame(m, f1, f2)
    requires twice ==> !ccw && m.ccwFace.None?
    ensures TurnedIntended(s, m, ccw, twice) == Turned(s, m, ccw, twice)
  {
    FaceOrderValues();
    TurnedIntendedEffect(s, m, f1, f2, ccw, twice);
    TurnedEffect(s, m, f1, f2, ccw, twice);
  }

  /** Corrected: `rotate(2b)` is `rotate(b)` twice for every base b,
      including X, Y and Z. */
  lemma IntendedDoubleLaw(s: seq<int>, b: int)
    requires |s| == CELLS && IsBase(b)
    ensures RotatedIntended(s, 2 * b) == RotatedIntended(RotatedIntended(s, b), b)
  {
    AxisFacesFrame(b);
    var m := RotateData(b).value;
    var (f1, f2) := AxisFaces(b);
    assert (2 * b) % 2 == 0 && (2 * b) / 2 == b;
    var t := RotatedIntended(s, b);
    assert t == TurnedIntended(s, m, false, false);
    assert RotatedIntended(t, b) == TurnedIntended(t, m, false, false);
    assert RotatedIntended(s, 2 * b) == TurnedIntended(s, m, false, true);
    TurnedIntendedDouble(s, m, f1, f2);
  }

  /** A corrected double turn of a table entry is two clockwise quarter
      turns. */
  lemma TurnedIntendedDouble(s: seq<int>, m: Move, f1: int, f2: int)
    requires |s| == CELLS && MoveFrame(m, f1, f2)
    ensures TurnedIntended(s, m, false, true)
         == TurnedIntended(TurnedIntended(s, m, false, false), m, false, false)
  {
    var t := TurnedIntended(s, m, false, false);
    TurnedIntendedAgrees(s, m, f1, f2, false, false);
    TurnedIntendedAgrees(t, m, f1, f2, false, false);
    TurnedTwoQuarters(s, m, f1, f2);
    TurnedIntendedEffect(s, m, f1, f2, false, true);
    FaceOrderValues();
    assert IntendedOrderOf(m.face, false, true) == OrderOf(m.face, false, true);
    assert IntendedOrderOf(m.ccwFace, true, true) == OrderOf(m.ccwFace, false, true);
  }

  /** The correction changes nothing but the whole-cube double turns. */
  lemma IntendedAgrees(s: seq<int>, code: int)
    requires |s| == CELLS
    requires !(code % 2 == 0 && (BaseRotation(code) == X || BaseRotation(code) == Y || BaseRotation(code) == Z))
    ensures RotatedIntended(s, code) == Rotated(s, code)
  {
    var b := BaseRotation(code);
    if code != 0 && IsBase(b) {
      DecodedBase(code);
      var twice := code % 2 == 0;
      var rot := if twice then Abs(code / 2) else code;
      AxisFacesFrame(b);
      CounterTurnedBases(b);
      assert twice ==> rot >= 0;
      TurnedIntendedAgrees(s, RotateData(b).value, AxisFaces(b).0, AxisFaces(b).1, rot < 0, twice);
    } else if code != 0 {
      DecodedBase(code);
    }
  }
}
