/**
 * The cube state engine of modules/rubik.js.
 *
 * A cube is a buffer of 54 colour values, 9 per face, faces in the order
 * Up, Left, Front, Right, Back, Down; cell (face, row, col) lives at index
 * face * 9 + row * 3 + col.  A rotation is a signed integer code: an odd base
 * code b names the move, -b is its counter-clockwise form and 2 * b its
 * half turn.  Each base move is a table entry (`rotate_data`) naming at most
 * two faces to turn and a strip of cell indices to cycle.
 *
 * The methods work in place on an `array<int>` as the source does; each is
 * specified by a function on `seq<int>` (`Rotated`, `FaceTurned`,
 * `StripCycled`, `Create`), and the laws of those functions are proved in
 * module RubikLaws.
 */
module Rubik {
  import opened Wrappers

  // Faces, in buffer order.
  const UP := 0
  const LEFT := 1
  const FRONT := 2
  const RIGHT := 3
  const BACK := 4
  const DOWN := 5

  const CELLS := 54

  // Colours. DONT_CARE is the wildcard of partially specified cubes.
  const DONT_CARE := 0
  const WHITE := 1
  const ORANGE := 2
  const GREEN := 3
  const RED := 4
  const BLUE := 5
  const YELLOW := 6

  // Base rotation codes.
  const F := 1
  const B := 3
  const R := 5
  const L := 7
  const D := 9
  const U := 11
  const M := 13
  const E := 15
  const S := 17
  const X := 19
  const Y := 21
  const Z := 23

  /** The centre colours `create()` uses when none are given. */
  const DEFAULT_CENTERS: seq<int> := [WHITE, ORANGE, GREEN, RED, BLUE, YELLOW]

  /** One entry of `rotate_data`: the move's letter, the face turned with the
      move, the face turned against it (whole-cube rotations only), and the
      strip of cells cycled by a quarter of its length per quarter turn. */
  datatype Move = Move(name: char, face: Option<int>, ccwFace: Option<int>, indices: seq<int>)

  predicate IsBase(b: int) {
    1 <= b <= Z && b % 2 == 1
  }

  function Abs(x: int): nat {
    if x < 0 then -x else x
  }

  predicate InFace(face: int, p: int) {
    face * 9 <= p < face * 9 + 9
  }

  predicate Distinct(s: seq<int>) {
    forall i, j :: 0 <= i < j < |s| ==> s[i] != s[j]
  }

  /** A strip table: distinct cells of the buffer, a whole number of quarters. */
  predicate IsStrip(idx: seq<int>) {
    && |idx| > 0
    && |idx| % 4 == 0
    && Distinct(idx)
    && forall i :: 0 <= i < |idx| ==> 0 <= idx[i] < CELLS
  }

  /** The strip does not touch any cell of `face`. */
  predicate AvoidsFace(idx: seq<int>, face: int) {
    forall i :: 0 <= i < |idx| ==> !InFace(face, idx[i])
  }

  predicate WellFormed(m: Move) {
    && IsStrip(m.indices)
    && (m.face.Some? ==> 0 <= m.face.value < 6 && AvoidsFace(m.indices, m.face.value))
    && (m.ccwFace.Some? ==> 0 <= m.ccwFace.value < 6 && AvoidsFace(m.indices, m.ccwFace.value))
    && (m.ccwFace.Some? ==> m.face.Some? && m.face.value != m.ccwFace.value)
  }

  // The strip tables of `rotate_data`, one per base move.
  // U6 U7 U8, R0 R3 R6, D2 D1 D0, L8 L5 L2
  const F_STRIP: seq<int> := [6, 7, 8, 27, 30, 33, 47, 46, 45, 17, 14, 11]
  // U2 U1 U0, L0 L3 L6, D6 D7 D8, R8 R5 R2
  const B_STRIP: seq<int> := [2, 1, 0, 9, 12, 15, 51, 52, 53, 35, 32, 29]
  // U8 U5 U2, B0 B3 B6, D8 D5 D2, F8 F5 F2
  const R_STRIP: seq<int> := [8, 5, 2, 36, 39, 42, 53, 50, 47, 26, 23, 20]
  // U0 U3 U6, F0 F3 F6, D0 D3 D6, B8 B5 B2
  const L_STRIP: seq<int> := [0, 3, 6, 18, 21, 24, 45, 48, 51, 44, 41, 38]
  // F6 F7 F8, R6 R7 R8, B6 B7 B8, L6 L7 L8
  const D_STRIP: seq<int> := [24, 25, 26, 33, 34, 35, 42, 43, 44, 15, 16, 17]
  // B2 B1 B0, R2 R1 R0, F2 F1 F0, L2 L1 L0
  const U_STRIP: seq<int> := [38, 37, 36, 29, 28, 27, 20, 19, 18, 11, 10, 9]
  // U1 U4 U7, F1 F4 F7, D1 D4 D7, B7 B4 B1
  const M_STRIP: seq<int> := [1, 4, 7, 19, 22, 25, 46, 49, 52, 43, 40, 37]
  // F3 F4 F5, R3 R4 R5, B3 B4 B5, L3 L4 L5
  const E_STRIP: seq<int> := [21, 22, 23, 30, 31, 32, 39, 40, 41, 12, 13, 14]
  // U3 U4 U5, R1 R4 R7, D5 D4 D3, L7 L4 L1
  const S_STRIP: seq<int> := [3, 4, 5, 28, 31, 34, 50, 49, 48, 16, 13, 10]
  // U0..U8, F0..F8, D0..D8, B8..B0
  const X_STRIP: seq<int> :=
    [0, 1, 2, 3, 4, 5, 6, 7, 8] + [18, 19, 20, 21, 22, 23, 24, 25, 26]
    + [45, 46, 47, 48, 49, 50, 51, 52, 53] + [44, 43, 42, 41, 40, 39, 38, 37, 36]
  // L0..L8, F0..F8, R0..R8, B0..B8
  const Y_STRIP: seq<int> :=
    [9, 10, 11, 12, 13, 14, 15, 16, 17] + [18, 19, 20, 21, 22, 23, 24, 25, 26]
    + [27, 28, 29, 30, 31, 32, 33, 34, 35] + [36, 37, 38, 39, 40, 41, 42, 43, 44]
  // L0..L8, U2 U5 U8 U1 U4 U7 U0 U3 U6, R8..R0, D6 D3 D0 D7 D4 D1 D8 D5 D2
  const Z_STRIP: seq<int> :=
    [9, 10, 11, 12, 13, 14, 15, 16, 17] + [2, 5, 8, 1, 4, 7, 0, 3, 6]
    + [35, 34, 33, 32, 31, 30, 29, 28, 27] + [51, 48, 45, 52, 49, 46, 53, 50, 47]

  /** Every strip lies in the buffer, has no repeated cell, and avoids both
      faces of the move's axis (for each table, checked cell by cell). */
  predicate StripOk(idx: seq<int>, face1: int, face2: int) {
    IsStrip(idx) && AvoidsFace(idx, face1) && AvoidsFace(idx, face2)
  }

  lemma FStripOk()
    ensures StripOk(F_STRIP, FRONT, BACK)
  {}

  lemma BStripOk()
    ensures StripOk(B_STRIP, BACK, FRONT)
  {}

  lemma RStripOk()
    ensures StripOk(R_STRIP, RIGHT, LEFT)
  {}

  lemma LStripOk()
    ensures StripOk(L_STRIP, LEFT, RIGHT)
  {}

  lemma DStripOk()
    ensures StripOk(D_STRIP, DOWN, UP)
  {}

  lemma UStripOk()
    ensures StripOk(U_STRIP, UP, DOWN)
  {}

  lemma MStripOk()
    ensures StripOk(M_STRIP, LEFT, RIGHT)
  {}

  lemma EStripOk()
    ensures StripOk(E_STRIP, UP, DOWN)
  {}

  lemma SStripOk()
    ensures StripOk(S_STRIP, FRONT, BACK)
  {}

  /** Every cell of `block` is on `face`. */
  predicate OnFace(block: seq<int>, face: int) {
    forall i :: 0 <= i < |block| ==> InFace(face, block[i])
  }

  lemma ConcatDistinct(a: seq<int>, b: seq<int>)
    requires Distinct(a) && Distinct(b)
    requires forall i, j :: 0 <= i < |a| && 0 <= j < |b| ==> a[i] != b[j]
    ensures Distinct(a + b)
  {
    var s := a + b;
    forall i, j | 0 <= i < j < |s|
      ensures s[i] != s[j]
    {
      if j < |a| {
        assert s[i] == a[i] && s[j] == a[j];
      } else if i >= |a| {
        assert s[i] == b[i - |a|] && s[j] == b[j - |a|];
      } else {
        assert s[i] == a[i] && s[j] == b[j - |a|];
      }
    }
  }

  /** A whole-cube strip is four 9-cell blocks, each without repeats and
      each on its own face; such a strip avoids every other face. */
  lemma FourBlocksOk(a: seq<int>, b: seq<int>, c: seq<int>, d: seq<int>,
                     fa: int, fb: int, fc: int, fd: int, g1: int, g2: int)
    requires Distinct(a) && Distinct(b) && Distinct(c) && Distinct(d) && |a| == 9
    requires OnFace(a, fa) && OnFace(b, fb) && OnFace(c, fc) && OnFace(d, fd)
    requires 0 <= fa < 6 && 0 <= fb < 6 && 0 <= fc < 6 && 0 <= fd < 6
    requires fa != fb && fa != fc && fa != fd && fb != fc && fb != fd && fc != fd
    requires g1 != fa && g1 != fb && g1 != fc && g1 != fd
    requires g2 != fa && g2 != fb && g2 != fc && g2 != fd
    requires (|a| + |b| + |c| + |d|) % 4 == 0
    ensures StripOk(a + b + c + d, g1, g2)
  {
    var ab := a + b;
    var cd := c + d;
    BlockPair(a, b, fa, fb);
    BlockPair(c, d, fc, fd);
    ConcatDistinct(ab, cd);
    assert a + b + c + d == ab + cd;
    var s := ab + cd;
    forall i | 0 <= i < |s|
      ensures 0 <= s[i] < CELLS && !InFace(g1, s[i]) && !InFace(g2, s[i])
    {
      if i < |ab| {
        assert s[i] == ab[i];
      } else {
        assert s[i] == cd[i - |ab|];
      }
    }
  }

  /** Two blocks each on its own face: their concatenation has no repeats
      and lies on those two faces. */
  lemma BlockPair(a: seq<int>, b: seq<int>, fa: int, fb: int)
    requires Distinct(a) && Distinct(b) && OnFace(a, fa) && OnFace(b, fb) && fa != fb
    ensures Distinct(a + b)
    ensures forall i :: 0 <= i < |a + b| ==> InFace(fa, (a + b)[i]) || InFace(fb, (a + b)[i])
  {
    ConcatDistinct(a, b);
  }

  lemma XStripOk()
    ensures StripOk(X_STRIP, RIGHT, LEFT)
  {
    FourBlocksOk([0, 1, 2, 3, 4, 5, 6, 7, 8], [18, 19, 20, 21, 22, 23, 24, 25, 26],
                 [45, 46, 47, 48, 49, 50, 51, 52, 53], [44, 43, 42, 41, 40, 39, 38, 37, 36],
                 UP, FRONT, DOWN, BACK, RIGHT, LEFT);
  }

  lemma YStripOk()
    ensures StripOk(Y_STRIP, UP, DOWN)
  {
    FourBlocksOk([9, 10, 11, 12, 13, 14, 15, 16, 17], [18, 19, 20, 21, 22, 23, 24, 25, 26],
                 [27, 28, 29, 30, 31, 32, 33, 34, 35], [36, 37, 38, 39, 40, 41, 42, 43, 44],
                 LEFT, FRONT, RIGHT, BACK, UP, DOWN);
  }

  lemma ZStripOk()
    ensures StripOk(Z_STRIP, FRONT, BACK)
  {
    FourBlocksOk([9, 10, 11, 12, 13, 14, 15, 16, 17], [2, 5, 8, 1, 4, 7, 0, 3, 6],
                 [35, 34, 33, 32, 31, 30, 29, 28, 27], [51, 48, 45, 52, 49, 46, 53, 50, 47],
                 LEFT, UP, RIGHT, DOWN, FRONT, BACK);
  }

  /** `rotate_data`: the table is defined exactly at the twelve base codes,
      and every entry is a well-formed strip that avoids the faces it turns. */
  function RotateData(base: int): (r: Option<Move>)
    ensures r.Some? <==> IsBase(base)
    ensures r.Some? ==> WellFormed(r.value)
  {
    FStripOk();
    BStripOk();
    RStripOk();
    LStripOk();
    DStripOk();
    UStripOk();
    MStripOk();
    EStripOk();
    SStripOk();
    XStripOk();
    YStripOk();
    ZStripOk();
    if base == F then Some(Move('F', Some(FRONT), None, F_STRIP))
    else if base == B then Some(Move('B', Some(BACK), None, B_STRIP))
    else if base == R then Some(Move('R', Some(RIGHT), None, R_STRIP))
    else if base == L then Some(Move('L', Some(LEFT), None, L_STRIP))
    else if base == D then Some(Move('D', Some(DOWN), None, D_STRIP))
    else if base == U then Some(Move('U', Some(UP), None, U_STRIP))
    else if base == M then Some(Move('M', None, None, M_STRIP))
    else if base == E then Some(Move('E', None, None, E_STRIP))
    else if base == S then Some(Move('S', None, None, S_STRIP))
    else if base == X then Some(Move('X', Some(RIGHT), Some(LEFT), X_STRIP))
    else if base == Y then Some(Move('Y', Some(UP), Some(DOWN), Y_STRIP))
    else if base == Z then Some(Move('Z', Some(FRONT), Some(BACK), Z_STRIP))
    else None
  }

  // ---------------------------------------------------------------------
  // Construction, equality, accessors

  /** Nine cells of one colour. */
  function Fill(v: int): (r: seq<int>)
    ensures |r| == 9 && forall i :: 0 <= i < 9 ==> r[i] == v
  {
    [v, v, v, v, v, v, v, v, v]
  }

  /** `create(centers)`: a solved cube, face f filled with centers[f].
      `create()` is `Create(DEFAULT_CENTERS)`. */
  function Create(centers: seq<int>): (cube: seq<int>)
    requires |centers| == 6
    ensures |cube| == CELLS
    ensures forall i :: 0 <= i < CELLS ==> cube[i] == centers[i / 9]
  {
    Fill(centers[0]) + Fill(centers[1]) + Fill(centers[2])
    + Fill(centers[3]) + Fill(centers[4]) + Fill(centers[5])
  }

  /** `is_equal(c1, c2)`: every cell of c1 equals the cell of c2 at the same
      index (a missing cell of c2 is `undefined`, which equals nothing).  So
      c1 equals c2 exactly when c1 is a prefix of c2. */
  predicate IsEqual(c1: seq<int>, c2: seq<int>): (r: bool)
    ensures r <==> |c1| <= |c2| && c2[..|c1|] == c1
  {
    var all := forall i :: 0 <= i < |c1| ==> i < |c2| && c1[i] == c2[i];
    assert all && |c1| > 0 ==> |c1| - 1 < |c2| && c1[|c1| - 1] == c2[|c1| - 1];
    assert |c1| <= |c2| ==> forall i :: 0 <= i < |c1| ==> c2[..|c1|][i] == c2[i];
    all
  }

  /** `is_equal_with_ignored(c1, c2)`: as `is_equal`, but a DONT_CARE on
      either side matches anything.  Exact equality implies it, a cube of
      DONT_CAREs matches everything, and on cubes without DONT_CARE it is
      exact equality. */
  predicate IsEqualWithIgnored(c1: seq<int>, c2: seq<int>): (r: bool)
    ensures IsEqual(c1, c2) ==> r
    ensures (forall i :: 0 <= i < |c1| ==> c1[i] == DONT_CARE) ==> r
    ensures (forall i :: 0 <= i < |c1| ==> c1[i] != DONT_CARE) && (forall i :: 0 <= i < |c2| ==> c2[i] != DONT_CARE)
            ==> (r <==> IsEqual(c1, c2))
  {
    var all := forall i :: 0 <= i < |c1| ==>
      c1[i] == DONT_CARE || (i < |c2| && (c1[i] == c2[i] || c2[i] == DONT_CARE));
    if (forall i :: 0 <= i < |c1| ==> c1[i] != DONT_CARE) && (forall i :: 0 <= i < |c2| ==> c2[i] != DONT_CARE) && all
    then NoWildcardExact(c1, c2); all
    else all
  }

  /** Without DONT_CAREs, matching with wildcards is matching exactly. */
  lemma NoWildcardExact(c1: seq<int>, c2: seq<int>)
    requires forall i :: 0 <= i < |c1| ==> c1[i] != DONT_CARE
    requires forall i :: 0 <= i < |c2| ==> c2[i] != DONT_CARE
    requires forall i :: 0 <= i < |c1| ==> c1[i] == DONT_CARE || (i < |c2| && (c1[i] == c2[i] || c2[i] == DONT_CARE))
    ensures |c1| <= |c2| && forall i :: 0 <= i < |c1| ==> c1[i] == c2[i]
  {
    if |c1| > 0 {
      assert c1[|c1| - 1] != DONT_CARE;
    }
  }

  function Index(face: int, row: int, col: int): int {
    face * 3 * 3 + row * 3 + col
  }

  /** `get_at`: the cell at (face, row, col).  On a whole cube, a row and
      column in 0..2 read one of the face's own nine cells, and the middle
      one is the face's centre. */
  function GetAt(cube: seq<int>, face: int, row: int, col: int): (v: int)
    requires 0 <= Index(face, row, col) < |cube|
    ensures |cube| == CELLS && 0 <= face < 6 && 0 <= row < 3 && 0 <= col < 3 ==> v in cube[face * 9 .. face * 9 + 9]
    ensures |cube| == CELLS && 0 <= face < 6 && row == 1 && col == 1 ==> v == GetCenters(cube)[face]
  {
    assert |cube| == CELLS && 0 <= face < 6 && 0 <= row < 3 && 0 <= col < 3
           ==> cube[face * 9 .. face * 9 + 9][row * 3 + col] == cube[Index(face, row, col)];
    cube[Index(face, row, col)]
  }

  /** `get_centers`: the six centre cells, face by face. */
  function GetCenters(cube: seq<int>): (centers: seq<int>)
    requires |cube| == CELLS
    ensures |centers| == 6
    ensures forall f :: 0 <= f < 6 ==> centers[f] == cube[f * 9 + 4]
  {
    [cube[4], cube[13], cube[22], cube[31], cube[40], cube[49]]
  }

  /** `base_rotation`: strip the sign, then the doubling.  The result is
      the code's magnitude or half of it, and zero only for code 0. */
  function BaseRotation(rot: int): (b: int)
    ensures b == Abs(rot) || 2 * b == Abs(rot)
    ensures b >= 0 && (b == 0 <==> rot == 0)
  {
    var r := if rot < 0 then -rot else rot;
    if r % 2 == 0 then r / 2 else r
  }

  // ---------------------------------------------------------------------
  // Specification of a rotation, as functions on the buffer's contents

  /** JavaScript's `Array.prototype.reverse`, as a value. */
  function Reversed(s: seq<int>): seq<int> {
    seq(|s|, i requires 0 <= i < |s| => s[|s| - 1 - i])
  }

  /** The `new_face` list of `rotate_face`: new cell i of the face is old
      cell order[i] of the same face.  A counter-clockwise turn reverses the
      list, including the half-turn list. */
  function FaceOrder(ccw: bool, twice: bool): (order: seq<int>)
    ensures IsOrder(order)
  {
    var turned := if twice then [8, 7, 6, 5, 4, 3, 2, 1, 0] else [6, 3, 0, 7, 4, 1, 8, 5, 2];
    if ccw then Reversed(turned) else turned
  }

  predicate IsOrder(order: seq<int>) {
    |order| == 9 && forall i :: 0 <= i < 9 ==> 0 <= order[i] < 9
  }

  /** The cells of `face` rearranged by `order`; every other cell kept. */
  function FacePermuted(s: seq<int>, face: int, order: seq<int>): (r: seq<int>)
    requires |s| == CELLS && 0 <= face < 6 && IsOrder(order)
    ensures |r| == CELLS
  {
    seq(CELLS, p requires 0 <= p < CELLS =>
      if InFace(face, p) then s[face * 9 + order[p - face * 9]] else s[p])
  }

  /** The effect of `rotate_face(cube, face, ccw, twice)`. */
  function FaceTurned(s: seq<int>, face: int, ccw: bool, twice: bool): (r: seq<int>)
    requires |s| == CELLS && 0 <= face < 6
    ensures |r| == CELLS
  {
    FacePermuted(s, face, FaceOrder(ccw, twice))
  }

  /** The position of cell p in the strip. */
  function Pos(idx: seq<int>, p: int): (j: nat)
    requires p in idx
    ensures j < |idx| && idx[j] == p
    ensures forall k :: 0 <= k < j ==> idx[k] != p
  {
    if idx[0] == p then 0 else 1 + Pos(idx[1..], p)
  }

  /** (j - offset) modulo n, for j and offset in [0, n). */
  function Back(j: int, offset: int, n: int): int {
    if j >= offset then j - offset else j - offset + n
  }

  /** The strip loop of `rotate`: strip position (i + offset) % n receives
      the old value at strip position i; cells off the strip are kept. */
  function StripCycled(s: seq<int>, idx: seq<int>, offset: int): (r: seq<int>)
    requires |s| == CELLS && IsStrip(idx) && 0 <= offset < |idx|
    ensures |r| == CELLS
  {
    seq(CELLS, p requires 0 <= p < CELLS =>
      if p in idx then s[idx[Back(Pos(idx, p), offset, |idx|)]] else s[p])
  }

  /** A buffer that agrees with `order` on `face` and with s elsewhere is
      `FacePermuted(s, face, order)`. */
  lemma FacePermutedFrom(s: seq<int>, t: seq<int>, face: int, order: seq<int>)
    requires |s| == CELLS && |t| == CELLS && 0 <= face < 6 && IsOrder(order)
    requires forall k :: 0 <= k < 9 ==> t[face * 9 + k] == s[face * 9 + order[k]]
    requires forall p :: 0 <= p < CELLS && !InFace(face, p) ==> t[p] == s[p]
    ensures t == FacePermuted(s, face, order)
  {
    forall p | 0 <= p < CELLS
      ensures t[p] == FacePermuted(s, face, order)[p]
    {
      if InFace(face, p) {
        assert t[face * 9 + (p - face * 9)] == s[face * 9 + order[p - face * 9]];
      }
    }
  }

  /** A buffer in which strip position j holds the old value at strip
      position j - offset (mod n), and every other cell is unchanged, is
      `StripCycled(s, idx, offset)`. */
  lemma StripCycledFrom(s: seq<int>, t: seq<int>, idx: seq<int>, offset: int)
    requires |s| == CELLS && |t| == CELLS && IsStrip(idx) && 0 <= offset < |idx|
    requires forall j :: 0 <= j < |idx| ==> t[idx[j]] == s[idx[Back(j, offset, |idx|)]]
    requires forall p :: 0 <= p < CELLS && p !in idx ==> t[p] == s[p]
    ensures t == StripCycled(s, idx, offset)
  {
    forall p | 0 <= p < CELLS
      ensures t[p] == StripCycled(s, idx, offset)[p]
    {
      if p in idx {
        var j := Pos(idx, p);
        assert t[idx[j]] == s[idx[Back(j, offset, |idx|)]];
      }
    }
  }

  /** The strip offset `rotate` uses: a quarter of the strip for a clockwise
      turn, half for a double turn, three quarters counter-clockwise. */
  function StripOffset(n: int, ccw: bool, twice: bool): (off: int)
    ensures n > 0 && n % 4 == 0 ==> 0 < off < n
  {
    assert n > 0 && n % 4 == 0 ==> n == 4 * (n / 4);
    (n / 4) * (if ccw then 3 else if twice then 2 else 1)
  }

  /** A table entry applied: turn `face`, turn `ccwFace` the other way, then
      cycle the strip. */
  function Turned(s: seq<int>, m: Move, ccw: bool, twice: bool): (r: seq<int>)
    requires |s| == CELLS && WellFormed(m)
    ensures |r| == CELLS
  {
    var s1 := if m.face.Some? then FaceTurned(s, m.face.value, ccw, twice) else s;
    var s2 := if m.ccwFace.Some? then FaceTurned(s1, m.ccwFace.value, !ccw, twice) else s1;
    StripCycled(s2, m.indices, StripOffset(|m.indices|, ccw, twice))
  }

  /** The whole effect of `rotate(cube, code)` on the buffer's contents.
      Code 0, and any code whose base has no table entry, change nothing. */
  function Rotated(s: seq<int>, code: int): (r: seq<int>)
    requires |s| == CELLS
    ensures |r| == CELLS
    ensures code == 0 || !IsBase(BaseRotation(code)) ==> r == s
  {
    if code == 0 then s
    else
      var twice := code % 2 == 0;
      var rot := if twice then Abs(code / 2) else code;
      var ccw := rot < 0;
      assert Abs(rot) == BaseRotation(code);
      match RotateData(Abs(rot))
      case None => s
      case Some(m) => Turned(s, m, ccw, twice)
  }

  /** A sequence of rotations applied left to right. */
  function Applied(s: seq<int>, codes: seq<int>): (r: seq<int>)
    requires |s| == CELLS
    ensures |r| == CELLS
    decreases |codes|, 1
  {
    if codes == [] then s else AppliedLast(s, codes)
  }

  /** A non-empty sequence of rotations: the last one applied to the state
      the others lead to. */
  function AppliedLast(s: seq<int>, codes: seq<int>): (r: seq<int>)
    requires |s| == CELLS && codes != []
    ensures |r| == CELLS
    decreases |codes|, 0
  {
    Rotated(Applied(s, codes[..|codes| - 1]), codes[|codes| - 1])
  }

  /** One more rotation at the end. */
  lemma AppliedSnoc(s: seq<int>, codes: seq<int>, c: int)
    requires |s| == CELLS
    ensures Applied(s, codes + [c]) == Rotated(Applied(s, codes), c)
  {
    assert (codes + [c])[..|codes|] == codes;
    assert AppliedLast(s, codes + [c]) == Rotated(Applied(s, codes), c);
  }

  // ---------------------------------------------------------------------
  // The in-place operations

  /** `clear`: every cell becomes DONT_CARE. */
  method Clear(cube: array<int>)
    modifies cube
    ensures forall i :: 0 <= i < cube.Length ==> cube[i] == DONT_CARE
  {
    forall i | 0 <= i < cube.Length {
      cube[i] := DONT_CARE;
    }
  }

  /** `copy`: a new array with the same cells. */
  method Copy(cube: array<int>) returns (c: array<int>)
    ensures fresh(c) && c[..] == cube[..]
  {
    c := new int[cube.Length](i requires 0 <= i < cube.Length reads cube => cube[i]);
  }

  /** `copy_into(src, dest)`: the first src.Length cells of dest become
      those of src; the rest of dest is kept. */
  method CopyInto(src: array<int>, dest: array<int>)
    requires src.Length <= dest.Length
    modifies dest
    ensures dest[..src.Length] == old(src[..])
    ensures dest[src.Length..] == old(dest[src.Length..])
  {
    ghost var from := src[..];
    for i := 0 to src.Length
      invariant src.Length <= dest.Length
      invariant forall k :: 0 <= k < i ==> dest[k] == from[k]
      invariant forall k :: i <= k < src.Length ==> src[k] == from[k]
      invariant forall k :: src.Length <= k < dest.Length ==> dest[k] == old(dest[k])
    {
      dest[i] := src[i];
    }
  }

  /** `reset`: the cube becomes the default `create()`, whatever centres it
      had before. */
  method Reset(cube: array<int>)
    requires cube.Length == CELLS
    modifies cube
    ensures cube[..] == Create(DEFAULT_CENTERS)
  {
    var created := Create(DEFAULT_CENTERS);
    var newCube := new int[CELLS](i requires 0 <= i < CELLS => created[i]);
    CopyInto(newCube, cube);
    assert cube[..] == cube[..CELLS];
  }

  /** `set_at`: exactly one cell changes. */
  method SetAt(cube: array<int>, face: int, row: int, col: int, value: int)
    requires 0 <= Index(face, row, col) < cube.Length
    modifies cube
    ensures cube[..] == old(cube[..])[Index(face, row, col) := value]
  {
    cube[face * 3 * 3 + row * 3 + col] := value;
  }

  /** `rotate_face`: turn the nine cells of one face. */
  method RotateFace(cube: array<int>, face: int, ccw: bool, twice: bool)
    requires cube.Length == CELLS && 0 <= face < 6
    modifies cube
    ensures cube[..] == FaceTurned(old(cube[..]), face, ccw, twice)
  {
    var offset := face * 9;
    var before := cube[..];
    // new_face lists the old face cells in the order FaceOrder gives
    var order := FaceOrder(ccw, twice);
    var newFace := seq(9, k requires 0 <= k < 9 => before[offset + order[k]]);
    for i := 0 to 9
      invariant forall k :: 0 <= k < i ==> cube[offset + k] == newFace[k]
      invariant forall p :: 0 <= p < CELLS && !(offset <= p < offset + i) ==> cube[p] == before[p]
    {
      cube[offset + i] := newFace[i];
    }
    ghost var after := cube[..];
    forall k | 0 <= k < 9
      ensures after[face * 9 + k] == before[face * 9 + order[k]]
    {
      assert after[offset + k] == cube[offset + k] == newFace[k];
    }
    FacePermutedFrom(before, after, face, order);
  }

  /** `rotate`: apply a signed rotation code in place. */
  method Rotate(cube: array<int>, code: int)
    requires cube.Length == CELLS
    modifies cube
    ensures cube[..] == Rotated(old(cube[..]), code)
  {
    if code == 0 {
      return;
    }
    var rotation := code;
    var twice := rotation % 2 == 0;
    if twice {
      rotation := Abs(rotation / 2);
    }
    var ccw := rotation < 0;
    var absRotation := Abs(rotation);
    var data := RotateData(absRotation);
    if data.None? {
      return;
    }
    var m := data.value;
    if m.face.Some? {
      RotateFace(cube, m.face.value, ccw, twice);
    }
    if m.ccwFace.Some? {
      RotateFace(cube, m.ccwFace.value, !ccw, twice);
    }
    var len := |m.indices|;
    var stride := len / 4;
    var offset := stride * (if ccw then 3 else if twice then 2 else 1);
    CycleStrip(cube, m.indices, offset);
  }

  /** After i iterations of the strip loop: the strip positions whose source
      position is below i hold their new value, the other strip positions
      and every cell off the strip still hold the old one. */
  ghost predicate StripLoop(s: seq<int>, t: seq<int>, idx: seq<int>, offset: int, i: int)
    requires |s| == CELLS && |t| == CELLS && IsStrip(idx) && 0 <= offset < |idx|
  {
    && (forall j :: 0 <= j < |idx| && Back(j, offset, |idx|) < i ==> t[idx[j]] == s[idx[Back(j, offset, |idx|)]])
    && (forall j :: 0 <= j < |idx| && i <= Back(j, offset, |idx|) ==> t[idx[j]] == s[idx[j]])
    && (forall p :: 0 <= p < CELLS && p !in idx ==> t[p] == s[p])
  }

  /** Iteration i writes the old value at strip position i to position
      (i + offset) % n. */
  lemma StripLoopStep(s: seq<int>, t: seq<int>, t': seq<int>, idx: seq<int>, offset: int, i: int, target: int)
    requires |s| == CELLS && |t| == CELLS && IsStrip(idx) && 0 <= offset < |idx| && 0 <= i < |idx|
    requires target == if i + offset < |idx| then i + offset else i + offset - |idx|
    requires StripLoop(s, t, idx, offset, i)
    requires t' == t[idx[target] := s[idx[i]]]
    ensures |t'| == CELLS && StripLoop(s, t', idx, offset, i + 1)
  {
    var n := |idx|;
    assert Back(target, offset, n) == i;
    forall j | 0 <= j < n && j != target
      ensures idx[j] != idx[target] && Back(j, offset, n) != i
    {
    }
  }

  /** The strip loop of `rotate`: every strip cell moves `offset` places
      along the strip. */
  method CycleStrip(cube: array<int>, idx: seq<int>, offset: int)
    requires cube.Length == CELLS && IsStrip(idx) && 0 <= offset < |idx|
    modifies cube
    ensures cube[..] == StripCycled(old(cube[..]), idx, offset)
  {
    var before := cube[..];
    var cubeData := seq(|idx|, i requires 0 <= i < |idx| => before[idx[i]]);
    var len := |idx|;
    for i := 0 to len
      invariant StripLoop(before, cube[..], idx, offset, i)
    {
      // (i + offset) % len
      var target := if i + offset < len then i + offset else i + offset - len;
      ghost var prev := cube[..];
      cube[idx[target]] := cubeData[i];
      StripLoopStep(before, prev, cube[..], idx, offset, i, target);
    }
    StripCycledFrom(before, cube[..], idx, offset);
  }

  /** `rotate_into(src, dest, code)`: dest receives the rotated contents of
      src (dest := rotate(copy of src)). */
  method RotateInto(src: array<int>, dest: array<int>, code: int)
    requires src.Length == CELLS && dest.Length == CELLS
    modifies dest
    ensures dest[..] == Rotated(old(src[..]), code)
  {
    CopyInto(src, dest);
    assert dest[..] == old(src[..]);
    Rotate(dest, code);
  }
}
