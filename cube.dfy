/**
 * The earlier cube engine of `modules/cube.js`: the same 54-cell buffer and
 * face layout as `modules/rubik.js`, with its own colour numbering and
 * rotation codes 1..12, and only the F move implemented.
 *
 * Its `rotate_face` is the quarter-turn case of rubik.js's, and its F turn
 * cycles the same twelve cells as rubik.js's F strip, so the specification
 * reuses `Rubik.FaceTurned` and `Rubik.StripCycled`.  The counter-clockwise
 * branch of `rotate_f` writes the last saved cell to LEFT+3 instead of
 * LEFT+2: `FTurnedAsWritten` is that behaviour, `FTurned` the intended one.
 */
module LegacyCube {
  import opened Wrappers
  import Rubik
  import RubikLaws

  // Colours, in this engine's numbering.
  const GREEN := 0
  const BLUE := 1
  const RED := 2
  const ORANGE := 3
  const YELLOW := 4
  const WHITE := 5

  // Rotation codes; a negative code is the counter-clockwise turn.
  const F := 1
  const B := 2
  const R := 3
  const L := 4
  const D := 5
  const U := 6
  const M := 7
  const E := 8
  const S := 9
  const X := 10
  const Y := 11
  const Z := 12

  // The cells `rotate_f` moves around the front face: face * 9 + offset,
  // with UP 0, LEFT 1, RIGHT 3 and DOWN 5.
  const U6 := 6
  const U7 := 7
  const U8 := 8
  const L2 := 11
  const L3 := 12
  const L5 := 14
  const L8 := 17
  const R0 := 27
  const R3 := 30
  const R6 := 33
  const D0 := 45
  const D1 := 46
  const D2 := 47

  /** `create`: nine cells of each colour, GREEN, BLUE, RED, ORANGE, YELLOW,
      WHITE, so cell i holds colour number i / 9. */
  function Create(): (cube: seq<int>)
    ensures |cube| == Rubik.CELLS
    ensures forall i :: 0 <= i < Rubik.CELLS ==> cube[i] == i / 9
  {
    Rubik.Create([GREEN, BLUE, RED, ORANGE, YELLOW, WHITE])
  }

  /** `copy`: a new array with the same cells (the spread `[...cube]`). */
  method Copy(cube: array<int>) returns (c: array<int>)
    ensures fresh(c) && c[..] == cube[..]
  {
    c := Rubik.Copy(cube);
  }

  /** `get_at`: the cell at face * 9 + row * 3 + col, as in rubik.js.  A
      row and column in 0..2 read one of the face's nine cells; on a new cube
      that is the face's colour. */
  function GetAt(cube: seq<int>, face: int, row: int, col: int): (v: int)
    requires 0 <= Rubik.Index(face, row, col) < |cube|
    ensures |cube| == Rubik.CELLS && 0 <= face < 6 && 0 <= row < 3 && 0 <= col < 3
            ==> v in cube[face * 9 .. face * 9 + 9]
    ensures cube == Create() && 0 <= face < 6 && 0 <= row < 3 && 0 <= col < 3
            ==> v == [GREEN, BLUE, RED, ORANGE, YELLOW, WHITE][face]
  {
    Rubik.GetAt(cube, face, row, col)
  }

  /** `set_at`: the cell at face * 9 + row * 3 + col becomes `value`, and
      no other cell changes. */
  method SetAt(cube: array<int>, face: int, row: int, col: int, value: int)
    requires 0 <= Rubik.Index(face, row, col) < cube.Length
    modifies cube
    ensures cube[..] == old(cube[..])[Rubik.Index(face, row, col) := value]
  {
    Rubik.SetAt(cube, face, row, col, value);
  }

  // ---------------------------------------------------------------------
  // rotate_face

  const CLOCKWISE: seq<int> := [6, 3, 0, 7, 4, 1, 8, 5, 2]
  const COUNTER: seq<int> := [2, 5, 8, 1, 4, 7, 0, 3, 6]

  /** `rotate_face(cube, face, ccw)`: the `new_face` loop, the same as
      rubik.js's `rotate_face` without the half turn. */
  method RotateFace(cube: array<int>, face: int, ccw: bool)
    requires cube.Length == Rubik.CELLS && 0 <= face < 6
    modifies cube
    ensures cube[..] == Rubik.FaceTurned(old(cube[..]), face, ccw, false)
  {
    Rubik.RotateFace(cube, face, ccw, false);
  }

  /** Cell i of the turned face is old cell CLOCKWISE[i] of that face, or
      COUNTER[i], the reversed list, for a counter-clockwise turn. */
  lemma FaceTurnCells(s: seq<int>, face: int, ccw: bool)
    requires |s| == Rubik.CELLS && 0 <= face < 6
    ensures Rubik.FaceOrder(ccw, false) == if ccw then COUNTER else CLOCKWISE
    ensures forall i :: 0 <= i < 9 ==> Rubik.FaceTurned(s, face, ccw, false)[face * 9 + i]
                                       == s[face * 9 + Rubik.FaceOrder(ccw, false)[i]]
  {
    RubikLaws.FaceOrderValues();
    var order := Rubik.FaceOrder(ccw, false);
    forall i | 0 <= i < 9
      ensures Rubik.FaceTurned(s, face, ccw, false)[face * 9 + i] == s[face * 9 + order[i]]
    {
      assert Rubik.InFace(face, face * 9 + i);
    }
  }

  /** A face turn keeps the centre of the face and every cell of the other
      faces. */
  lemma FaceTurnFrame(s: seq<int>, face: int, ccw: bool)
    requires |s| == Rubik.CELLS && 0 <= face < 6
    ensures Rubik.FaceTurned(s, face, ccw, false)[face * 9 + 4] == s[face * 9 + 4]
    ensures forall p :: 0 <= p < Rubik.CELLS && !Rubik.InFace(face, p)
                        ==> Rubik.FaceTurned(s, face, ccw, false)[p] == s[p]
  {
    RubikLaws.FaceOrderValues();
    assert Rubik.InFace(face, face * 9 + 4);
  }

  /** Permuting a face by o1 and then by o2 permutes it by Compose(o1, o2). */
  lemma FaceCompose(s: seq<int>, face: int, o1: seq<int>, o2: seq<int>)
    requires |s| == Rubik.CELLS && 0 <= face < 6 && Rubik.IsOrder(o1) && Rubik.IsOrder(o2)
    ensures Rubik.FacePermuted(Rubik.FacePermuted(s, face, o1), face, o2)
         == Rubik.FacePermuted(s, face, RubikLaws.Compose(o1, o2))
  {
  }

  /** A face turn and the opposite face turn cancel. */
  lemma FaceTurnInverse(s: seq<int>, face: int, ccw: bool)
    requires |s| == Rubik.CELLS && 0 <= face < 6
    ensures Rubik.FaceTurned(Rubik.FaceTurned(s, face, ccw, false), face, !ccw, false) == s
  {
    RubikLaws.FaceOrderValues();
    RubikLaws.QuarterOrdersCancel();
    FaceCompose(s, face, Rubik.FaceOrder(ccw, false), Rubik.FaceOrder(!ccw, false));
    RubikLaws.FacePermutedIdentity(s, face);
  }

  /** Four clockwise face turns restore the face. */
  lemma FaceTurnPeriod(s: seq<int>, face: int)
    requires |s| == Rubik.CELLS && 0 <= face < 6
    ensures var t := Rubik.FaceTurned(Rubik.FaceTurned(s, face, false, false), face, false, false);
            Rubik.FaceTurned(Rubik.FaceTurned(t, face, false, false), face, false, false) == s
  {
    var cw := Rubik.FaceOrder(false, false);
    var half := [8, 7, 6, 5, 4, 3, 2, 1, 0];
    var t := Rubik.FaceTurned(Rubik.FaceTurned(s, face, false, false), face, false, false);
    RubikLaws.FaceOrderValues();
    RubikLaws.QuarterOrdersAdd();
    RubikLaws.HalfOrderCancels();
    FaceCompose(s, face, cw, cw);
    FaceCompose(t, face, cw, cw);
    FaceCompose(s, face, half, half);
    RubikLaws.FacePermutedIdentity(s, face);
  }

  // ---------------------------------------------------------------------
  // rotate_f

  /** The ring step of the intended F turn: the twelve cells around the
      front face (rubik.js's F strip U6 U7 U8, R0 R3 R6, D2 D1 D0, L8 L5 L2)
      move a quarter of the way round, forwards or backwards. */
  function RingCycled(t: seq<int>, ccw: bool): (r: seq<int>)
    requires |t| == Rubik.CELLS
    ensures |r| == Rubik.CELLS
  {
    Rubik.FStripOk();
    Rubik.StripCycled(t, Rubik.F_STRIP, if ccw then 9 else 3)
  }

  /** The ring step of `rotate_f` as written: clockwise it is the intended
      one; counter-clockwise, LEFT+2 keeps its value and LEFT+3 receives
      U8's. */
  function RingCycledAsWritten(t: seq<int>, ccw: bool): (r: seq<int>)
    requires |t| == Rubik.CELLS
    ensures |r| == Rubik.CELLS
  {
    if ccw then RingCycled(t, true)[L2 := t[L2]][L3 := t[U8]] else RingCycled(t, false)
  }

  /** The intended F turn: turn the front face, then cycle the ring. */
  function FTurned(s: seq<int>, ccw: bool): (r: seq<int>)
    requires |s| == Rubik.CELLS
    ensures |r| == Rubik.CELLS
  {
    RingCycled(Rubik.FaceTurned(s, Rubik.FRONT, ccw, false), ccw)
  }

  /** `rotate_f` as written: clockwise it is the intended F; counter-
      clockwise it differs from the intended F' at LEFT+2 and LEFT+3 only. */
  function FTurnedAsWritten(s: seq<int>, ccw: bool): (r: seq<int>)
    requires |s| == Rubik.CELLS
    ensures |r| == Rubik.CELLS
    ensures !ccw ==> r == FTurned(s, false)
    ensures ccw ==> forall p :: 0 <= p < Rubik.CELLS && p != L2 && p != L3 ==> r[p] == FTurned(s, true)[p]
  {
    RingCycledAsWritten(Rubik.FaceTurned(s, Rubik.FRONT, ccw, false), ccw)
  }

  /** Strip cell j of a cycled strip holds the old strip cell j - offset. */
  lemma StripAt(s: seq<int>, idx: seq<int>, offset: int, j: int)
    requires |s| == Rubik.CELLS && Rubik.IsStrip(idx) && 0 <= offset < |idx| && 0 <= j < |idx|
    ensures Rubik.StripCycled(s, idx, offset)[idx[j]] == s[idx[Rubik.Back(j, offset, |idx|)]]
  {
    RubikLaws.PosOf(idx, j);
  }

  /** Cells off the ring and off the front face keep their colours. */
  lemma FFrame(s: seq<int>, ccw: bool)
    requires |s| == Rubik.CELLS
    ensures forall p :: 0 <= p < Rubik.CELLS && !Rubik.InFace(Rubik.FRONT, p) && p !in Rubik.F_STRIP
                        ==> FTurned(s, ccw)[p] == s[p]
  {
  }

  /** The clockwise ring, cell by cell: U6 U7 U8 <- L8 L5 L2 <- D2 D1 D0
      <- R0 R3 R6 <- old U6 U7 U8. */
  lemma FRingClockwise(s: seq<int>)
    requires |s| == Rubik.CELLS
    ensures var r := FTurned(s, false);
            && r[U6] == s[L8] && r[U7] == s[L5] && r[U8] == s[L2]
            && r[L8] == s[D2] && r[L5] == s[D1] && r[L2] == s[D0]
            && r[D2] == s[R0] && r[D1] == s[R3] && r[D0] == s[R6]
            && r[R0] == s[U6] && r[R3] == s[U7] && r[R6] == s[U8]
  {
    Rubik.FStripOk();
    var t := Rubik.FaceTurned(s, Rubik.FRONT, false, false);
    StripAt(t, Rubik.F_STRIP, 3, 0);
    StripAt(t, Rubik.F_STRIP, 3, 1);
    StripAt(t, Rubik.F_STRIP, 3, 2);
    StripAt(t, Rubik.F_STRIP, 3, 3);
    StripAt(t, Rubik.F_STRIP, 3, 4);
    StripAt(t, Rubik.F_STRIP, 3, 5);
    StripAt(t, Rubik.F_STRIP, 3, 6);
    StripAt(t, Rubik.F_STRIP, 3, 7);
    StripAt(t, Rubik.F_STRIP, 3, 8);
    StripAt(t, Rubik.F_STRIP, 3, 9);
    StripAt(t, Rubik.F_STRIP, 3, 10);
    StripAt(t, Rubik.F_STRIP, 3, 11);
  }

  /** The counter-clockwise ring, cell by cell: U6 U7 U8 <- R0 R3 R6 <- D2
      D1 D0 <- L8 L5 L2 <- old U6 U7 U8. */
  lemma FRingCounter(s: seq<int>)
    requires |s| == Rubik.CELLS
    ensures var r := FTurned(s, true);
            && r[U6] == s[R0] && r[U7] == s[R3] && r[U8] == s[R6]
            && r[R0] == s[D2] && r[R3] == s[D1] && r[R6] == s[D0]
            && r[D2] == s[L8] && r[D1] == s[L5] && r[D0] == s[L2]
            && r[L8] == s[U6] && r[L5] == s[U7] && r[L2] == s[U8]
  {
    Rubik.FStripOk();
    var t := Rubik.FaceTurned(s, Rubik.FRONT, true, false);
    StripAt(t, Rubik.F_STRIP, 9, 0);
    StripAt(t, Rubik.F_STRIP, 9, 1);
    StripAt(t, Rubik.F_STRIP, 9, 2);
    StripAt(t, Rubik.F_STRIP, 9, 3);
    StripAt(t, Rubik.F_STRIP, 9, 4);
    StripAt(t, Rubik.F_STRIP, 9, 5);
    StripAt(t, Rubik.F_STRIP, 9, 6);
    StripAt(t, Rubik.F_STRIP, 9, 7);
    StripAt(t, Rubik.F_STRIP, 9, 8);
    StripAt(t, Rubik.F_STRIP, 9, 9);
    StripAt(t, Rubik.F_STRIP, 9, 10);
    StripAt(t, Rubik.F_STRIP, 9, 11);
  }
  /** `rotate_f(cube, ccw)`: turn the front face, save U6 U7 U8, then copy
      the ring cells one by one. */
  method RotateF(cube: array<int>, ccw: bool)
    requires cube.Length == Rubik.CELLS
    modifies cube
    ensures cube[..] == FTurnedAsWritten(old(cube[..]), ccw)
  {
    RotateFace(cube, Rubik.FRONT, ccw);
    var save := [cube[U6], cube[U7], cube[U8]];
    if ccw {
      CounterBranch(cube, save);
    } else {
      ClockwiseBranch(cube, save);
    }
  }

  /** The counter-clockwise branch of `rotate_f`, with its write to LEFT+3. */
  method CounterBranch(cube: array<int>, save: seq<int>)
    requires cube.Length == Rubik.CELLS && save == [cube[U6], cube[U7], cube[U8]]
    modifies cube
    ensures cube[..] == RingCycledAsWritten(old(cube[..]), true)
  {
    ghost var t := cube[..];
    cube[U6] := cube[R0];
    cube[U7] := cube[R3];
    cube[U8] := cube[R6];
    cube[R0] := cube[D2];
    cube[R3] := cube[D1];
    cube[R6] := cube[D0];
    cube[D2] := cube[L8];
    cube[D1] := cube[L5];
    cube[D0] := cube[L2];
    cube[L8] := save[0];
    cube[L5] := save[1];
    cube[L3] := save[2];
    CounterFrom(t, cube[..]);
  }

  /** The clockwise branch of `rotate_f`. */
  method ClockwiseBranch(cube: array<int>, save: seq<int>)
    requires cube.Length == Rubik.CELLS && save == [cube[U6], cube[U7], cube[U8]]
    modifies cube
    ensures cube[..] == RingCycled(old(cube[..]), false)
  {
    ghost var t := cube[..];
    cube[U6] := cube[L8];
    cube[U7] := cube[L5];
    cube[U8] := cube[L2];
    cube[L8] := cube[D2];
    cube[L5] := cube[D1];
    cube[L2] := cube[D0];
    cube[D2] := cube[R0];
    cube[D1] := cube[R3];
    cube[D0] := cube[R6];
    cube[R0] := save[0];
    cube[R3] := save[1];
    cube[R6] := save[2];
    IntendedFrom(t, cube[..], false);
  }

  /** A buffer holding the ring copies of t, and t elsewhere, is the
      intended ring step. */
  lemma IntendedFrom(t: seq<int>, w: seq<int>, ccw: bool)
    requires |t| == Rubik.CELLS && |w| == Rubik.CELLS
    requires forall p :: 0 <= p < Rubik.CELLS && p !in Rubik.F_STRIP ==> w[p] == t[p]
    requires !ccw ==> && w[U6] == t[L8] && w[U7] == t[L5] && w[U8] == t[L2]
                      && w[L8] == t[D2] && w[L5] == t[D1] && w[L2] == t[D0]
                      && w[D2] == t[R0] && w[D1] == t[R3] && w[D0] == t[R6]
                      && w[R0] == t[U6] && w[R3] == t[U7] && w[R6] == t[U8]
    requires ccw ==> && w[U6] == t[R0] && w[U7] == t[R3] && w[U8] == t[R6]
                     && w[R0] == t[D2] && w[R3] == t[D1] && w[R6] == t[D0]
                     && w[D2] == t[L8] && w[D1] == t[L5] && w[D0] == t[L2]
                     && w[L8] == t[U6] && w[L5] == t[U7] && w[L2] == t[U8]
    ensures w == RingCycled(t, ccw)
  {
    Rubik.FStripOk();
    Rubik.StripCycledFrom(t, w, Rubik.F_STRIP, if ccw then 9 else 3);
  }

  /** A buffer holding the counter-clockwise copies of t as written, and t
      elsewhere, is the as-written ring step. */
  lemma CounterFrom(t: seq<int>, w: seq<int>)
    requires |t| == Rubik.CELLS && |w| == Rubik.CELLS
    requires forall p :: 0 <= p < Rubik.CELLS && p !in Rubik.F_STRIP && p != L3 ==> w[p] == t[p]
    requires && w[U6] == t[R0] && w[U7] == t[R3] && w[U8] == t[R6]
             && w[R0] == t[D2] && w[R3] == t[D1] && w[R6] == t[D0]
             && w[D2] == t[L8] && w[D1] == t[L5] && w[D0] == t[L2]
             && w[L8] == t[U6] && w[L5] == t[U7] && w[L2] == t[L2] && w[L3] == t[U8]
    ensures w == RingCycledAsWritten(t, true)
  {
    var v := w[L2 := t[U8]][L3 := t[L3]];
    assert v[L2] == t[U8] && v[L3] == t[L3];
    assert forall p :: 0 <= p < Rubik.CELLS && p != L2 && p != L3 ==> v[p] == w[p];
    IntendedFrom(t, v, true);
    UpdateBack(w, L2, L3, t[U8], t[L3]);
  }

  /** Writing two cells and then writing their old values back restores
      the sequence. */
  lemma UpdateBack(w: seq<int>, i: int, j: int, a: int, b: int)
    requires 0 <= i < |w| && 0 <= j < |w| && i != j
    ensures w[i := a][j := b][i := w[i]][j := w[j]] == w
  {
  }

  /** The intended F turn is rubik.js's F (code 1 there) and F' (code -1). */
  lemma FTurnedIsRubikF(s: seq<int>, ccw: bool)
    requires |s| == Rubik.CELLS
    ensures FTurned(s, ccw) == Rubik.Turned(s, Rubik.RotateData(Rubik.F).value, ccw, false)
    ensures FTurned(s, ccw) == Rubik.Rotated(s, if ccw then -Rubik.F else Rubik.F)
  {
    var m := Rubik.RotateData(Rubik.F).value;
    assert m == Rubik.Move('F', Some(Rubik.FRONT), None, Rubik.F_STRIP);
    RubikLaws.RotatedCodes(s, Rubik.F);
  }

  /** Intended: F and F' undo each other, in either order. */
  lemma FInverse(s: seq<int>, ccw: bool)
    requires |s| == Rubik.CELLS
    ensures FTurned(FTurned(s, ccw), !ccw) == s
  {
    var m := Rubik.RotateData(Rubik.F).value;
    FTurnedIsRubikF(s, ccw);
    FTurnedIsRubikF(FTurned(s, ccw), !ccw);
    RubikLaws.AxisFacesFrame(Rubik.F);
    RubikLaws.TurnedInverse(s, m, Rubik.FRONT, Rubik.BACK, ccw);
  }

  /** Intended: four clockwise F turns restore the cube. */
  lemma FPeriod(s: seq<int>)
    requires |s| == Rubik.CELLS
    ensures FTurned(FTurned(FTurned(FTurned(s, false), false), false), false) == s
  {
    var m := Rubik.RotateData(Rubik.F).value;
    var s1 := FTurned(s, false);
    var s2 := FTurned(s1, false);
    var s3 := FTurned(s2, false);
    FTurnedIsRubikF(s, false);
    FTurnedIsRubikF(s1, false);
    FTurnedIsRubikF(s2, false);
    FTurnedIsRubikF(s3, false);
    RubikLaws.AxisFacesFrame(Rubik.F);
    RubikLaws.TurnedPeriod(s, m, Rubik.FRONT, Rubik.BACK);
  }

  /** As written, F then F' does not restore the cube: LEFT+2 ends up with
      the old D0 and LEFT+3 with the old LEFT+2. */
  lemma AsWrittenRoundTrip(s: seq<int>)
    requires |s| == Rubik.CELLS
    ensures FTurnedAsWritten(FTurnedAsWritten(s, false), true) == s[L2 := s[D0]][L3 := s[L2]]
  {
    var x := FTurned(s, false);
    var tx := Rubik.FaceTurned(x, Rubik.FRONT, true, false);
    FInverse(s, false);
    assert FTurnedAsWritten(x, true) == s[L2 := tx[L2]][L3 := tx[U8]];
    FaceTurnFrame(x, Rubik.FRONT, true);
    assert tx[L2] == x[L2] && tx[U8] == x[U8];
    FRingClockwise(s);
  }

  /** As written, F' forgets LEFT+3: cubes that differ only there turn to
      the same cube, so no move can undo it. */
  lemma AsWrittenCounterForgets(s: seq<int>, v: int)
    requires |s| == Rubik.CELLS
    ensures FTurnedAsWritten(s[L3 := v], true) == FTurnedAsWritten(s, true)
  {
    var t := Rubik.FaceTurned(s, Rubik.FRONT, true, false);
    FTurnedOffRing(s, v);
    FaceUpdateOff(s, Rubik.FRONT, Rubik.FaceOrder(true, false), L3, v);
    UpdateOver(FTurned(s, true), L2, L3, v, t[L2], t[U8]);
  }

  /** LEFT+3 lies off the ring and off the front face: the F turn carries a
      new value there along unchanged. */
  lemma FTurnedOffRing(s: seq<int>, v: int)
    requires |s| == Rubik.CELLS
    ensures FTurned(s[L3 := v], true) == FTurned(s, true)[L3 := v]
  {
    Rubik.FStripOk();
    var t := Rubik.FaceTurned(s, Rubik.FRONT, true, false);
    FaceUpdateOff(s, Rubik.FRONT, Rubik.FaceOrder(true, false), L3, v);
    StripUpdateOff(t, Rubik.F_STRIP, 9, L3, v);
  }

  /** Permuting a face commutes with writing a cell off that face. */
  lemma FaceUpdateOff(s: seq<int>, face: int, order: seq<int>, q: int, v: int)
    requires |s| == Rubik.CELLS && 0 <= face < 6 && Rubik.IsOrder(order)
    requires 0 <= q < Rubik.CELLS && !Rubik.InFace(face, q)
    ensures Rubik.FacePermuted(s[q := v], face, order) == Rubik.FacePermuted(s, face, order)[q := v]
  {
  }

  /** Cycling a strip commutes with writing a cell off that strip. */
  lemma StripUpdateOff(s: seq<int>, idx: seq<int>, offset: int, q: int, v: int)
    requires |s| == Rubik.CELLS && Rubik.IsStrip(idx) && 0 <= offset < |idx|
    requires 0 <= q < Rubik.CELLS && q !in idx
    ensures Rubik.StripCycled(s[q := v], idx, offset) == Rubik.StripCycled(s, idx, offset)[q := v]
  {
  }

  /** A write that a later write to the same cell overwrites does not
      matter. */
  lemma UpdateOver(w: seq<int>, i: int, j: int, a: int, b: int, c: int)
    requires 0 <= i < |w| && 0 <= j < |w| && i != j
    ensures w[j := a][i := b][j := c] == w[i := b][j := c]
  {
  }

  /** On a new cube, F then F' as written leaves WHITE at LEFT+2, where the
      new cube has BLUE. */
  lemma AsWrittenRoundTripFails()
    ensures FTurnedAsWritten(FTurnedAsWritten(Create(), false), true)[L2] == WHITE
    ensures Create()[L2] == BLUE
  {
    var c := Create();
    AsWrittenRoundTrip(c);
    assert c[D0] == D0 / 9 && c[L2] == L2 / 9;
  }

  // ---------------------------------------------------------------------
  // rotate

  /** `rotate(cube, rotation)`: the function at index |rotation| - 1 of the
      twelve moves, told whether the turn is counter-clockwise.  Only F is
      implemented; B to Z are empty.  A code outside -12..-1, 1..12 finds
      no function, and the call throws: `ok` is false and the cube is left
      as it was. */
  method Rotate(cube: array<int>, rotation: int) returns (ok: bool)
    requires cube.Length == Rubik.CELLS
    modifies cube
    ensures ok <==> 1 <= Rubik.Abs(rotation) <= 12
    ensures Rubik.Abs(rotation) == F ==> cube[..] == FTurnedAsWritten(old(cube[..]), rotation < 0)
    ensures Rubik.Abs(rotation) != F ==> cube[..] == old(cube[..])
  {
    var ccw := rotation < 0;
    var absRotation := Rubik.Abs(rotation);
    if !(1 <= absRotation <= 12) {
      return false;
    }
    if absRotation == F {
      RotateF(cube, ccw);
    }
    // B, R, L, D, U, M, E, S, X, Y and Z leave the cube as it is
    return true;
  }
}
