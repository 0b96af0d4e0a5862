/** The scan finds exactly the leftmost greedy selection of frames, described without running it. */
module Leftmost {
  import opened Bytes
  import opened Scanner

  datatype Cut = Cut(start: nat, len: nat)

  predicate Covered(cuts: seq<Cut>, j: nat) {
    exists i :: 0 <= i < |cuts| && cuts[i].start <= j < cuts[i].start + cuts[i].len
  }

  /** The selected slices lie in order, without overlap, in s[from..end]. */
  predicate Ordered(cuts: seq<Cut>, from: nat, end: nat) {
    && (forall i :: 0 <= i < |cuts| ==> from <= cuts[i].start && cuts[i].start + cuts[i].len <= end)
    && (forall i, j :: 0 <= i < j < |cuts| ==> cuts[i].start + cuts[i].len <= cuts[j].start)
  }

  /**
   * A selection from position `from` on that is decided up to `end`: every selected slice is a frame, every
   * byte passed over has been looked at and can never begin a frame, and at `end` no frame has arrived yet
   * although one may still come.
   */
  ghost predicate IsSelection(r: Receiver, s: seq<byte>, from: nat, cuts: seq<Cut>, end: nat) {
    && from <= end <= |s|
    && Ordered(cuts, from, end)
    && (forall i :: 0 <= i < |cuts| ==> StartsFrame(r, s[cuts[i].start..], cuts[i].len))
    && (forall j :: from <= j < end && !Covered(cuts, j) ==> Examined(r, s[j..]) && NeverFrame(r, s[j..]))
    && (forall n: nat :: !StartsFrame(r, s[end..], n))
    && !(Examined(r, s[end..]) && NeverFrame(r, s[end..]))
  }

  /** The selection the scan makes from position `from` on, and where it stops. */
  function Select(r: Receiver, s: seq<byte>, from: nat): (c: (seq<Cut>, nat))
    requires from <= |s|
    ensures from <= c.1 <= |s|
    decreases |s| - from
  {
    match Step(r, s[from..])
    case Wait => ([], from)
    case Drop => Select(r, s, from + 1)
    case Emit(len) =>
      var c := Select(r, s, from + len);
      ([Cut(from, len)] + c.0, c.1)
  }

  predicate SlicesAt(s: seq<byte>, cuts: seq<Cut>, wires: seq<seq<byte>>) {
    && |wires| == |cuts|
    && forall i :: 0 <= i < |cuts| ==>
         cuts[i].start + cuts[i].len <= |s| && wires[i] == s[cuts[i].start..cuts[i].start + cuts[i].len]
  }

  lemma {:induction false} ScanTakesSelection(r: Receiver, s: seq<byte>, from: nat)
    requires from <= |s|
    ensures var (cuts, end) := Select(r, s, from); var o := Scan(r, s[from..]);
      SlicesAt(s, cuts, o.wires) && o.rest == s[end..]
    decreases |s| - from
  {
    hide Step, Scan;
    match Step(r, s[from..]) {
      case Wait =>
        ScanWait(r, s[from..]);
      case Drop =>
        ScanDrop(r, s[from..]);
        assert s[from..][1..] == s[from + 1..];
        ScanTakesSelection(r, s, from + 1);
      case Emit(len) =>
        ScanEmit(r, s[from..], len);
        assert s[from..][len..] == s[from + len..] && s[from..][..len] == s[from..from + len];
        ScanTakesSelection(r, s, from + len);
    }
  }

  lemma StepIsSelected(r: Receiver, s: seq<byte>)
    ensures Step(r, s) == Wait ==> (forall n: nat :: !StartsFrame(r, s, n)) && !(Examined(r, s) && NeverFrame(r, s))
    ensures Step(r, s) == Drop ==> Examined(r, s) && NeverFrame(r, s)
    ensures Step(r, s).Emit? ==> StartsFrame(r, s, Step(r, s).len)
  {
    hide Step, StartsFrame, Examined, NeverFrame;
    DropIff(r, s);
    forall n: nat ensures StartsFrame(r, s, n) <==> Step(r, s) == Emit(n) {
      EmitIff(r, s, n);
    }
  }

  lemma CoveredCons(cut: Cut, cuts: seq<Cut>, j: nat)
    ensures Covered([cut] + cuts, j) <==> cut.start <= j < cut.start + cut.len || Covered(cuts, j)
  {
    var all := [cut] + cuts;
    if cut.start <= j < cut.start + cut.len {
      assert all[0] == cut;
    } else if Covered(cuts, j) {
      var i :| 0 <= i < |cuts| && cuts[i].start <= j < cuts[i].start + cuts[i].len;
      assert all[i + 1] == cuts[i];
    }
  }

  lemma SelectionWait(r: Receiver, s: seq<byte>, from: nat)
    requires from <= |s| && Step(r, s[from..]) == Wait
    ensures IsSelection(r, s, from, [], from)
  {
    hide Step, StartsFrame, Examined, NeverFrame;
    StepIsSelected(r, s[from..]);
  }

  lemma SelectionDrop(r: Receiver, s: seq<byte>, from: nat, cuts: seq<Cut>, end: nat)
    requires from < |s| && Step(r, s[from..]) == Drop && IsSelection(r, s, from + 1, cuts, end)
    ensures IsSelection(r, s, from, cuts, end)
  {
    hide Step, StartsFrame, Examined, NeverFrame;
    StepIsSelected(r, s[from..]);
  }

  lemma SelectionEmit(r: Receiver, s: seq<byte>, from: nat, len: nat, cuts: seq<Cut>, end: nat)
    requires from + len <= |s| && StartsFrame(r, s[from..], len) && IsSelection(r, s, from + len, cuts, end)
    ensures IsSelection(r, s, from, [Cut(from, len)] + cuts, end)
  {
    hide StartsFrame, Examined, NeverFrame;
    var all := [Cut(from, len)] + cuts;
    forall j | from <= j < end && !Covered(all, j) ensures Examined(r, s[j..]) && NeverFrame(r, s[j..]) {
      CoveredCons(Cut(from, len), cuts, j);
    }
  }

  /** The scan's slices are a leftmost greedy selection ... */
  lemma {:induction false} SelectIsSelection(r: Receiver, s: seq<byte>, from: nat)
    requires from <= |s|
    ensures var (cuts, end) := Select(r, s, from); IsSelection(r, s, from, cuts, end)
    decreases |s| - from
  {
    hide Step, StartsFrame, Examined, NeverFrame, IsSelection;
    match Step(r, s[from..]) {
      case Wait =>
        SelectionWait(r, s, from);
      case Drop =>
        SelectIsSelection(r, s, from + 1);
        var (cuts, end) := Select(r, s, from + 1);
        SelectionDrop(r, s, from, cuts, end);
      case Emit(len) =>
        SelectIsSelection(r, s, from + len);
        StepIsSelected(r, s[from..]);
        var (cuts, end) := Select(r, s, from + len);
        SelectionEmit(r, s, from, len, cuts, end);
    }
  }

  /** A frame at the front of a selection is its first slice. */
  lemma FirstCut(r: Receiver, s: seq<byte>, from: nat, cuts: seq<Cut>, end: nat, len: nat)
    requires IsSelection(r, s, from, cuts, end) && Step(r, s[from..]) == Emit(len)
    ensures cuts != [] && cuts[0] == Cut(from, len)
    ensures IsSelection(r, s, from + len, cuts[1..], end)
  {
    hide Step, StartsFrame, Examined, NeverFrame;
    StepIsSelected(r, s[from..]);
    assert StartsFrame(r, s[from..], len);
    assert from < end;
    DropIff(r, s[from..]);
    assert Covered(cuts, from);
    var i :| 0 <= i < |cuts| && cuts[i].start <= from < cuts[i].start + cuts[i].len;
    assert cuts[i].start == from;
    EmitIff(r, s[from..], cuts[i].len);
    assert i == 0 by {
      EmitIff(r, s[cuts[0].start..], cuts[0].len);
    }
    TailSelection(r, s, from, cuts, end);
  }

  lemma OrderedTail(cuts: seq<Cut>, from: nat, end: nat)
    requires cuts != [] && Ordered(cuts, from, end)
    ensures Ordered(cuts[1..], cuts[0].start + cuts[0].len, end)
  {
  }

  lemma UncoveredTail(cuts: seq<Cut>, j: nat)
    requires cuts != [] && j >= cuts[0].start + cuts[0].len && !Covered(cuts[1..], j)
    ensures !Covered(cuts, j)
  {
    CoveredCons(cuts[0], cuts[1..], j);
    assert cuts == [cuts[0]] + cuts[1..];
  }

  lemma TailSelection(r: Receiver, s: seq<byte>, from: nat, cuts: seq<Cut>, end: nat)
    requires IsSelection(r, s, from, cuts, end) && cuts != [] && cuts[0].start == from
    ensures IsSelection(r, s, from + cuts[0].len, cuts[1..], end)
  {
    OrderedTail(cuts, from, end);
    assert from + cuts[0].len <= end;
    hide StartsFrame, Examined, NeverFrame, Covered, Ordered;
    forall j | from + cuts[0].len <= j < end && !Covered(cuts[1..], j)
      ensures Examined(r, s[j..]) && NeverFrame(r, s[j..])
    {
      UncoveredTail(cuts, j);
    }
  }

  /** A byte that can begin no frame is in front of every slice of a selection. */
  lemma SkippedByte(r: Receiver, s: seq<byte>, from: nat, cuts: seq<Cut>, end: nat)
    requires IsSelection(r, s, from, cuts, end) && Step(r, s[from..]) == Drop
    ensures from < end && IsSelection(r, s, from + 1, cuts, end)
  {
    hide Step, StartsFrame, Examined, NeverFrame;
    StepIsSelected(r, s[from..]);
    forall i | 0 <= i < |cuts| ensures from + 1 <= cuts[i].start {
      EmitIff(r, s[cuts[i].start..], cuts[i].len);
    }
  }

  /** Whatever is selected or passed over, the receiver was not waiting. */
  lemma SelectedMeansDecided(r: Receiver, s: seq<byte>, from: nat, cuts: seq<Cut>, end: nat)
    requires IsSelection(r, s, from, cuts, end)
    ensures from < end || cuts != [] ==> Step(r, s[from..]) != Wait
  {
    hide Step, StartsFrame, Examined, NeverFrame;
    if cuts != [] {
      EmitIff(r, s[cuts[0].start..], cuts[0].len);
    }
    if from < end {
      if Covered(cuts, from) {
        var i :| 0 <= i < |cuts| && cuts[i].start <= from < cuts[i].start + cuts[i].len;
        EmitIff(r, s[from..], cuts[i].len);
      } else {
        DropIff(r, s[from..]);
      }
    }
  }

  /** ... and there is no other: the description determines the frames and the leftover. */
  lemma {:induction false} SelectionUnique(r: Receiver, s: seq<byte>, from: nat, cuts: seq<Cut>, end: nat)
    requires IsSelection(r, s, from, cuts, end)
    ensures Select(r, s, from) == (cuts, end)
    decreases |s| - from
  {
    hide Step, StartsFrame, Examined, NeverFrame, IsSelection;
    assert from <= end <= |s| by {
      SelectionInside(r, s, from, cuts, end);
    }
    match Step(r, s[from..]) {
      case Wait =>
        SelectedMeansDecided(r, s, from, cuts, end);
      case Drop =>
        SkippedByte(r, s, from, cuts, end);
        SelectionUnique(r, s, from + 1, cuts, end);
      case Emit(len) =>
        FirstCut(r, s, from, cuts, end, len);
        SelectionUnique(r, s, from + len, cuts[1..], end);
        assert cuts == [Cut(from, len)] + cuts[1..];
    }
  }

  lemma SelectionInside(r: Receiver, s: seq<byte>, from: nat, cuts: seq<Cut>, end: nat)
    requires IsSelection(r, s, from, cuts, end)
    ensures from <= end <= |s|
  {
  }

  /**
   * The scan is the leftmost greedy selection: the slices it takes and the bytes it keeps are the only ones
   * that fit the description.
   */
  lemma {:induction false} ScanIsLeftmostGreedy(r: Receiver, s: seq<byte>, cuts: seq<Cut>, end: nat)
    ensures IsSelection(r, s, 0, cuts, end) <==> (cuts, end) == Select(r, s, 0)
    ensures IsSelection(r, s, 0, cuts, end) ==>
      SlicesAt(s, cuts, Scan(r, s).wires) && Scan(r, s).rest == s[end..]
  {
    hide IsSelection, Scan, Step;
    SelectIsSelection(r, s, 0);
    ScanTakesSelection(r, s, 0);
    assert s[0..] == s;
    if IsSelection(r, s, 0, cuts, end) {
      SelectionUnique(r, s, 0, cuts, end);
    }
  }
}
