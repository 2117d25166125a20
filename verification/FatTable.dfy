/** The table of open files: who may share a directory entry, over whole runs. */
module FatTable {
  const HANDLE_COUNT: nat := 16

  /** A slot is open when its mode is not zero. */
  datatype Slot = Slot(mode: char, pos: nat) {
    predicate IsOpen() { mode != '\0' }
  }

  type Table = seq<Slot>

  predicate IsMode(mode: char) { mode == 'r' || mode == 'w' || mode == 'a' }

  /** `find_available_handle`, without the case of a full table. */
  predicate FirstFree(t: Table, i: nat) {
    i < |t| && !t[i].IsOpen() && forall j :: 0 <= j < i ==> t[j].IsOpen()
  }

  /** Another open slot on the same entry, and one of the two not for reading. */
  predicate Conflict(t: Table, i: nat, mode: char, pos: nat) {
    exists j :: 0 <= j < |t| && j != i && t[j].IsOpen() && t[j].pos == pos && (mode != 'r' || t[j].mode != 'r')
  }

  /** Open slots share an entry only if all of them are for reading. */
  ghost predicate Exclusive(t: Table) {
    forall i, j :: 0 <= i < j < |t| && t[i].IsOpen() && t[j].IsOpen() && t[i].pos == t[j].pos ==>
      t[i].mode == 'r' && t[j].mode == 'r'
  }

  /** Only the modes count for slots that are closed. */
  ghost predicate SameOpen(t: Table, t': Table) {
    |t| == |t'| && forall i :: 0 <= i < |t| ==> t[i].IsOpen() == t'[i].IsOpen() && (t[i].IsOpen() ==> t[i] == t'[i])
  }

  ghost predicate Others(t: Table, t': Table, i: nat) {
    |t| == |t'| && forall j :: 0 <= j < |t| && j != i ==> t'[j] == t[j]
  }

  /** The scan does not look at the slot being opened. */
  lemma ConflictOthers(t: Table, t': Table, i: nat, mode: char, pos: nat)
    requires Others(t, t', i)
    ensures Conflict(t, i, mode, pos) == Conflict(t', i, mode, pos)
  {
    assert forall j :: 0 <= j < |t| && j != i ==> t[j] == t'[j];
  }

  /** The end of `fat16_open` for a file below the root: the first free slot, given up again on a conflict. */
  ghost predicate SubdirOpen(t: Table, i: nat, mode: char, pos: nat, t': Table) {
    && FirstFree(t, i) && Others(t, t', i)
    && if Conflict(t, i, mode, pos) then !t'[i].IsOpen() else t'[i] == Slot(mode, pos)
  }

  /** For a file in the root: no look at the other slots. */
  ghost predicate RootOpen(t: Table, i: nat, mode: char, pos: nat, t': Table) {
    FirstFree(t, i) && Others(t, t', i) && t'[i] == Slot(mode, pos)
  }

  datatype Event =
    | OpenInSubdir(mode: char, pos: nat)    // the path leads to the record at pos
    | OpenInRoot(mode: char, pos: nat)
    | OpenFailed                            // no such record, or not admitted
    | Close(i: nat)
    | Read(i: nat)
    | Size

  /** What each call does to the table. */
  ghost predicate Step(t: Table, e: Event, t': Table) {
    match e
    case OpenInSubdir(mode, pos) => IsMode(mode) && exists i: nat :: SubdirOpen(t, i, mode, pos, t')
    case OpenInRoot(mode, pos) => IsMode(mode) && exists i: nat :: RootOpen(t, i, mode, pos, t')
    case OpenFailed => SameOpen(t, t')
    case Close(i) =>
      if i < |t| && t[i].IsOpen() then Others(t, t', i) && !t'[i].IsOpen() else t' == t
    case Read(i) => t' == t
    case Size => SameOpen(t, t')
  }

  /** A slot that was free, used for a while and closed. */
  lemma ClosedAgain(t: Table, u: Table, i: nat, t': Table)
    requires i < |t| && !t[i].IsOpen() && Others(t, u, i) && Step(u, Close(i), t')
    ensures Step(t, Size, t')
  {
  }

  lemma StepOf(t: Table, i: nat)
    ensures forall mode, pos, t' :: IsMode(mode) && SubdirOpen(t, i, mode, pos, t') ==>
              Step(t, OpenInSubdir(mode, pos), t')
    ensures forall mode, pos, t' :: IsMode(mode) && RootOpen(t, i, mode, pos, t') ==> Step(t, OpenInRoot(mode, pos), t')
    ensures forall t' :: SameOpen(t, t') ==> Step(t, OpenFailed, t')
    ensures SameOpen(t, t)
  {
  }

  /** Opening in the root directory skips the scan for other handles: the table stays exclusive exactly
      when the scan would have found nothing. */
  lemma RootOpenExclusive(t: Table, i: nat, mode: char, pos: nat, t': Table)
    requires Exclusive(t) && IsMode(mode) && RootOpen(t, i, mode, pos, t')
    ensures Exclusive(t') <==> !Conflict(t, i, mode, pos)
  {
    if Conflict(t, i, mode, pos) {
      var j :| 0 <= j < |t| && j != i && t[j].IsOpen() && t[j].pos == pos && (mode != 'r' || t[j].mode != 'r');
      assert t'[j] == t[j];
      assert j < i || i < j;
    } else {
      forall a, b | 0 <= a < b < |t'| && t'[a].IsOpen() && t'[b].IsOpen() && t'[a].pos == t'[b].pos
        ensures t'[a].mode == 'r' && t'[b].mode == 'r'
      {
        assert a != i ==> t'[a] == t[a];
        assert b != i ==> t'[b] == t[b];
      }
    }
  }

  /** What a call has to respect to keep entries exclusive: an open in the root directory must not be in
      the way of another handle. Every other call looks for itself. */
  ghost predicate Respects(t: Table, e: Event) {
    e.OpenInRoot? ==> forall i: nat :: FirstFree(t, i) ==> !Conflict(t, i, e.mode, e.pos)
  }

  lemma StepExclusive(t: Table, e: Event, t': Table)
    requires Exclusive(t) && Step(t, e, t')
    ensures Exclusive(t') <==> Respects(t, e)
  {
    match e
    case OpenInSubdir(mode, pos) =>
      var i: nat :| SubdirOpen(t, i, mode, pos, t');
      if !Conflict(t, i, mode, pos) {
        RootOpenExclusive(t, i, mode, pos, t');
      }
    case OpenInRoot(mode, pos) =>
      var i: nat :| RootOpen(t, i, mode, pos, t');
      RootOpenExclusive(t, i, mode, pos, t');
      assert forall j: nat :: FirstFree(t, j) ==> j == i;
    case _ =>
  }

  /** Over any run, open handles share a directory entry only if all of them are read-only, at every moment,
      exactly when no open in the root directory met a handle in its way. */
  lemma {:induction false} RunExclusive(ts: seq<Table>, es: seq<Event>)
    requires |ts| == |es| + 1 && Exclusive(ts[0])
    requires forall k :: 0 <= k < |es| ==> Step(ts[k], es[k], ts[k + 1])
    ensures (forall k :: 0 <= k < |ts| ==> Exclusive(ts[k])) <==> forall k :: 0 <= k < |es| ==> Respects(ts[k], es[k])
    decreases |es|
  {
    hide Exclusive, Step, Respects;
    if es == [] {
    } else {
      var n := |es| - 1;
      RunExclusive(ts[..n + 1], es[..n]);
      assert Step(ts[n], es[n], ts[n + 1]);
      if Exclusive(ts[n]) {
        StepExclusive(ts[n], es[n], ts[n + 1]);
      }
    }
  }

  /** All sixteen handles closed. */
  const ALL_CLOSED: Table := seq(HANDLE_COUNT, _ => Slot('\0', 0))

  /** The first two slots opened, one after the other. */
  lemma TwoOpened(a: Slot, b: Slot)
    requires a.IsOpen()
    ensures FirstFree(ALL_CLOSED, 0) && Others(ALL_CLOSED, ALL_CLOSED[0 := a], 0)
    ensures FirstFree(ALL_CLOSED[0 := a], 1) && Others(ALL_CLOSED[0 := a], ALL_CLOSED[0 := a][1 := b], 1)
  {
  }

  /** Two opens of the same root file for writing, one after the other on closed handles, are both
      granted. */
  lemma RootOpensCollide(pos: nat)
    ensures var one := ALL_CLOSED[0 := Slot('w', pos)];
            var two := one[1 := Slot('w', pos)];
            && Exclusive(ALL_CLOSED) && Step(ALL_CLOSED, OpenInRoot('w', pos), one)
            && Step(one, OpenInRoot('w', pos), two) && !Exclusive(two)
  {
    var one := ALL_CLOSED[0 := Slot('w', pos)];
    var two := one[1 := Slot('w', pos)];
    TwoOpened(Slot('w', pos), Slot('w', pos));
    assert RootOpen(ALL_CLOSED, 0, 'w', pos, one) && RootOpen(one, 1, 'w', pos, two);
    assert two[0].IsOpen() && two[1].IsOpen();
  }

  /** Two different files in the root directory: the second open fills slot 1 and returns 0, which is the
      handle of the first file. */
  lemma RootOpenNamesOther(p: nat, q: nat)
    requires p != q
    ensures var one := ALL_CLOSED[0 := Slot('r', p)];
            var two := one[1 := Slot('r', q)];
            && Step(ALL_CLOSED, OpenInRoot('r', p), one) && RootOpen(one, 1, 'r', q, two)
            && two[0].IsOpen() && two[0].pos != q
  {
    var one := ALL_CLOSED[0 := Slot('r', p)];
    var two := one[1 := Slot('r', q)];
    TwoOpened(Slot('r', p), Slot('r', q));
    assert RootOpen(ALL_CLOSED, 0, 'r', p, one) && RootOpen(one, 1, 'r', q, two);
  }
}
