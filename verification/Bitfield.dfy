/** The 512-bit field of a child, kept as eight consecutive rows of one array (src/bitfield.c). */
module Bitfield {
  import opened Base
  import opened Words

  // ---- rows as a set of zero bits ----

  /** The frames whose bit is zero: frame `f` is bit `f % 64` of row `f / 64`. */
  function Zeros(rows: seq<bv64>): (z: set<nat>)
    ensures forall f: nat :: f in z <==> f < 64 * |rows| && !Bit(rows[f / 64], f % 64)
  {
    set f: nat | 0 <= f < 64 * |rows| && !Bit(rows[f / 64], f % 64)
  }

  predicate Uniform(zeros: set<nat>, f: nat, n: nat, taken: bool)
  {
    if taken then Block(f, n) !! zeros else Block(f, n) <= zeros
  }

  function Flip(zeros: set<nat>, f: nat, n: nat, taken: bool): set<nat>
  {
    if taken then zeros + Block(f, n) else zeros - Block(f, n)
  }

  lemma RowIndex(r: nat, i: nat)
    requires i < 64
    ensures (64 * r + i) / 64 == r && (64 * r + i) % 64 == i
  {}

  lemma ZeroAt(rows: seq<bv64>, r: nat, i: nat)
    requires r < |rows| && i < 64
    ensures 64 * r + i in Zeros(rows) <==> !Bit(rows[r], i)
  {
    RowIndex(r, i);
  }

  lemma ZerosBelow(rows: seq<bv64>)
    ensures Zeros(rows) <= Block(0, 64 * |rows|)
  {}

  /** Rows with the same zero bits are the same rows. */
  lemma SameZeros(a: seq<bv64>, b: seq<bv64>)
    requires |a| == |b| && Zeros(a) == Zeros(b)
    ensures a == b
  {
    forall r | 0 <= r < |a|
      ensures a[r] == b[r]
    {
      forall i: nat | i < 64
        ensures Bit(a[r], i) <==> Bit(b[r], i)
      {
        ZeroAt(a, r, i);
        ZeroAt(b, r, i);
      }
      SameBits(a[r], b[r]);
    }
  }

  /** The bits of an aligned block all have the value `taken` exactly when none (or every one) of
      its frames is a zero bit. */
  lemma UniformBlock(rows: seq<bv64>, r: nat, b: nat, n: nat, taken: bool)
    requires r < |rows| && b + n <= 64
    ensures AllAt(rows[r], b, n, taken) <==> Uniform(Zeros(rows), 64 * r + b, n, taken)
  {
    hide Bit, Zeros;
    if AllAt(rows[r], b, n, taken) {
      forall f | f in Block(64 * r + b, n)
        ensures f in Zeros(rows) <==> !taken
      {
        ZeroAt(rows, r, f - 64 * r);
      }
    } else {
      var i :| b <= i < b + n && Bit(rows[r], i) != taken;
      ZeroAt(rows, r, i);
      assert 64 * r + i in Block(64 * r + b, n);
    }
  }

  /** The zero bits after a run of bits of one row was set to `value`. */
  lemma RowUpdate(rows: seq<bv64>, r: nat, w: bv64, b: nat, n: nat, value: bool)
    requires r < |rows| && b + n <= 64 && BitsChanged(rows[r], w, b, n, value)
    ensures Zeros(rows[r := w]) == Flip(Zeros(rows), 64 * r + b, n, !value)
  {
    hide Bit;
    var rows' := rows[r := w];
    forall f: nat | f < 64 * |rows|
      ensures f in Zeros(rows') <==> if 64 * r + b <= f < 64 * r + b + n then !value else f in Zeros(rows)
    {
      if f / 64 == r {
        assert f == 64 * r + f % 64;
      }
    }
  }

  lemma WholeRow(rows: seq<bv64>, r: nat, taken: bool)
    requires r < |rows|
    ensures rows[r] == (if taken then ALL_ONES else 0) <==> Uniform(Zeros(rows), 64 * r, 64, taken)
    ensures Zeros(rows[r := if taken then ALL_ONES else 0]) == Flip(Zeros(rows), 64 * r, 64, !taken)
  {
    hide Bit;
    var w: bv64 := if taken then ALL_ONES else 0;
    forall i: nat | i < 64
      ensures Bit(w, i) <==> taken
    {
      ZeroBit(i);
    }
    RowUpdate(rows, r, w, 0, 64, taken);
    UniformBlock(rows, r, 0, 64, taken);
    if AllAt(rows[r], 0, 64, taken) {
      SameBits(rows[r], w);
    }
  }

  // ---- several whole rows ----

  predicate RowsAre(rows: seq<bv64>, first: nat, n: nat, w: bv64)
  {
    first + n <= |rows| && forall r :: first <= r < first + n ==> rows[r] == w
  }

  function SetRows(rows: seq<bv64>, first: nat, n: nat, w: bv64): (s: seq<bv64>)
    requires first + n <= |rows|
    ensures |s| == |rows|
    ensures forall r :: 0 <= r < |rows| ==> s[r] == if first <= r < first + n then w else rows[r]
  {
    seq(|rows|, r requires 0 <= r < |rows| => if first <= r < first + n then w else rows[r])
  }

  lemma WholeRows(rows: seq<bv64>, first: nat, n: nat, taken: bool)
    requires first + n <= |rows|
    ensures RowsAre(rows, first, n, if taken then ALL_ONES else 0) <==> Uniform(Zeros(rows), 64 * first, 64 * n, taken)
  {
    hide Bit, Zeros;
    forall r | first <= r < first + n
      ensures rows[r] == (if taken then ALL_ONES else 0) <==> Uniform(Zeros(rows), 64 * r, 64, taken)
      ensures Block(64 * r, 64) <= Block(64 * first, 64 * n)
    {
      WholeRow(rows, r, taken);
    }
    forall f | f in Block(64 * first, 64 * n)
      ensures first <= f / 64 < first + n && f in Block(64 * (f / 64), 64)
    {}
  }

  lemma ZerosOfSetRows(rows: seq<bv64>, first: nat, n: nat, taken: bool)
    requires first + n <= |rows|
    ensures Zeros(SetRows(rows, first, n, if taken then ALL_ONES else 0)) ==
            Flip(Zeros(rows), 64 * first, 64 * n, !taken)
  {
    hide Bit;
    var s := SetRows(rows, first, n, if taken then ALL_ONES else 0);
    forall f: nat | f < 64 * |rows|
      ensures f in Zeros(s) <==> if 64 * first <= f < 64 * (first + n) then !taken else f in Zeros(rows)
    {
      ZeroBit(f % 64);
    }
  }

  // ---- field_set_next ----

  /** One attempt of the search for several rows: fills `n` empty rows, or undoes what it filled. */
  method FillRows(rows: array<bv64>, first: nat, n: nat) returns (ok: bool)
    requires first + n <= rows.Length
    modifies rows
    ensures ok <==> RowsAre(old(rows[..]), first, n, 0)
    ensures rows[..] == if ok then SetRows(old(rows[..]), first, n, ALL_ONES) else old(rows[..])
  {
    for i := 0 to n
      invariant forall r :: 0 <= r < rows.Length ==>
                  rows[r] == if first <= r < first + i then ALL_ONES else old(rows[r])
      invariant forall r :: first <= r < first + i ==> old(rows[r]) == 0
    {
      if rows[first + i] == 0 {
        rows[first + i] := ALL_ONES;
      } else {
        assert old(rows[..])[first + i] != 0;
        for j := 0 to i
          invariant forall r :: 0 <= r < rows.Length ==>
                      rows[r] == if first + j <= r < first + i then ALL_ONES else old(rows[r])
        {
          assert rows[first + j] == ALL_ONES;
          rows[first + j] := 0;
        }
        return false;
      }
    }
    return true;
  }

  /** The result of a search: an aligned free block of the field, or the fact that it has none. */
  ghost predicate Found(before: set<nat>, after: set<nat>, child: nat, order: nat, pos: Option<nat>)
  {
    var n := Pow2(order);
    match pos
    case Some(p) =>
      && p + n <= 512 && Aligned(p, order)
      && Block(512 * child + p, n) <= before
      && after == before - Block(512 * child + p, n)
    case None =>
      && after == before
      && forall f :: 0 <= f < 512 && Aligned(f, order) ==> !(Block(512 * child + f, n) <= before)
  }

  lemma NoneInRows(rows: seq<bv64>, child: nat, row: nat, order: nat)
    requires 8 * child + 8 <= |rows| && row < 8 && order <= 6
    requires forall k: nat :: k < 8 ==>
             Offsetted(row, 8, k) < 8 && Lowest(rows[8 * child + Offsetted(row, 8, k)], order) == 64
    ensures Found(Zeros(rows), Zeros(rows), child, order, None)
  {
    hide Bit, Zeros, RunMask, Pow2, Offsetted, OffsettedAt, Lowest, Block;
    forall f | 0 <= f < 512 && Aligned(f, order)
      ensures !(Block(512 * child + f, Pow2(order)) <= Zeros(rows))
    {
      var r := 8 * child + f / 64;
      OffsettedVisitsOnce(row, 8);
      var k := OffsettedAt(row, 8, f / 64);
      assert Offsetted(row, 8, k) == f / 64;
      BlockInRow(f, order);
      SmallPow(6);
      BlockInside(f, order, 6);
      assert !FreeAt(rows[r], f % 64, Pow2(order));
      UniformBlock(rows, r, f % 64, Pow2(order), false);
      assert 64 * r + f % 64 == 512 * child + f;
    }
  }

  lemma NoneInGroups(rows: seq<bv64>, child: nat, group: nat, order: nat, e: nat)
    requires 8 * child + 8 <= |rows| && 7 <= order <= 8
    requires e == Pow2(order) / 64 && (e == 2 || e == 4) && group < 8 / e
    requires forall k: nat :: k < 8 / e ==>
      Offsetted(group, 8 / e, k) < 8 / e && !RowsAre(rows, 8 * child + e * Offsetted(group, 8 / e, k), e, 0)
    ensures Found(Zeros(rows), Zeros(rows), child, order, None)
  {
    hide Bit, Zeros, RunMask, Pow2, Offsetted, OffsettedAt, Lowest, Block, Aligned, RowsAre;
    SmallPow(order);
    forall f | 0 <= f < 512 && Aligned(f, order)
      ensures !(Block(512 * child + f, Pow2(order)) <= Zeros(rows))
    {
      var g := f / Pow2(order);
      RowsOfBlock(f, order, e);
      SmallBack(group, 8 / e, g);
      var k := OffsettedAt(group, 8 / e, g);
      assert Offsetted(group, 8 / e, k) == g;
      WholeRows(rows, 8 * child + e * g, e, false);
    }
  }

  /** An aligned block of whole rows is one group of rows. */
  lemma RowsOfBlock(f: nat, order: nat, e: nat)
    requires f < 512 && Aligned(f, order) && 7 <= order <= 8 && e == Pow2(order) / 64
    ensures var g := f / Pow2(order); g < 8 / e && 64 * (e * g) == f && 64 * e == Pow2(order)
  {
    hide Pow2;
    SmallPow(order);
    DivBounds(f, Pow2(order));
  }

  /** The block at `p` is the lowest one of the first row tried that has a free block. */
  ghost predicate FirstTried(rows: seq<bv64>, child: nat, row: nat, order: nat, p: nat)
    requires 8 * child + 8 <= |rows| && order <= 6
  {
    && p < 512
    && p % 64 == Lowest(rows[8 * child + p / 64], order)
    && forall k: nat :: k < OffsettedAt(row, 8, p / 64) ==>
         Offsetted(row, 8, k) < 8 && Lowest(rows[8 * child + Offsetted(row, 8, k)], order) == 64
  }

  /** The block at `p` is the first group of whole rows tried that is free. */
  ghost predicate FirstGroup(rows: seq<bv64>, child: nat, row: nat, order: nat, p: nat)
    requires 8 * child + 8 <= |rows| && 7 <= order <= 8
  {
    var e := RowsOf(order);
    forall k: nat :: k < OffsettedAt(row / e, 8 / e, p / 64 / e) ==>
      var g := Offsetted(row / e, 8 / e, k);
      g < 8 / e && !RowsAre(rows, 8 * child + e * g, e, 0)
  }

  ghost predicate FirstPlace(rows: seq<bv64>, child: nat, row: nat, order: nat, p: nat)
    requires 8 * child + 8 <= |rows| && order <= 8
  {
    if order <= 6 then FirstTried(rows, child, row, order, p) else FirstGroup(rows, child, row, order, p)
  }

  lemma TookInRow(rows: seq<bv64>, child: nat, current: nat, order: nat, p: nat, w: bv64)
    requires 8 * child + 8 <= |rows| && current < 8 && order <= 6
    requires p == Lowest(rows[8 * child + current], order) && p < 64
    requires BitsChanged(rows[8 * child + current], w, p, Pow2(order), true)
    ensures Found(Zeros(rows), Zeros(rows[8 * child + current := w]), child, order, Some(64 * current + p))
  {
    hide Bit, Zeros, Lowest, Pow2, BitsChanged;
    var r := 8 * child + current;
    assert AllAt(rows[r], p, Pow2(order), false);
    UniformBlock(rows, r, p, Pow2(order), false);
    RowUpdate(rows, r, w, p, Pow2(order), true);
    SmallPow(6);
    AlignedMul(current, order, 6);
    AlignedAdd(current * 64, p, order);
    assert 64 * r + p == 512 * child + (64 * current + p);
  }

  /** The search for at most 64 frames, row by row. */
  method SetNextInRow(rows: array<bv64>, child: nat, row: nat, order: nat) returns (pos: Option<nat>)
    requires 8 * child + 8 <= rows.Length && row < 8 && order <= 6
    modifies rows
    ensures Found(Zeros(old(rows[..])), Zeros(rows[..]), child, order, pos)
    ensures pos.Some? ==> FirstTried(old(rows[..]), child, row, order, pos.value)
  {
    hide Bit, Zeros, RunMask, Pow2, Offsetted, OffsettedAt, Lowest, Aligned, Block, Found, BitsChanged, FreeAt;
    OffsettedVisitsOnce(row, 8);
    for i := 0 to 8
      invariant rows[..] == old(rows[..])
      invariant forall k :: 0 <= k < i ==> Lowest(rows[8 * child + Offsetted(row, 8, k)], order) == 64
    {
      var current := Offsetted(row, 8, i);
      var r := 8 * child + current;
      var cell := new RowCell(rows[r]);
      var found, p := cell.FirstZerosAligned(order);
      if found {
        TookInRow(rows[..], child, current, order, p, cell.word);
        rows[r] := cell.word;
        return Some(64 * current + p);
      }
    }
    NoneInRows(rows[..], child, row, order);
    return None;
  }

  lemma GroupsInField(group: nat, groups: nat, entries: nat)
    requires (entries == 2 && groups == 4) || (entries == 4 && groups == 2)
    requires group < groups
    ensures forall k :: 0 <= k < groups ==> Offsetted(group, groups, k) < groups
    ensures forall k :: 0 <= k < groups ==> entries * Offsetted(group, groups, k) + entries <= 8
  {
    forall k | 0 <= k < groups
      ensures Offsetted(group, groups, k) < groups
    {
      OffsettedForth(group, groups, k);
      DivBounds(Offsetted(group, groups, k), groups);
    }
  }

  lemma TookGroup(rows: seq<bv64>, child: nat, current: nat, order: nat, e: nat)
    requires 8 * child + 8 <= |rows| && 7 <= order <= 8 && Pow2(order) == 64 * e && e * current + e <= 8
    requires RowsAre(rows, 8 * child + e * current, e, 0)
    ensures Found(Zeros(rows), Zeros(SetRows(rows, 8 * child + e * current, e, ALL_ONES)), child, order,
                  Some(64 * (e * current)))
  {
    hide Zeros, Pow2, Bit, SetRows;
    var first := 8 * child + e * current;
    WholeRows(rows, first, e, false);
    ZerosOfSetRows(rows, first, e, true);
    AlignedMul(current, order, order);
    assert current * (64 * e) == 64 * (e * current);
    assert 64 * first == 512 * child + 64 * (e * current);
  }

  lemma TookFirstGroup(rows: seq<bv64>, child: nat, row: nat, order: nat, i: nat)
    requires 8 * child + 8 <= |rows| && 7 <= order <= 8 && row < 8 && i < 8 / RowsOf(order)
    requires var e := RowsOf(order);
             forall k :: 0 <= k < i ==> e * Offsetted(row / e, 8 / e, k) + e <= 8 &&
                                        !RowsAre(rows, 8 * child + e * Offsetted(row / e, 8 / e, k), e, 0)
    ensures var e := RowsOf(order); FirstGroup(rows, child, row, order, 64 * (e * Offsetted(row / e, 8 / e, i)))
  {
    hide Offsetted, OffsettedAt, RowsAre;
    var e := RowsOf(order);
    OffsettedForth(row / e, 8 / e, i);
    var g := Offsetted(row / e, 8 / e, i);
    assert 64 * (e * g) / 64 / e == g;
  }

  /** The search for several whole rows, group by group. */
  method SetNextInRows(rows: array<bv64>, child: nat, row: nat, order: nat) returns (pos: Option<nat>)
    requires 8 * child + 8 <= rows.Length && row < 8 && 7 <= order <= 8
    modifies rows
    ensures Found(Zeros(old(rows[..])), Zeros(rows[..]), child, order, pos)
    ensures pos.Some? ==> FirstGroup(old(rows[..]), child, row, order, pos.value)
  {
    hide Bit, Zeros, RunMask, Pow2, Offsetted, OffsettedAt, Lowest, Aligned, Block, FirstGroup, RowsAre, SetRows;
    SmallPow(order);
    var entries := Pow2(order) / 64;
    var groups := 8 / entries;
    var group := row / entries;
    OffsettedVisitsOnce(group, groups);
    GroupsInField(group, groups, entries);
    for i := 0 to groups
      invariant rows[..] == old(rows[..])
      invariant forall k :: 0 <= k < i ==>
                !RowsAre(rows[..], 8 * child + entries * Offsetted(group, groups, k), entries, 0)
    {
      var current := Offsetted(group, groups, i);
      var first := 8 * child + entries * current;
      var ok := FillRows(rows, first, entries);
      if ok {
        TookGroup(old(rows[..]), child, current, order, entries);
        TookFirstGroup(old(rows[..]), child, row, order, i);
        return Some(64 * (entries * current));
      }
    }
    NoneInGroups(rows[..], child, group, order, entries);
    return None;
  }

  /** Takes an aligned free block of 2^`order` frames of the field that starts at row 8 * `child`,
      if there is one. */
  method FieldSetNext(rows: array<bv64>, child: nat, startFrame: nat, order: nat) returns (pos: Option<nat>)
    requires 8 * child + 8 <= rows.Length && order <= 8
    modifies rows
    ensures Found(Zeros(old(rows[..])), Zeros(rows[..]), child, order, pos)
    ensures pos.Some? ==> FirstPlace(old(rows[..]), child, startFrame / 64 % 8, order, pos.value)
  {
    var row := startFrame / 64 % 8;
    if order <= 6 {
      pos := SetNextInRow(rows, child, row, order);
    } else {
      pos := SetNextInRows(rows, child, row, order);
    }
  }

  // ---- field_toggle ----

  /** How many rows from `first` on hold `w`, up to `n`. */
  function Matching(rows: seq<bv64>, first: nat, n: nat, w: bv64): (k: nat)
    requires first + n <= |rows|
    ensures k <= n && RowsAre(rows, first, k, w) && (k < n ==> rows[first + k] != w)
    decreases n
  {
    if n == 0 || rows[first] != w then 0 else 1 + Matching(rows, first + 1, n - 1, w)
  }

  /** The rows after the whole-row form of `field_toggle`. The undo loop in the source compares each
      row with the old value `mask`, which that row no longer holds: its first compare-and-swap fails
      and overwrites `mask` with the row's value, so that the later ones succeed and one row stays
      flipped. */
  function RowsAfter(undo: Undo, rows: seq<bv64>, first: nat, n: nat, expected: bool): seq<bv64>
    requires first + n <= |rows|
  {
    var k := Matching(rows, first, n, if expected then ALL_ONES else 0);
    var flipped: bv64 := if expected then 0 else ALL_ONES;
    if k == n then SetRows(rows, first, n, flipped)
    else if undo.Written? && k > 0 then rows[first + k - 1 := flipped]
    else rows
  }

  /** Whether the assertion in the undo loop fails. */
  predicate RowsFire(undo: Undo, rows: seq<bv64>, first: nat, n: nat, expected: bool)
    requires first + n <= |rows|
  {
    undo.Written? && 0 < Matching(rows, first, n, if expected then ALL_ONES else 0) < n
  }

  /** Taking two rows of which the second is held: the undo loop as written fails its assertion and
      leaves the first row taken. */
  lemma WrittenUndoKeepsRow()
    ensures RowsAfter(Written, [0, ALL_ONES], 0, 2, false) == [ALL_ONES, ALL_ONES]
    ensures RowsFire(Written, [0, ALL_ONES], 0, 2, false)
    ensures RowsAfter(Intended, [0, ALL_ONES], 0, 2, false) == [0, ALL_ONES]
  {
    assert Matching([0, ALL_ONES], 0, 2, 0) == 1;
  }

  /** The whole-row form of `field_toggle`. */
  method ToggleRows(rows: array<bv64>, first: nat, n: nat, expected: bool, undo: Undo) returns (ok: bool, fired: bool)
    requires first + n <= rows.Length
    modifies rows
    ensures ok <==> RowsAre(old(rows[..]), first, n, if expected then ALL_ONES else 0)
    ensures rows[..] == RowsAfter(undo, old(rows[..]), first, n, expected)
    ensures fired <==> RowsFire(undo, old(rows[..]), first, n, expected)
  {
    hide Bit, Zeros, Matching;
    var value: bv64 := if expected then ALL_ONES else 0;
    var flipped: bv64 := if expected then 0 else ALL_ONES;
    fired := false;
    ghost var k := Matching(old(rows[..]), first, n, value);
    for i := 0 to n
      invariant i <= k && !fired
      invariant forall r :: 0 <= r < rows.Length ==> rows[r] == if first <= r < first + i then flipped else old(rows[r])
    {
      if rows[first + i] == value {
        rows[first + i] := flipped;
      } else {
        var mask := value;
        for j := 0 to i
          invariant undo.Intended? ==> !fired
          invariant undo.Intended? ==> forall r :: 0 <= r < rows.Length ==>
                                         rows[r] == if first <= r < first + i - j then flipped else old(rows[r])
          invariant undo.Written? ==> (fired <==> j > 0) && mask == if j == 0 then value else flipped
          invariant undo.Written? ==> forall r :: 0 <= r < rows.Length ==>
                                        rows[r] == if first <= r < first + i - j ||
                                            (r == first + i - 1 && j > 0) then flipped else old(rows[r])
        {
          var r := first + i - j - 1;
          if undo.Intended? {
            if rows[r] == flipped {
              rows[r] := value;
            } else {
              fired := true;
            }
          } else if rows[r] == mask {
            rows[r] := if mask == 0 then ALL_ONES else 0;
          } else {
            mask := rows[r];
            fired := true;
          }
        }
        return false, fired;
      }
    }
    return true, false;
  }

  /** When the undo loop as written leaves a failed toggle without effect: the first row already
      fails, or the block lies inside one row. */
  predicate ToggleClean(undo: Undo, zeros: set<nat>, f: nat, order: nat, expected: bool)
  {
    undo.Intended? || order <= 6 || if expected then !(Block(f, 64) !! zeros) else !(Block(f, 64) <= zeros)
  }

  lemma WholeRowsOf(index: nat, order: nat)
    requires 7 <= order <= 9 && index < 512 && Aligned(index, order)
    ensures index % 64 == 0 && index / 64 + Pow2(order) / 64 <= 8
  {
    SmallPow(order);
    SmallPow(6);
    AlignedDown(index, order, 6);
    BlockInChild(index, order);
  }

  /** Flips the aligned block of 2^`order` frames at `index` if every bit has the expected value. */
  method FieldToggle(rows: array<bv64>, child: nat, index: nat, order: nat, expected: bool, undo: Undo)
    returns (ok: bool, fired: bool)
    requires 8 * child + 8 <= rows.Length && index < 512 && order <= 9 && Aligned(index, order)
    modifies rows
    ensures var z, f, n := Zeros(old(rows[..])), 512 * child + index, Pow2(order);
            && (ok <==> Uniform(z, f, n, expected))
            && (ok ==> !fired && Zeros(rows[..]) == Flip(z, f, n, expected))
            && (!ok ==> (!fired && rows[..] == old(rows[..]) <==> ToggleClean(undo, z, f, order, expected)))
            && (!ok && !ToggleClean(undo, z, f, order, expected) ==>
                  fired && exists r :: f <= 64 * r < f + n - 64 && Zeros(rows[..]) == Flip(z, 64 * r, 64, expected))
  {
    hide Bit, Zeros, Pow2, Block, Uniform, Flip, Aligned;
    if order <= 6 {
      BlockInRow(index, order);
      assert 64 * (8 * child + index / 64) + index % 64 == 512 * child + index;
      ok := ToggleInRow(rows, 8 * child + index / 64, index % 64, order, expected);
      fired := false;
    } else {
      WholeRowsOf(index, order);
      assert 64 * (8 * child + index / 64) == 512 * child + index;
      ok, fired := ToggleWholeRows(rows, 8 * child + index / 64, order, expected, undo);
    }
  }

  method ToggleInRow(rows: array<bv64>, r: nat, b: nat, order: nat, expected: bool) returns (ok: bool)
    requires r < rows.Length && order <= 6 && b + Pow2(order) <= 64
    modifies rows
    ensures ok <==> Uniform(Zeros(old(rows[..])), 64 * r + b, Pow2(order), expected)
    ensures ok ==> Zeros(rows[..]) == Flip(Zeros(old(rows[..])), 64 * r + b, Pow2(order), expected)
    ensures !ok ==> rows[..] == old(rows[..])
  {
    hide *;
    RunBits(order, b);
    UniformBlock(rows[..], r, b, Pow2(order), expected);
    var cell := new RowCell(rows[r]);
    ok := cell.Toggle(RunMask(order, b), expected, b, Pow2(order));
    if ok {
      RowUpdate(rows[..], r, cell.word, b, Pow2(order), !expected);
      rows[r] := cell.word;
    }
  }

  method ToggleWholeRows(rows: array<bv64>, first: nat, order: nat, expected: bool, undo: Undo)
    returns (ok: bool, fired: bool)
    requires 7 <= order <= 9 && first + Pow2(order) / 64 <= rows.Length
    modifies rows
    ensures var z, f, n := Zeros(old(rows[..])), 64 * first, Pow2(order);
            && (ok <==> Uniform(z, f, n, expected))
            && (ok ==> !fired && Zeros(rows[..]) == Flip(z, f, n, expected))
            && (!ok ==> (!fired && rows[..] == old(rows[..]) <==> ToggleClean(undo, z, f, order, expected)))
            && (!ok && !ToggleClean(undo, z, f, order, expected) ==>
                  fired && exists r :: f <= 64 * r < f + n - 64 && Zeros(rows[..]) == Flip(z, 64 * r, 64, expected))
  {
    hide Zeros, Block, Matching, Flip, Uniform, Bit, Pow2, SetRows, ToggleClean;
    SmallPow(order);
    var n := Pow2(order) / 64;
    ok, fired := ToggleRows(rows, first, n, expected, undo);
    if ok {
      ToggledRows(old(rows[..]), first, n, expected);
    } else {
      UntoggledRows(old(rows[..]), first, n, order, expected, undo);
    }
    assert 64 * n == Pow2(order);
  }

  lemma ToggledRows(rows: seq<bv64>, first: nat, n: nat, expected: bool)
    requires first + n <= |rows|
    requires Matching(rows, first, n, if expected then ALL_ONES else 0) == n
    ensures Uniform(Zeros(rows), 64 * first, 64 * n, expected)
    ensures Zeros(SetRows(rows, first, n, if expected then 0 else ALL_ONES)) ==
            Flip(Zeros(rows), 64 * first, 64 * n, expected)
  {
    hide *;
    WholeRows(rows, first, n, expected);
    ZerosOfSetRows(rows, first, n, !expected);
  }

  /** Flipping one row changes the rows, and their zero bits accordingly. */
  ghost predicate StaysFlipped(rows: seq<bv64>, r: nat, expected: bool)
    requires r < |rows|
  {
    var after := rows[r := if expected then 0 else ALL_ONES];
    after != rows && Zeros(after) == Flip(Zeros(rows), 64 * r, 64, expected)
  }

  lemma UntoggledRows(rows: seq<bv64>, first: nat, n: nat, order: nat, expected: bool, undo: Undo)
    requires 7 <= order <= 9 && n > 0 && first + n <= |rows|
    requires Matching(rows, first, n, if expected then ALL_ONES else 0) < n
    ensures !Uniform(Zeros(rows), 64 * first, 64 * n, expected)
    ensures var k := Matching(rows, first, n, if expected then ALL_ONES else 0);
            && (ToggleClean(undo, Zeros(rows), 64 * first, order, expected) <==> undo.Intended? || k == 0)
            && (k > 0 ==> StaysFlipped(rows, first + k - 1, expected))
            && (k > 0 ==> 64 * first <= 64 * (first + k - 1) < 64 * first + 64 * n - 64)
  {
    hide Zeros, Block, Matching, Flip, Uniform, Bit;
    var w: bv64 := if expected then ALL_ONES else 0;
    var k := Matching(rows, first, n, w);
    WholeRows(rows, first, n, expected);
    WholeRow(rows, first, expected);
    UniformDef(Zeros(rows), 64 * first, expected);
    if k > 0 {
      assert rows[first + k - 1] == w;
      WholeRow(rows, first + k - 1, !expected);
    }
  }

  lemma UniformDef(zeros: set<nat>, f: nat, taken: bool)
    ensures Uniform(zeros, f, 64, taken) <==> if taken then Block(f, 64) !! zeros else Block(f, 64) <= zeros
  {}

  // ---- counting ----

  function OnesBelow(v: bv64, k: nat): nat
    requires k <= 64
  {
    if k == 0 then 0 else OnesBelow(v, k - 1) + if Bit(v, k - 1) then 1 else 0
  }

  /** `__builtin_popcountll`. */
  function CountOnes(v: bv64): nat
  {
    OnesBelow(v, 64)
  }

  lemma {:induction false} OnesOfRow(rows: seq<bv64>, r: nat, k: nat)
    requires r < |rows| && k <= 64
    ensures OnesBelow(rows[r], k) == k - |Zeros(rows) * Block(64 * r, k)|
  {
    hide Zeros, Bit;
    if k == 0 {
      assert Zeros(rows) * Block(64 * r, 0) == {};
    } else {
      OnesOfRow(rows, r, k - 1);
      ZeroAt(rows, r, k - 1);
      OneMore(Zeros(rows), 64 * r, k - 1);
    }
  }

  lemma OneMore(zeros: set<nat>, f: nat, k: nat)
    ensures |zeros * Block(f, k + 1)| == |zeros * Block(f, k)| + if f + k in zeros then 1 else 0
  {
    var a, b := zeros * Block(f, k), zeros * Block(f, k + 1);
    assert b == if f + k in zeros then a + {f + k} else a;
  }

  /** The number of set bits of a field. */
  method FieldCountOnes(rows: array<bv64>, child: nat) returns (counter: nat)
    requires 8 * child + 8 <= rows.Length
    ensures counter == 512 - |Zeros(rows[..]) * Block(512 * child, 512)|
  {
    hide Bit, Zeros, OnesBelow, Block;
    counter := 0;
    assert Zeros(rows[..]) * Block(512 * child, 0) == {};
    for i := 0 to 8
      invariant counter == 64 * i - |Zeros(rows[..]) * Block(512 * child, 64 * i)|
    {
      CountRow(rows[..], child, i);
      counter := counter + CountOnes(rows[8 * child + i]);
    }
  }

  /** One more row of a field. */
  lemma CountRow(rows: seq<bv64>, child: nat, i: nat)
    requires 8 * child + 8 <= |rows| && i < 8
    ensures CountOnes(rows[8 * child + i]) ==
            64 - |Zeros(rows) * Block(512 * child, 64 * (i + 1))| + |Zeros(rows) * Block(512 * child, 64 * i)|
  {
    hide Bit, Zeros, OnesBelow, Block;
    OnesOfRow(rows, 8 * child + i, 64);
    NextBlock(Zeros(rows), 512 * child, 64 * i, 64);
  }

  lemma NextBlock(zeros: set<nat>, f: nat, n: nat, m: nat)
    ensures |zeros * Block(f, n + m)| == |zeros * Block(f, n)| + |zeros * Block(f + n, m)|
  {
    var a, b := zeros * Block(f, n), zeros * Block(f + n, m);
    assert zeros * Block(f, n + m) == a + b;
    assert a !! b;
  }

  method FieldIsFree(rows: array<bv64>, child: nat, index: nat) returns (free: bool)
    requires 8 * child + 8 <= rows.Length && index < 512
    ensures free <==> 512 * child + index in Zeros(rows[..])
  {
    free := !Bit(rows[8 * child + index / 64], index % 64);
    ZeroAt(rows[..], 8 * child + index / 64, index % 64);
  }

  /** Clears every row of a field. */
  method FieldInit(rows: array<bv64>, child: nat)
    requires 8 * child + 8 <= rows.Length
    modifies rows
    ensures Zeros(rows[..]) == Zeros(old(rows[..])) + Block(512 * child, 512)
  {
    hide Bit, Zeros;
    for i := 0 to 8
      invariant rows[..] == SetRows(old(rows[..]), 8 * child, i, 0)
    {
      rows[8 * child + i] := 0;
    }
    ZerosOfSetRows(old(rows[..]), 8 * child, 8, false);
  }

  /** The word written to a row of which the first `free` frames are free. */
  function InitRow(free: nat): bv64
    requires free <= 64
  {
    if free == 64 then 0 else if free > 0 then ALL_ONES << (free as bv7) else ALL_ONES
  }

  lemma InitRowBits(free: nat, i: nat)
    requires free <= 64 && i < 64
    ensures Bit(InitRow(free), i) <==> free <= i
  {
    ZeroBit(i);
    if 0 < free < 64 {
      HighBits(free);
      hide Bit;
    }
  }

  /** How many of the first `free` frames of a field lie in row `i`. */
  function RowShare(free: nat, i: nat): (n: nat)
    ensures n <= 64
  {
    if free <= 64 * i then 0 else if free >= 64 * i + 64 then 64 else free - 64 * i
  }

  /** The word for row `i` when `left` frames are still to be marked as free. */
  lemma InitRowIs(free: nat, i: nat, left: nat)
    requires left == if free <= 64 * i then 0 else free - 64 * i
    ensures left >= 64 ==> InitRow(RowShare(free, i)) == 0
    ensures 0 < left < 64 ==> InitRow(RowShare(free, i)) == ALL_ONES << (left as bv7)
    ensures left == 0 ==> InitRow(RowShare(free, i)) == ALL_ONES
  {}

  /** The zero bits after a field was overwritten. */
  lemma ZerosOfInit(before: seq<bv64>, rows: seq<bv64>, child: nat, free: nat)
    requires |before| == |rows| && 8 * child + 8 <= |rows| && free <= 512
    requires forall r :: 0 <= r < |rows| && !(8 * child <= r < 8 * child + 8) ==> rows[r] == before[r]
    requires forall r :: 8 * child <= r < 8 * child + 8 ==> rows[r] == InitRow(RowShare(free, r - 8 * child))
    ensures Zeros(rows) == Zeros(before) - Block(512 * child, 512) + Block(512 * child, free)
  {
    hide Bit, InitRow;
    forall f: nat
      ensures f in Zeros(rows) <==> f in Zeros(before) - Block(512 * child, 512) + Block(512 * child, free)
    {
      var r := f / 64;
      if 8 * child <= r < 8 * child + 8 {
        InitRowBits(RowShare(free, r - 8 * child), f % 64);
        assert rows[r] == InitRow(RowShare(free, r - 8 * child));
      }
    }
  }

  /** Marks the first `free` frames of a field as free and the others as allocated. */
  method InitField(rows: array<bv64>, child: nat, free: nat)
    requires 8 * child + 8 <= rows.Length && free <= 512
    modifies rows
    ensures Zeros(rows[..]) == Zeros(old(rows[..])) - Block(512 * child, 512) + Block(512 * child, free)
  {
    hide Bit, Zeros, Block, InitRow, RowShare;
    var left := free;
    for i := 0 to 8
      invariant left == if free <= 64 * i then 0 else free - 64 * i
      invariant forall r :: 0 <= r < rows.Length && !(8 * child <= r < 8 * child + i) ==> rows[r] == old(rows[r])
      invariant forall r :: 8 * child <= r < 8 * child + i ==> rows[r] == InitRow(RowShare(free, r - 8 * child))
    {
      InitRowIs(free, i, left);
      if left >= ATOMIC_SIZE {
        rows[8 * child + i] := 0;
        left := left - ATOMIC_SIZE;
      } else if left > 0 {
        PosBound(left);
        rows[8 * child + i] := ALL_ONES << (left as bv7);
        left := 0;
      } else {
        rows[8 * child + i] := ALL_ONES;
      }
    }
    ZerosOfInit(old(rows[..]), rows[..], child, free);
  }
}
