/** Giving a held block of whole children back in parts, in any order and by any partition. */
module LowerParts {
  import opened Base
  import opened Children
  import opened LowerSpec

  datatype Piece = Piece(frame: nat, order: nat) {
    function Frames(): set<nat> {
      Block(frame, Pow2(order))
    }
  }

  function AllFrames(pieces: seq<Piece>): set<nat>
  {
    if pieces == [] then {} else AllFrames(pieces[..|pieces| - 1]) + pieces[|pieces| - 1].Frames()
  }

  /** The pieces are aligned blocks, and no two of them share a frame. */
  ghost predicate Disjoint(pieces: seq<Piece>)
  {
    && (forall i :: 0 <= i < |pieces| ==> Aligned(pieces[i].frame, pieces[i].order))
    && forall i :: 0 <= i < |pieces| ==> AllFrames(pieces[..i]) !! pieces[i].Frames()
  }

  /** The memory after the pieces were given back one after the other. */
  function PutAll(m: Mem, pieces: seq<Piece>): Mem
  {
    if pieces == [] then m
    else
      var before := PutAll(m, pieces[..|pieces| - 1]);
      var p := pieces[|pieces| - 1];
      if Covered(before, p.frame, p.order) then Dealloc(before, p.frame, p.order) else before
  }

  /** The entry of child `c`, which was held as huge, after the frames in `s` were given back. */
  function PartChild(s: set<nat>, c: nat): Child
  {
    if s !! Field(c) then TAKEN else Child(|s * Field(c)|, false)
  }

  /** The frames of the children that `s` touches. */
  function Touched(m: Mem, s: set<nat>): set<nat>
  {
    set f | f in Block(0, 512 * |m.children|) && !(s !! Field(f / 512))
  }

  /** The memory after the frames in `s`, all held as parts of huge children, were given back. */
  function GivenBack(m: Mem, s: set<nat>): Mem
  {
    Mem(seq(|m.children|, c requires 0 <= c < |m.children| => if s !! Field(c) then m.children[c] else PartChild(s, c)),
        m.zeros - Touched(m, s) + s)
  }

  /** The frames of `s` belong to huge children, all of whose bits are zero. */
  ghost predicate HeldHuge(m: Mem, s: set<nat>)
  {
    forall f :: f in s ==> f / 512 < |m.children| && m.children[f / 512] == TAKEN && Field(f / 512) <= m.zeros
  }

  lemma GivenBackNothing(m: Mem)
    ensures GivenBack(m, {}) == m
  {
    assert Touched(m, {}) == {};
  }

  /** One more piece of order below 9. */
  lemma GiveSmall(m: Mem, s: set<nat>, p: Piece)
    requires p.order < 9 && Aligned(p.frame, p.order) && s !! p.Frames() && HeldHuge(m, s + p.Frames())
    ensures var g := GivenBack(m, s);
            && Covered(g, p.frame, p.order) && Allocated(g, p.frame, p.order)
            && Dealloc(g, p.frame, p.order) == GivenBack(m, s + p.Frames())
  {
    hide Pow2, Block, HeldHuge, GivenBack, Dealloc, Aligned;
    SmallBlock(p.frame, p.order);
    PieceHeld(m, s + p.Frames(), p.frame);
    GiveBits(m, s, p.Frames(), p.frame / 512);
    DeallocSmallIs(GivenBack(m, s), p.frame, p.order);
  }

  /** The same for any frames of one child. */
  lemma GiveBits(m: Mem, s: set<nat>, b: set<nat>, c: nat)
    requires c < |m.children| && m.children[c] == TAKEN && s !! b && b <= Field(c) && b != {}
    ensures var g := GivenBack(m, s);
            && |g.children| == |m.children|
            && (g.children[c].huge || b !! g.zeros)
            && GivenBack(m, s + b) == Mem(g.children[c :=
                                                     Child((if g.children[c].huge then 0 else g.children[c].free) +
                                                           |b|, false)],
                                          (if g.children[c].huge then g.zeros - Field(c) else g.zeros) + b)
  {
    hide GivenBack, Touched, Field;
    PartCount(s, b, c);
    OtherChildren(m, s, b, c);
    SmallZeros(m, s, b, c);
    PartUntouched(m, s, c);
    PartUntouched(m, s + b, c);
    var g := GivenBack(m, s);
    assert GivenBack(m, s + b).children ==
           g.children[c := Child((if g.children[c].huge then 0 else g.children[c].free) + |b|, false)];
  }

  lemma DeallocSmallIs(m: Mem, f: nat, order: nat)
    requires order < 9 && f / 512 < |m.children|
    ensures Covered(m, f, order)
    ensures var c := m.children[f / 512];
            Dealloc(m, f, order) == Mem(m.children[f / 512 :=
                                                   Child((if c.huge then 0 else c.free) + Pow2(order), false)],
                                        (if c.huge then m.zeros - Field(f / 512) else m.zeros) + Block(f, Pow2(order)))
  {
    hide Pow2, Block, Field;
    var c := f / 512;
    assert m.children[c := Child(0, false)][c := Child(Pow2(order), false)] ==
           m.children[c := Child(Pow2(order), false)];
  }

  lemma PieceHeld(m: Mem, s: set<nat>, f: nat)
    requires HeldHuge(m, s) && f in s
    ensures f / 512 < |m.children| && m.children[f / 512] == TAKEN
  {}

  lemma PartUntouched(m: Mem, s: set<nat>, c: nat)
    requires c < |m.children| && m.children[c] == TAKEN
    ensures |GivenBack(m, s).children| == |m.children|
    ensures GivenBack(m, s).children[c] == if s !! Field(c) then TAKEN else Child(|s * Field(c)|, false)
  {}

  lemma TouchedIff(m: Mem, s: set<nat>, f: nat)
    ensures f in Touched(m, s) <==> f / 512 < |m.children| && !(s !! Field(f / 512))
  {}

  lemma TouchedMore(m: Mem, s: set<nat>, b: set<nat>, c: nat)
    requires b <= Field(c) && b != {} && c < |m.children|
    ensures Touched(m, s + b) == Touched(m, s) + Field(c)
    ensures s !! Field(c) ==> Field(c) !! Touched(m, s)
    ensures !(s !! Field(c)) ==> Field(c) <= Touched(m, s)
  {
    hide Touched, Field;
    forall f: nat
      ensures f in Touched(m, s + b) <==> f in Touched(m, s) || f in Field(c)
      ensures f in Field(c) ==> (f in Touched(m, s) <==> !(s !! Field(c)))
    {
      TouchedIff(m, s, f);
      TouchedIff(m, s + b, f);
      InField(f, c);
      if f / 512 != c {
        FieldsApart(b, c, f / 512);
      }
    }
  }

  lemma FieldsApart(b: set<nat>, c: nat, i: nat)
    requires b <= Field(c) && i != c
    ensures b !! Field(i)
  {}

  lemma PartCount(s: set<nat>, b: set<nat>, c: nat)
    requires b <= Field(c) && b != {} && s !! b
    ensures !((s + b) !! Field(c))
    ensures PartChild(s + b, c) == Child((if s !! Field(c) then 0 else |s * Field(c)|) + |b|, false)
  {
    assert (s + b) * Field(c) == s * Field(c) + b;
    assert s !! Field(c) ==> s * Field(c) == {};
  }

  lemma OtherChildren(m: Mem, s: set<nat>, b: set<nat>, c: nat)
    requires b <= Field(c)
    ensures forall i :: 0 <= i < |m.children| && i != c ==>
            GivenBack(m, s).children[i] == GivenBack(m, s + b).children[i]
  {
    forall i | 0 <= i < |m.children| && i != c
      ensures GivenBack(m, s).children[i] == GivenBack(m, s + b).children[i]
    {
      assert b !! Field(i);
      assert (s + b) * Field(i) == s * Field(i);
    }
  }

  lemma SmallZeros(m: Mem, s: set<nat>, b: set<nat>, c: nat)
    requires b <= Field(c) && b != {} && s !! b && c < |m.children|
    ensures GivenBack(m, s + b).zeros ==
            if s !! Field(c) then GivenBack(m, s).zeros - Field(c) + b else GivenBack(m, s).zeros + b
    ensures GivenBack(m, s).zeros !! b || s !! Field(c)
  {
    hide Touched;
    TouchedMore(m, s, b, c);
  }

  /** One more piece of order 9 or more. */
  lemma GiveLarge(m: Mem, s: set<nat>, p: Piece)
    requires p.order >= 9 && Aligned(p.frame, p.order) && s !! p.Frames() && HeldHuge(m, s + p.Frames())
    ensures var g := GivenBack(m, s);
            && Covered(g, p.frame, p.order) && Allocated(g, p.frame, p.order)
            && Dealloc(g, p.frame, p.order) == GivenBack(m, s + p.Frames())
  {
    hide Pow2, Touched, Block, Field, PartChild, HeldHuge;
    WholeRange(m, s, p);
    var g, e := GivenBack(m, s), GivenBack(m, s + p.Frames());
    var c, h := p.frame / 512, Span(p.order);
    forall i | 0 <= i < |m.children|
      ensures e.children[i] == if c <= i < c + h then FULL else g.children[i]
    {
      if c <= i < c + h {
        WholePart(s, p.Frames(), i);
      } else {
        OutsidePart(s, p.Frames(), p, i);
        SamePart(m, s, p.Frames(), i);
      }
    }
    assert Dealloc(g, p.frame, p.order).children == e.children;
    LargeZeros(m, s, p);
  }

  lemma SamePart(m: Mem, s: set<nat>, b: set<nat>, i: nat)
    requires i < |m.children| && (s + b) * Field(i) == s * Field(i)
    ensures GivenBack(m, s + b).children[i] == GivenBack(m, s).children[i]
  {}

  /** The children of the piece, none of which was touched before. */
  lemma WholeRange(m: Mem, s: set<nat>, p: Piece)
    requires p.order >= 9 && Aligned(p.frame, p.order) && s !! p.Frames() && HeldHuge(m, s + p.Frames())
    ensures p.frame / 512 + Span(p.order) <= |m.children|
    ensures forall i: nat :: p.frame / 512 <= i < p.frame / 512 + Span(p.order) ==>
              m.children[i] == TAKEN && s !! Field(i) && Field(i) <= p.Frames()
  {
    hide Pow2, Block;
    var c, h := p.frame / 512, Span(p.order);
    forall i: nat | c <= i < c + h
      ensures i < |m.children| && m.children[i] == TAKEN && s !! Field(i) && Field(i) <= p.Frames()
    {
      WholeInside(p, i);
      FirstChildOf(i);
      assert 512 * i in s + p.Frames();
    }
    SpanPositive(p.order);
    WholeInside(p, c + h - 1);
    FirstChildOf(c + h - 1);
    PieceHeld(m, s + p.Frames(), 512 * (c + h - 1));
  }

  lemma SpanPositive(order: nat)
    requires order >= 9
    ensures Span(order) >= 1
  {}

  lemma FirstChildOf(i: nat)
    ensures 512 * i in Field(i) && 512 * i / 512 == i
  {}

  lemma WholeInside(p: Piece, i: nat)
    requires p.order >= 9 && Aligned(p.frame, p.order) && p.frame / 512 <= i < p.frame / 512 + Span(p.order)
    ensures Field(i) <= p.Frames()
  {
    LargeBlock(p.frame, p.order);
    forall f | f in Field(i)
      ensures f in p.Frames()
    {
      InField(f, i);
    }
  }

  lemma WholePart(s: set<nat>, b: set<nat>, i: nat)
    requires Field(i) <= b && s !! b
    ensures !((s + b) !! Field(i)) && PartChild(s + b, i) == FULL
  {
    BlockSize(512 * i, 512);
    assert 512 * i in Field(i);
    assert (s + b) * Field(i) == Field(i);
  }

  lemma OutsidePart(s: set<nat>, b: set<nat>, p: Piece, i: nat)
    requires p.order >= 9 && Aligned(p.frame, p.order) && b == p.Frames()
    requires !(p.frame / 512 <= i < p.frame / 512 + Span(p.order))
    ensures (s + b) * Field(i) == s * Field(i)
  {
    LargeBlock(p.frame, p.order);
    forall f | f in b
      ensures f !in Field(i)
    {
      InField(f, i);
    }
  }

  lemma LargeZeros(m: Mem, s: set<nat>, p: Piece)
    requires p.order >= 9 && Aligned(p.frame, p.order) && s !! p.Frames() && HeldHuge(m, s + p.Frames())
    ensures GivenBack(m, s + p.Frames()).zeros == GivenBack(m, s).zeros
  {
    hide Pow2, Block;
    var b := p.Frames();
    LargeBlock(p.frame, p.order);
    forall f: nat
      ensures f in GivenBack(m, s + b).zeros <==> f in GivenBack(m, s).zeros
    {
      ZerosAt(m, s, f);
      ZerosAt(m, s + b, f);
      if p.frame / 512 <= f / 512 < p.frame / 512 + Span(p.order) {
        WholeInside(p, f / 512);
        InField(f, f / 512);
        assert f in s + b;
        assert s !! Field(f / 512);
      } else {
        OutsidePart(s, b, p, f / 512);
        InField(f, f / 512);
      }
    }
  }

  lemma ZerosAt(m: Mem, s: set<nat>, f: nat)
    requires f / 512 < |m.children| || f !in s
    ensures f in GivenBack(m, s).zeros <==>
            f in s || (f in m.zeros && (f / 512 >= |m.children| || s !! Field(f / 512)))
  {}

  lemma {:induction false} PutAllGivesBack(m: Mem, pieces: seq<Piece>)
    requires Disjoint(pieces) && HeldHuge(m, AllFrames(pieces))
    ensures PutAll(m, pieces) == GivenBack(m, AllFrames(pieces))
    ensures AllAccepted(m, pieces)
  {
    if pieces == [] {
      GivenBackNothing(m);
    } else {
      hide GivenBack, Dealloc, Touched;
      var n := |pieces| - 1;
      var rest, p := pieces[..n], pieces[n];
      FirstPieces(pieces, n);
      PutAllGivesBack(m, rest);
      assert pieces[..n] == rest;
      if p.order < 9 {
        GiveSmall(m, AllFrames(rest), p);
      } else {
        GiveLarge(m, AllFrames(rest), p);
      }
      OneMoreAccepted(m, pieces);
    }
  }

  /** Each piece is accepted when its turn comes. */
  ghost predicate AllAccepted(m: Mem, pieces: seq<Piece>)
  {
    forall i :: 0 <= i < |pieces| ==> Allocated(PutAll(m, pieces[..i]), pieces[i].frame, pieces[i].order)
  }

  lemma {:induction false} FirstPieces(pieces: seq<Piece>, n: nat)
    requires Disjoint(pieces) && n <= |pieces|
    ensures Disjoint(pieces[..n])
  {
    var rest := pieces[..n];
    forall i | 0 <= i < n
      ensures AllFrames(rest[..i]) !! rest[i].Frames()
    {
      assert rest[..i] == pieces[..i];
    }
  }

  lemma {:induction false} OneMoreAccepted(m: Mem, pieces: seq<Piece>)
    requires pieces != [] && AllAccepted(m, pieces[..|pieces| - 1])
    requires var p := pieces[|pieces| - 1]; Allocated(PutAll(m, pieces[..|pieces| - 1]), p.frame, p.order)
    ensures AllAccepted(m, pieces)
  {
    hide Allocated, PutAll;
    var rest := pieces[..|pieces| - 1];
    forall i | 0 <= i < |pieces|
      ensures Allocated(PutAll(m, pieces[..i]), pieces[i].frame, pieces[i].order)
    {
      if i < |rest| {
        assert rest[..i] == pieces[..i];
        assert rest[i] == pieces[i];
      }
    }
  }

  /** A block held as huge can be given back in any order and by any partition into aligned blocks:
      every part is accepted, and the memory ends up exactly as after giving it back whole. */
  lemma {:induction false} PutInParts(frames: nat, m: Mem, f: nat, order: nat, pieces: seq<Piece>)
    requires Inv(frames, m) && order >= 9 && Managed(frames, f, order) && Allocated(m, f, order)
    requires Disjoint(pieces) && AllFrames(pieces) == Block(f, Pow2(order))
    ensures AllAccepted(m, pieces)
    ensures Covered(m, f, order) && PutAll(m, pieces) == Dealloc(m, f, order)
  {
    hide Pow2, Inv, Touched, AllAccepted, Disjoint, Block;
    var whole := Piece(f, order);
    HeldWhole(frames, m, f, order);
    PutAllGivesBack(m, pieces);
    GiveLarge(m, {}, whole);
    GivenBackNothing(m);
    assert {} + whole.Frames() == AllFrames(pieces);
  }

  lemma HeldWhole(frames: nat, m: Mem, f: nat, order: nat)
    requires Inv(frames, m) && order >= 9 && Managed(frames, f, order) && Allocated(m, f, order)
    ensures HeldHuge(m, Block(f, Pow2(order)))
  {
    hide ChildCount, Padded;
    LargeBlock(f, order);
    forall x | x in Block(f, Pow2(order))
      ensures x / 512 < |m.children| && m.children[x / 512] == TAKEN && Field(x / 512) <= m.zeros
    {
      InsideCount(frames, x);
      assert ChildOk(frames, m, x / 512);
    }
  }
}
