/**
 Putting a byte range together from blocks: the arithmetic of `read_file` without the
 cache and the file behind it. Block i begins at byte Times(i, bs).
 */
module Stitching {
  import opened ByteStrings

  /** What a read of [offset, end) takes out of the block that begins at byte `at`, of which `block` is present. */
  function Piece(bs: nat, at: nat, block: Bytes, offset: nat, end: nat): Bytes {
    Slice(block, Max(offset, at) - at, Max(0, Min(end, at + bs) - at))
  }

  lemma SliceOfSlice(x: Bytes, lo: nat, hi: nat, from: nat, to: nat)
    requires lo <= hi <= |x| && from <= to <= hi - lo
    ensures x[lo..hi][from..to] == x[lo + from..lo + to]
  {
    var a, b := x[lo..hi][from..to], x[lo + from..lo + to];
    assert |a| == |b| && forall i :: 0 <= i < |a| ==> a[i] == b[i];
  }

  /** The piece taken out of a block of x is a slice of x. */
  lemma PieceIsSlice(bs: nat, at: nat, x: Bytes, offset: nat, end: nat)
    requires offset <= end && at <= |x|
    ensures Piece(bs, at, Slice(x, at, at + bs), offset, end) == Slice(x, Max(offset, at), Min(end, at + bs))
  {
    var from, to := Max(offset, at), Min(Min(end, at + bs), |x|);
    if from < to {
      SliceOfSlice(x, at, Min(at + bs, |x|), from - at, to - at);
    }
  }

  /** Slices of adjacent blocks join. */
  lemma SliceJoin(x: Bytes, bs: nat, at: nat, offset: nat, end: nat)
    requires at <= |x| && offset <= end
    ensures Slice(x, offset, Min(end, at)) + Slice(x, Max(offset, at), Min(end, at + bs))
         == Slice(x, offset, Min(end, at + bs))
  {
    var to := Min(Min(end, at + bs), |x|);
    if offset < at < to {
      assert x[offset..to] == x[offset..at] + x[at..to];
    }
  }

  /** The blocks a range touches: every one of them overlaps it, and together they cover it. */
  lemma BlockRange(offset: nat, end: nat, bs: nat)
    requires bs > 0 && offset < end
    ensures Quot(offset, bs) < DivCeil(end, bs)
    ensures Times(Quot(offset, bs), bs) <= offset && end <= Times(DivCeil(end, bs), bs)
    ensures forall i: nat :: Quot(offset, bs) <= i < DivCeil(end, bs) ==> Overlaps(i, bs, offset, end)
  {
    var start, stop := Quot(offset, bs), DivCeil(end, bs);
    if stop <= start {
      TimesMonotone(stop, start, bs);
    }
    forall i: nat | start <= i < stop
      ensures Overlaps(i, bs, offset, end)
    {
      TimesMonotone(start, i, bs);
      TimesMonotone(i + 1, stop, bs);
    }
  }

  /** The n blocks from `first` on are those that the range touches. */
  predicate Spans(bs: nat, first: nat, n: nat, offset: nat, end: nat) {
    && n > 0 && offset < end
    && Times(first, bs) <= offset < Times(first, bs) + bs
    && Times(first + (n - 1), bs) < end <= Times(first + n, bs)
  }

  lemma RangeSpans(bs: nat, offset: nat, end: nat)
    requires bs > 0 && offset < end
    ensures Quot(offset, bs) < DivCeil(end, bs)
    ensures Spans(bs, Quot(offset, bs), DivCeil(end, bs) - Quot(offset, bs), offset, end)
  {
    BlockRange(offset, end, bs);
    assert Overlaps(DivCeil(end, bs) - 1, bs, offset, end);
  }

  predicate Overlaps(i: nat, bs: nat, offset: nat, end: nat) {
    Times(i, bs) < end && offset < Times(i, bs) + bs
  }

  /** A range fits into n blocks exactly if it ends within them. */
  lemma DivCeilFits(end: nat, bs: nat, n: nat)
    requires bs > 0
    ensures DivCeil(end, bs) <= n <==> end <= Times(n, bs)
  {
    var q := DivCeil(end, bs);
    if q <= n {
      TimesMonotone(q, n, bs);
    } else {
      TimesMonotone(n + 1, q, bs);
    }
  }

  // ---------- a range block by block ----------

  /** The part of block i of x that lies in [offset, end). */
  function SliceAt(bs: nat, i: nat, x: Bytes, offset: nat, end: nat): Bytes {
    Slice(x, Max(offset, Times(i, bs)), Min(end, Times(i, bs) + bs))
  }

  /** The parts of x in [offset, end), one for each of n blocks. */
  function Parts(bs: nat, first: nat, n: nat, x: Bytes, offset: nat, end: nat): (parts: seq<Bytes>)
    ensures |parts| == n
  {
    if n == 0 then [] else Parts(bs, first, n - 1, x, offset, end) + [SliceAt(bs, first + n - 1, x, offset, end)]
  }

  /** What a read of [offset, end) copies out of block i, of which `block` is present. */
  function PieceAt(bs: nat, i: nat, block: Bytes, offset: nat, end: nat): Bytes {
    Piece(bs, Times(i, bs), block, offset, end)
  }

  /** What it copies out of the given blocks. */
  function Pieces(bs: nat, first: nat, blocks: seq<Bytes>, offset: nat, end: nat): (pieces: seq<Bytes>)
    ensures |pieces| == |blocks|
  {
    if blocks == [] then []
    else
      var n := |blocks| - 1;
      Pieces(bs, first, blocks[..n], offset, end) + [PieceAt(bs, first + n, blocks[n], offset, end)]
  }

  lemma {:induction false} PartsAt(bs: nat, first: nat, n: nat, x: Bytes, offset: nat, end: nat, j: nat)
    requires j < n
    ensures Parts(bs, first, n, x, offset, end)[j] == SliceAt(bs, first + j, x, offset, end)
  {
    if j < n - 1 {
      PartsAt(bs, first, n - 1, x, offset, end, j);
    }
  }

  lemma {:induction false} PiecesAt(bs: nat, first: nat, blocks: seq<Bytes>, offset: nat, end: nat, j: nat)
    requires j < |blocks|
    ensures Pieces(bs, first, blocks, offset, end)[j] == PieceAt(bs, first + j, blocks[j], offset, end)
  {
    if j < |blocks| - 1 {
      PiecesAt(bs, first, blocks[..|blocks| - 1], offset, end, j);
    }
  }

  lemma LastPiece(pieces: seq<Bytes>, piece: Bytes)
    ensures Concat(pieces + [piece]) == Concat(pieces) + piece
  {
    ConcatSplit(pieces, [piece]);
    ConcatSingle(piece);
  }

  /** What is copied from the blocks, one piece behind the other. */
  function Copied(bs: nat, first: nat, blocks: seq<Bytes>, offset: nat, end: nat): Bytes {
    if blocks == [] then []
    else
      var n := |blocks| - 1;
      Copied(bs, first, blocks[..n], offset, end) + PieceAt(bs, first + n, blocks[n], offset, end)
  }

  lemma CopiedNext(bs: nat, first: nat, blocks: seq<Bytes>, block: Bytes, offset: nat, end: nat)
    ensures Copied(bs, first, blocks + [block], offset, end)
         == Copied(bs, first, blocks, offset, end) + PieceAt(bs, first + |blocks|, block, offset, end)
  {
    assert (blocks + [block])[..|blocks|] == blocks;
  }

  lemma PiecesLast(bs: nat, first: nat, blocks: seq<Bytes>, offset: nat, end: nat)
    requires blocks != []
    ensures var n := |blocks| - 1;
            Concat(Pieces(bs, first, blocks, offset, end))
            == Concat(Pieces(bs, first, blocks[..n], offset, end)) + PieceAt(bs, first + n, blocks[n], offset, end)
  {
    var n := |blocks| - 1;
    LastPiece(Pieces(bs, first, blocks[..n], offset, end), PieceAt(bs, first + n, blocks[n], offset, end));
  }

  lemma {:induction false} CopiedPieces(bs: nat, first: nat, blocks: seq<Bytes>, offset: nat, end: nat)
    ensures Copied(bs, first, blocks, offset, end) == Concat(Pieces(bs, first, blocks, offset, end))
  {
    if blocks != [] {
      var n := |blocks| - 1;
      CopiedPieces(bs, first, blocks[..n], offset, end);
      PiecesLast(bs, first, blocks, offset, end);
    }
  }

  /** What has been read of x once block i - 1 is done. */
  function ReadSoFar(bs: nat, i: nat, x: Bytes, offset: nat, end: nat): Bytes {
    Slice(x, offset, Min(end, Times(i, bs)))
  }

  /** Put together, the parts are the range. */
  lemma {:induction false} PartsJoin(bs: nat, first: nat, n: nat, x: Bytes, offset: nat, end: nat)
    requires offset <= end && Times(first, bs) <= offset && (n > 0 ==> Times(first + (n - 1), bs) <= |x|)
    ensures Concat(Parts(bs, first, n, x, offset, end)) == ReadSoFar(bs, first + n, x, offset, end)
  {
    if n == 0 {
      assert ReadSoFar(bs, first, x, offset, end) == [];
    } else {
      TimesMonotone(first + (n - 1) - (if n > 1 then 1 else 0), first + (n - 1), bs);
      PartsJoin(bs, first, n - 1, x, offset, end);
      PartsTurn(bs, first, n, x, offset, end);
    }
  }

  lemma PartsTurn(bs: nat, first: nat, n: nat, x: Bytes, offset: nat, end: nat)
    requires n > 0 && offset <= end && Times(first + (n - 1), bs) <= |x|
    requires Concat(Parts(bs, first, n - 1, x, offset, end)) == ReadSoFar(bs, first + (n - 1), x, offset, end)
    ensures Concat(Parts(bs, first, n, x, offset, end)) == ReadSoFar(bs, first + n, x, offset, end)
  {
    PartsLast(bs, first, n, x, offset, end);
    SliceTurn(bs, first + (n - 1), x, offset, end);
  }

  lemma PartsLast(bs: nat, first: nat, n: nat, x: Bytes, offset: nat, end: nat)
    requires n > 0
    ensures Concat(Parts(bs, first, n, x, offset, end))
         == Concat(Parts(bs, first, n - 1, x, offset, end)) + SliceAt(bs, first + (n - 1), x, offset, end)
  {
    LastPiece(Parts(bs, first, n - 1, x, offset, end), SliceAt(bs, first + (n - 1), x, offset, end));
  }

  lemma SliceTurn(bs: nat, i: nat, x: Bytes, offset: nat, end: nat)
    requires offset <= end && Times(i, bs) <= |x|
    ensures ReadSoFar(bs, i, x, offset, end) + SliceAt(bs, i, x, offset, end) == ReadSoFar(bs, i + 1, x, offset, end)
  {
    assert Times(i + 1, bs) == Times(i, bs) + bs;
    SliceJoin(x, bs, Times(i, bs), offset, end);
  }

  // ---------- pieces that may lack zeros at their end ----------

  ghost predicate AllZero(b: Bytes) {
    forall i :: 0 <= i < |b| ==> b[i] == 0
  }

  /** `got` is `want` without some of the zeros at its end. */
  ghost predicate ZeroTail(got: Bytes, want: Bytes) {
    got <= want && AllZero(want[|got|..])
  }

  /** Cutting a piece out of a block that lacks zeros loses only zeros. */
  lemma PieceZeroTail(bs: nat, at: nat, block: Bytes, offset: nat, end: nat)
    requires |block| <= bs
    ensures ZeroTail(Piece(bs, at, block, offset, end), Piece(bs, at, Pad(block, bs), offset, end))
  {
    var from, to := Max(offset, at) - at, Min(end, at + bs) - at;
    if from < to {
      CutZeroTail(block, Pad(block, bs), from, to);
    }
  }

  /** The piece of a block of x that lacks zeros lacks only zeros. */
  lemma PieceOfPadded(bs: nat, at: nat, x: Bytes, block: Bytes, offset: nat, end: nat)
    requires offset <= end && at <= |x| && |block| <= bs && Slice(x, at, at + bs) == Pad(block, bs)
    ensures ZeroTail(Piece(bs, at, block, offset, end), Slice(x, Max(offset, at), Min(end, at + bs)))
  {
    assert Piece(bs, at, Pad(block, bs), offset, end) == Slice(x, Max(offset, at), Min(end, at + bs)) by {
      PieceIsSlice(bs, at, x, offset, end);
    }
    PieceZeroTail(bs, at, block, offset, end);
  }

  lemma CutZeroTail(block: Bytes, padded: Bytes, from: nat, to: nat)
    requires block <= padded && from < to <= |padded| && forall i :: |block| <= i < |padded| ==> padded[i] == 0
    ensures ZeroTail(if from < Min(to, |block|) then block[from..Min(to, |block|)] else [], padded[from..to])
  {
    var m := Min(to, |block|);
    var got, want := if from < m then block[from..m] else [], padded[from..to];
    if from < m {
      assert block == padded[..|block|];
    }
    forall i | 0 <= i < |want| - |got|
      ensures want[|got|..][i] == 0
    {
      assert want[|got|..][i] == padded[from + |got| + i];
    }
  }

  ghost predicate ZeroTails(got: seq<Bytes>, want: seq<Bytes>) {
    |got| == |want| && forall j :: 0 <= j < |got| ==> ZeroTail(got[j], want[j])
  }

  /** No piece that lacks zeros is followed by a byte other than zero. */
  ghost predicate NothingAfterGap(got: seq<Bytes>, want: seq<Bytes>)
    requires |got| == |want|
  {
    forall j, k :: 0 <= j < k < |got| && |got[j]| < |want[j]| ==> AllZero(got[k])
  }

  function LeadingZeros(b: Bytes): nat {
    if b == [] || b[0] != 0 then 0 else 1 + LeadingZeros(b[1..])
  }

  lemma {:induction false} LeadingZerosAt(b: Bytes)
    ensures LeadingZeros(b) <= |b| && AllZero(b[..LeadingZeros(b)])
    ensures LeadingZeros(b) < |b| ==> b[LeadingZeros(b)] != 0
    ensures AllZero(b) <==> LeadingZeros(b) == |b|
  {
    if b != [] && b[0] == 0 {
      LeadingZerosAt(b[1..]);
      var n := LeadingZeros(b[1..]);
      assert forall i :: 0 < i < |b| ==> b[i] == b[1..][i - 1];
    }
  }

  /** Leading zeros are determined by where the first other byte is. */
  lemma LeadingZerosUnique(b: Bytes, n: nat)
    requires n < |b| && b[n] != 0 && AllZero(b[..n])
    ensures LeadingZeros(b) == n
  {
    LeadingZerosAt(b);
  }

  lemma LeadingZerosJoin(a: Bytes, b: Bytes)
    ensures LeadingZeros(a + b) == if AllZero(a) then |a| + LeadingZeros(b) else LeadingZeros(a)
  {
    LeadingZerosAt(a);
    LeadingZerosAt(b);
    LeadingZerosAt(a + b);
    var n := if AllZero(a) then |a| + LeadingZeros(b) else LeadingZeros(a);
    if n < |a + b| {
      assert AllZero((a + b)[..n]);
      LeadingZerosUnique(a + b, n);
    } else {
      assert AllZero(a + b);
    }
  }

  /** Leaving out zeros moves the first other byte forward, never back; and nothing else is lost. */
  lemma {:induction false} ZeroTailsLead(got: seq<Bytes>, want: seq<Bytes>)
    requires ZeroTails(got, want)
    ensures |Concat(got)| <= |Concat(want)| && LeadingZeros(Concat(got)) <= LeadingZeros(Concat(want))
    ensures AllZero(Concat(got)) <==> AllZero(Concat(want))
  {
    if got != [] {
      ZeroTailsLead(got[1..], want[1..]);
      ZeroTailLeads(got[0], want[0], Concat(got[1..]), Concat(want[1..]));
    }
  }

  /** Pieces that together have full length lack nothing. */
  lemma {:induction false} ZeroTailsFull(got: seq<Bytes>, want: seq<Bytes>)
    requires ZeroTails(got, want)
    ensures |Concat(got)| <= |Concat(want)| && (|Concat(got)| == |Concat(want)| ==> Concat(got) == Concat(want))
  {
    if got != [] {
      ZeroTailsFull(got[1..], want[1..]);
      assert got[0] <= want[0];
    }
  }

  lemma ZeroTailLeads(p: Bytes, s: Bytes, t: Bytes, u: Bytes)
    requires ZeroTail(p, s) && |t| <= |u| && LeadingZeros(t) <= LeadingZeros(u) && (AllZero(t) <==> AllZero(u))
    ensures |p + t| <= |s + u| && LeadingZeros(p + t) <= LeadingZeros(s + u)
    ensures AllZero(p + t) <==> AllZero(s + u)
  {
    LeadingZerosJoin(p, t);
    LeadingZerosJoin(s, u);
    ZeroTailZero(p, s);
    AllZeroJoin(p, t);
    AllZeroJoin(s, u);
    LeadingZerosAt(p);
    if !AllZero(p) {
      var n := LeadingZeros(p);
      assert s[..n] == p[..n] && s[n] == p[n];
      LeadingZerosUnique(s, n);
    }
  }

  lemma ZeroTailZero(p: Bytes, s: Bytes)
    requires ZeroTail(p, s)
    ensures AllZero(p) <==> AllZero(s)
  {
    forall i | 0 <= i < |s|
      ensures s[i] == if i < |p| then p[i] else s[|p|..][i - |p|]
    {
    }
  }

  lemma AllZeroJoin(a: Bytes, b: Bytes)
    ensures AllZero(a + b) <==> AllZero(a) && AllZero(b)
  {
    if AllZero(a + b) {
      assert forall i :: 0 <= i < |a| ==> a[i] == (a + b)[i];
      assert forall i :: 0 <= i < |b| ==> b[i] == (a + b)[|a| + i];
    }
  }

  /** Behind a gap of zeros, only zeros still agree. */
  lemma BehindGap(got: seq<Bytes>, want: seq<Bytes>, gap: Bytes)
    requires ZeroTails(got, want) && gap != [] && AllZero(gap)
    ensures Concat(got) <= gap + Concat(want) <==> AllZero(Concat(got))
  {
    var t, u := Concat(got), Concat(want);
    ZeroTailsLead(got, want);
    LeadingZerosJoin(gap, u);
    LeadingZerosAt(t);
    if AllZero(t) {
      AllZeroJoin(gap, u);
    } else if t <= gap + u {
      var n := LeadingZeros(t);
      assert (gap + u)[..n] == t[..n] && (gap + u)[n] == t[n];
      LeadingZerosUnique(gap + u, n);
    }
  }

  /**
   Pieces that lack only zeros, put one behind the other, form a prefix of what they
   should form exactly if nothing but zeros follows the first gap.
   */
  lemma {:induction false} PrefixExactly(got: seq<Bytes>, want: seq<Bytes>)
    requires ZeroTails(got, want)
    ensures Concat(got) <= Concat(want) <==> NothingAfterGap(got, want)
  {
    if got != [] {
      var p, s, t, u := got[0], want[0], Concat(got[1..]), Concat(want[1..]);
      if |p| == |s| {
        PrefixExactly(got[1..], want[1..]);
        PrefixBehind(p, t, u);
        GapLater(got, want);
      } else {
        var gap := s[|p|..];
        assert s + u == p + (gap + u);
        PrefixBehind(p, t, gap + u);
        BehindGap(got[1..], want[1..], gap);
        AllZeroParts(got[1..]);
        GapNow(got, want);
      }
    }
  }

  lemma PrefixBehind(p: Bytes, t: Bytes, u: Bytes)
    ensures p + t <= p + u <==> t <= u
  {
    if p + t <= p + u {
      assert forall i :: 0 <= i < |t| ==> t[i] == (p + t)[|p| + i] == (p + u)[|p| + i] == u[i];
    }
  }

  lemma {:induction false} AllZeroParts(parts: seq<Bytes>)
    ensures AllZero(Concat(parts)) <==> forall k :: 0 <= k < |parts| ==> AllZero(parts[k])
  {
    if parts != [] {
      AllZeroParts(parts[1..]);
      AllZeroJoin(parts[0], Concat(parts[1..]));
      assert parts == [parts[0]] + parts[1..];
    }
  }

  lemma GapLater(got: seq<Bytes>, want: seq<Bytes>)
    requires |got| == |want| && got != [] && |got[0]| == |want[0]|
    ensures NothingAfterGap(got, want) <==> NothingAfterGap(got[1..], want[1..])
  {
    assert forall j :: 0 < j < |got| ==> got[j] == got[1..][j - 1] && want[j] == want[1..][j - 1];
    assert forall j :: 0 <= j < |got| - 1 ==> got[1..][j] == got[j + 1] && want[1..][j] == want[j + 1];
  }

  lemma GapNow(got: seq<Bytes>, want: seq<Bytes>)
    requires |got| == |want| && got != [] && |got[0]| < |want[0]|
    ensures NothingAfterGap(got, want) <==> forall k :: 0 <= k < |got| - 1 ==> AllZero(got[1..][k])
  {
    assert forall k :: 0 < k < |got| ==> got[k] == got[1..][k - 1];
  }

  /** Each piece is the part of x that belongs there. */
  ghost predicate PiecesExact(bs: nat, first: nat, blocks: seq<Bytes>, x: Bytes, offset: nat, end: nat) {
    forall j :: 0 <= j < |blocks| ==>
      PieceAt(bs, first + j, blocks[j], offset, end) == SliceAt(bs, first + j, x, offset, end)
  }

  /** Each piece is the part of x that belongs there, but for zeros at its end. */
  ghost predicate PiecesLackZeros(bs: nat, first: nat, blocks: seq<Bytes>, x: Bytes, offset: nat, end: nat) {
    forall j :: 0 <= j < |blocks| ==>
      ZeroTail(PieceAt(bs, first + j, blocks[j], offset, end), SliceAt(bs, first + j, x, offset, end))
  }

  /** The piece of block i is shorter than what x has there. */
  predicate Lacks(bs: nat, i: nat, block: Bytes, x: Bytes, offset: nat, end: nat) {
    |PieceAt(bs, i, block, offset, end)| < |SliceAt(bs, i, x, offset, end)|
  }

  /** A block that lacks zeros in the range is followed by nothing but zeros. */
  ghost predicate NoGap(bs: nat, first: nat, blocks: seq<Bytes>, x: Bytes, offset: nat, end: nat) {
    forall j, k :: 0 <= j < k < |blocks| && Lacks(bs, first + j, blocks[j], x, offset, end) ==>
      AllZero(PieceAt(bs, first + k, blocks[k], offset, end))
  }

  /**
   Where the copied bytes land: they are a prefix of the range exactly if there is no gap
   in front of other bytes, never longer than it, and all of it if as long.
   */
  ghost predicate InPlaceExactly(bs: nat, first: nat, blocks: seq<Bytes>, x: Bytes, offset: nat, end: nat) {
    var output, range := Copied(bs, first, blocks, offset, end), Slice(x, offset, end);
    && (output <= range <==> NoGap(bs, first, blocks, x, offset, end))
    && |output| <= |range| && (|output| == |range| ==> output == range)
  }

  /** The parts of a spanned range make up the range. */
  lemma PartsSpan(bs: nat, first: nat, n: nat, x: Bytes, offset: nat, end: nat)
    requires Spans(bs, first, n, offset, end) && Times(first + (n - 1), bs) <= |x|
    ensures Concat(Parts(bs, first, n, x, offset, end)) == Slice(x, offset, end)
  {
    PartsJoin(bs, first, n, x, offset, end);
  }

  lemma CopiedExact(bs: nat, first: nat, blocks: seq<Bytes>, x: Bytes, offset: nat, end: nat)
    requires Spans(bs, first, |blocks|, offset, end) && Times(first + (|blocks| - 1), bs) <= |x|
    requires PiecesExact(bs, first, blocks, x, offset, end)
    ensures Copied(bs, first, blocks, offset, end) == Slice(x, offset, end)
  {
    CopiedPieces(bs, first, blocks, offset, end);
    PiecesAreParts(bs, first, blocks, x, offset, end);
    PartsSpan(bs, first, |blocks|, x, offset, end);
  }

  lemma PiecesAreParts(bs: nat, first: nat, blocks: seq<Bytes>, x: Bytes, offset: nat, end: nat)
    requires PiecesExact(bs, first, blocks, x, offset, end)
    ensures Pieces(bs, first, blocks, offset, end) == Parts(bs, first, |blocks|, x, offset, end)
  {
    var pieces, parts := Pieces(bs, first, blocks, offset, end), Parts(bs, first, |blocks|, x, offset, end);
    forall j | 0 <= j < |blocks|
      ensures pieces[j] == parts[j]
    {
      PiecesAt(bs, first, blocks, offset, end, j);
      PartsAt(bs, first, |blocks|, x, offset, end, j);
    }
  }

  lemma CopiedInPlace(bs: nat, first: nat, blocks: seq<Bytes>, x: Bytes, offset: nat, end: nat)
    requires Spans(bs, first, |blocks|, offset, end) && Times(first + (|blocks| - 1), bs) <= |x|
    requires PiecesLackZeros(bs, first, blocks, x, offset, end)
    ensures InPlaceExactly(bs, first, blocks, x, offset, end)
  {
    CopiedPieces(bs, first, blocks, offset, end);
    PiecesTails(bs, first, blocks, x, offset, end);
    PartsSpan(bs, first, |blocks|, x, offset, end);
    RangeInPlace(Pieces(bs, first, blocks, offset, end), Parts(bs, first, |blocks|, x, offset, end),
                 Slice(x, offset, end));
  }

  lemma RangeInPlace(got: seq<Bytes>, want: seq<Bytes>, range: Bytes)
    requires ZeroTails(got, want) && Concat(want) == range
    ensures Concat(got) <= range <==> NothingAfterGap(got, want)
    ensures |Concat(got)| <= |range| && (|Concat(got)| == |range| ==> Concat(got) == range)
  {
    PrefixExactly(got, want);
    ZeroTailsFull(got, want);
  }

  lemma PiecesTails(bs: nat, first: nat, blocks: seq<Bytes>, x: Bytes, offset: nat, end: nat)
    requires PiecesLackZeros(bs, first, blocks, x, offset, end)
    ensures var pieces, parts := Pieces(bs, first, blocks, offset, end), Parts(bs, first, |blocks|, x, offset, end);
            ZeroTails(pieces, parts) && (NothingAfterGap(pieces, parts) <==> NoGap(bs, first, blocks, x, offset, end))
  {
    var pieces, parts := Pieces(bs, first, blocks, offset, end), Parts(bs, first, |blocks|, x, offset, end);
    forall j | 0 <= j < |blocks|
      ensures pieces[j] == PieceAt(bs, first + j, blocks[j], offset, end)
      ensures parts[j] == SliceAt(bs, first + j, x, offset, end)
    {
      PiecesAt(bs, first, blocks, offset, end, j);
      PartsAt(bs, first, |blocks|, x, offset, end, j);
    }
  }
}
