/** User memory seen by the kernel: a range of virtual bytes as a list of pieces of physical pages. */
module UserBuffers {
  import opened Basics

  datatype Result<+T> = Ok(value: T) | Fault

  /** Contents of the physical pages. */
  type Frames = map<nat, seq<bv8>>

  ghost predicate FramesOk(frames: Frames) {
    forall p :: p in frames ==> |frames[p]| == 4096
  }

  /** Bytes [lo, hi) of a physical page. */
  datatype Piece = Piece(ppn: nat, lo: nat, hi: nat) {
    function Len(): int { hi - lo }
  }

  ghost predicate PieceOk(frames: Frames, f: Piece) {
    f.lo < f.hi <= 4096 && f.ppn in frames
  }

  ghost predicate PiecesOk(frames: Frames, pieces: seq<Piece>) {
    FramesOk(frames) && forall i {:trigger PieceOk(frames, pieces[i])} :: 0 <= i < |pieces| ==> PieceOk(frames, pieces[i])
  }

  function Bytes(frames: Frames, f: Piece): seq<bv8>
    requires f.ppn in frames && f.lo <= f.hi <= |frames[f.ppn]|
  {
    frames[f.ppn][f.lo..f.hi]
  }

  /** Length of the first `n` pieces. */
  function Total(pieces: seq<Piece>, n: nat): int
    requires n <= |pieces|
  {
    if n == 0 then 0 else Total(pieces, n - 1) + pieces[n - 1].Len()
  }

  /** The bytes of the first `n` pieces one after the other. */
  ghost function Flat(frames: Frames, pieces: seq<Piece>, n: nat): seq<bv8>
    requires PiecesOk(frames, pieces) && n <= |pieces|
  {
    if n == 0 then [] else assert PieceOk(frames, pieces[n - 1]); Flat(frames, pieces, n - 1) + Bytes(frames, pieces[n - 1])
  }

  lemma {:induction false} FlatLen(frames: Frames, pieces: seq<Piece>, n: nat)
    requires PiecesOk(frames, pieces) && n <= |pieces|
    ensures |Flat(frames, pieces, n)| == Total(pieces, n) && Total(pieces, n) >= 0
  {
    if n > 0 {
      FlatLen(frames, pieces, n - 1);
      assert PieceOk(frames, pieces[n - 1]);
    }
  }

  // ---------------------------------------------------------------- translation

  /** The byte at a virtual address. */
  function VirtualByte(frames: Frames, table: map<nat, nat>, a: nat): bv8
    requires a / 4096 in table && table[a / 4096] in frames && |frames[table[a / 4096]]| == 4096
  {
    frames[table[a / 4096]][a % 4096]
  }

  /** Piece `i` is the part of a page that follows the pieces before it, which start at `start`. */
  ghost predicate CoverAt(table: map<nat, nat>, pieces: seq<Piece>, start: nat, i: nat)
    requires i < |pieces|
  {
    var base, f := start + Total(pieces, i), pieces[i];
    && 0 <= base && base / 4096 in table
    && f.ppn == table[base / 4096] && f.lo == base % 4096 && f.lo < f.hi <= 4096
  }

  /** The pieces lie one after the other in [start, end). */
  ghost predicate Cover(table: map<nat, nat>, pieces: seq<Piece>, start: nat, end: nat) {
    && start + Total(pieces, |pieces|) == end
    && forall i: nat {:trigger CoverAt(table, pieces, start, i)} :: i < |pieces| ==> CoverAt(table, pieces, start, i)
  }

  lemma {:induction false} TotalPrefix(a: seq<Piece>, b: seq<Piece>, n: nat)
    requires n <= |a| && n <= |b| && forall i :: 0 <= i < n ==> a[i] == b[i]
    ensures Total(a, n) == Total(b, n)
  {
    if n > 0 {
      TotalPrefix(a, b, n - 1);
    }
  }

  lemma CoverAppend(table: map<nat, nat>, pieces: seq<Piece>, start: nat, mid: nat, f: Piece, end: nat)
    requires Cover(table, pieces, start, mid) && mid / 4096 in table && f.ppn == table[mid / 4096] && f.lo == mid % 4096
    requires f.lo < f.hi <= 4096 && mid + (f.hi - f.lo) == end
    ensures Cover(table, pieces + [f], start, end)
  {
    var more := pieces + [f];
    TotalPrefix(more, pieces, |pieces|);
    forall i: nat | i < |more|
      ensures CoverAt(table, more, start, i)
    {
      TotalPrefix(more, pieces, i);
      assert i < |pieces| ==> CoverAt(table, pieces, start, i);
    }
  }

  ghost predicate Backed(frames: Frames, table: map<nat, nat>) {
    FramesOk(frames) && forall v :: v in table ==> table[v] in frames
  }

  lemma CoverOk(frames: Frames, table: map<nat, nat>, pieces: seq<Piece>, start: nat, end: nat)
    requires Cover(table, pieces, start, end) && Backed(frames, table)
    ensures PiecesOk(frames, pieces)
  {
    forall i: nat | i < |pieces|
      ensures PieceOk(frames, pieces[i])
    {
      assert CoverAt(table, pieces, start, i);
    }
  }

  /** An address in a piece. */
  lemma InPage(base: nat, k: nat)
    requires base % 4096 + k < 4096
    ensures (base + k) / 4096 == base / 4096 && (base + k) % 4096 == base % 4096 + k
  {
  }

  /** The pieces concatenate to exactly the virtual bytes of the range. */
  lemma {:induction false} CoverFlat(frames: Frames, table: map<nat, nat>, pieces: seq<Piece>, start: nat, end: nat, n: nat, i: nat)
    requires Cover(table, pieces, start, end) && Backed(frames, table) && PiecesOk(frames, pieces)
    requires n <= |pieces| && i < Total(pieces, n)
    ensures |Flat(frames, pieces, n)| == Total(pieces, n) && (start + i) / 4096 in table
    ensures Flat(frames, pieces, n)[i] == VirtualByte(frames, table, start + i)
  {
    FlatLen(frames, pieces, n);
    if n > 0 {
      FlatLen(frames, pieces, n - 1);
      if i < Total(pieces, n - 1) {
        CoverFlat(frames, table, pieces, start, end, n - 1, i);
      } else {
        assert CoverAt(table, pieces, start, n - 1);
        InPage(start + Total(pieces, n - 1), i - Total(pieces, n - 1));
      }
    }
  }

  ghost predicate Mapped(table: map<nat, nat>, start: nat, end: nat) {
    forall a: nat :: start <= a < end ==> a / 4096 in table
  }

  /** `translated_byte_buffer`: `table` gives, for every virtual page that is mapped or can be faulted
      in, the physical page it has when its turn comes. Whether it still has that page when the last
      turn is over is the subject of `TranslationWalks`. */
  method TranslatedByteBuffer(table: map<nat, nat>, ptr: nat, len: nat) returns (r: Result<seq<Piece>>)
    ensures r.Ok? <==> Mapped(table, ptr, ptr + len)
    ensures r.Ok? ==> Cover(table, r.value, ptr, ptr + len)
  {
    var start, end := ptr, ptr + len;
    var pieces: seq<Piece> := [];
    while start < end
      invariant ptr <= start <= end && Cover(table, pieces, ptr, start) && Mapped(table, ptr, start)
      invariant start < end ==> start == ptr || start % 4096 == 0
    {
      var vpn := start / 4096;
      if vpn !in table {
        return Fault;
      }
      var next := (vpn + 1) * 4096;
      var stop := if end < next then end else next;
      var hi := if stop % 4096 == 0 then 4096 else stop % 4096;
      var f := Piece(table[vpn], start % 4096, hi);
      assert stop / 4096 == vpn || stop == next;
      assert hi - start % 4096 == stop - start;
      CoverAppend(table, pieces, ptr, start, f, stop);
      pieces := pieces + [f];
      forall a: nat | start <= a < stop
        ensures a / 4096 in table
      {
        assert a / 4096 == vpn;
      }
      start := stop;
    }
    r := Ok(pieces);
  }

  // ---------------------------------------------------------------- pieces and the flat sequence

  lemma FlatLast(frames: Frames, pieces: seq<Piece>, n: nat, x: nat)
    requires PiecesOk(frames, pieces) && 0 < n <= |pieces| && PieceOk(frames, pieces[n - 1]) && x < Total(pieces, n)
    ensures 0 <= Total(pieces, n - 1) == |Flat(frames, pieces, n - 1)| && |Flat(frames, pieces, n)| == Total(pieces, n)
    ensures Flat(frames, pieces, n)[x] == if x < Total(pieces, n - 1) then Flat(frames, pieces, n - 1)[x]
                                          else frames[pieces[n - 1].ppn][pieces[n - 1].lo + (x - Total(pieces, n - 1))]
  {
    FlatLen(frames, pieces, n - 1);
    FlatLen(frames, pieces, n);
    var f := pieces[n - 1];
    var bytes := Bytes(frames, f);
    assert x >= Total(pieces, n - 1) ==> bytes[x - Total(pieces, n - 1)] == frames[f.ppn][f.lo + (x - Total(pieces, n - 1))];
  }

  lemma {:induction false} FlatByte(frames: Frames, pieces: seq<Piece>, i: nat, k: nat, n: nat)
    requires PiecesOk(frames, pieces) && i < n <= |pieces| && k < pieces[i].Len() && PieceOk(frames, pieces[i])
    ensures 0 <= Total(pieces, i) && Total(pieces, i) + k < |Flat(frames, pieces, n)|
    ensures Flat(frames, pieces, n)[Total(pieces, i) + k] == frames[pieces[i].ppn][pieces[i].lo + k]
  {
    assert PieceOk(frames, pieces[n - 1]);
    TotalRises(frames, pieces, i + 1, n);
    FlatLen(frames, pieces, i);
    FlatLast(frames, pieces, n, Total(pieces, i) + k);
    if i < n - 1 {
      FlatByte(frames, pieces, i, k, n - 1);
    }
  }

  /** Every index of the flat sequence is in some piece. */
  lemma {:induction false} FlatFind(frames: Frames, pieces: seq<Piece>, n: nat, x: nat) returns (i: nat, k: nat)
    requires PiecesOk(frames, pieces) && n <= |pieces| && x < Total(pieces, n)
    ensures i < n && PieceOk(frames, pieces[i]) && k < pieces[i].Len() && x == Total(pieces, i) + k
  {
    FlatLen(frames, pieces, n - 1);
    if x < Total(pieces, n - 1) {
      i, k := FlatFind(frames, pieces, n - 1, x);
    } else {
      i, k := n - 1, x - Total(pieces, n - 1);
      assert PieceOk(frames, pieces[i]);
    }
  }

  lemma {:induction false} TotalRises(frames: Frames, pieces: seq<Piece>, i: nat, n: nat)
    requires PiecesOk(frames, pieces) && i <= n <= |pieces|
    ensures 0 <= Total(pieces, i) <= Total(pieces, n)
    decreases n
  {
    FlatLen(frames, pieces, i);
    if i < n {
      TotalRises(frames, pieces, i, n - 1);
      assert PieceOk(frames, pieces[n - 1]);
    }
  }

  /** Byte `k` of the destination when the first `done` bytes of the content have been passed. */
  ghost predicate ReadByte(flat: seq<bv8>, done: nat, offset: nat, dst: seq<bv8>, dst': seq<bv8>, k: nat) {
    k < |dst| == |dst'| && done <= |flat| && dst'[k] == if offset + k < done then flat[offset + k] else dst[k]
  }

  /** What reading from `offset` gives: the bytes there, then what the destination held. */
  ghost predicate ReadTo(flat: seq<bv8>, done: nat, offset: nat, dst: seq<bv8>, dst': seq<bv8>) {
    && |dst'| == |dst| && done <= |flat|
    && forall k: nat {:trigger ReadByte(flat, done, offset, dst, dst', k)} :: k < |dst| ==> ReadByte(flat, done, offset, dst, dst', k)
  }

  /** The part of piece `i` that meets [offset, offset + len). */
  function MeetLo(base: int, offset: nat): int { if base > offset then base else offset }

  function MeetHi(end: int, offset: nat, len: nat): int { if end < offset + len then end else offset + len }

  ghost predicate CopiedByte(dst: seq<bv8>, at: nat, data: seq<bv8>, dst': seq<bv8>, k: nat) {
    k < |dst| == |dst'| && dst'[k] == if at <= k < at + |data| then data[k - at] else dst[k]
  }

  /** `dst'` is `dst` with `data` copied in at `at`. */
  ghost predicate Copied(dst: seq<bv8>, at: nat, data: seq<bv8>, dst': seq<bv8>) {
    && at + |data| <= |dst| == |dst'|
    && forall k: nat {:trigger CopiedByte(dst, at, data, dst', k)} :: k < |dst| ==> CopiedByte(dst, at, data, dst', k)
  }

  /** Bytes `i` to `j` of a piece. */
  function PartOf(frames: Frames, f: Piece, i: int, j: int): (r: seq<bv8>)
    requires f.ppn in frames && f.hi <= |frames[f.ppn]| && 0 <= i <= j <= f.hi - f.lo
    ensures |r| == j - i && forall k: nat {:trigger r[k]} :: k < j - i ==> r[k] == frames[f.ppn][f.lo + i + k]
  {
    frames[f.ppn][f.lo + i..f.lo + j]
  }

  lemma MeetBounds(base: int, end: int, offset: nat, len: nat)
    requires 0 <= base <= end
    ensures var lo, hi := MeetLo(base, offset), MeetHi(end, offset, len);
            lo < hi ==> base <= lo && hi <= end && offset <= lo && hi <= offset + len
  {
  }

  /** What piece `i` contributes was copied to its place in `dst`. */
  ghost predicate PieceRead(frames: Frames, pieces: seq<Piece>, i: nat, offset: nat, dst: seq<bv8>, dst': seq<bv8>)
    requires i < |pieces| && PieceOk(frames, pieces[i]) && FramesOk(frames)
  {
    var base, f := Total(pieces, i), pieces[i];
    var lo, hi := MeetLo(base, offset), MeetHi(base + f.Len(), offset, |dst|);
    && 0 <= base
    && if lo < hi then Copied(dst, lo - offset, PartOf(frames, f, lo - base, hi - base), dst') else dst' == dst
  }

  lemma ReadStepByte(frames: Frames, pieces: seq<Piece>, i: nat, offset: nat, dst0: seq<bv8>, dst: seq<bv8>, dst': seq<bv8>,
                     flat: seq<bv8>, k: nat)
    requires PiecesOk(frames, pieces) && i < |pieces| && PieceOk(frames, pieces[i])
    requires PieceRead(frames, pieces, i, offset, dst, dst') && flat == Flat(frames, pieces, |pieces|)
    requires 0 <= Total(pieces, i) <= Total(pieces, i + 1) <= |flat| && ReadByte(flat, Total(pieces, i), offset, dst0, dst, k)
    ensures ReadByte(flat, Total(pieces, i + 1), offset, dst0, dst', k)
  {
    var base, f := Total(pieces, i), pieces[i];
    var lo, hi := MeetLo(base, offset), MeetHi(base + f.Len(), offset, |dst|);
    if lo < hi {
      var data := PartOf(frames, f, lo - base, hi - base);
      assert CopiedByte(dst, lo - offset, data, dst', k);
      if lo - offset <= k < hi - offset {
        FlatByte(frames, pieces, i, offset + k - base, |pieces|);
        assert data[k - (lo - offset)] == frames[f.ppn][f.lo + (offset + k - base)];
      }
    }
  }

  /** One piece more has been read. */
  lemma ReadStep(frames: Frames, pieces: seq<Piece>, i: nat, offset: nat, dst0: seq<bv8>, dst: seq<bv8>, dst': seq<bv8>)
    requires PiecesOk(frames, pieces) && i < |pieces| && PieceOk(frames, pieces[i]) && 0 <= Total(pieces, i)
    requires ReadTo(Flat(frames, pieces, |pieces|), Total(pieces, i), offset, dst0, dst)
    requires PieceRead(frames, pieces, i, offset, dst, dst')
    ensures 0 <= Total(pieces, i + 1) && ReadTo(Flat(frames, pieces, |pieces|), Total(pieces, i + 1), offset, dst0, dst')
  {
    var flat, done := Flat(frames, pieces, |pieces|), Total(pieces, i + 1);
    TotalRises(frames, pieces, i + 1, |pieces|);
    FlatLen(frames, pieces, |pieces|);
    forall k: nat | k < |dst0|
      ensures ReadByte(flat, done, offset, dst0, dst', k)
    {
      assert ReadByte(flat, Total(pieces, i), offset, dst0, dst, k);
      ReadStepByte(frames, pieces, i, offset, dst0, dst, dst', flat, k);
    }
  }

  /** How many of the first `done` bytes of the content are in [offset, offset + len). */
  function CountTo(done: int, offset: nat, len: nat): nat {
    if done <= offset then 0 else if done - offset < len then done - offset else len
  }

  lemma CountStep(base: int, end: int, offset: nat, len: nat)
    requires 0 <= base <= end
    ensures var lo, hi := MeetLo(base, offset), MeetHi(end, offset, len);
            CountTo(end, offset, len) == CountTo(base, offset, len) + if lo < hi then hi - lo else 0
  {
  }

  // ---------------------------------------------------------------- scattering

  predicate Meets(f: Piece, p: nat, o: nat) {
    f.ppn == p && f.lo <= o < f.hi
  }

  /** No byte of a page is in two pieces. */
  ghost predicate ApartAt(pieces: seq<Piece>, i: nat, j: nat)
    requires i < |pieces| && j < |pieces|
  {
    pieces[i].ppn != pieces[j].ppn || pieces[i].hi <= pieces[j].lo || pieces[j].hi <= pieces[i].lo
  }

  ghost predicate Disjoint(pieces: seq<Piece>) {
    forall i: nat, j: nat {:trigger ApartAt(pieces, i, j)} :: i < j < |pieces| ==> ApartAt(pieces, i, j)
  }

  /** Where in [lo, hi) of the first `n` pieces laid out flat byte `o` of page `p` is, the last place
      if there are several. */
  function Hit(pieces: seq<Piece>, n: nat, lo: nat, hi: nat, p: nat, o: nat): Option<int>
    requires n <= |pieces|
  {
    if n == 0 then None
    else
      var x := Total(pieces, n - 1) + (o - pieces[n - 1].lo);
      if Meets(pieces[n - 1], p, o) && lo <= x < hi then Some(x) else Hit(pieces, n - 1, lo, hi, p, o)
  }

  lemma {:induction false} HitBefore(pieces: seq<Piece>, n: nat, i: nat, lo: nat, hi: nat, p: nat, o: nat)
    requires Disjoint(pieces) && n <= i < |pieces| && Meets(pieces[i], p, o)
    ensures Hit(pieces, n, lo, hi, p, o) == None
  {
    if n > 0 {
      assert ApartAt(pieces, n - 1, i);
      HitBefore(pieces, n - 1, i, lo, hi, p, o);
    }
  }

  lemma {:induction false} HitIs(pieces: seq<Piece>, n: nat, i: nat, lo: nat, hi: nat, p: nat, o: nat)
    requires Disjoint(pieces) && i < n <= |pieces| && Meets(pieces[i], p, o)
    ensures var x := Total(pieces, i) + (o - pieces[i].lo);
            Hit(pieces, n, lo, hi, p, o) == if lo <= x < hi then Some(x) else None
  {
    if i < n - 1 {
      assert ApartAt(pieces, i, n - 1);
      HitIs(pieces, n - 1, i, lo, hi, p, o);
    } else {
      HitBefore(pieces, i, i, lo, hi, p, o);
    }
  }

  /** Byte `o` of page `p` when the first `n` pieces have been written: what was put there last. */
  ghost predicate WrittenByte(frames0: Frames, frames: Frames, pieces: seq<Piece>, n: nat, offset: nat, src: seq<bv8>, p: nat, o: nat)
    requires n <= |pieces|
  {
    p in frames0 && o < 4096 ==>
      && p in frames && |frames[p]| == 4096 && |frames0[p]| == 4096
      && match Hit(pieces, n, offset, offset + |src|, p, o)
         case Some(x) => offset <= x < offset + |src| && frames[p][o] == src[x - offset]
         case None => frames[p][o] == frames0[p][o]
  }

  /** Every byte of memory: those in the pieces are overwritten from `offset` on, no others. */
  ghost predicate WrittenTo(frames0: Frames, frames: Frames, pieces: seq<Piece>, n: nat, offset: nat, src: seq<bv8>)
    requires n <= |pieces|
  {
    && frames.Keys == frames0.Keys && FramesOk(frames)
    && forall p: nat, o: nat {:trigger WrittenByte(frames0, frames, pieces, n, offset, src, p, o)} ::
         WrittenByte(frames0, frames, pieces, n, offset, src, p, o)
  }

  ghost predicate PutByte(frames: Frames, f: Piece, at: nat, data: seq<bv8>, frames': Frames, p: nat, o: nat) {
    p in frames && o < 4096 ==>
      && p in frames' && |frames'[p]| == 4096 && |frames[p]| == 4096
      && frames'[p][o] == if p == f.ppn && f.lo + at <= o < f.lo + at + |data| then data[o - f.lo - at] else frames[p][o]
  }

  ghost predicate PutIn(frames: Frames, f: Piece, at: nat, data: seq<bv8>, frames': Frames) {
    && frames'.Keys == frames.Keys && FramesOk(frames')
    && forall p: nat, o: nat {:trigger PutByte(frames, f, at, data, frames', p, o)} :: PutByte(frames, f, at, data, frames', p, o)
  }

  /** What piece `i` takes from `src` was copied to it. */
  ghost predicate PieceWritten(frames: Frames, pieces: seq<Piece>, i: nat, offset: nat, src: seq<bv8>, frames': Frames)
    requires i < |pieces|
  {
    var base, f := Total(pieces, i), pieces[i];
    var lo, hi := MeetLo(base, offset), MeetHi(base + f.Len(), offset, |src|);
    && 0 <= base && f.lo < f.hi
    && if lo < hi then PutIn(frames, f, lo - base, src[lo - offset..hi - offset], frames') else frames' == frames
  }

  lemma WriteStepByte(frames0: Frames, frames: Frames, frames': Frames, pieces: seq<Piece>, i: nat, offset: nat, src: seq<bv8>, p: nat, o: nat)
    requires i < |pieces| && PieceWritten(frames, pieces, i, offset, src, frames')
    requires WrittenByte(frames0, frames, pieces, i, offset, src, p, o)
    ensures WrittenByte(frames0, frames', pieces, i + 1, offset, src, p, o)
  {
    var base, f := Total(pieces, i), pieces[i];
    var lo, hi := MeetLo(base, offset), MeetHi(base + f.Len(), offset, |src|);
    assert lo < hi ==> PutByte(frames, f, lo - base, src[lo - offset..hi - offset], frames', p, o);
  }

  lemma WriteStep(frames0: Frames, frames: Frames, frames': Frames, pieces: seq<Piece>, i: nat, offset: nat, src: seq<bv8>)
    requires i < |pieces| && WrittenTo(frames0, frames, pieces, i, offset, src)
    requires PieceWritten(frames, pieces, i, offset, src, frames')
    ensures WrittenTo(frames0, frames', pieces, i + 1, offset, src)
  {
    var n := i + 1;
    forall p: nat, o: nat
      ensures WrittenByte(frames0, frames', pieces, n, offset, src, p, o)
    {
      assert WrittenByte(frames0, frames, pieces, i, offset, src, p, o);
      WriteStepByte(frames0, frames, frames', pieces, i, offset, src, p, o);
    }
  }

  /** The slice operation on the flat sequence. */
  ghost predicate Overwritten(flat: seq<bv8>, offset: nat, src: seq<bv8>, flat': seq<bv8>) {
    && |flat'| == |flat|
    && forall x {:trigger flat'[x]} :: 0 <= x < |flat| ==> flat'[x] == if offset <= x < offset + |src| then src[x - offset] else flat[x]
  }

  /** Once all pieces are written, the content is overwritten from `offset` on. */
  lemma WrittenFlat(frames0: Frames, frames: Frames, pieces: seq<Piece>, offset: nat, src: seq<bv8>)
    requires PiecesOk(frames0, pieces) && PiecesOk(frames, pieces) && Disjoint(pieces)
    requires WrittenTo(frames0, frames, pieces, |pieces|, offset, src)
    ensures Overwritten(Flat(frames0, pieces, |pieces|), offset, src, Flat(frames, pieces, |pieces|))
  {
    var n := |pieces|;
    var flat, flat' := Flat(frames0, pieces, n), Flat(frames, pieces, n);
    FlatLen(frames0, pieces, n);
    FlatLen(frames, pieces, n);
    forall x: nat | x < |flat|
      ensures flat'[x] == if offset <= x < offset + |src| then src[x - offset] else flat[x]
    {
      var i, k := FlatFind(frames0, pieces, n, x);
      assert PieceOk(frames, pieces[i]);
      FlatByte(frames0, pieces, i, k, n);
      FlatByte(frames, pieces, i, k, n);
      HitIs(pieces, n, i, offset, offset + |src|, pieces[i].ppn, pieces[i].lo + k);
      assert WrittenByte(frames0, frames, pieces, n, offset, src, pieces[i].ppn, pieces[i].lo + k);
    }
  }

  lemma WrittenSlice(frames0: Frames, frames: Frames, pieces: seq<Piece>, offset: nat, src: seq<bv8>)
    requires PiecesOk(frames0, pieces) && PiecesOk(frames, pieces)
    requires WrittenTo(frames0, frames, pieces, |pieces|, offset, src)
    ensures Disjoint(pieces) ==> Overwritten(Flat(frames0, pieces, |pieces|), offset, src, Flat(frames, pieces, |pieces|))
  {
    if Disjoint(pieces) {
      WrittenFlat(frames0, frames, pieces, offset, src);
    }
  }

  /** A part of the content past its end is in no piece. */
  lemma {:induction false} HitLate(frames: Frames, pieces: seq<Piece>, n: nat, lo: nat, hi: nat, p: nat, o: nat)
    requires PiecesOk(frames, pieces) && n <= |pieces| && lo >= Total(pieces, n)
    ensures Hit(pieces, n, lo, hi, p, o) == None
  {
    if n > 0 {
      assert PieceOk(frames, pieces[n - 1]);
      HitLate(frames, pieces, n - 1, lo, hi, p, o);
    }
  }

  class PhysicalPages {
    var frames: Frames

    ghost predicate Valid()
      reads this
    {
      FramesOk(frames)
    }

    /** `copy_from_slice` into a part of a piece. */
    method Put(f: Piece, at: nat, data: seq<bv8>)
      requires Valid() && PieceOk(frames, f) && at + |data| <= f.Len()
      modifies this
      ensures PutIn(old(frames), f, at, data, frames)
    {
      var page := frames[f.ppn];
      frames := frames[f.ppn := page[..f.lo + at] + data + page[f.lo + at + |data|..]];
      forall p: nat, o: nat
        ensures PutByte(old(frames), f, at, data, frames, p, o)
      {
      }
    }
  }

  method CopyInto(dst: array<bv8>, at: nat, data: seq<bv8>)
    requires at + |data| <= dst.Length
    modifies dst
    ensures Copied(old(dst[..]), at, data, dst[..])
  {
    for i := 0 to |data|
      invariant forall k :: 0 <= k < dst.Length ==> dst[k] == if at <= k < at + i then data[k - at] else old(dst[k])
    {
      dst[at + i] := data[i];
    }
    ghost var before, after := old(dst[..]), dst[..];
    forall k: nat | k < |before|
      ensures CopiedByte(before, at, data, after, k)
    {
    }
  }

  class UserBuffer {
    const pieces: seq<Piece>
    const len: nat

    ghost predicate Valid(mem: PhysicalPages)
      reads this, mem
    {
      PiecesOk(mem.frames, pieces) && len == Total(pieces, |pieces|)
    }

    /** The virtual bytes the buffer stands for. */
    ghost function Content(mem: PhysicalPages): seq<bv8>
      reads this, mem
      requires Valid(mem)
    {
      Flat(mem.frames, pieces, |pieces|)
    }

    constructor (pieces: seq<Piece>, mem: PhysicalPages)
      requires PiecesOk(mem.frames, pieces)
      ensures Valid(mem) && this.pieces == pieces
    {
      var total := 0;
      for i := 0 to |pieces|
        invariant total == Total(pieces, i) && total >= 0
      {
        assert PieceOk(mem.frames, pieces[i]);
        total := total + (pieces[i].hi - pieces[i].lo);
      }
      this.pieces := pieces;
      this.len := total;
    }

    /** Copy what piece `i` has of [offset, offset + dst.Length). */
    method ReadPiece(i: nat, base: nat, offset: nat, dst: array<bv8>, mem: PhysicalPages, ghost dst0: seq<bv8>) returns (n: nat)
      requires Valid(mem) && i < |pieces| && base == Total(pieces, i)
      requires ReadTo(Content(mem), base, offset, dst0, dst[..])
      modifies dst
      ensures 0 <= Total(pieces, i + 1) <= len && ReadTo(Content(mem), Total(pieces, i + 1), offset, dst0, dst[..])
      ensures n == CountTo(Total(pieces, i + 1), offset, dst.Length) - CountTo(base, offset, dst.Length)
    {
      ghost var before := dst[..];
      assert PieceOk(mem.frames, pieces[i]);
      TotalRises(mem.frames, pieces, i + 1, |pieces|);
      CountStep(base, base + pieces[i].Len(), offset, dst.Length);
      n := CopyPart(i, base, offset, dst, mem);
      ReadStep(mem.frames, pieces, i, offset, dst0, before, dst[..]);
    }

    method CopyPart(i: nat, base: nat, offset: nat, dst: array<bv8>, mem: PhysicalPages) returns (n: nat)
      requires Valid(mem) && i < |pieces| && base == Total(pieces, i) && PieceOk(mem.frames, pieces[i])
      modifies dst
      ensures PieceRead(mem.frames, pieces, i, offset, old(dst[..]), dst[..])
      ensures var lo, hi := MeetLo(base, offset), MeetHi(base + pieces[i].Len(), offset, dst.Length);
              n == if lo < hi then hi - lo else 0
    {
      var f := pieces[i];
      MeetBounds(base, base + f.Len(), offset, dst.Length);
      var lo, hi := MeetLo(base, offset), MeetHi(base + (f.hi - f.lo), offset, dst.Length);
      n := 0;
      if lo < hi {
        CopyInto(dst, lo - offset, PartOf(mem.frames, f, lo - base, hi - base));
        n := hi - lo;
      }
    }

    /** `read_at`: a slice of the content goes to the front of `dst`. */
    method ReadAt(offset: nat, dst: array<bv8>, mem: PhysicalPages) returns (n: nat)
      requires Valid(mem)
      modifies dst
      ensures n == CountTo(len, offset, dst.Length)
      ensures |Content(mem)| == len && ReadTo(Content(mem), len, offset, old(dst[..]), dst[..])
    {
      FlatLen(mem.frames, pieces, |pieces|);
      n := 0;
      ReadNothing(Content(mem), len, offset, dst[..]);
      if offset >= len {
        return;
      }
      var base := 0;
      for i := 0 to |pieces|
        invariant base == Total(pieces, i) && 0 <= base <= len && n == CountTo(base, offset, dst.Length)
        invariant ReadTo(Content(mem), base, offset, old(dst[..]), dst[..])
      {
        var copied := ReadPiece(i, base, offset, dst, mem, old(dst[..]));
        n := n + copied;
        base := base + (pieces[i].hi - pieces[i].lo);
      }
    }

    /** Copy to piece `i` what it takes from `src`. */
    method WritePiece(i: nat, base: nat, offset: nat, src: seq<bv8>, mem: PhysicalPages, ghost frames0: Frames) returns (n: nat)
      requires Valid(mem) && i < |pieces| && base == Total(pieces, i)
      requires WrittenTo(frames0, mem.frames, pieces, i, offset, src)
      modifies mem
      ensures Valid(mem) && 0 <= Total(pieces, i + 1) <= len && WrittenTo(frames0, mem.frames, pieces, i + 1, offset, src)
      ensures n == CountTo(Total(pieces, i + 1), offset, |src|) - CountTo(base, offset, |src|)
    {
      var f := pieces[i];
      assert PieceOk(mem.frames, f);
      ghost var before := mem.frames;
      TotalRises(mem.frames, pieces, i + 1, |pieces|);
      CountStep(base, base + f.Len(), offset, |src|);
      var lo, hi := MeetLo(base, offset), MeetHi(base + (f.hi - f.lo), offset, |src|);
      n := 0;
      if lo < hi {
        mem.Put(f, lo - base, src[lo - offset..hi - offset]);
        n := hi - lo;
      }
      KeysOk(before, mem.frames, pieces);
      WriteStep(frames0, before, mem.frames, pieces, i, offset, src);
    }

    /** `write_at`: the pieces take `src` from `offset` on, no byte of memory outside them changes, and
        if no two overlap in physical memory the content is overwritten as a slice. */
    method WriteAt(offset: nat, src: seq<bv8>, mem: PhysicalPages) returns (n: nat)
      requires Valid(mem)
      modifies mem
      ensures Valid(mem) && n == CountTo(len, offset, |src|)
      ensures Disjoint(pieces) ==> Overwritten(old(Content(mem)), offset, src, Content(mem))
      ensures WrittenTo(old(mem.frames), mem.frames, pieces, |pieces|, offset, src)
    {
      FlatLen(mem.frames, pieces, |pieces|);
      WriteNothing(mem.frames, pieces, offset, src);
      n := 0;
      if offset >= len {
        WrittenSlice(mem.frames, mem.frames, pieces, offset, src);
        return;
      }
      var base := 0;
      for i := 0 to |pieces|
        invariant Valid(mem) && base == Total(pieces, i) && 0 <= base <= len && n == CountTo(base, offset, |src|)
        invariant WrittenTo(old(mem.frames), mem.frames, pieces, i, offset, src)
      {
        var copied := WritePiece(i, base, offset, src, mem, old(mem.frames));
        n := n + copied;
        base := base + (pieces[i].hi - pieces[i].lo);
      }
      WrittenSlice(old(mem.frames), mem.frames, pieces, offset, src);
    }

    /** `read` from the start; it stops at the piece that fills `dst`. */
    method Read(dst: array<bv8>, mem: PhysicalPages) returns (n: nat)
      requires Valid(mem)
      modifies dst
      ensures n == CountTo(len, 0, dst.Length)
      ensures |Content(mem)| == len && ReadTo(Content(mem), len, 0, old(dst[..]), dst[..])
    {
      FlatLen(mem.frames, pieces, |pieces|);
      ReadNothing(Content(mem), len, 0, dst[..]);
      var start := 0;
      for i := 0 to |pieces|
        invariant start == Total(pieces, i) && 0 <= start <= len && start <= dst.Length
        invariant ReadTo(Content(mem), start, 0, old(dst[..]), dst[..])
      {
        var end := start + (pieces[i].hi - pieces[i].lo);
        var _ := ReadPiece(i, start, 0, dst, mem, old(dst[..]));
        if end > dst.Length {
          ReadRest(Content(mem), end, len, 0, old(dst[..]), dst[..]);
          return dst.Length;
        }
        start := end;
      }
      n := len;
    }

    /** `write` from the start; it stops at the piece that takes the end of `src`. */
    method Write(src: seq<bv8>, mem: PhysicalPages) returns (n: nat)
      requires Valid(mem)
      modifies mem
      ensures Valid(mem) && n == CountTo(len, 0, |src|)
      ensures Disjoint(pieces) ==> Overwritten(old(Content(mem)), 0, src, Content(mem))
      ensures WrittenTo(old(mem.frames), mem.frames, pieces, |pieces|, 0, src)
    {
      FlatLen(mem.frames, pieces, |pieces|);
      WriteNothing(mem.frames, pieces, 0, src);
      var start := 0;
      for i := 0 to |pieces|
        invariant Valid(mem) && start == Total(pieces, i) && 0 <= start <= len && start <= |src|
        invariant WrittenTo(old(mem.frames), mem.frames, pieces, i, 0, src)
      {
        var end := start + (pieces[i].hi - pieces[i].lo);
        var _ := WritePiece(i, start, 0, src, mem, old(mem.frames));
        if end > |src| {
          WriteRest(old(mem.frames), mem.frames, pieces, i + 1, |pieces|, 0, src);
          WrittenSlice(old(mem.frames), mem.frames, pieces, 0, src);
          return |src|;
        }
        start := end;
      }
      WrittenSlice(old(mem.frames), mem.frames, pieces, 0, src);
      n := len;
    }
  }

  /** Nothing more is read once the destination is full, ... */
  lemma ReadRest(flat: seq<bv8>, done: nat, len: nat, offset: nat, dst0: seq<bv8>, dst: seq<bv8>)
    requires ReadTo(flat, done, offset, dst0, dst) && offset + |dst0| <= done <= len <= |flat|
    ensures ReadTo(flat, len, offset, dst0, dst)
  {
    forall k: nat | k < |dst0|
      ensures ReadByte(flat, len, offset, dst0, dst, k)
    {
      assert ReadByte(flat, done, offset, dst0, dst, k);
    }
  }

  /** ... and nothing more is written once the source is used up. */
  lemma WriteRest(frames0: Frames, frames: Frames, pieces: seq<Piece>, i: nat, n: nat, offset: nat, src: seq<bv8>)
    requires PiecesOk(frames, pieces) && i <= n <= |pieces| && WrittenTo(frames0, frames, pieces, i, offset, src)
    requires offset + |src| <= Total(pieces, i)
    ensures WrittenTo(frames0, frames, pieces, n, offset, src)
  {
    forall p: nat, o: nat
      ensures WrittenByte(frames0, frames, pieces, n, offset, src, p, o)
    {
      assert WrittenByte(frames0, frames, pieces, i, offset, src, p, o);
      WriteRestByte(frames0, frames, pieces, i, n, offset, src, p, o);
    }
  }

  lemma {:induction false} WriteRestByte(frames0: Frames, frames: Frames, pieces: seq<Piece>, i: nat, n: nat, offset: nat, src: seq<bv8>, p: nat, o: nat)
    requires PiecesOk(frames, pieces) && i <= n <= |pieces|
    requires WrittenByte(frames0, frames, pieces, i, offset, src, p, o) && offset + |src| <= Total(pieces, i)
    ensures WrittenByte(frames0, frames, pieces, n, offset, src, p, o)
    decreases n
  {
    if i < n {
      WriteRestByte(frames0, frames, pieces, i, n - 1, offset, src, p, o);
      TotalRises(frames, pieces, i, n - 1);
    }
  }

  lemma KeysOk(frames: Frames, frames': Frames, pieces: seq<Piece>)
    requires PiecesOk(frames, pieces) && frames'.Keys == frames.Keys && FramesOk(frames')
    ensures PiecesOk(frames', pieces)
  {
    forall i: nat | i < |pieces|
      ensures PieceOk(frames', pieces[i])
    {
      assert PieceOk(frames, pieces[i]);
    }
  }

  lemma WriteNothing(frames: Frames, pieces: seq<Piece>, offset: nat, src: seq<bv8>)
    requires PiecesOk(frames, pieces)
    ensures WrittenTo(frames, frames, pieces, 0, offset, src)
    ensures offset >= Total(pieces, |pieces|) ==> WrittenTo(frames, frames, pieces, |pieces|, offset, src)
  {
    forall p: nat, o: nat
      ensures WrittenByte(frames, frames, pieces, 0, offset, src, p, o)
      ensures offset >= Total(pieces, |pieces|) ==> WrittenByte(frames, frames, pieces, |pieces|, offset, src, p, o)
    {
      if offset >= Total(pieces, |pieces|) {
        HitLate(frames, pieces, |pieces|, offset, offset + |src|, p, o);
      }
    }
  }

  lemma ReadNothing(flat: seq<bv8>, len: nat, offset: nat, dst: seq<bv8>)
    requires len == |flat|
    ensures ReadTo(flat, 0, offset, dst, dst)
    ensures offset >= len ==> ReadTo(flat, len, offset, dst, dst)
  {
    forall k: nat | k < |dst|
      ensures ReadByte(flat, 0, offset, dst, dst, k) && (offset >= len ==> ReadByte(flat, len, offset, dst, dst, k))
    {
    }
  }

  // ---------------------------------------------------------------- copying arrays

  /** The test for the direct path: the first and the last byte are in one page. For an empty array
      that is the page of the byte before, if there is one. */
  predicate OnePage(start: nat, size: nat) {
    start + size > 0 && start / 4096 == (start + size - 1) / 4096
  }

  /** `bytes` are the virtual bytes from `start` on. */
  ghost predicate VirtualRange(frames: Frames, table: map<nat, nat>, start: nat, bytes: seq<bv8>) {
    && Backed(frames, table) && Mapped(table, start, start + |bytes|)
    && forall k: nat {:trigger bytes[k]} :: k < |bytes| ==>
         (start + k) / 4096 in table && bytes[k] == VirtualByte(frames, table, start + k)
  }

  lemma OnePageMapped(table: map<nat, nat>, start: nat, size: nat)
    requires OnePage(start, size) && size > 0
    ensures Mapped(table, start, start + size) <==> start / 4096 in table
    ensures start % 4096 + size <= 4096
  {
    if start / 4096 in table {
      forall a: nat | start <= a < start + size
        ensures a / 4096 in table
      {
        assert a / 4096 == start / 4096;
      }
    }
  }

  /** What the direct path reads is what the pieces hold. */
  lemma DirectRead(frames: Frames, table: map<nat, nat>, start: nat, size: nat)
    requires Backed(frames, table) && start / 4096 in table && start % 4096 + size <= 4096
    ensures VirtualRange(frames, table, start, frames[table[start / 4096]][start % 4096..start % 4096 + size])
  {
    var bytes := frames[table[start / 4096]][start % 4096..start % 4096 + size];
    forall k: nat | k < |bytes|
      ensures (start + k) / 4096 in table && bytes[k] == VirtualByte(frames, table, start + k)
    {
      InPage(start, k);
    }
    forall a: nat | start <= a < start + size
      ensures a / 4096 in table
    {
      InPage(start, a - start);
    }
  }

  /** Reading all pieces gives the virtual bytes. */
  lemma GatheredRange(frames: Frames, table: map<nat, nat>, pieces: seq<Piece>, start: nat, size: nat, dst0: seq<bv8>, dst: seq<bv8>)
    requires Backed(frames, table) && Mapped(table, start, start + size) && Cover(table, pieces, start, start + size)
    requires PiecesOk(frames, pieces) && |dst0| == size && ReadTo(Flat(frames, pieces, |pieces|), size, 0, dst0, dst)
    ensures VirtualRange(frames, table, start, dst)
  {
    forall k: nat | k < size
      ensures (start + k) / 4096 in table && dst[k] == VirtualByte(frames, table, start + k)
    {
      assert ReadByte(Flat(frames, pieces, |pieces|), size, 0, dst0, dst, k);
      CoverFlat(frames, table, pieces, start, start + size, |pieces|, k);
    }
  }

  /** `copy_from_user_array` of `size` bytes. An array that is not empty is copied exactly if all its
      pages are there; an empty one fails if its address is inside a page that is not. */
  method CopyFromUserArray(table: map<nat, nat>, src: nat, size: nat, mem: PhysicalPages) returns (r: Result<seq<bv8>>)
    requires Backed(mem.frames, table)
    ensures size > 0 ==> (r.Ok? <==> Mapped(table, src, src + size))
    ensures size == 0 ==> (r.Ok? <==> src % 4096 == 0 || src / 4096 in table)
    ensures r.Ok? ==> |r.value| == size && VirtualRange(mem.frames, table, src, r.value)
  {
    if OnePage(src, size) {
      if size > 0 {
        OnePageMapped(table, src, size);
      }
      if src / 4096 !in table {
        return Fault;
      }
      DirectRead(mem.frames, table, src, size);
      var page := mem.frames[table[src / 4096]];
      r := Ok(page[src % 4096..src % 4096 + size]);
    } else {
      var pieces := TranslatedByteBuffer(table, src, size);
      match pieces
      case Fault => r := Fault;
      case Ok(ps) =>
        CoverOk(mem.frames, table, ps, src, src + size);
        var buffer := new UserBuffer(ps, mem);
        var dst := new bv8[size];
        ghost var before := dst[..];
        var _ := buffer.Read(dst, mem);
        GatheredRange(mem.frames, table, ps, src, size, before, dst[..]);
        r := Ok(dst[..]);
    }
  }

  // ---------------------------------------------------------------- copying to user memory

  /** One byte stored at a virtual address. */
  ghost function Poke(frames: Frames, table: map<nat, nat>, a: nat, byte: bv8): (r: Frames)
    requires Backed(frames, table) && a / 4096 in table
    ensures Backed(r, table) && r.Keys == frames.Keys
  {
    frames[table[a / 4096] := frames[table[a / 4096]][a % 4096 := byte]]
  }

  lemma PokeByte(frames: Frames, table: map<nat, nat>, a: nat, byte: bv8, p: nat, o: nat)
    requires Backed(frames, table) && a / 4096 in table && p in frames && o < 4096
    ensures Poke(frames, table, a, byte)[p][o] == if IsAt(table, a, p, o) then byte else frames[p][o]
  {
  }

  /** The first `n` bytes of `data` stored one by one at the virtual addresses from `start` on. */
  ghost function Poked(frames: Frames, table: map<nat, nat>, start: nat, data: seq<bv8>, n: nat): (r: Frames)
    requires Backed(frames, table) && n <= |data| && Mapped(table, start, start + n)
    ensures Backed(r, table) && r.Keys == frames.Keys
  {
    if n == 0 then frames
    else Poke(Poked(frames, table, start, data, n - 1), table, start + (n - 1), data[n - 1])
  }

  /** The virtual address `a` is byte `o` of physical page `p`. */
  predicate IsAt(table: map<nat, nat>, a: nat, p: nat, o: nat) {
    a / 4096 in table && table[a / 4096] == p && a % 4096 == o
  }

  /** The last of the `n` addresses from `start` on that is byte `o` of page `p`. */
  ghost function LastAt(table: map<nat, nat>, start: nat, n: nat, p: nat, o: nat): (r: Option<nat>)
    ensures r.Some? ==> r.value < n && IsAt(table, start + r.value, p, o)
  {
    if n == 0 then None
    else if IsAt(table, start + (n - 1), p, o) then Some(n - 1)
    else LastAt(table, start, n - 1, p, o)
  }

  lemma {:induction false} LastIsLast(table: map<nat, nat>, start: nat, n: nat, p: nat, o: nat, k: nat)
    requires k < n && IsAt(table, start + k, p, o)
    ensures LastAt(table, start, n, p, o).Some? && k <= LastAt(table, start, n, p, o).value
  {
    if k < n - 1 {
      LastIsLast(table, start, n - 1, p, o, k);
    }
  }

  lemma PokedLast(frames: Frames, table: map<nat, nat>, start: nat, data: seq<bv8>, n: nat, p: nat, o: nat)
    requires Backed(frames, table) && 0 < n <= |data| && Mapped(table, start, start + n) && p in frames && o < 4096
    ensures Mapped(table, start, start + (n - 1))
    ensures Poked(frames, table, start, data, n)[p][o] ==
            if IsAt(table, start + (n - 1), p, o) then data[n - 1] else Poked(frames, table, start, data, n - 1)[p][o]
  {
    PokeByte(Poked(frames, table, start, data, n - 1), table, start + (n - 1), data[n - 1], p, o);
  }

  /** Byte by byte: each byte of memory holds what was stored there last, else what it held. */
  lemma {:induction false} PokedByte(frames: Frames, table: map<nat, nat>, start: nat, data: seq<bv8>, n: nat, p: nat, o: nat)
    requires Backed(frames, table) && n <= |data| && Mapped(table, start, start + n) && p in frames && o < 4096
    ensures Poked(frames, table, start, data, n)[p][o] ==
            match LastAt(table, start, n, p, o) case Some(k) => data[k] case None => frames[p][o]
  {
    if n > 0 {
      PokedLast(frames, table, start, data, n, p, o);
      PokedByte(frames, table, start, data, n - 1, p, o);
    }
  }

  ghost predicate SameByte(a: Frames, b: Frames, p: nat, o: nat) {
    p in a && p in b && o < |a[p]| && o < |b[p]| ==> a[p][o] == b[p][o]
  }

  /** Two memories with the same pages and the same bytes. */
  lemma SameFrames(a: Frames, b: Frames)
    requires FramesOk(a) && FramesOk(b) && a.Keys == b.Keys
    requires forall p: nat, o: nat {:trigger SameByte(a, b, p, o)} :: SameByte(a, b, p, o)
    ensures a == b
  {
    forall p | p in a
      ensures a[p] == b[p]
    {
      forall o: nat | o < 4096
        ensures a[p][o] == b[p][o]
      {
        assert SameByte(a, b, p, o);
      }
    }
  }

  /** Along the part of a page that starts at `base`. */
  lemma {:induction false} LastInPage(table: map<nat, nat>, start: nat, base: nat, m: nat, p: nat, o: nat)
    requires (start + base) / 4096 in table && (start + base) % 4096 + m <= 4096
    ensures var ppn, lo := table[(start + base) / 4096], (start + base) % 4096;
            LastAt(table, start, base + m, p, o) ==
            if ppn == p && lo <= o < lo + m then Some(base + (o - lo)) else LastAt(table, start, base, p, o)
  {
    if m > 0 {
      LastInPage(table, start, base, m - 1, p, o);
      InPage(start + base, m - 1);
      assert start + base + (m - 1) == start + (base + m - 1);
    }
  }

  /** The last place among the pieces is the last address. */
  lemma {:induction false} HitIsLast(frames: Frames, table: map<nat, nat>, pieces: seq<Piece>, start: nat, end: nat, n: nat, p: nat, o: nat)
    requires Cover(table, pieces, start, end) && PiecesOk(frames, pieces) && n <= |pieces|
    ensures 0 <= Total(pieces, n) <= end - start
    ensures var last := LastAt(table, start, Total(pieces, n), p, o);
            Hit(pieces, n, 0, end - start, p, o) == if last.Some? then Some(last.value) else None
  {
    TotalRises(frames, pieces, n, |pieces|);
    if n > 0 {
      HitIsLast(frames, table, pieces, start, end, n - 1, p, o);
      assert CoverAt(table, pieces, start, n - 1);
      LastInPage(table, start, Total(pieces, n - 1), pieces[n - 1].Len(), p, o);
    }
  }

  lemma ScatteredByte(frames0: Frames, frames: Frames, table: map<nat, nat>, pieces: seq<Piece>, start: nat, data: seq<bv8>, p: nat, o: nat)
    requires Cover(table, pieces, start, start + |data|) && Mapped(table, start, start + |data|) && Backed(frames0, table)
    requires PiecesOk(frames0, pieces) && WrittenByte(frames0, frames, pieces, |pieces|, 0, data, p, o)
    requires frames.Keys == frames0.Keys && FramesOk(frames)
    ensures SameByte(frames, Poked(frames0, table, start, data, |data|), p, o)
  {
    if p in frames && o < 4096 {
      HitIsLast(frames0, table, pieces, start, start + |data|, |pieces|, p, o);
      PokedByte(frames0, table, start, data, |data|, p, o);
    }
  }

  /** Writing to the pieces stores byte by byte. */
  lemma ScatteredPoked(frames0: Frames, frames: Frames, table: map<nat, nat>, pieces: seq<Piece>, start: nat, data: seq<bv8>)
    requires Cover(table, pieces, start, start + |data|) && Mapped(table, start, start + |data|) && Backed(frames0, table)
    requires PiecesOk(frames0, pieces) && WrittenTo(frames0, frames, pieces, |pieces|, 0, data)
    ensures frames == Poked(frames0, table, start, data, |data|)
  {
    var poked := Poked(frames0, table, start, data, |data|);
    forall p: nat, o: nat
      ensures SameByte(frames, poked, p, o)
    {
      assert WrittenByte(frames0, frames, pieces, |pieces|, 0, data, p, o);
      ScatteredByte(frames0, frames, table, pieces, start, data, p, o);
    }
    SameFrames(frames, poked);
  }

  lemma DirectPokedByte(frames0: Frames, frames: Frames, table: map<nat, nat>, start: nat, data: seq<bv8>, f: Piece, p: nat, o: nat)
    requires Backed(frames0, table) && start / 4096 in table && start % 4096 + |data| <= 4096
    requires Mapped(table, start, start + |data|) && frames.Keys == frames0.Keys && FramesOk(frames)
    requires f == Piece(table[start / 4096], 0, 4096) && PutByte(frames0, f, start % 4096, data, frames, p, o)
    ensures SameByte(frames, Poked(frames0, table, start, data, |data|), p, o)
  {
    if p in frames && o < 4096 {
      DirectByte(table, start, |data|, p, o);
      PokedByte(frames0, table, start, data, |data|, p, o);
    }
  }

  /** So does writing directly to the one page. */
  lemma DirectPoked(frames0: Frames, frames: Frames, table: map<nat, nat>, start: nat, data: seq<bv8>, f: Piece)
    requires Backed(frames0, table) && start / 4096 in table && start % 4096 + |data| <= 4096
    requires Mapped(table, start, start + |data|)
    requires f == Piece(table[start / 4096], 0, 4096) && PutIn(frames0, f, start % 4096, data, frames)
    ensures frames == Poked(frames0, table, start, data, |data|)
  {
    var poked := Poked(frames0, table, start, data, |data|);
    forall p: nat, o: nat
      ensures SameByte(frames, poked, p, o)
    {
      assert PutByte(frames0, f, start % 4096, data, frames, p, o);
      DirectPokedByte(frames0, frames, table, start, data, f, p, o);
    }
    SameFrames(frames, poked);
  }

  lemma DirectByte(table: map<nat, nat>, start: nat, n: nat, p: nat, o: nat)
    requires start / 4096 in table && start % 4096 + n <= 4096
    ensures LastAt(table, start, n, p, o) ==
            if p == table[start / 4096] && start % 4096 <= o < start % 4096 + n then Some(o - start % 4096) else None
  {
    LastInPage(table, start, 0, n, p, o);
  }

  /** What any virtual address reads after the copy: the last byte stored to its place in physical
      memory by any address of the range, its own alias included, else what it read before. */
  lemma PokedVirtual(frames: Frames, table: map<nat, nat>, start: nat, data: seq<bv8>, b: nat)
    requires Backed(frames, table) && Mapped(table, start, start + |data|) && b / 4096 in table
    ensures var after := Poked(frames, table, start, data, |data|);
            VirtualByte(after, table, b) ==
            match LastAt(table, start, |data|, table[b / 4096], b % 4096)
            case Some(k) => data[k] case None => VirtualByte(frames, table, b)
  {
    PokedByte(frames, table, start, data, |data|, table[b / 4096], b % 4096);
  }

  ghost predicate AloneAt(table: map<nat, nat>, start: nat, j: nat, k: nat) {
    (start + k) / 4096 in table && IsAt(table, start + j, table[(start + k) / 4096], (start + k) % 4096) ==> j == k
  }

  /** No two addresses of the range are one byte of physical memory. */
  ghost predicate NoAlias(table: map<nat, nat>, start: nat, n: nat)
    requires Mapped(table, start, start + n)
  {
    forall j: nat, k: nat {:trigger AloneAt(table, start, j, k)} :: j < n && k < n ==> AloneAt(table, start, j, k)
  }

  ghost predicate ReadsBack(frames: Frames, table: map<nat, nat>, start: nat, data: seq<bv8>)
    requires Backed(frames, table) && Mapped(table, start, start + |data|)
  {
    VirtualRange(Poked(frames, table, start, data, |data|), table, start, data)
  }

  /** The range reads back what was copied, for all data, exactly if no page of the range shares its
      frame with another page of the range at an offset both use. */
  lemma ReadBackExact(frames: Frames, table: map<nat, nat>, start: nat, n: nat)
    requires Backed(frames, table) && Mapped(table, start, start + n)
    ensures (forall data: seq<bv8> :: |data| == n ==> ReadsBack(frames, table, start, data)) <==> NoAlias(table, start, n)
  {
    if NoAlias(table, start, n) {
      forall data: seq<bv8> | |data| == n
        ensures ReadsBack(frames, table, start, data)
      {
        NoAliasReadsBack(frames, table, start, data);
      }
    } else {
      var j: nat, k: nat :| j < n && k < n && !AloneAt(table, start, j, k);
      AliasLost(frames, table, start, n, if j < k then j else k, if j < k then k else j);
    }
  }

  lemma NoAliasReadsBack(frames: Frames, table: map<nat, nat>, start: nat, data: seq<bv8>)
    requires Backed(frames, table) && Mapped(table, start, start + |data|) && NoAlias(table, start, |data|)
    ensures ReadsBack(frames, table, start, data)
  {
    var after := Poked(frames, table, start, data, |data|);
    forall k: nat | k < |data|
      ensures (start + k) / 4096 in table && data[k] == VirtualByte(after, table, start + k)
    {
      var b := start + k;
      PokedVirtual(frames, table, start, data, b);
      LastIsLast(table, start, |data|, table[b / 4096], b % 4096, k);
      var last := LastAt(table, start, |data|, table[b / 4096], b % 4096);
      assert AloneAt(table, start, last.value, k);
    }
  }

  /** A single 1 among zeros. */
  function OneAt(n: nat, j: nat): (r: seq<bv8>)
    ensures |r| == n && forall i: nat {:trigger r[i]} :: i < n ==> r[i] == if i == j then 1 else 0
  {
    seq(n, i requires 0 <= i < n => if i == j then 1 as bv8 else 0)
  }

  /** With two addresses in one place, the earlier one does not read back. */
  lemma AliasLost(frames: Frames, table: map<nat, nat>, start: nat, n: nat, j: nat, k: nat)
    requires Backed(frames, table) && Mapped(table, start, start + n) && j < k < n
    requires IsAt(table, start + k, table[(start + j) / 4096], (start + j) % 4096)
    ensures exists data: seq<bv8> :: |data| == n && !ReadsBack(frames, table, start, data)
  {
    var data := OneAt(n, j);
    var after := Poked(frames, table, start, data, n);
    PokedVirtual(frames, table, start, data, start + j);
    LastIsLast(table, start, n, table[(start + j) / 4096], (start + j) % 4096, k);
    assert data[j] == 1 && VirtualByte(after, table, start + j) == 0;
    assert !ReadsBack(frames, table, start, data);
  }

  /** Two pages of one frame: of 4097 bytes copied over both, the first is lost. */
  lemma TwoMappingsLost(frames: Frames, p: nat)
    requires FramesOk(frames) && p in frames
    ensures var table: map<nat, nat> := map[0 := p, 1 := p];
            Mapped(table, 0, 4097) && Backed(frames, table) && !NoAlias(table, 0, 4097)
  {
    var table: map<nat, nat> := map[0 := p, 1 := p];
    assert !AloneAt(table, 0, 0, 4096);
  }

  /** The pieces are apart exactly if no two addresses of the range are one byte of memory. */
  lemma CoverDisjoint(frames: Frames, table: map<nat, nat>, pieces: seq<Piece>, start: nat, n: nat)
    requires Cover(table, pieces, start, start + n) && Mapped(table, start, start + n) && PiecesOk(frames, pieces)
    ensures Disjoint(pieces) <==> NoAlias(table, start, n)
  {
    if Disjoint(pieces) {
      forall j: nat, k: nat | j < n && k < n
        ensures AloneAt(table, start, j, k)
      {
        ApartAlone(frames, table, pieces, start, n, j, k);
      }
    } else {
      var i: nat, j: nat :| i < j < |pieces| && !ApartAt(pieces, i, j);
      var o := if pieces[i].lo > pieces[j].lo then pieces[i].lo else pieces[j].lo;
      assert PieceOk(frames, pieces[i]) && PieceOk(frames, pieces[j]);
      var x := InPiece(frames, table, pieces, start, n, i, o);
      var y := InPiece(frames, table, pieces, start, n, j, o);
      TotalRises(frames, pieces, i + 1, j);
      assert !AloneAt(table, start, x, y);
    }
  }

  lemma InPiece(frames: Frames, table: map<nat, nat>, pieces: seq<Piece>, start: nat, n: nat, i: nat, o: nat) returns (x: nat)
    requires Cover(table, pieces, start, start + n) && PiecesOk(frames, pieces) && i < |pieces| && pieces[i].lo <= o < pieces[i].hi
    ensures Total(pieces, i) <= x < Total(pieces, i + 1) <= n && IsAt(table, start + x, pieces[i].ppn, o)
  {
    assert CoverAt(table, pieces, start, i);
    TotalRises(frames, pieces, i + 1, |pieces|);
    FlatLen(frames, pieces, i);
    x := Total(pieces, i) + (o - pieces[i].lo);
    InPage(start + Total(pieces, i), o - pieces[i].lo);
  }

  lemma ApartAlone(frames: Frames, table: map<nat, nat>, pieces: seq<Piece>, start: nat, n: nat, j: nat, k: nat)
    requires Cover(table, pieces, start, start + n) && Mapped(table, start, start + n) && PiecesOk(frames, pieces)
    requires Disjoint(pieces) && j < n && k < n
    ensures AloneAt(table, start, j, k)
  {
    var i, x := FlatFind(frames, pieces, |pieces|, j);
    var l, y := FlatFind(frames, pieces, |pieces|, k);
    assert CoverAt(table, pieces, start, i) && CoverAt(table, pieces, start, l);
    InPage(start + Total(pieces, i), x);
    InPage(start + Total(pieces, l), y);
    assert i < l ==> ApartAt(pieces, i, l);
    assert l < i ==> ApartAt(pieces, l, i);
  }

  /** `copy_to_user_array`: both paths store the bytes one by one from `dst` on, whatever else is
      mapped to the same frames. */
  method CopyToUserArray(table: map<nat, nat>, dst: nat, data: seq<bv8>, mem: PhysicalPages) returns (r: Result<()>)
    requires Backed(mem.frames, table)
    modifies mem
    ensures |data| > 0 ==> (r.Ok? <==> Mapped(table, dst, dst + |data|))
    ensures |data| == 0 ==> (r.Ok? <==> dst % 4096 == 0 || dst / 4096 in table)
    ensures r.Ok? ==> Mapped(table, dst, dst + |data|) && mem.frames == Poked(old(mem.frames), table, dst, data, |data|)
    ensures r.Fault? ==> mem.frames == old(mem.frames)
  {
    if OnePage(dst, |data|) {
      if |data| > 0 {
        OnePageMapped(table, dst, |data|);
      }
      if dst / 4096 !in table {
        return Fault;
      }
      var f := Piece(table[dst / 4096], 0, 4096);
      mem.Put(f, dst % 4096, data);
      DirectPoked(old(mem.frames), mem.frames, table, dst, data, f);
      r := Ok(());
    } else {
      var pieces := TranslatedByteBuffer(table, dst, |data|);
      match pieces
      case Fault => r := Fault;
      case Ok(ps) =>
        CoverOk(mem.frames, table, ps, dst, dst + |data|);
        var buffer := new UserBuffer(ps, mem);
        var _ := buffer.Write(data, mem);
        ScatteredPoked(old(mem.frames), mem.frames, table, ps, dst, data);
        r := Ok(());
    }
  }
}
