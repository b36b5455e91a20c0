/** The image loader of modemd for raw flash, which skips bad erase blocks. */
module BadBlock {
  import opened Words

  const BUF_SIZE: nat := 8192

  /** A flash partition: its bytes, the size of an erase block, and the numbers of the bad blocks. */
  datatype Flash = Flash(data: seq<u8>, eraseSize: nat, bad: set<nat>)

  predicate Valid(f: Flash) {
    f.eraseSize > 0
  }

  /** `MEMGETBADBLOCK` at a position; behind the end of the partition it is an error, not a bad block. */
  predicate IsBad(f: Flash, pos: nat)
    requires Valid(f)
  {
    pos < |f.data| && pos / f.eraseSize in f.bad
  }

  predicate Boundary(f: Flash, pos: nat)
    requires Valid(f)
  {
    pos % f.eraseSize == 0
  }

  /** The `while` loop: over bad blocks, as long as it finds one; `None` when `lseek` fails. */
  function SkipBad(f: Flash, pos: nat): (r: Option<nat>)
    requires Valid(f)
    ensures r.Some? ==> r.value >= pos && !(Boundary(f, r.value) && IsBad(f, r.value))
    decreases |f.data| - pos
  {
    if !(Boundary(f, pos) && IsBad(f, pos)) then Some(pos)
    else if pos + f.eraseSize > |f.data| then None
    else SkipBad(f, pos + f.eraseSize)
  }

  function Upto(from: nat, end: nat): (s: seq<nat>)
    requires from <= end
    ensures |s| == end - from && forall k :: 0 <= k < |s| ==> s[k] == from + k
    decreases end - from
  {
    if from == end then [] else [from] + Upto(from + 1, end)
  }

  /** The positions that `loadimage` copies, in order; `None` when it fails to read them. */
  function Loaded(f: Flash, pos: nat, size: int): Option<seq<nat>>
    requires Valid(f)
    decreases size
  {
    if size <= 0 then Some([])
    else
      var at, n := SkipBad(f, pos), Min(size, BUF_SIZE);
      if at.None? || at.value + n > |f.data| then None
      else Glue(Upto(at.value, at.value + n), Loaded(f, at.value + n, size - n))
  }

  /** The positions that it has read when it ends, one way or the other. */
  function Took(f: Flash, pos: nat, size: int): seq<nat>
    requires Valid(f)
    decreases size
  {
    if size <= 0 then []
    else
      var at, n := SkipBad(f, pos), Min(size, BUF_SIZE);
      if at.None? || at.value + n > |f.data| then []
      else Upto(at.value, at.value + n) + Took(f, at.value + n, size - n)
  }

  /** The reference: the first `size` positions from `pos` on that lie in good blocks. */
  function GoodPositions(f: Flash, pos: nat, size: int): Option<seq<nat>>
    requires Valid(f)
    decreases |f.data| - pos
  {
    if size <= 0 then Some([])
    else if pos >= |f.data| then None
    else if IsBad(f, pos) then GoodPositions(f, pos + 1, size)
    else Glue([pos], GoodPositions(f, pos + 1, size - 1))
  }

  /** The inner loop, over bad blocks; `None` when `lseek` fails. */
  method SkipBadBlocks(f: Flash, start: nat) returns (r: Option<nat>)
    requires Valid(f)
    ensures r == SkipBad(f, start)
  {
    var bpos := start;
    while bpos % f.eraseSize == 0 && IsBad(f, bpos)
      invariant SkipBad(f, start) == SkipBad(f, bpos)
      decreases |f.data| - bpos
    {
      if bpos + f.eraseSize > |f.data| { return None; }
      bpos := bpos + f.eraseSize;
    }
    return Some(bpos);
  }

  lemma LoadedStep(f: Flash, pos: nat, size: int)
    requires Valid(f) && size > 0
    ensures var at, n := SkipBad(f, pos), Min(size, BUF_SIZE);
            Loaded(f, pos, size) ==
            if at.None? || at.value + n > |f.data| then None
            else Glue(Upto(at.value, at.value + n), Loaded(f, at.value + n, size - n))
  {
  }

  lemma TookStep(f: Flash, pos: nat, size: int)
    requires Valid(f) && size > 0
    ensures var at, n := SkipBad(f, pos), Min(size, BUF_SIZE);
            Took(f, pos, size) ==
            if at.None? || at.value + n > |f.data| then []
            else Upto(at.value, at.value + n) + Took(f, at.value + n, size - n)
  {
  }

  /** `out` holds the bytes at `places`. */
  ghost predicate Copied(f: Flash, places: seq<nat>, out: seq<u8>) {
    |out| == |places| && forall k :: 0 <= k < |out| ==> places[k] < |f.data| && out[k] == f.data[places[k]]
  }

  lemma CopiedMore(f: Flash, places: seq<nat>, out: seq<u8>, at: nat, n: nat)
    requires Copied(f, places, out) && at + n <= |f.data|
    ensures Copied(f, places + Upto(at, at + n), out + f.data[at..at + n])
  {
  }

  /** What a load leaves in a sink with room for `room` bytes. */
  ghost function Sunk(f: Flash, pos: nat, size: int, room: nat): seq<nat>
    requires Valid(f)
  {
    if pos > |f.data| then [] else Took(f, pos, size)[..Min(room, |Took(f, pos, size)|)]
  }

  /** `loadimage`, the path for raw flash. The sink takes `room` bytes, and of a write that does not fit
      it takes what does. */
  method LoadImage(f: Flash, offsetIn: nat, imageSize: int, room: nat) returns (ok: bool, out: seq<u8>)
    requires Valid(f)
    ensures Copied(f, Sunk(f, offsetIn, imageSize, room), out)
    ensures ok <==> offsetIn <= |f.data| && (imageSize <= 0 || |out| == imageSize)
  {
    hide Took, SkipBad, Copied, Upto;
    out := [];
    CopiedNothing(f);
    if offsetIn > |f.data| { return false, out; }
    var bpos: nat, size := offsetIn, imageSize;
    ghost var places: seq<nat> := [];
    ghost var all := Took(f, offsetIn, imageSize);
    while size > 0
      invariant all == places + Took(f, bpos, size) && |places| <= room && Copied(f, places, out)
      invariant |places| + size == imageSize
      invariant size >= 0 || imageSize < 0
      decreases size
    {
      CopiedLength(f, places, out);
      TookStep(f, bpos, size);
      var at := SkipBadBlocks(f, bpos);
      if at.None? {
        assert all == places && all[..Min(room, |all|)] == places;
        return false, out;
      }
      bpos := at.value;
      var rsize := Min(size, BUF_SIZE);
      if bpos + rsize > |f.data| {
        assert all == places && all[..Min(room, |all|)] == places;
        return false, out;
      }
      ghost var rest := Took(f, bpos + rsize, size - rsize);
      if |out| + rsize > room {
        var fits := room - |out|;
        CopiedMore(f, places, out, bpos, fits);
        UptoPrefix(bpos, fits, rsize);
        Truncated(all, places, Upto(bpos, bpos + rsize), rest, room, fits);
        out := out + f.data[bpos..bpos + fits];
        return false, out;
      }
      CopiedMore(f, places, out, bpos, rsize);
      assert places + (Upto(bpos, bpos + rsize) + rest) == places + Upto(bpos, bpos + rsize) + rest;
      places := places + Upto(bpos, bpos + rsize);
      out := out + f.data[bpos..bpos + rsize];
      size := size - rsize;
      bpos := bpos + rsize;
    }
    CopiedLength(f, places, out);
    TookNothing(f, bpos, size);
    assert all == places && all[..Min(room, |all|)] == places;
    return true, out;
  }

  lemma Truncated(all: seq<nat>, places: seq<nat>, chunk: seq<nat>, rest: seq<nat>, room: nat, fits: nat)
    requires all == places + (chunk + rest) && fits < |chunk| && room == |places| + fits
    ensures all[..Min(room, |all|)] == places + chunk[..fits]
  {
  }

  lemma UptoPrefix(at: nat, k: nat, n: nat)
    requires k <= n
    ensures Upto(at, at + n)[..k] == Upto(at, at + k)
  {
  }

  lemma TookNothing(f: Flash, pos: nat, size: int)
    requires Valid(f) && size <= 0
    ensures Took(f, pos, size) == []
  {
  }

  /** What has been read at the end of a load is what a load of just that many bytes copies; it is all that
      was asked for exactly if no read failed. */
  lemma {:induction false} TookLoaded(f: Flash, pos: nat, size: int)
    requires Valid(f) && size >= 0
    ensures |Took(f, pos, size)| <= size && Loaded(f, pos, |Took(f, pos, size)|) == Some(Took(f, pos, size))
    ensures Loaded(f, pos, size).Some? <==> |Took(f, pos, size)| == size
    decreases size
  {
    hide Loaded, Took, SkipBad, Upto;
    LoadedNothing(f, pos, 0);
    if size == 0 {
      TookNothing(f, pos, size);
    } else {
      TookStep(f, pos, size);
      LoadedStep(f, pos, size);
      var at, n := SkipBad(f, pos), Min(size, BUF_SIZE);
      if at.Some? && at.value + n <= |f.data| {
        TookLoaded(f, at.value + n, size - n);
        LoadedStep(f, pos, |Took(f, pos, size)|);
      }
    }
  }

  lemma CopiedNothing(f: Flash)
    ensures Copied(f, [], [])
  {
  }

  lemma CopiedLength(f: Flash, places: seq<nat>, out: seq<u8>)
    requires Copied(f, places, out)
    ensures |out| == |places|
  {
  }

  lemma LoadedNothing(f: Flash, pos: nat, size: int)
    requires Valid(f) && size <= 0
    ensures Loaded(f, pos, size) == Some([])
  {
  }

  // ---- division ------------------------------------------------------------------------------

  lemma MulAtLeast(d: nat, k: nat)
    requires k > 0
    ensures d * k >= d
  {
    assert d * k == d + d * (k - 1);
  }

  lemma DivUnique(x: nat, d: nat, q: nat, r: nat)
    requires d > 0 && x == d * q + r && r < d
    ensures x / d == q && x % d == r
  {
    var q', r' := x / d, x % d;
    assert d * q' + r' == d * q + r;
    if q' < q {
      MulAtLeast(d, q - q');
    } else if q' > q {
      MulAtLeast(d, q' - q);
    }
  }

  lemma NextBoundary(pos: nat, size: nat)
    requires size > 0 && pos % size == 0
    ensures (pos + size) % size == 0
  {
    var b := pos / size;
    assert pos + size == size * (b + 1) + 0;
    DivUnique(pos + size, size, b + 1, 0);
  }

  /** A buffer-sized chunk lies in one block when the block is a whole number of chunks. */
  lemma ChunkInBlock(q: nat, e: nat, k: nat)
    requires e > 0 && k < BUF_SIZE
    ensures BUF_SIZE * e > 0 && (BUF_SIZE * q + k) / (BUF_SIZE * e) == q / e
    ensures (BUF_SIZE * q) % (BUF_SIZE * e) == 0 <==> q % e == 0
  {
    var b, o := q / e, q % e;
    assert q == e * b + o;
    assert BUF_SIZE * q + k == BUF_SIZE * e * b + (BUF_SIZE * o + k);
    DivUnique(BUF_SIZE * q + k, BUF_SIZE * e, b, BUF_SIZE * o + k);
    DivUnique(BUF_SIZE * q, BUF_SIZE * e, b, BUF_SIZE * o);
  }

  lemma NextChunk(q: nat, e: nat)
    requires e > 0 && (q + 1) % e != 0
    ensures (q + 1) / e == q / e
  {
    var b, o := q / e, q % e;
    assert q == e * b + o;
    if o + 1 == e {
      assert q + 1 == e * (b + 1);
      DivUnique(q + 1, e, b + 1, 0);
    } else {
      DivUnique(q + 1, e, b, o + 1);
    }
  }

  lemma BlockFrom(pos: nat, size: nat, k: nat)
    requires size > 0 && pos % size == 0 && k < size
    ensures (pos + k) / size == pos / size
  {
    var b := pos / size;
    assert pos + k == size * b + k;
    DivUnique(pos + k, size, b, k);
  }

  // ---- the reference -------------------------------------------------------------------------

  lemma {:induction false} GoodRun(f: Flash, pos: nat, n: nat, size: int)
    requires Valid(f) && n <= size && pos + n <= |f.data|
    requires forall k :: pos <= k < pos + n ==> !IsBad(f, k)
    ensures GoodPositions(f, pos, size) == Glue(Upto(pos, pos + n), GoodPositions(f, pos + n, size - n))
    decreases n
  {
    var rest := GoodPositions(f, pos + n, size - n);
    if n == 0 {
      assert rest.Some? ==> [] + rest.value == rest.value;
    } else {
      GoodRun(f, pos + 1, n - 1, size - 1);
      GlueGlue([pos], Upto(pos + 1, pos + n), rest);
      hide IsBad;
      assert !IsBad(f, pos);
      assert [pos] + Upto(pos + 1, pos + n) == Upto(pos, pos + n);
    }
  }

  lemma {:induction false} BadRun(f: Flash, pos: nat, n: nat, size: int)
    requires Valid(f) && size > 0 && pos + n <= |f.data|
    requires forall k :: pos <= k < pos + n ==> IsBad(f, k)
    ensures GoodPositions(f, pos, size) == GoodPositions(f, pos + n, size)
    decreases n
  {
    if n > 0 {
      assert IsBad(f, pos);
      BadRun(f, pos + 1, n - 1, size);
    }
  }

  lemma {:induction false} GoodInside(f: Flash, pos: nat, size: int)
    requires Valid(f)
    ensures GoodPositions(f, pos, size).Some? && size > 0 ==> pos + size <= |f.data|
    decreases |f.data| - pos
  {
    if size > 0 && pos < |f.data| {
      GoodInside(f, pos + 1, if IsBad(f, pos) then size else size - 1);
    }
  }

  /** Skipping bad blocks loses nothing good. */
  lemma {:induction false} SkipKeepsGood(f: Flash, pos: nat, size: int)
    requires Valid(f) && size > 0
    ensures var at := SkipBad(f, pos);
            GoodPositions(f, pos, size) == if at.None? then None else GoodPositions(f, at.value, size)
    decreases |f.data| - pos
  {
    if Boundary(f, pos) && IsBad(f, pos) {
      var n := Min(f.eraseSize, |f.data| - pos);
      forall k | pos <= k < pos + n ensures IsBad(f, k) {
        BlockFrom(pos, f.eraseSize, k - pos);
      }
      BadRun(f, pos, n, size);
      if pos + f.eraseSize <= |f.data| {
        SkipKeepsGood(f, pos + f.eraseSize, size);
      }
    }
  }

  /** Blocks are whole numbers of chunks. */
  predicate Chunked(f: Flash) {
    f.eraseSize > 0 && f.eraseSize % 8192 == 0
  }

  /** Where the loader may start: at a chunk, and not in the middle of a bad block. */
  predicate Startable(f: Flash, pos: nat)
    requires Valid(f)
  {
    pos % BUF_SIZE == 0 && (Boundary(f, pos) || !IsBad(f, pos))
  }

  lemma {:induction false} SkipStartable(f: Flash, pos: nat)
    requires Chunked(f) && Startable(f, pos)
    ensures SkipBad(f, pos).Some? ==> SkipBad(f, pos).value % BUF_SIZE == 0 && !IsBad(f, SkipBad(f, pos).value)
    decreases |f.data| - pos
  {
    if Boundary(f, pos) && IsBad(f, pos) && pos + f.eraseSize <= |f.data| {
      BlockStartable(f, pos);
      SkipStartable(f, pos + f.eraseSize);
    }
  }

  lemma BlockStartable(f: Flash, pos: nat)
    requires Chunked(f) && Startable(f, pos) && Boundary(f, pos)
    ensures Startable(f, pos + f.eraseSize)
  {
    hide IsBad;
    NextBoundary(pos, f.eraseSize);
    var e, q := f.eraseSize / BUF_SIZE, pos / BUF_SIZE;
    assert pos + f.eraseSize == BUF_SIZE * (q + e);
  }

  /** A chunk that begins in a good block is good, and the loader can go on behind it. */
  lemma ChunkGood(f: Flash, pos: nat)
    requires Chunked(f) && pos % BUF_SIZE == 0 && !IsBad(f, pos) && pos < |f.data|
    ensures forall k :: pos <= k < pos + BUF_SIZE ==> !IsBad(f, k)
    ensures Startable(f, pos + BUF_SIZE)
  {
    var e, q := f.eraseSize / BUF_SIZE, pos / BUF_SIZE;
    assert f.eraseSize == BUF_SIZE * e && pos == BUF_SIZE * q && pos + BUF_SIZE == BUF_SIZE * (q + 1);
    ChunkInBlock(q, e, 0);
    forall k | pos <= k < pos + BUF_SIZE ensures !IsBad(f, k) {
      ChunkInBlock(q, e, k - pos);
    }
    ChunkInBlock(q + 1, e, 0);
    if (q + 1) % e != 0 {
      NextChunk(q, e);
    }
  }

  lemma {:induction false} LoadedIsGood(f: Flash, pos: nat, size: int)
    requires Chunked(f) && Startable(f, pos)
    ensures Loaded(f, pos, size) == GoodPositions(f, pos, size)
    decreases size
  {
    hide Loaded, GoodPositions, SkipBad, IsBad, Upto, Boundary;
    if size <= 0 {
      LoadedNothing(f, pos, size);
      GoodNothing(f, pos, size);
    } else {
      LoadedStep(f, pos, size);
      SkipKeepsGood(f, pos, size);
      SkipStartable(f, pos);
      if SkipBad(f, pos).Some? {
        var at, n := SkipBad(f, pos).value, Min(size, BUF_SIZE);
        GoodInside(f, at, size);
        if at + n <= |f.data| {
          ChunkGood(f, at);
          GoodRun(f, at, n, size);
          if n < size {
            LoadedIsGood(f, at + n, size - n);
          } else {
            LoadedNothing(f, at + n, size - n);
            GoodNothing(f, at + n, size - n);
          }
        }
      }
    }
  }

  lemma GoodNothing(f: Flash, pos: nat, size: int)
    requires Valid(f) && size <= 0
    ensures GoodPositions(f, pos, size) == Some([])
  {
  }

  /** When the blocks are whole numbers of chunks and the start is a chunk, a successful load has copied
      exactly the first `size` good bytes from the start on if and only if it did not start in
      the middle of a bad block. From such a start it succeeds whenever there are enough. */
  lemma LoadsGood(f: Flash, pos: nat, size: int)
    requires Chunked(f) && pos % BUF_SIZE == 0
    ensures Startable(f, pos) ==> Loaded(f, pos, size) == GoodPositions(f, pos, size)
    ensures size > 0 && Loaded(f, pos, size).Some? ==>
              (Loaded(f, pos, size) == GoodPositions(f, pos, size) <==> Startable(f, pos))
  {
    if Startable(f, pos) {
      LoadedIsGood(f, pos, size);
    } else if size > 0 && Loaded(f, pos, size).Some? {
      assert Loaded(f, pos, size).value[0] == pos;
      GoodNotBad(f, pos, size);
    }
  }

  /** So whatever a load leaves in the sink, also when it fails, are the first good bytes from its start
      on, in order. */
  lemma SinkGood(f: Flash, pos: nat, size: int, room: nat)
    requires Chunked(f) && Startable(f, pos)
    ensures var places := Sunk(f, pos, size, room); GoodPositions(f, pos, |places|) == Some(places)
  {
    hide Took, Loaded, GoodPositions, Startable;
    var took := Took(f, pos, size);
    if size <= 0 || pos > |f.data| {
      TookNothing(f, pos, 0);
      if size <= 0 {
        TookNothing(f, pos, size);
      }
      GoodNothing(f, pos, 0);
    } else {
      TookLoaded(f, pos, size);
      LoadedIsGood(f, pos, |took|);
      GoodPrefix(f, pos, |took|, Min(room, |took|));
    }
  }

  lemma {:induction false} GoodPrefix(f: Flash, pos: nat, size: nat, k: nat)
    requires Valid(f) && k <= size && GoodPositions(f, pos, size).Some?
    ensures var r := GoodPositions(f, pos, size).value; |r| == size && GoodPositions(f, pos, k) == Some(r[..k])
    decreases |f.data| - pos
  {
    hide IsBad;
    if size > 0 {
      if IsBad(f, pos) {
        GoodPrefix(f, pos + 1, size, k);
      } else {
        GoodPrefix(f, pos + 1, size - 1, if k > 0 then k - 1 else 0);
        var r := GoodPositions(f, pos + 1, size - 1).value;
        assert k > 0 ==> ([pos] + r)[..k] == [pos] + r[..k - 1];
      }
    }
  }

  lemma {:induction false} GoodNotBad(f: Flash, pos: nat, size: int)
    requires Valid(f) && size > 0
    ensures var r := GoodPositions(f, pos, size); r.Some? ==> |r.value| > 0 && !IsBad(f, r.value[0])
    decreases |f.data| - pos
  {
    if pos < |f.data| && IsBad(f, pos) {
      GoodNotBad(f, pos + 1, size);
    }
  }

  // ---- the block size -------------------------------------------------------------------------

  /** Every successful load that starts at a block boundary is right, whatever the bad blocks. */
  ghost predicate AlwaysGood(eraseSize: nat)
    requires eraseSize > 0
  {
    forall f: Flash, pos: nat, size: int | f.eraseSize == eraseSize && pos % eraseSize == 0 && Loaded(f, pos, size).Some? ::
      Loaded(f, pos, size) == GoodPositions(f, pos, size)
  }

  /** Without a block boundary at a chunk, the loader copies straight ahead. */
  lemma {:induction false} Straight(f: Flash, pos: nat, size: int)
    requires Valid(f) && size > 0 && pos + size <= |f.data| && AtChunk(pos)
    requires pos + size == f.eraseSize + 1 && !AtChunk(f.eraseSize) && f.bad == {1}
    ensures Loaded(f, pos, size) == Some(Upto(pos, pos + size))
    decreases size
  {
    hide SkipBad, Loaded, Upto, AtChunk;
    var n := Min(size, BUF_SIZE);
    NoSkip(f, pos);
    LoadedStep(f, pos, size);
    if n < size {
      AtNextChunk(pos);
      Straight(f, pos + n, size - n);
    } else {
      LoadedNothing(f, pos + n, size - n);
      UptoNone(pos + n);
    }
    UptoSplits(pos, pos + n, pos + size);
  }

  predicate AtChunk(pos: nat) {
    pos % BUF_SIZE == 0
  }

  lemma AtNextChunk(pos: nat)
    requires AtChunk(pos)
    ensures AtChunk(pos + BUF_SIZE)
  {
  }

  lemma UptoNone(a: nat)
    ensures Upto(a, a) == []
  {
  }

  lemma NoSkip(f: Flash, pos: nat)
    requires Valid(f) && pos < f.eraseSize && f.bad == {1}
    ensures SkipBad(f, pos) == Some(pos)
  {
    DivUnique(pos, f.eraseSize, 0, pos);
  }

  lemma UptoSplits(a: nat, b: nat, c: nat)
    requires a <= b <= c
    ensures Upto(a, b) + Upto(b, c) == Upto(a, c)
  {
  }

  lemma CrossesBlock(eraseSize: nat, data: seq<u8>)
    requires eraseSize > 0 && eraseSize % BUF_SIZE != 0 && |data| == eraseSize + 1
    ensures !AlwaysGood(eraseSize)
  {
    var f := Flash(data, eraseSize, {1});
    Straight(f, 0, eraseSize + 1);
    DivUnique(eraseSize, eraseSize, 1, 0);
    assert IsBad(f, eraseSize);
    GoodTooFew(f, 0, eraseSize + 1);
  }

  lemma {:induction false} GoodTooFew(f: Flash, pos: nat, size: int)
    requires Valid(f) && pos < |f.data| && pos + size == |f.data| && IsBad(f, |f.data| - 1)
    ensures GoodPositions(f, pos, size) == None
    decreases |f.data| - pos
  {
    if pos < |f.data| - 1 {
      if IsBad(f, pos) {
        GoodInside(f, pos + 1, size);
      } else {
        GoodTooFew(f, pos + 1, size - 1);
      }
    }
  }

  function Zeros(n: nat): (s: seq<u8>)
    ensures |s| == n
  {
    if n == 0 then [] else [0] + Zeros(n - 1)
  }

  /** The loader is right for every pattern of bad blocks if and only if the erase size is a multiple of
      its buffer's. */
  lemma AlwaysGoodIff(eraseSize: nat)
    requires eraseSize > 0
    ensures AlwaysGood(eraseSize) <==> eraseSize % 8192 == 0
  {
    if eraseSize % BUF_SIZE != 0 {
      CrossesBlock(eraseSize, Zeros(eraseSize + 1));
    } else {
      forall f: Flash, pos: nat, size: int | f.eraseSize == eraseSize && pos % eraseSize == 0 && Loaded(f, pos, size).Some?
        ensures Loaded(f, pos, size) == GoodPositions(f, pos, size)
      {
        BoundaryIsChunk(pos, eraseSize);
        LoadedIsGood(f, pos, size);
      }
    }
  }

  lemma BoundaryIsChunk(pos: nat, size: nat)
    requires size > 0 && pos % size == 0 && size % BUF_SIZE == 0
    ensures pos % BUF_SIZE == 0
  {
    var b, e := pos / size, size / BUF_SIZE;
    assert pos == BUF_SIZE * (e * b) by {
      assert pos == size * b && size == BUF_SIZE * e;
    }
  }
}
