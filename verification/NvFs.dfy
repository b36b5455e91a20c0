/** Dual-copy storage of one NV partition: an origin and a backup file, each a header and a payload. */
module NvFs {
  import opened Words
  import opened Checksum

  const HEAD: nat := 512
  const MAGIC: u32 := 0x0000_4e56
  const VERSION: u32 := 101

  /** `None` is a file that cannot be opened. */
  type File = Option<seq<u8>>

  datatype Disk = Disk(origin: File, bak: File)

  function Filled(size: nat, x: u8): (s: seq<u8>)
    ensures |s| == size
  {
    seq(size, _ => x)
  }

  function Header(payload: seq<u8>): (h: seq<u8>)
    ensures |h| == HEAD && Word32(h, 8) == Checksum32(payload)
  {
    var h := Bytes32(MAGIC) + Bytes32(|payload| % 0x1_0000_0000) + Bytes32(Checksum32(payload)) + Bytes32(VERSION)
             + Filled(HEAD - 16, 0);
    assert h[8..12] == Bytes32(Checksum32(payload));
    h
  }

  /** A complete file for `payload`. */
  function Copy(payload: seq<u8>): seq<u8> {
    Header(payload) + payload
  }

  /** `_chkNVEcc` on a header and a payload; the 32-bit field is passed as 16 bits. */
  predicate EccOk(header: seq<u8>, payload: seq<u8>)
    requires |header| == HEAD
  {
    Checksum32(payload) == Word32(header, 8) % 0x1_0000
  }

  /** Reading `f` yields a full header, a full payload and a matching checksum. */
  predicate CopyValid(f: File, size: nat) {
    f.Some? && |f.value| >= HEAD + size && EccOk(f.value[..HEAD], f.value[HEAD..HEAD + size])
  }

  function Payload(f: File, size: nat): seq<u8>
    requires CopyValid(f, size)
  {
    f.value[HEAD..HEAD + size]
  }

  /** How many payload bytes a `read` of `size` bytes behind the header returns. */
  function ReadLen(f: File, size: nat): nat {
    if f.None? || |f.value| < HEAD then 0 else Min(size, |f.value| - HEAD)
  }

  /** The buffer after `memset(buf, 0xFF, size)` and that `read`. */
  function ReadBuf(f: File, size: nat): (b: seq<u8>)
    ensures |b| == size
  {
    var n := ReadLen(f, size);
    if f.None? || |f.value| < HEAD then Filled(size, 0xFF) else f.value[HEAD..HEAD + n] + Filled(size - n, 0xFF)
  }

  /** The file that a read tries first, and the other. */
  function First(d: Disk, originFirst: bool): File {
    if originFirst then d.origin else d.bak
  }

  function Second(d: Disk, originFirst: bool): File {
    if originFirst then d.bak else d.origin
  }

  function SetFirst(d: Disk, originFirst: bool, f: File): Disk {
    if originFirst then d.(origin := f) else d.(bak := f)
  }

  /** The image that `ramDisk_Read` hands to its caller. */
  function Found(d: Disk, size: nat, originFirst: bool): (image: seq<u8>)
    ensures |image| == size
  {
    var first := First(d, originFirst);
    if CopyValid(first, size) then Payload(first, size) else ReadBuf(Second(d, originFirst), size)
  }

  /** The header that `ramDisk_Read` writes over the first file, in front of the image it has found; `None`
      when it leaves that file alone. When the second file does not open, `ret2` still holds the
      length read from the first one and the header is all zeros. */
  function Repair(d: Disk, size: nat, originFirst: bool): (header: Option<seq<u8>>)
    ensures header.Some? ==> |header.value| == HEAD && EccOk(header.value, Found(d, size, originFirst))
  {
    var first, second := First(d, originFirst), Second(d, originFirst);
    var header := if second.Some? && |second.value| >= HEAD then second.value[..HEAD] else Filled(HEAD, 0);
    var ret2 := ReadLen(if second.Some? then second else first, size);
    if CopyValid(first, size) || (second.Some? && |second.value| < HEAD) || ret2 != size then None
    else if EccOk(header, ReadBuf(second, size)) then Some(header)
    else None
  }

  /** What happens to one file that is written: it does not open, or that many bytes of the header and of
      the payload get written after the truncation. */
  datatype Io = OpenFails | Writes(head: nat, body: nat)

  function Rewrite(prev: File, header: seq<u8>, payload: seq<u8>, io: Io): File
    requires |header| == HEAD
  {
    match io
    case OpenFails => prev
    case Writes(h, b) => Some(header[..Min(h, HEAD)] + payload[..Min(b, |payload|)])
  }

  /** `ramDisk_Read`, in the order chosen by `originFirst`; `io` is what becomes of the repair. */
  function Read(d: Disk, size: nat, originFirst: bool, io: Io): (r: (Disk, seq<u8>))
    ensures |r.1| == size
  {
    var header, image := Repair(d, size, originFirst), Found(d, size, originFirst);
    (if header.None? then d
     else SetFirst(d, originFirst, Rewrite(First(d, originFirst), header.value, image, io)),
     image)
  }

  function Put(prev: File, payload: seq<u8>, io: Io): File {
    Rewrite(prev, Header(payload), payload, io)
  }

  /** Whether `ramDisk_Write` keeps `ret` at 1 for this file. */
  predicate Reported(io: Io, size: nat) {
    io.Writes? ==> io.head >= HEAD && io.body >= size
  }

  /** `ramDisk_Write`: the backup file, then the origin file. */
  function Write(d: Disk, payload: seq<u8>, bak: Io, origin: Io): (Disk, bool) {
    (Disk(Put(d.origin, payload, origin), Put(d.bak, payload, bak)),
     Reported(bak, |payload|) && Reported(origin, |payload|))
  }

  /** What is written for an image: "NV", its size, its checksum and the version in the first four words, zeros up to
      byte 512, and the image behind them. */
  lemma CopyWords(payload: seq<u8>)
    ensures var f := Copy(payload);
            && |f| == 512 + |payload| && f[512..] == payload
            && Word32(f, 0) == 0x4e56 && Word32(f, 4) == |payload| % 0x1_0000_0000
            && Word32(f, 8) == Checksum32(payload) && Word32(f, 12) == 101
            && forall k :: 16 <= k < 512 ==> f[k] == 0
  {
    hide Bytes32, Word32, Checksum32;
    var f := Copy(payload);
    WordAt([], MAGIC, f[4..]);
    WordAt(f[..4], |payload| % 0x1_0000_0000, f[8..]);
    WordAt(f[..8], Checksum32(payload), f[12..]);
    WordAt(f[..12], VERSION, f[16..]);
    assert f == [] + Bytes32(MAGIC) + f[4..] == f[..4] + Bytes32(|payload| % 0x1_0000_0000) + f[8..];
    assert f == f[..8] + Bytes32(Checksum32(payload)) + f[12..] == f[..12] + Bytes32(VERSION) + f[16..];
  }

  /** Which files are valid, byte by byte: those that reach to the end of the payload and have its checksum in bytes 8
      and 9, the low one first. Nothing else in the first 512 bytes counts, not even the upper half of the
      checksum field. */
  lemma ValidIff(file: seq<u8>, size: nat)
    ensures CopyValid(Some(file), size) <==>
              |file| >= 512 + size && file[8] as int + 0x100 * file[9] as int == Checksum32(file[512..512 + size])
  {
    hide Checksum32;
    if |file| >= 512 + size {
      var head := file[..HEAD];
      var w := head[8] as int + 0x100 * head[9] as int;
      assert Word32(head, 8) == w + 0x1_0000 * (head[10] as int + 0x100 * head[11] as int);
      assert Word32(head, 8) % 0x1_0000 == w;
    }
  }

  /** Only the complete file is valid; every proper prefix left by a crash is not. */
  lemma PrefixValidity(payload: seq<u8>, cut: nat)
    requires cut <= |Copy(payload)|
    ensures var f := Some(Copy(payload)[..cut]);
            && (CopyValid(f, |payload|) <==> cut == |Copy(payload)|)
            && (CopyValid(f, |payload|) ==> Payload(f, |payload|) == payload)
  {
    hide Header, EccOk;
    var c := Copy(payload);
    if cut == |c| {
      assert c[..cut] == c && c[..HEAD] == Header(payload) && c[HEAD..HEAD + |payload|] == payload;
      OwnHeader(payload);
    }
  }

  lemma OwnHeader(payload: seq<u8>)
    ensures EccOk(Header(payload), payload)
  {
    hide Header, Checksum32, Word32;
  }

  /** A file whose header or payload was cut short is not valid, a whole one is if its header is right. */
  lemma RewriteValidity(prev: File, header: seq<u8>, payload: seq<u8>, io: Io)
    requires io.Writes? && |header| == HEAD
    ensures var f := Rewrite(prev, header, payload, io);
            && (CopyValid(f, |payload|) <==> Reported(io, |payload|) && EccOk(header, payload))
            && (CopyValid(f, |payload|) ==> Payload(f, |payload|) == payload)
  {
    hide EccOk;
    var f := Rewrite(prev, header, payload, io).value;
    if Reported(io, |payload|) {
      assert f == header + payload && f[..HEAD] == header && f[HEAD..HEAD + |payload|] == payload;
    }
  }

  lemma PutValidity(prev: File, payload: seq<u8>, io: Io)
    requires io.Writes?
    ensures var f := Put(prev, payload, io);
            && (CopyValid(f, |payload|) <==> Reported(io, |payload|))
            && (CopyValid(f, |payload|) ==> Payload(f, |payload|) == payload)
  {
    hide EccOk, Header, Rewrite;
    OwnHeader(payload);
    RewriteValidity(prev, Header(payload), payload, io);
  }

  ghost predicate HasValid(d: Disk, size: nat) {
    CopyValid(d.origin, size) || CopyValid(d.bak, size)
  }

  /** The image the documented origin-first order finds. */
  ghost function Stored(d: Disk, size: nat): seq<u8>
    requires HasValid(d, size)
  {
    if CopyValid(d.origin, size) then Payload(d.origin, size) else Payload(d.bak, size)
  }

  /** The points at which a crash can stop `ramDisk_Write`; `cut` bytes of the file have reached the disk. */
  datatype CrashPoint = BeforeBak | InBak(cut: nat) | InOrigin(cut: nat)

  function AtCrash(d: Disk, payload: seq<u8>, c: CrashPoint): Disk {
    var whole := Copy(payload);
    match c
    case BeforeBak => d
    case InBak(cut) => d.(bak := Some(whole[..Min(cut, |whole|)]))
    case InOrigin(cut) => Disk(Some(whole[..Min(cut, |whole|)]), Some(whole))
  }

  lemma CrashedWrite(d: Disk, payload: seq<u8>, c: CrashPoint)
    requires CopyValid(d.origin, |payload|)
    ensures HasValid(AtCrash(d, payload, c), |payload|)
    ensures Stored(AtCrash(d, payload, c), |payload|) in {Payload(d.origin, |payload|), payload}
  {
    var whole := Copy(payload);
    PrefixValidity(payload, |whole|);
    assert whole[..|whole|] == whole;
    if c.InOrigin? { PrefixValidity(payload, Min(c.cut, |whole|)); }
  }

  /** A write survives a crash at every point exactly when the origin copy is valid when it starts. */
  lemma WriteCrashSafe(d: Disk, payload: seq<u8>)
    ensures (forall c :: HasValid(AtCrash(d, payload, c), |payload|)) <==> CopyValid(d.origin, |payload|)
  {
    if CopyValid(d.origin, |payload|) {
      forall c ensures HasValid(AtCrash(d, payload, c), |payload|) { CrashedWrite(d, payload, c); }
    } else {
      assert !HasValid(AtCrash(d, payload, InBak(0)), |payload|);
    }
  }

  /** What is read when a copy is valid: the payload of the file tried first if that is valid, and otherwise that
      of the other one, which is then copied over it. */
  lemma FoundValid(d: Disk, size: nat, originFirst: bool)
    requires HasValid(d, size)
    ensures var first, second := First(d, originFirst), Second(d, originFirst);
            && Found(d, size, originFirst) == (if CopyValid(first, size) then Payload(first, size) else Payload(second, size))
            && Repair(d, size, originFirst) == (if CopyValid(first, size) then None else Some(second.value[..HEAD]))
  {
    var first, second := First(d, originFirst), Second(d, originFirst);
    if !CopyValid(first, size) {
      assert ReadBuf(second, size) == second.value[HEAD..HEAD + size];
    }
  }

  /** Without a valid copy, the read yields what it got from the second file; it changes a file exactly if
      the second one does not open, the first one is long enough, and a zero is the checksum
      of an image of 0xFF: the first file then becomes a zero header and such an image. */
  lemma BlindRepair(d: Disk, size: nat, originFirst: bool)
    requires !HasValid(d, size)
    ensures var first, second := First(d, originFirst), Second(d, originFirst);
            && Found(d, size, originFirst) == ReadBuf(second, size)
            && (Repair(d, size, originFirst).Some? <==>
                  second.None? && first.Some? && |first.value| >= HEAD + size && Checksum32(Filled(size, 0xFF)) == 0)
            && (Repair(d, size, originFirst).Some? ==>
                  Repair(d, size, originFirst).value == Filled(HEAD, 0) && Found(d, size, originFirst) == Filled(size, 0xFF))
  {
    hide Checksum32;
    var first, second := First(d, originFirst), Second(d, originFirst);
    assert Word32(Filled(HEAD, 0), 8) == 0;
    EmptyChecksum(size);
    if second.Some? && |second.value| >= HEAD + size {
      assert ReadBuf(second, size) == second.value[HEAD..HEAD + size];
    }
  }

  /** Byte `k` behind the header of a file that opens and reaches that far, and 0xFF otherwise. */
  function ByteOr(f: File, k: nat): u8 {
    if f.Some? && HEAD + k < |f.value| then f.value[HEAD + k] else 0xFF
  }

  /** What is read, byte by byte, whatever the files hold: the first file if that is valid, and otherwise the
      second one as far as it reaches, filled up with 0xFF. */
  lemma FoundBytes(d: Disk, size: nat, originFirst: bool, k: nat)
    requires k < size
    ensures var first, second := First(d, originFirst), Second(d, originFirst);
            Found(d, size, originFirst)[k] == if CopyValid(first, size) then first.value[HEAD + k] else ByteOr(second, k)
  {
    hide EccOk;
  }

  lemma EmptyChecksum(size: nat)
    ensures size == 0 ==> Checksum32(Filled(size, 0xFF)) != 0
  {
    if size == 0 {
      assert Filled(size, 0xFF) == [];
      assert RawSum([]) == 0;
    }
  }

  lemma {:induction false} BlankSum(size: nat)
    ensures OnesSum(Filled(size, 0xFF)) == if size == 0 then 0 else if size % 2 == 0 then 0xFFFF else 0xFF
    decreases size
  {
    var s := Filled(size, 0xFF);
    if size >= 2 {
      assert s[2..] == Filled(size - 2, 0xFF);
      BlankSum(size - 2);
    }
  }

  /** Zero is the checksum of such an image for every even size up to 131074. */
  lemma BlankChecksum(size: nat)
    requires size <= 131074
    ensures Checksum32(Filled(size, 0xFF)) == 0 <==> size > 0 && size % 2 == 0
  {
    hide Checksum32, RawSum, OnesSum, Filled;
    BlankSum(size);
    ChecksumExact(Filled(size, 0xFF));
  }

  /** Reading finds a valid copy whatever the order, and repairs the copy it tried first unless that
      repair is cut short; the other copy stays as it is. */
  lemma ReadRepairs(d: Disk, size: nat, originFirst: bool, io: Io)
    requires HasValid(d, size)
    ensures var (d', image) := Read(d, size, originFirst, io);
            var first, first' := First(d, originFirst), First(d', originFirst);
            && Second(d', originFirst) == Second(d, originFirst)
            && (CopyValid(first, size) ==> d' == d && image == Payload(first, size))
            && (!CopyValid(first, size) ==> image == Payload(Second(d, originFirst), size)
                                             && (CopyValid(first', size) <==> io.Writes? && Reported(io, size)))
            && (CopyValid(first', size) ==> Payload(first', size) == image)
  {
    hide Repair, Found, Rewrite, EccOk;
    FoundValid(d, size, originFirst);
    if !CopyValid(First(d, originFirst), size) && io.Writes? {
      var header, image := Repair(d, size, originFirst).value, Found(d, size, originFirst);
      RewriteValidity(First(d, originFirst), header, image, io);
    }
    if !CopyValid(First(d, originFirst), size) && io.OpenFails? {
      RewriteFails(First(d, originFirst), Repair(d, size, originFirst).value, Found(d, size, originFirst));
    }
  }

  lemma RewriteFails(prev: File, header: seq<u8>, payload: seq<u8>)
    requires |header| == HEAD
    ensures Rewrite(prev, header, payload, OpenFails) == prev
  {
  }

  /** The origin copy is valid, and the backup copy is not valid or holds the same payload. */
  ghost predicate Harmless(d: Disk, size: nat) {
    CopyValid(d.origin, size) && (CopyValid(d.bak, size) ==> Payload(d.bak, size) == Payload(d.origin, size))
  }

  /** Trying the backup file first does what the documented order does - it gives the image that order
      finds, and leaves the origin copy valid - exactly when the disk is harmless. */
  lemma BakFirstHarmless(d: Disk, size: nat, io: Io)
    requires HasValid(d, size)
    ensures var (d', image) := Read(d, size, false, io);
            CopyValid(d'.origin, size) && image == Stored(d, size) <==> Harmless(d, size)
  {
    hide Read, CopyValid;
    ReadRepairs(d, size, false, io);
  }

  /** A read that is in the documented order, or harmless, gives the stored image and keeps it stored;
      unless a repair of the origin file is cut short, in a valid origin copy. */
  lemma ReadSettles(d: Disk, size: nat, originFirst: bool, io: Io)
    requires HasValid(d, size) && (originFirst || Harmless(d, size))
    ensures var (d', image) := Read(d, size, originFirst, io);
            && HasValid(d', size) && image == Stored(d, size) == Stored(d', size)
            && (CopyValid(d.origin, size) || (io.Writes? && Reported(io, size)) ==> CopyValid(d'.origin, size))
  {
    hide Read, CopyValid;
    ReadRepairs(d, size, originFirst, io);
  }

  /** After a crash anywhere in a write, a read returns the old or the new payload: always when
      it tries the origin file first; when it tries the backup file first, exactly if that file
      did not already hold some third payload. */
  lemma ReadAfterCrash(d: Disk, payload: seq<u8>, originFirst: bool)
    requires CopyValid(d.origin, |payload|)
    ensures (forall c :: Found(AtCrash(d, payload, c), |payload|, originFirst) in {Payload(d.origin, |payload|), payload})
            <==> (originFirst || !CopyValid(d.bak, |payload|)
                  || Payload(d.bak, |payload|) in {Payload(d.origin, |payload|), payload})
  {
    var n := |payload|;
    forall c
      ensures HasValid(AtCrash(d, payload, c), n)
      ensures originFirst || !c.BeforeBak? ==> Found(AtCrash(d, payload, c), n, originFirst) in {Payload(d.origin, n), payload}
    {
      FoundAfterCrash(d, payload, c, originFirst);
    }
    FoundValid(d, n, originFirst);
    assert AtCrash(d, payload, BeforeBak) == d;
  }

  lemma FoundAfterCrash(d: Disk, payload: seq<u8>, c: CrashPoint, originFirst: bool)
    requires CopyValid(d.origin, |payload|)
    ensures var d' := AtCrash(d, payload, c);
            && HasValid(d', |payload|)
            && (originFirst || !c.BeforeBak? ==> Found(d', |payload|, originFirst) in {Payload(d.origin, |payload|), payload})
  {
    hide Found, Repair;
    var whole := Copy(payload);
    CrashedWrite(d, payload, c);
    FoundValid(AtCrash(d, payload, c), |payload|, originFirst);
    PrefixValidity(payload, |whole|);
    assert whole[..|whole|] == whole;
    if !c.BeforeBak? { PrefixValidity(payload, Min(c.cut, |whole|)); }
  }

  /** The disk holds `payload` for the documented order. */
  ghost predicate Holds(d: Disk, payload: seq<u8>) {
    HasValid(d, |payload|) && Stored(d, |payload|) == payload
  }

  /** A write that reports success has stored its payload exactly if the origin file opened, or holds the
      payload already, or is not valid while the backup file opened or holds the payload already: a
      file that does not open is not reported. */
  lemma ReportedIsStored(d: Disk, payload: seq<u8>, bak: Io, origin: Io)
    requires Write(d, payload, bak, origin).1
    ensures Holds(Write(d, payload, bak, origin).0, payload) <==>
              origin.Writes?
              || if CopyValid(d.origin, |payload|) then Payload(d.origin, |payload|) == payload
                 else bak.Writes? || (CopyValid(d.bak, |payload|) && Payload(d.bak, |payload|) == payload)
  {
    hide CopyValid;
    PutEither(d.origin, payload, origin);
    PutEither(d.bak, payload, bak);
  }

  lemma PutEither(prev: File, payload: seq<u8>, io: Io)
    ensures io.OpenFails? ==> Put(prev, payload, io) == prev
    ensures io.Writes? ==>
              var f := Put(prev, payload, io);
              (CopyValid(f, |payload|) <==> Reported(io, |payload|))
              && (CopyValid(f, |payload|) ==> Payload(f, |payload|) == payload)
  {
    if io.Writes? { PutValidity(prev, payload, io); }
  }

  /** A write leaves a valid copy exactly if one of the files does not open and was valid, or is written
      whole. */
  lemma FailedWriteKeepsCopy(d: Disk, payload: seq<u8>, bak: Io, origin: Io)
    ensures HasValid(Write(d, payload, bak, origin).0, |payload|)
            <==> (if origin.OpenFails? then CopyValid(d.origin, |payload|) else Reported(origin, |payload|))
                 || if bak.OpenFails? then CopyValid(d.bak, |payload|) else Reported(bak, |payload|)
  {
    hide CopyValid;
    PutEither(d.origin, payload, origin);
    PutEither(d.bak, payload, bak);
  }

  /** With the backup file read first, two crashes can lose both copies: the first one while the
      origin file is written, the second while the backup file is written, with a read in between
      that is satisfied with the backup file and leaves the origin file torn. */
  lemma TwoCrashesBakFirst(d: Disk, p: seq<u8>, q: seq<u8>, io: Io)
    requires |p| == |q|
    ensures var afterCrash := AtCrash(d, p, InOrigin(0));
            var (afterRead, image) := Read(afterCrash, |p|, false, io);
            && image == p && afterRead == afterCrash
            && !HasValid(AtCrash(afterRead, q, InBak(0)), |p|)
  {
    PrefixValidity(p, |Copy(p)|);
    assert Copy(p)[..|Copy(p)|] == Copy(p);
  }
}
