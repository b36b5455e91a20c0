/** Packet layer of the NV-item daemon: group and sub-index sequencing. */
module NvPacket {
  import opened Words

  const HEADER_SIZE: nat := 20
  const MAGIC: u32 := 0x524d4e56

  /** One channel read: at most a header and 1024 bytes of body. */
  type Raw = r: seq<u8> | |r| <= 1044

  /** `_idxGrp` and `_idxSub`. */
  datatype Sequencer = Sequencer(grp: u32, sub: u32)

  const INITIAL: Sequencer := Sequencer(0xFFFF_FFFF, 0)

  /** What `_getPacket` reports. `Undefined` stands for a size field whose
      32-bit sum with the header size wraps, so that the C code would read past
      the receive buffer. */
  datatype Verdict = Skip | Start(body: seq<u8>) | Continue(body: seq<u8>) | Undefined

  predicate HasHeader(raw: Raw) {
    |raw| >= HEADER_SIZE && Word32(raw, 0) == MAGIC
  }

  function Group(raw: Raw): u32
    requires HasHeader(raw)
  {
    Word32(raw, 8)
  }

  function Sub(raw: Raw): u32
    requires HasHeader(raw)
  {
    Word32(raw, 12)
  }

  function Size(raw: Raw): u32
    requires HasHeader(raw)
  {
    Word32(raw, 16)
  }

  /** `raw` is a complete packet: header, magic number and a body of the announced size. */
  predicate IsPacket(raw: Raw) {
    HasHeader(raw) && HEADER_SIZE + Size(raw) <= |raw|
  }

  function Payload(raw: Raw): seq<u8>
    requires IsPacket(raw)
  {
    raw[HEADER_SIZE..HEADER_SIZE + Size(raw)]
  }

  /** `_getPacket` after a successful channel read of the bytes `raw`. */
  function Classify(q: Sequencer, raw: Raw): Verdict {
    if |raw| < HEADER_SIZE then Skip
    else if Word32(raw, 0) != MAGIC then Skip
    else if |raw| < (HEADER_SIZE + Size(raw)) % 0x1_0000_0000 then Skip
    else if HEADER_SIZE + Size(raw) > |raw| then Undefined
    else if q.grp == Group(raw) then
      if Inc32(q.sub) == Sub(raw) then Continue(Payload(raw)) else Skip
    else if Sub(raw) == 0 then Start(Payload(raw))
    else Skip
  }

  function Advance(q: Sequencer, raw: Raw): Sequencer {
    match Classify(q, raw)
    case Continue(_) => q.(sub := Inc32(q.sub))
    case Start(_) => Sequencer(Group(raw), 0)
    case _ => q
  }

  /** Exactly the complete packets that open a new group at sub-index 0 or carry the next
      sub-index of the open group are accepted, with their body; everything else, repeated
      and out-of-order packets included, leaves the sequencer as it was. */
  lemma AcceptedInOrder(q: Sequencer, raw: Raw)
    ensures var v, q' := Classify(q, raw), Advance(q, raw);
            && (v.Start? <==> IsPacket(raw) && Group(raw) != q.grp && Sub(raw) == 0)
            && (v.Continue? <==> IsPacket(raw) && Group(raw) == q.grp && Sub(raw) == Inc32(q.sub))
            && (v.Undefined? <==> HasHeader(raw) && Size(raw) >= 0x1_0000_0000 - HEADER_SIZE)
            && (v.Start? || v.Continue? ==> v.body == Payload(raw) && q' == Sequencer(Group(raw), Sub(raw)))
            && (v.Skip? || v.Undefined? ==> q' == q)
  {
    if HasHeader(raw) {
      var total := HEADER_SIZE + Size(raw);
      assert total % 0x1_0000_0000 == if total < 0x1_0000_0000 then total else total - 0x1_0000_0000;
    }
  }

  /** The file-scope state of nvitem_packet.c. */
  class PacketReader {
    var idxGrp: u32
    var idxSub: u32

    function View(): Sequencer
      reads this
    {
      Sequencer(idxGrp, idxSub)
    }

    /** `_initPacket` */
    constructor ()
      ensures View() == INITIAL
    {
      idxGrp := 0xFFFF_FFFF;
      idxSub := 0;
    }

    /** `_initPacket` when the channel has been opened again. */
    method Init()
      modifies this
      ensures View() == INITIAL
    {
      idxGrp := 0xFFFF_FFFF;
      idxSub := 0;
    }

    /** `_getPacket` once the channel has delivered `raw`. */
    method GetPacket(raw: Raw) returns (v: Verdict)
      modifies this
      ensures v == Classify(old(View()), raw) && View() == Advance(old(View()), raw)
    {
      if |raw| < HEADER_SIZE { return Skip; }
      if Word32(raw, 0) != MAGIC { return Skip; }
      if |raw| < (HEADER_SIZE + Size(raw)) % 0x1_0000_0000 { return Skip; }
      if HEADER_SIZE + Size(raw) > |raw| { return Undefined; }
      if idxGrp == Group(raw) {
        if Inc32(idxSub) == Sub(raw) {
          idxSub := Inc32(idxSub);
          return Continue(Payload(raw));
        }
        return Skip;
      }
      if Sub(raw) == 0 {
        idxGrp := Group(raw);
        idxSub := 0;
        return Start(Payload(raw));
      }
      return Skip;
    }
  }
}
