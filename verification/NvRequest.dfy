/** What a request is, independently of how the daemon analyses it: its tokens, its place on
    the wire, and its effect on a partition image. */
module NvRequest {
  import opened Words
  import opened NvBuffer
  import opened NvSync

  /** A body token and the sector data that follows it. */
  datatype Body = Body(tok: seq<u8>, data: seq<u8>)

  datatype Request = Request(head: seq<u8>, bodies: seq<Body>, tail: seq<u8>)

  /** The number a request's `i`-th token after the head must carry. */
  function Numbered(head: seq<u8>, i: nat): u32
    requires |head| == TOKEN
  {
    (ReqIdx(head) + i) % 0x1_0000_0000
  }

  predicate HeadOk(ids: seq<u32>, part: nat, head: seq<u8>) {
    && |head| == TOKEN && Kind(head) == HEAD
    && part < |ids| && ids[part] == PartId(head)
    && forall j :: 0 <= j < part ==> ids[j] != PartId(head)
  }

  predicate TokenOk(tok: seq<u8>, kind: u32, number: u32) {
    |tok| == TOKEN && Kind(tok) == kind && ReqIdx(tok) == number
  }

  predicate BodyOk(b: Body, number: u32) {
    TokenOk(b.tok, BODY, number) && |b.data| == SectorCount(b.tok) * SECTOR
  }

  predicate BodiesOk(head: seq<u8>, bodies: seq<Body>) {
    |head| == TOKEN && forall i :: 0 <= i < |bodies| ==> BodyOk(bodies[i], Numbered(head, i + 1))
  }

  /** Head, bodies and tail, numbered consecutively, for the partition with index `part`. */
  predicate Complete(ids: seq<u32>, part: nat, r: Request) {
    && HeadOk(ids, part, r.head)
    && BodiesOk(r.head, r.bodies)
    && TokenOk(r.tail, TAIL, Numbered(r.head, |r.bodies| + 1))
  }

  function WireBodies(bodies: seq<Body>): seq<u8> {
    if bodies == [] then []
    else WireBodies(bodies[..|bodies| - 1]) + (bodies[|bodies| - 1].tok + bodies[|bodies| - 1].data)
  }

  /** The bytes of a request as the peer sends them. */
  function Wire(r: Request): seq<u8> {
    r.head + WireBodies(r.bodies) + r.tail
  }

  /** `Store`, leaving the image alone when the data does not fit. */
  function StoreAt(image: seq<u8>, pos: nat, data: seq<u8>): (r: seq<u8>)
    ensures |r| == |image|
  {
    if pos + |data| <= |image| then Store(image, pos, data) else image
  }

  function ApplyBody(image: seq<u8>, b: Body): (r: seq<u8>)
    ensures |r| == |image|
  {
    if |b.tok| == TOKEN then StoreAt(image, StartSector(b.tok) * SECTOR, b.data) else image
  }

  /** A partition image after the bodies, in order. */
  function ApplyBodies(image: seq<u8>, bodies: seq<Body>): (r: seq<u8>)
    ensures |r| == |image|
  {
    if bodies == [] then image
    else ApplyBody(ApplyBodies(image, bodies[..|bodies| - 1]), bodies[|bodies| - 1])
  }

  /** The sectors that the bodies announce. */
  function Touched(bodies: seq<Body>): set<nat> {
    if bodies == [] then {}
    else
      var b := bodies[|bodies| - 1];
      Touched(bodies[..|bodies| - 1]) + (if |b.tok| == TOKEN then Sectors(StartSector(b.tok), SectorCount(b.tok)) else {})
  }

  lemma TouchedSnoc(bodies: seq<Body>, b: Body)
    requires |b.tok| == TOKEN
    ensures Touched(bodies + [b]) == Touched(bodies) + Sectors(StartSector(b.tok), SectorCount(b.tok))
  {
    assert (bodies + [b])[..|bodies|] == bodies;
  }

  lemma WireBodiesSnoc(bodies: seq<Body>, b: Body)
    ensures WireBodies(bodies + [b]) == WireBodies(bodies) + b.tok + b.data
  {
    assert (bodies + [b])[..|bodies|] == bodies;
  }

  lemma ApplyBodiesSnoc(image: seq<u8>, bodies: seq<Body>, b: Body)
    ensures ApplyBodies(image, bodies + [b]) == ApplyBody(ApplyBodies(image, bodies), b)
  {
    assert (bodies + [b])[..|bodies|] == bodies;
  }

  lemma NumberedNext(head: seq<u8>, i: nat)
    requires |head| == TOKEN
    ensures Inc32(Numbered(head, i)) == Numbered(head, i + 1)
  {
  }
}
