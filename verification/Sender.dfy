/**
 The other end of the line: the packets a sender makes for one image, and what becomes of them.
 The transmitter is not part of the repository; its packets follow from the structures it shares
 with the receiver.
 */
module Sender {
  import opened Bytes
  import opened Flash
  import opened Protocol
  import opened Cuts
  import opened Convergence
  import Frame
  import Mac
  import Murmur3

  function Split16(b: nat): (s: seq<byte>)
    requires b < 0x1_0000
    ensures |s| == 2
  {
    [(b % 256) as byte, (b / 256) as byte]
  }

  lemma Split16Reads(b: nat)
    requires b < 0x1_0000
    ensures LE16(Split16(b)[0], Split16(b)[1]) as nat == b
  {
    hide LE16;
    ByteValue(b % 256);
    ByteValue(b / 256);
    LE16Value(Split16(b)[0], Split16(b)[1]);
  }

  function DataBody(img: seq<byte>, b: nat): (s: seq<byte>)
    requires BLOCK_SIZE * b + BLOCK_SIZE <= |img| && b < 0x1_0000
    ensures |s| == 260
  {
    [Mac.VER_2, TYPE_DATA] + Split16(b) + img[BLOCK_SIZE * b..BLOCK_SIZE * b + BLOCK_SIZE]
  }

  /** The packet for block `b` of `img`. */
  function DataPacket(img: seq<byte>, b: nat): Packet
    requires BLOCK_SIZE * b + BLOCK_SIZE <= |img| && b < 0x1_0000
  {
    hide Murmur3.Hash, Split32, DataBody;
    DataBody(img, b) + Split32(Murmur3.Hash(DataBody(img, b), SEED_BLOCK))
  }

  function CtrlBody(img: seq<byte>, length: bv32, guid: seq<byte>): (s: seq<byte>)
    requires Unsigned(length) <= |img| && |guid| == 16
    ensures |s| == 28
  {
    [Mac.VER_2, TYPE_CTRL, 0, 0] + Split32(length) + Split32(Murmur3.Hash(img[..Unsigned(length)], SEED_TOTAL)) + guid
  }

  /** The packet that announces the first `length` bytes (a 32-bit word) of `img` under `guid`. */
  function CtrlPacket(img: seq<byte>, length: bv32, guid: seq<byte>): Packet
    requires Unsigned(length) <= |img| && |guid| == 16
  {
    hide Murmur3.Hash, Split32, CtrlBody;
    var body := CtrlBody(img, length, guid);
    body + Split32(Murmur3.Hash(body, SEED_BLOCK)) + seq(PACKET_SIZE - CTRL_LEN, _ => 0)
  }

  /** The receiver accepts a sent data packet and reads back block number and payload. */
  lemma DataPacketReads(img: seq<byte>, b: nat)
    requires BLOCK_SIZE * b + BLOCK_SIZE <= |img| <= BLOCK_SIZE * BLOCKS
    ensures var p := DataPacket(img, b); Genuine(p, img) && Block(p) == b && Frame.Framable(p)
  {
    var p := DataPacket(img, b);
    var body := DataBody(img, b);
    Split16Reads(b);
    WordOfSplit(Murmur3.Hash(body, SEED_BLOCK));
    hide LE, Split32, LE16, Murmur3.Hash, Split16;
    assert p[..260] == body;
    assert p[260..264] == Split32(Murmur3.Hash(body, SEED_BLOCK));
    assert p[2] == body[2] == Split16(b)[0] && p[3] == body[3] == Split16(b)[1];
    assert Payload(p) == img[BLOCK_SIZE * b..BLOCK_SIZE * b + BLOCK_SIZE];
    assert p[0] == body[0] && p[1] == body[1];
  }

  /** The receiver accepts a sent control packet and reads back length, hash and guid. */
  lemma CtrlPacketReads(img: seq<byte>, length: bv32, guid: seq<byte>)
    requires 1 <= Unsigned(length) <= |img| && |guid| == 16
    ensures var p := CtrlPacket(img, length, guid);
      && GoodCtrl(p) && CtrlGuid(p) == guid && Frame.Framable(p)
      && Word(p, 4) == length && Word(p, 8) == Murmur3.Hash(img[..Unsigned(length)], SEED_TOTAL)
  {
    hide LE, Split32, Murmur3.Hash, Unsigned, CtrlBody, CtrlPacket;
    var p, body := CtrlPacket(img, length, guid), CtrlBody(img, length, guid);
    WordOfSplit(Murmur3.Hash(body, SEED_BLOCK));
    WordOfSplit(length);
    WordOfSplit(Murmur3.Hash(img[..Unsigned(length)], SEED_TOTAL));
    CtrlBodyParts(img, length, guid);
    CtrlPacketParts(img, length, guid);
    assert p[4..8] == p[..28][4..8] && p[8..12] == p[..28][8..12] && p[12..28] == p[..28][12..28];
    assert p[0] == p[..28][0] && p[1] == p[..28][1];
  }

  lemma CtrlBodyParts(img: seq<byte>, length: bv32, guid: seq<byte>)
    requires Unsigned(length) <= |img| && |guid| == 16
    ensures var body := CtrlBody(img, length, guid);
      && body[0] == Mac.VER_2 && body[1] == TYPE_CTRL && body[4..8] == Split32(length)
      && body[8..12] == Split32(Murmur3.Hash(img[..Unsigned(length)], SEED_TOTAL)) && body[12..28] == guid
  {
    hide Split32, Murmur3.Hash, Unsigned;
  }

  lemma CtrlPacketParts(img: seq<byte>, length: bv32, guid: seq<byte>)
    requires Unsigned(length) <= |img| && |guid| == 16
    ensures var p, body := CtrlPacket(img, length, guid), CtrlBody(img, length, guid);
      p[..28] == body && p[28..32] == Split32(Murmur3.Hash(body, SEED_BLOCK))
  {
    hide Split32, Murmur3.Hash, Unsigned, CtrlBody;
  }

  function AllBlocks(img: seq<byte>, n: nat): seq<Packet>
    requires BLOCK_SIZE * n <= |img| <= BLOCK_SIZE * BLOCKS
  {
    seq(n, b requires 0 <= b < n => DataPacket(img, b))
  }

  lemma {:induction false} AllBlocksReceived(img: seq<byte>, n: nat)
    requires BLOCK_SIZE * n <= |img| <= BLOCK_SIZE * BLOCKS
    ensures Received(AllBlocks(img, n), img) == Upto(n)
    ensures forall i :: 0 <= i < n ==> Genuine(AllBlocks(img, n)[i], img)
  {
    hide DataPacket, Genuine, LE16;
    if n > 0 {
      AllBlocksReceived(img, n - 1);
      DataPacketReads(img, n - 1);
      var ps := AllBlocks(img, n);
      assert ps[..n - 1] == AllBlocks(img, n - 1) && ps[n - 1] == DataPacket(img, n - 1);
      forall i | 0 <= i < n ensures Genuine(ps[i], img) {
        if i < n - 1 {
          assert ps[i] == AllBlocks(img, n - 1)[i];
        }
      }
    }
  }

  /** An image that fits storage, padded to whole blocks, its length and a guid that is not all 0xFF. */
  ghost predicate Sendable(img: seq<byte>, length: bv32, guid: seq<byte>) {
    && 1 <= Unsigned(length) <= |img| <= BLOCK_SIZE * BLOCKS && |img| == BLOCK_SIZE * BlockCount(Unsigned(length))
    && |guid| == 16 && exists i :: 0 <= i < 16 && guid[i] != BLANK_BYTE
  }

  /** Every image that fits can be announced and sent; the packets meet all that is asked of a transmission. */
  lemma EveryImageCanBeSent(img: seq<byte>, length: bv32, guid: seq<byte>)
    requires Sendable(img, length, guid)
    ensures Announced(CtrlPacket(img, length, guid), img)
    ensures CleanStream(AllBlocks(img, BlockCount(Unsigned(length))), img)
  {
    hide CtrlPacket, DataPacket, Genuine, GoodCtrl, Word, Unsigned, Murmur3.Hash, LE16;
    CtrlPacketReads(img, length, guid);
    AllBlocksReceived(img, BlockCount(Unsigned(length)));
  }

  /** The application header's magic and version, as they lie in the image. */
  const APP_SIGNATURE: seq<byte> := [0x7a, 0xf6, 0xfb, 0xd3, 0x00, 0x01, 0x00, 0x00]

  ghost predicate Signed(img: seq<byte>) {
    |img| >= 32 && img[24..32] == APP_SIGNATURE
  }

  lemma SignatureWords()
    ensures LE32(0x7a, 0xf6, 0xfb, 0xd3) == APP_MAGIC && LE32(0x00, 0x01, 0x00, 0x00) == APP_VERSION
  {
  }

  lemma WordIs(s: seq<byte>, t: seq<byte>)
    requires |s| == |t| == 4
    ensures LE(s) == LE32(t[0], t[1], t[2], t[3]) <==> s == t
  {
    hide LE, LE32;
    LEPadded(t);
    if LE(s) == LE(t) {
      LEInjective(s, t);
    }
  }

  /** A valid application header is these eight bytes at offset 24. */
  lemma SignatureIsValidity(m: Memory)
    ensures AppIsValid(m) <==> m[PROGRAM + 24..PROGRAM + 32] == APP_SIGNATURE
  {
    hide LE, LE32;
    SignatureWords();
    var a, b, s := m[PROGRAM + 24..PROGRAM + 28], m[PROGRAM + 28..PROGRAM + 32], APP_SIGNATURE;
    WordIs(a, s[..4]);
    WordIs(b, s[4..]);
    assert m[PROGRAM + 24..PROGRAM + 32] == a + b && s == s[..4] + s[4..];
    assert (a + b)[..4] == a && (a + b)[4..] == b;
  }

  lemma SignatureStored(m: Memory, img: seq<byte>)
    requires BLOCK_SIZE <= |img| <= BLOCK_SIZE * BLOCKS && Stored(m, |img|) == img
    ensures AppIsValid(m) <==> Signed(img)
  {
    SignatureIsValidity(m);
    hide AppIsValid;
    assert img[24..32] == m[PROGRAM + 24..PROGRAM + 32] by {
      forall j | 24 <= j < 32 ensures img[j] == m[PROGRAM + j] {
        assert m[PROGRAM..PROGRAM + |img|][j] == m[PROGRAM + j];
      }
      assert forall j :: 0 <= j < 8 ==>
        img[24..32][j] == img[24 + j] && m[PROGRAM + 24..PROGRAM + 32][j] == m[PROGRAM + (24 + j)];
    }
  }

  /**
   End to end at packet level: on a device whose flash does not hold this guid, announcing an image
   and sending its blocks once stores the image exactly, and boots it exactly when bytes 24 to 31 of the image
   are an application's signature and version.
   */
  lemma SentImageArrives(d: Device, img: seq<byte>, length: bv32, guid: seq<byte>)
    requires d.astate == Idle && d.power == Running && Guid(d.mem) != guid
    requires Sendable(img, length, guid)
    ensures var r := Deliveries(d, [CtrlPacket(img, length, guid)] + AllBlocks(img, BlockCount(Unsigned(length))));
      && Stored(r.mem, |img|) == img && Guid(r.mem) == guid && !Incomplete(r.mem)
      && (r.power == Booted <==> Signed(img))
  {
    hide CtrlPacket, AllBlocks, Word, Deliveries, CleanStream, Announced, Sealed, Murmur3.Hash, Unsigned, GoodCtrl;
    hide AppIsValid, Signed, Stored, Incomplete, BlockCount;
    EveryImageCanBeSent(img, length, guid);
    CtrlPacketReads(img, length, guid);
    NewProgramIsStoredExactly(d, CtrlPacket(img, length, guid), img, AllBlocks(img, BlockCount(Unsigned(length))));
    var r := Deliveries(d, [CtrlPacket(img, length, guid)] + AllBlocks(img, BlockCount(Unsigned(length))));
    SignatureStored(r.mem, img);
  }

  /** What announcing `img` leaves on a factory-fresh device. */
  lemma FirstAnnouncement(d0: Device, img: seq<byte>, length: bv32, guid: seq<byte>)
    requires FactoryFresh(d0) && Sendable(img, length, guid)
    ensures var d := Step(d0, Deliver(CtrlPacket(img, length, guid)));
      && d.astate == Updating && d.power == Running && Blank(d.mem, MAP_AT, FLASH_SIZE) && Incomplete(d.mem)
      && Magic(d.mem) == STORAGE_MAGIC && Length(d.mem) == Unsigned(length) && Guid(d.mem) == guid
  {
    hide CtrlPacket, Word, Murmur3.Hash, Unsigned, BlockCount, GoodCtrl, HeaderPart, Step;
    var c := CtrlPacket(img, length, guid);
    CtrlPacketReads(img, length, guid);
    var i :| 0 <= i < 16 && guid[i] != BLANK_BYTE;
    assert Guid(d0.mem)[i] == BLANK_BYTE;
    AfterNewCtrl(d0, c);
    FreshHeader(d0.mem, Step(d0, Deliver(c)).mem, c);
  }

  /**
   Guids are all the updater compares.  With a longer program announced first under the same guid, a clean
   transmission of a shorter one never settles: the updater waits for blocks nobody sends.
   */
  lemma ReusedGuidWaitsForEver(
    d0: Device, prior: seq<byte>, priorLength: bv32, img: seq<byte>, length: bv32, guid: seq<byte>)
    requires FactoryFresh(d0) && Sendable(prior, priorLength, guid) && Sendable(img, length, guid)
    requires BlockCount(Unsigned(length)) < BlockCount(Unsigned(priorLength))
    ensures var d := Run(d0, [Deliver(CtrlPacket(prior, priorLength, guid))]);
      var n := BlockCount(Unsigned(length));
      !Settled(Deliveries(Step(d, Reset), [CtrlPacket(img, length, guid)] + AllBlocks(img, n)))
  {
    hide CtrlPacket, AllBlocks, Word, Deliveries, CleanStream, Murmur3.Hash, Unsigned, GoodCtrl, BlockCount;
    hide Settled, Incomplete, Length, Magic, Step, FactoryFresh;
    var c, n := CtrlPacket(img, length, guid), BlockCount(Unsigned(length));
    var es := [Deliver(CtrlPacket(prior, priorLength, guid))];
    assert Run(d0, es) == Step(d0, es[0]) by { assert Run(d0, es[..0]) == d0; }
    FirstAnnouncement(d0, prior, priorLength, guid);
    EveryImageCanBeSent(img, length, guid);
    CtrlPacketReads(img, length, guid);
    EveryTransmissionSettles(d0, es, c, img, AllBlocks(img, n));
    var m := Run(d0, es).mem;
    WordBlank(m, MapAt(n));
    assert Pending(m, n) && !Answers(m, n);
  }
}
