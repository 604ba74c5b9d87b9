/**
 * The history cursor the bridge makes up when a view asks for the newest page
 * of a conversation: a zero-filled buffer of 21 bytes for a group or 17 bytes
 * for a user, the numeric id written at offset 0 as an unsigned 32-bit
 * big-endian integer, the whole buffer Base64-encoded.
 */
module Cursors {
  import opened Wrappers
  import opened ContactIds
  import Base64
  import opened Octets

  /** `writeUInt32BE` accepts values below this bound and throws for any other. */
  const Uint32Limit: nat := 0x1_0000_0000

  /** `Buffer.alloc(21)` for a group, `Buffer.alloc(17)` otherwise. */
  function BufferSize(kind: Kind): (n: nat)
    ensures n >= 4
  {
    if kind == Group then 21 else 17
  }

  /** The four bytes of `n`, most significant first. */
  function BigEndian32(n: nat): (r: seq<Byte>)
    requires n < Uint32Limit
    ensures |r| == 4
  {
    [n / 256 / 256 / 256, n / 256 / 256 % 256, n / 256 % 256, n % 256]
  }

  /** `readUInt32BE`: four bytes, most significant first, as a number. */
  function ReadBigEndian32(b: seq<Byte>): (n: nat)
    requires |b| == 4
    ensures n < Uint32Limit
  {
    ((b[0] as int * 256 + b[1]) * 256 + b[2]) * 256 + b[3]
  }

  /** Reading back what was written gives the number written. */
  lemma ReadWrite32(n: nat)
    requires n < Uint32Limit
    ensures ReadBigEndian32(BigEndian32(n)) == n
  {
  }

  /** Writing what was read gives the bytes read: the 32-bit encoding is a bijection. */
  lemma WriteRead32(b: seq<Byte>)
    requires |b| == 4
    ensures BigEndian32(ReadBigEndian32(b)) == b
  {
    var h := b[0] as int * 256 + b[1];
    var m := h * 256 + b[2];
    DivMod256(m, b[3]);
    DivMod256(h, b[2]);
    DivMod256(b[0], b[1]);
  }

  /**
   * `buf.writeUInt32BE(value, offset)`: the four bytes at `offset` become the
   * big-endian encoding of `value`; nothing else in the buffer changes.
   */
  method WriteUInt32BE(buf: array<Byte>, value: nat, offset: nat)
    requires value < Uint32Limit
    requires offset + 4 <= buf.Length
    modifies buf
    ensures buf[..] == old(buf[..offset]) + BigEndian32(value) + old(buf[offset + 4..])
  {
    var be := BigEndian32(value);
    buf[offset] := be[0];
    buf[offset + 1] := be[1];
    buf[offset + 2] := be[2];
    buf[offset + 3] := be[3];
    assert buf[..] == old(buf[..offset]) + be + old(buf[offset + 4..]);
  }

  /** The cursor buffer for a conversation, as a value. */
  function CursorBytes(kind: Kind, uin: nat): (r: seq<Byte>)
    requires uin < Uint32Limit
    ensures |r| == BufferSize(kind)
    ensures ReadBigEndian32(r[..4]) == uin
    ensures forall i :: 4 <= i < |r| ==> r[i] == 0
  {
    ReadWrite32(uin);
    var r := BigEndian32(uin) + seq(BufferSize(kind) - 4, _ => 0);
    assert r[..4] == BigEndian32(uin);
    r
  }

  /**
   * The buffer the source fills step by step: `Buffer.alloc` (zero-filled),
   * then `writeUInt32BE(uin, 0)`.
   */
  method AllocCursor(kind: Kind, uin: nat) returns (buf: array<Byte>)
    requires uin < Uint32Limit
    ensures fresh(buf)
    ensures buf[..] == CursorBytes(kind, uin)
  {
    buf := new Byte[BufferSize(kind)](_ => 0);
    WriteUInt32BE(buf, uin, 0);
    ghost var r := CursorBytes(kind, uin);
    assert r == BigEndian32(uin) + seq(BufferSize(kind) - 4, _ => 0) by {
      WriteRead32(r[..4]);
      assert r[..4] == BigEndian32(uin);
      assert r == r[..4] + r[4..];
    }
  }

  /** `buf.toString("base64")` of the cursor buffer. */
  function Cursor(kind: Kind, uin: nat): (s: string)
    requires uin < Uint32Limit
    ensures |s| == if kind == Group then 28 else 24
  {
    Base64.Encode(CursorBytes(kind, uin))
  }

  /**
   * What a cursor carries: decoding it gives a buffer of the conversation's
   * size whose first four bytes read back as the numeric id and whose other
   * bytes are zero.
   */
  lemma CursorDecodes(kind: Kind, uin: nat)
    requires uin < Uint32Limit
    ensures var d := Base64.Decode(Cursor(kind, uin));
      && d.Some?
      && |d.value| == BufferSize(kind)
      && ReadBigEndian32(d.value[..4]) == uin
      && forall i :: 4 <= i < |d.value| ==> d.value[i] == 0
  {
    Base64.DecodeEncode(CursorBytes(kind, uin));
  }

  /** Distinct conversations get distinct cursors. */
  lemma CursorInjective(k1: Kind, u1: nat, k2: Kind, u2: nat)
    requires u1 < Uint32Limit && u2 < Uint32Limit
    ensures Cursor(k1, u1) == Cursor(k2, u2) <==> k1 == k2 && u1 == u2
  {
    if Cursor(k1, u1) == Cursor(k2, u2) {
      CursorDecodes(k1, u1);
      CursorDecodes(k2, u2);
      assert BufferSize(k1) == BufferSize(k2);
    }
  }

  /** The cursor buffer of id 123456 (hex 0001E240), for either kind. */
  lemma ExampleBytes(kind: Kind)
    ensures CursorBytes(kind, 123456) == [0x00, 0x01, 0xE2, 0x40] + seq(BufferSize(kind) - 4, _ => 0)
  {
    var b := CursorBytes(kind, 123456);
    var prefix: seq<Byte> := [0x00, 0x01, 0xE2, 0x40];
    assert ReadBigEndian32(prefix) == 123456;
    WriteRead32(prefix);
    WriteRead32(b[..4]);
    assert b == b[..4] + b[4..];
  }

  /**
   * Worked cases: id 123456 as a group gets 28 characters standing for the
   * bytes 00 01 E2 40 and seventeen zeros; as a user, 24 characters standing
   * for the same four bytes and thirteen zeros.
   */
  lemma GroupCursorExample()
    ensures |Cursor(Group, 123456)| == 28
    ensures Base64.Decode(Cursor(Group, 123456)) == Some([0x00, 0x01, 0xE2, 0x40] + seq(17, _ => 0))
  {
    ExampleBytes(Group);
    Base64.DecodeEncode(CursorBytes(Group, 123456));
  }

  lemma UserCursorExample()
    ensures |Cursor(User, 123456)| == 24
    ensures Base64.Decode(Cursor(User, 123456)) == Some([0x00, 0x01, 0xE2, 0x40] + seq(13, _ => 0))
  {
    ExampleBytes(User);
    Base64.DecodeEncode(CursorBytes(User, 123456));
  }

  lemma ExampleSplit(n: nat)
    requires n >= 6
    ensures [0x00, 0x01, 0xE2, 0x40] + seq(n - 4, _ => 0) == [0x00, 0x01, 0xE2] + ([0x40, 0x00, 0x00] + seq(n - 6, _ => 0))
  {
  }

  lemma ExampleGroups()
    ensures Base64.EncodeGroup(0x00, 0x01, 0xE2) == "AAHi"
    ensures Base64.EncodeGroup(0x40, 0x00, 0x00) == "QAAA"
  {
  }

  lemma ExampleEncode(n: nat)
    requires n >= 6
    ensures Base64.Encode([0x00, 0x01, 0xE2, 0x40] + seq(n - 4, _ => 0)) == "AAHi" + ("QAAA" + Base64.ZeroText(n - 6))
  {
    var zeros: seq<Byte> := seq(n - 6, _ => 0);
    ExampleSplit(n);
    Base64.EncodeCons(0x00, 0x01, 0xE2, [0x40, 0x00, 0x00] + zeros);
    Base64.EncodeCons(0x40, 0x00, 0x00, zeros);
    Base64.EncodeZeros(n - 6);
    ExampleGroups();
  }

  lemma GroupText()
    ensures "AAHi" + ("QAAA" + Base64.ZeroText(15)) == "AAHiQAAAAAAAAAAAAAAAAAAAAAAA"
  {
    assert Base64.ZeroText(15) == seq(20, _ => 'A') + "";
  }

  lemma UserText()
    ensures "AAHi" + ("QAAA" + Base64.ZeroText(11)) == "AAHiQAAAAAAAAAAAAAAAAAA="
  {
    assert Base64.ZeroText(11) == seq(12, _ => 'A') + "AAA=";
  }

  /** The cursor texts themselves, as the standard alphabet spells them. */
  lemma CursorTextExamples()
    ensures Cursor(Group, 123456) == "AAHiQAAAAAAAAAAAAAAAAAAAAAAA"
    ensures Cursor(User, 123456) == "AAHiQAAAAAAAAAAAAAAAAAA="
  {
    ExampleBytes(Group);
    ExampleEncode(21);
    GroupText();
    ExampleBytes(User);
    ExampleEncode(17);
    UserText();
  }
}
