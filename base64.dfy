/**
 * Base64 with the standard alphabet and `=` padding (section 4 of RFC 4648),
 * the encoding Node's `Buffer.toString("base64")` produces.
 * `Encode` is what the bridge uses; `Decode` is its partner, so that what an
 * encoded cursor carries can be stated exactly.
 */
module Base64 {
  import opened Wrappers
  import opened Octets

  /** A six-bit value, the unit one Base64 character carries. */
  type Sextet = x: int | 0 <= x < 64

  /** The character the alphabet assigns to a sextet value. */
  function SextetChar(v: Sextet): (c: char)
    ensures c != '='
  {
    if v < 26 then (65 + v) as char
    else if v < 52 then (97 + (v - 26)) as char
    else if v < 62 then (48 + (v - 52)) as char
    else if v == 62 then '+'
    else '/'
  }

  /** The sextet value of an alphabet character; `None` for any other character, `=` included. */
  function SextetOf(c: char): (r: Option<Sextet>)
    ensures r.Some? ==> SextetChar(r.value) == c
    ensures c == '=' ==> r.None?
  {
    if 'A' <= c <= 'Z' then Some(c as int - 65)
    else if 'a' <= c <= 'z' then Some(c as int - 97 + 26)
    else if '0' <= c <= '9' then Some(c as int - 48 + 52)
    else if c == '+' then Some(62)
    else if c == '/' then Some(63)
    else None
  }

  /** Every sextet value has a character, and decoding that character gives the value back. */
  lemma SextetRoundTrip(v: Sextet)
    ensures SextetOf(SextetChar(v)) == Some(v)
  {
  }

  lemma DivMod64(q: int, r: int)
    requires 0 <= r < 64
    ensures (q * 64 + r) / 64 == q && (q * 64 + r) % 64 == r
  {
  }

  /** Three bytes as one 24-bit group, first byte most significant. */
  function Pack(b0: Byte, b1: Byte, b2: Byte): (n: nat)
    ensures n < 0x100_0000
  {
    (b0 * 256 + b1) * 256 + b2
  }

  /** The four sextets of a 24-bit group, most significant first. */
  function Split(n: nat): (s: seq<Sextet>)
    requires n < 0x100_0000
    ensures |s| == 4
  {
    [n / 64 / 64 / 64, n / 64 / 64 % 64, n / 64 % 64, n % 64]
  }

  /** Four sextets as one 24-bit group. */
  function Join(s0: Sextet, s1: Sextet, s2: Sextet, s3: Sextet): (n: nat)
    ensures n < 0x100_0000
  {
    ((s0 * 64 + s1) * 64 + s2) * 64 + s3
  }

  /** The three bytes of a 24-bit group, most significant first. */
  function Unpack(n: nat): (r: seq<Byte>)
    requires n < 0x100_0000
    ensures |r| == 3
  {
    [n / 256 / 256, n / 256 % 256, n % 256]
  }

  /** Splitting a group into sextets and joining them again loses nothing. */
  lemma JoinSplit(n: nat)
    requires n < 0x100_0000
    ensures var s := Split(n); Join(s[0], s[1], s[2], s[3]) == n
  {
  }

  /** The bytes of a packed group are the bytes packed. */
  lemma UnpackPack(b0: Byte, b1: Byte, b2: Byte)
    ensures Unpack(Pack(b0, b1, b2)) == [b0, b1, b2]
  {
    DivMod256(b0 * 256 + b1, b2);
    DivMod256(b0, b1);
  }

  /** A group whose last byte is zero has a zero last sextet; with two zero bytes, the last two. */
  lemma ZeroTail(b0: Byte, b1: Byte)
    ensures Split(Pack(b0, b1, 0))[3] == 0
    ensures Split(Pack(b0, 0, 0))[2] == 0 && Split(Pack(b0, 0, 0))[3] == 0
  {
    DivMod64((b0 * 256 + b1) * 4, 0);
    DivMod64(b0 * 1024, 0);
    DivMod64(b0 * 16, 0);
  }

  /** Three input bytes: four alphabet characters. */
  function EncodeGroup(b0: Byte, b1: Byte, b2: Byte): (s: string)
    ensures |s| == 4 && '=' !in s
  {
    var q := Split(Pack(b0, b1, b2));
    [SextetChar(q[0]), SextetChar(q[1]), SextetChar(q[2]), SextetChar(q[3])]
  }

  /** A final single byte: two characters and two `=`. */
  function EncodeLast1(b0: Byte): (s: string)
    ensures |s| == 4
  {
    var q := Split(Pack(b0, 0, 0));
    [SextetChar(q[0]), SextetChar(q[1]), '=', '=']
  }

  /** Two final bytes: three characters and one `=`. */
  function EncodeLast2(b0: Byte, b1: Byte): (s: string)
    ensures |s| == 4
  {
    var q := Split(Pack(b0, b1, 0));
    [SextetChar(q[0]), SextetChar(q[1]), SextetChar(q[2]), '=']
  }

  /**
   * The Base64 text of `bytes`. Its length is four characters for every
   * started group of three bytes, so a 17-byte buffer gives 24 characters and
   * a 21-byte buffer 28.
   */
  function Encode(bytes: seq<Byte>): (s: string)
    ensures |s| == 4 * ((|bytes| + 2) / 3)
    decreases |bytes|
  {
    if |bytes| == 0 then ""
    else if |bytes| == 1 then EncodeLast1(bytes[0])
    else if |bytes| == 2 then EncodeLast2(bytes[0], bytes[1])
    else
      var rest := bytes[3..];
      assert (|bytes| + 2) / 3 == (|rest| + 2) / 3 + 1;
      EncodeGroup(bytes[0], bytes[1], bytes[2]) + Encode(rest)
  }

  // The three shapes of `Encode`, one lemma each, so that proofs about
  // the text can use one shape without unfolding the others.

  lemma EncodeOne(bytes: seq<Byte>)
    requires |bytes| == 1
    ensures Encode(bytes) == EncodeLast1(bytes[0])
  {
  }

  lemma EncodeTwo(bytes: seq<Byte>)
    requires |bytes| == 2
    ensures Encode(bytes) == EncodeLast2(bytes[0], bytes[1])
  {
  }

  lemma EncodeMore(bytes: seq<Byte>)
    requires |bytes| >= 3
    ensures Encode(bytes) == EncodeGroup(bytes[0], bytes[1], bytes[2]) + Encode(bytes[3..])
  {
  }

  lemma AbsentFromBoth(c: char, a: string, b: string)
    requires c !in a && c !in b
    ensures c !in a + b
  {
  }

  /** Only a final group of one or two bytes brings `=` into the text. */
  lemma {:induction false} NoPadding(bytes: seq<Byte>)
    requires |bytes| % 3 == 0
    ensures '=' !in Encode(bytes)
    decreases |bytes|
  {
    if |bytes| > 0 {
      NoPadding(bytes[3..]);
      EncodeMore(bytes);
      AbsentFromBoth('=', EncodeGroup(bytes[0], bytes[1], bytes[2]), Encode(bytes[3..]));
    }
  }

  lemma AppendAssociates<T>(x: seq<T>, y: seq<T>, z: seq<T>)
    ensures x + (y + z) == (x + y) + z
  {
  }

  /** A group of three bytes in front of any bytes puts its four characters in front. */
  lemma EncodeCons(b0: Byte, b1: Byte, b2: Byte, rest: seq<Byte>)
    ensures Encode([b0, b1, b2] + rest) == EncodeGroup(b0, b1, b2) + Encode(rest)
  {
    var b := [b0, b1, b2] + rest;
    assert b[0] == b0 && b[1] == b1 && b[2] == b2 && b[3..] == rest;
    EncodeMore(b);
  }

  lemma MoreAs(m: nat)
    ensures "AAAA" + seq(m, _ => 'A') == seq(m + 4, _ => 'A')
  {
  }

  lemma ZeroTailTexts()
    ensures EncodeLast1(0) == "AA=="
    ensures EncodeLast2(0, 0) == "AAA="
  {
  }

  /** The text `Encode` gives for `n` zero bytes, written out. */
  function ZeroText(n: nat): string
  {
    seq(4 * (n / 3), _ => 'A') + (if n % 3 == 0 then "" else if n % 3 == 1 then "AA==" else "AAA=")
  }

  lemma ZeroTextStep(n: nat)
    requires n >= 3
    ensures ZeroText(n) == "AAAA" + ZeroText(n - 3)
  {
    var m := 4 * ((n - 3) / 3);
    assert n / 3 == (n - 3) / 3 + 1 && n % 3 == (n - 3) % 3;
    var tail := if n % 3 == 0 then "" else if n % 3 == 1 then "AA==" else "AAA=";
    AppendAssociates("AAAA", seq(m, _ => 'A'), tail);
    MoreAs(m);
  }

  lemma DropZeros(n: nat)
    requires n >= 3
    ensures seq(n, _ => 0)[3..] == seq(n - 3, _ => 0)
  {
  }

  lemma ShortZeros(n: nat)
    requires n < 3
    ensures Encode(seq(n, _ => 0)) == ZeroText(n)
  {
    var zeros: seq<Byte> := seq(n, _ => 0);
    ZeroTailTexts();
    if n == 1 {
      EncodeOne(zeros);
    } else if n == 2 {
      EncodeTwo(zeros);
    }
  }

  lemma ZerosStep(n: nat)
    requires n >= 3
    requires Encode(seq(n - 3, _ => 0)) == ZeroText(n - 3)
    ensures Encode(seq(n, _ => 0)) == ZeroText(n)
  {
    var zeros: seq<Byte> := seq(n, _ => 0);
    EncodeMore(zeros);
    DropZeros(n);
    ZeroGroup();
    ZeroTextStep(n);
  }

  /**
   * A run of `n` zero bytes: four `A`s for every whole group, then `AA==` or
   * `AAA=` for a final one or two bytes.
   */
  lemma {:induction false} EncodeZeros(n: nat)
    ensures Encode(seq(n, _ => 0)) == ZeroText(n)
  {
    if n < 3 {
      ShortZeros(n);
    } else {
      EncodeZeros(n - 3);
      ZerosStep(n);
    }
  }

  lemma OneGroup(bytes: seq<Byte>)
    requires |bytes| == 3
    ensures Encode(bytes) == EncodeGroup(bytes[0], bytes[1], bytes[2])
  {
    EncodeMore(bytes);
    assert Encode(bytes[3..]) == "";
  }

  lemma ZeroGroup()
    ensures EncodeGroup(0, 0, 0) == "AAAA"
  {
  }

  // Known answers: the test vectors of section 10 of RFC 4648, which fix
  // the standard alphabet and the padding.

  lemma FooGroup()
    ensures EncodeGroup(0x66, 0x6f, 0x6f) == "Zm9v"
  {
  }

  lemma BarGroup()
    ensures EncodeGroup(0x62, 0x61, 0x72) == "YmFy"
  {
  }

  lemma RfcShortVectors()
    ensures Encode([]) == ""
    ensures Encode([0x66]) == "Zg=="
    ensures Encode([0x66, 0x6f]) == "Zm8="
  {
    EncodeOne([0x66]);
    EncodeTwo([0x66, 0x6f]);
  }

  lemma RfcFoo()
    ensures Encode([0x66, 0x6f, 0x6f]) == "Zm9v"
  {
    OneGroup([0x66, 0x6f, 0x6f]);
    FooGroup();
  }

  lemma RfcFoob()
    ensures Encode([0x66, 0x6f, 0x6f, 0x62]) == "Zm9vYg=="
  {
    var b: seq<Byte> := [0x66, 0x6f, 0x6f, 0x62];
    EncodeMore(b);
    EncodeOne(b[3..]);
    FooGroup();
    assert EncodeLast1(0x62) == "Yg==";
  }

  lemma RfcFooba()
    ensures Encode([0x66, 0x6f, 0x6f, 0x62, 0x61]) == "Zm9vYmE="
  {
    var b: seq<Byte> := [0x66, 0x6f, 0x6f, 0x62, 0x61];
    EncodeMore(b);
    EncodeTwo(b[3..]);
    FooGroup();
    assert EncodeLast2(0x62, 0x61) == "YmE=";
  }

  lemma RfcFoobar()
    ensures Encode([0x66, 0x6f, 0x6f, 0x62, 0x61, 0x72]) == "Zm9vYmFy"
  {
    var b: seq<Byte> := [0x66, 0x6f, 0x6f, 0x62, 0x61, 0x72];
    EncodeMore(b);
    OneGroup(b[3..]);
    FooGroup();
    BarGroup();
  }

  /** Four characters that are not the last quad: all must be alphabet characters. */
  function DecodeQuad(c0: char, c1: char, c2: char, c3: char): (r: Option<seq<Byte>>)
    ensures r.Some? ==> |r.value| == 3
  {
    match (SextetOf(c0), SextetOf(c1), SextetOf(c2), SextetOf(c3))
    case (Some(s0), Some(s1), Some(s2), Some(s3)) => Some(Unpack(Join(s0, s1, s2, s3)))
    case _ => None
  }

  /** The last quad, which may end in one or two `=`. */
  function DecodeLast(c0: char, c1: char, c2: char, c3: char): (r: Option<seq<Byte>>)
    ensures r.Some? ==> 1 <= |r.value| <= 3
  {
    if c3 == '=' && c2 == '=' then
      match (SextetOf(c0), SextetOf(c1))
      case (Some(s0), Some(s1)) => Some(Unpack(Join(s0, s1, 0, 0))[..1])
      case _ => None
    else if c3 == '=' then
      match (SextetOf(c0), SextetOf(c1), SextetOf(c2))
      case (Some(s0), Some(s1), Some(s2)) => Some(Unpack(Join(s0, s1, s2, 0))[..2])
      case _ => None
    else DecodeQuad(c0, c1, c2, c3)
  }

  /** The bytes a Base64 text stands for; `None` when the text is not well formed. */
  function Decode(s: string): (r: Option<seq<Byte>>)
    decreases |s|
  {
    if |s| == 0 then Some([])
    else if |s| < 4 then None
    else if |s| == 4 then DecodeLast(s[0], s[1], s[2], s[3])
    else match (DecodeQuad(s[0], s[1], s[2], s[3]), Decode(s[4..]))
      case (Some(q), Some(rest)) => Some(q + rest)
      case _ => None
  }

  lemma GroupRoundTrip(b0: Byte, b1: Byte, b2: Byte)
    ensures var g := EncodeGroup(b0, b1, b2);
      DecodeQuad(g[0], g[1], g[2], g[3]) == Some([b0, b1, b2])
  {
    var n := Pack(b0, b1, b2);
    var q := Split(n);
    SextetRoundTrip(q[0]);
    SextetRoundTrip(q[1]);
    SextetRoundTrip(q[2]);
    SextetRoundTrip(q[3]);
    JoinSplit(n);
    UnpackPack(b0, b1, b2);
  }

  lemma Last1RoundTrip(b0: Byte)
    ensures var g := EncodeLast1(b0); DecodeLast(g[0], g[1], g[2], g[3]) == Some([b0])
  {
    var n := Pack(b0, 0, 0);
    var q := Split(n);
    ZeroTail(b0, 0);
    JoinSplit(n);
    UnpackPack(b0, 0, 0);
    var u := Unpack(Join(q[0], q[1], 0, 0));
    assert u == [b0, 0, 0];
    SextetRoundTrip(q[0]);
    SextetRoundTrip(q[1]);
    var g := EncodeLast1(b0);
    assert g == [SextetChar(q[0]), SextetChar(q[1]), '=', '='];
    assert DecodeLast(g[0], g[1], g[2], g[3]) == Some(u[..1]);
    assert u[..1] == [b0];
  }

  lemma Last2RoundTrip(b0: Byte, b1: Byte)
    ensures var g := EncodeLast2(b0, b1); DecodeLast(g[0], g[1], g[2], g[3]) == Some([b0, b1])
  {
    var n := Pack(b0, b1, 0);
    var q := Split(n);
    ZeroTail(b0, b1);
    JoinSplit(n);
    UnpackPack(b0, b1, 0);
    var u := Unpack(Join(q[0], q[1], q[2], 0));
    assert u == [b0, b1, 0];
    SextetRoundTrip(q[0]);
    SextetRoundTrip(q[1]);
    SextetRoundTrip(q[2]);
    var g := EncodeLast2(b0, b1);
    assert g == [SextetChar(q[0]), SextetChar(q[1]), SextetChar(q[2]), '='];
    assert DecodeLast(g[0], g[1], g[2], g[3]) == Some(u[..2]);
    assert u[..2] == [b0, b1];
  }

  /** A full group in front of further text decodes to its three bytes in front of what the text decodes to. */
  lemma DecodeGroupThen(b0: Byte, b1: Byte, b2: Byte, t: string, tail: seq<Byte>)
    requires |t| == 0 || |t| >= 4
    requires Decode(t) == Some(tail)
    ensures Decode(EncodeGroup(b0, b1, b2) + t) == Some([b0, b1, b2] + tail)
  {
    var g := EncodeGroup(b0, b1, b2);
    var s := g + t;
    GroupRoundTrip(b0, b1, b2);
    if |t| == 0 {
      assert s == g;
      assert g[3] != '=' by { assert g[3] in g; }
      assert [b0, b1, b2] + [] == [b0, b1, b2];
    } else {
      assert s[..4] == g && s[4..] == t;
      assert s[0] == g[0] && s[1] == g[1] && s[2] == g[2] && s[3] == g[3];
    }
  }

  /** A text of exactly four characters is a last quad. */
  lemma DecodeOneQuad(s: string)
    requires |s| == 4
    ensures Decode(s) == DecodeLast(s[0], s[1], s[2], s[3])
  {
  }

  lemma Last1Decodes(b0: Byte)
    ensures Decode(EncodeLast1(b0)) == Some([b0])
  {
    Last1RoundTrip(b0);
    DecodeOneQuad(EncodeLast1(b0));
  }

  lemma Last2Decodes(b0: Byte, b1: Byte)
    ensures Decode(EncodeLast2(b0, b1)) == Some([b0, b1])
  {
    Last2RoundTrip(b0, b1);
    DecodeOneQuad(EncodeLast2(b0, b1));
  }

  lemma DecodeEncodeOne(bytes: seq<Byte>)
    requires |bytes| == 1
    ensures Decode(Encode(bytes)) == Some(bytes)
  {
    EncodeOne(bytes);
    Last1Decodes(bytes[0]);
    assert [bytes[0]] == bytes;
  }

  lemma DecodeEncodeTwo(bytes: seq<Byte>)
    requires |bytes| == 2
    ensures Decode(Encode(bytes)) == Some(bytes)
  {
    EncodeTwo(bytes);
    Last2Decodes(bytes[0], bytes[1]);
    assert [bytes[0], bytes[1]] == bytes;
  }

  lemma FirstThree<T>(xs: seq<T>)
    requires |xs| >= 3
    ensures xs == [xs[0], xs[1], xs[2]] + xs[3..]
  {
  }

  lemma DecodeEncodeMore(bytes: seq<Byte>)
    requires |bytes| >= 3
    requires Decode(Encode(bytes[3..])) == Some(bytes[3..])
    ensures Decode(Encode(bytes)) == Some(bytes)
  {
    var rest := bytes[3..];
    FirstThree(bytes);
    var t := Encode(rest);
    assert |t| == 0 || |t| >= 4;
    EncodeMore(bytes);
    DecodeGroupThen(bytes[0], bytes[1], bytes[2], t, rest);
  }

  /** Decoding what `Encode` produced gives back exactly the original bytes. */
  lemma {:induction false} DecodeEncode(bytes: seq<Byte>)
    ensures Decode(Encode(bytes)) == Some(bytes)
    decreases |bytes|
  {
    if |bytes| == 0 {
    } else if |bytes| == 1 {
      DecodeEncodeOne(bytes);
    } else if |bytes| == 2 {
      DecodeEncodeTwo(bytes);
    } else {
      DecodeEncode(bytes[3..]);
      DecodeEncodeMore(bytes);
    }
  }

  /** Distinct byte strings never share a Base64 text. */
  lemma EncodeInjective(a: seq<Byte>, b: seq<Byte>)
    ensures Encode(a) == Encode(b) <==> a == b
  {
    if Encode(a) == Encode(b) {
      DecodeEncode(a);
      DecodeEncode(b);
    }
  }
}
