/**
 * The request frame of the APB serial bridge, byte by byte: the header byte
 * packing a 3-bit transaction kind and a 5-bit size field, the big-endian
 * address, and the big-endian 32-bit data words that follow it.
 */
module Wire {

  /** One byte on the serial link. */
  type byte = b: int | 0 <= b < 256

  /** The seven transaction kinds the bridge understands. */
  datatype Kind = Read | Write | BlockRead | BlockWrite | CyclicRead | CyclicWrite | Rmw

  /** The 3-bit wire code of each kind (the `_READ` .. `_RMW` class constants). */
  function Code(k: Kind): (c: nat)
    ensures c < 8
  {
    match k
    case Read => 0
    case Write => 1
    case BlockRead => 2
    case BlockWrite => 3
    case CyclicRead => 4
    case CyclicWrite => 5
    case Rmw => 6
  }

  /**
   * The header byte `(code << 5) | (size & 0x1F)`: bits 7:5 hold the kind and
   * bits 4:0 the size field reduced modulo 32.
   */
  function Header(k: Kind, size: int): (h: byte)
    ensures h / 32 == Code(k)
    ensures h % 32 == size % 32
  {
    (((Code(k) as bv8) << 5) | ((size % 32) as bv8)) as int
  }

  /**
   * Single-element kinds carry a zero size field; for block and cyclic kinds
   * the field wraps at 32: 256 elements give 0x1F, 33 elements give 0.
   */
  lemma HeaderSizeWraps(k: Kind)
    ensures Header(k, 0) == 32 * Code(k)
    ensures Header(k, 256 - 1) % 32 == 0x1F
    ensures Header(k, 33 - 1) % 32 == 0
    ensures Header(Kind.BlockWrite, 256 - 1) == 0x7F
  {
  }

  /** 256 to the power n, that is 2^(8n). */
  function Pow256(n: nat): (p: nat)
    ensures p >= 1
  {
    if n == 0 then 1 else 256 * Pow256(n - 1)
  }

  /** 2 to the power k. */
  function Pow2(k: nat): (p: nat)
    ensures p >= 1
  {
    if k == 0 then 1 else 2 * Pow2(k - 1)
  }

  /** 2^(8n), the bound the address check computes, is 256^n, the bound of n bytes. */
  lemma {:induction false} Pow2Bytes(n: nat)
    ensures Pow2(8 * n) == Pow256(n)
  {
    if n > 0 {
      Pow2Bytes(n - 1);
      var k := 8 * (n - 1);
      assert Pow2(k + 8) == 256 * Pow2(k) by {
        assert Pow2(k + 8) == 2 * Pow2(k + 7);
        assert Pow2(k + 7) == 2 * Pow2(k + 6);
        assert Pow2(k + 6) == 2 * Pow2(k + 5);
        assert Pow2(k + 5) == 2 * Pow2(k + 4);
        assert Pow2(k + 4) == 2 * Pow2(k + 3);
        assert Pow2(k + 3) == 2 * Pow2(k + 2);
        assert Pow2(k + 2) == 2 * Pow2(k + 1);
        assert Pow2(k + 1) == 2 * Pow2(k);
      }
      assert 8 * n == k + 8;
    }
  }

  /** `a >> (8 * i)` on an unbounded integer: i floor divisions by 256. */
  function Shr8(a: int, i: nat): int
    decreases i
  {
    if i == 0 then a else Shr8(a / 256, i - 1)
  }

  /** A value that fits in an unsigned 32-bit register. */
  predicate IsWord(v: int)
  {
    0 <= v <= 0xFFFF_FFFF
  }

  /**
   * The low `width` bytes of `a`, most significant first. Each byte is
   * `a & 0xFF` of a shifted copy, so negative inputs reduce as in Python.
   */
  function BeBytes(width: nat, a: int): (r: seq<byte>)
    ensures |r| == width
  {
    if width == 0 then [] else BeBytes(width - 1, a / 256) + [a % 256]
  }

  /** `int.from_bytes(s, byteorder='big')`. */
  function BeValue(s: seq<byte>): (v: nat)
    ensures v < Pow256(|s|)
  {
    if s == [] then 0 else BeValue(s[..|s| - 1]) * 256 + s[|s| - 1]
  }

  /** Byte j of the encoding is `(a >> 8 * (width - 1 - j)) & 0xFF`: the order the driver's loops emit. */
  lemma {:induction false} BeBytesAt(width: nat, a: int, j: nat)
    requires j < width
    ensures BeBytes(width, a)[j] == Shr8(a, width - 1 - j) % 256
  {
    if j < width - 1 {
      BeBytesAt(width - 1, a / 256, j);
    }
  }

  /** Decoding the big-endian bytes of an in-range value gives the value back. */
  lemma {:induction false} BeRoundTrip(width: nat, a: int)
    requires 0 <= a < Pow256(width)
    ensures BeValue(BeBytes(width, a)) == a
  {
    if width > 0 {
      var s := BeBytes(width, a);
      assert s[..|s| - 1] == BeBytes(width - 1, a / 256);
      BeRoundTrip(width - 1, a / 256);
    }
  }

  /** Encoding what a byte string decodes to, at the same width, gives the bytes back. */
  lemma {:induction false} BeValueRoundTrip(s: seq<byte>)
    ensures BeBytes(|s|, BeValue(s)) == s
  {
    if s != [] {
      var init := s[..|s| - 1];
      BeValueRoundTrip(init);
      assert s == init + [s[|s| - 1]];
    }
  }

  /** An address or word fits its width exactly when it survives encoding and decoding. */
  lemma BeFits(width: nat, a: int)
    ensures 0 <= a < Pow256(width) <==> BeValue(BeBytes(width, a)) == a
  {
    if 0 <= a < Pow256(width) {
      BeRoundTrip(width, a);
    }
  }

  /** The 32-bit values are exactly those below 256^4. */
  lemma WordBound()
    ensures Pow256(4) == 0x1_0000_0000
  {
  }

  /** A 32-bit value round-trips through its four big-endian bytes. */
  lemma WordRoundTrip(v: int)
    requires IsWord(v)
    ensures BeValue(BeBytes(4, v)) == v
  {
    WordBound();
    BeRoundTrip(4, v);
  }

  /** All values, each as four big-endian bytes, in list order. */
  function Words(vs: seq<int>): (r: seq<byte>)
    ensures |r| == 4 * |vs|
  {
    if vs == [] then [] else Words(vs[..|vs| - 1]) + BeBytes(4, vs[|vs| - 1])
  }

  /** The i-th group of four bytes of `Words(vs)` encodes `vs[i]`. */
  lemma {:induction false} WordsAt(vs: seq<int>, i: nat)
    requires i < |vs|
    ensures Words(vs)[4 * i..4 * i + 4] == BeBytes(4, vs[i])
  {
    var init := vs[..|vs| - 1];
    if i < |vs| - 1 {
      WordsAt(init, i);
      assert Words(vs)[4 * i..4 * i + 4] == Words(init)[4 * i..4 * i + 4];
    }
  }

  /** The request frame: header, address, then the payload words. */
  function Frame(k: Kind, size: int, width: nat, addr: int, payload: seq<int>): (f: seq<byte>)
    ensures |f| == 1 + width + 4 * |payload|
    ensures f[0] == Header(k, size)
  {
    [Header(k, size)] + BeBytes(width, addr) + Words(payload)
  }

  /** Where each field of a frame lies, and its length `1 + width + 4 * |payload|`. */
  lemma FrameLayout(k: Kind, size: int, width: nat, addr: int, payload: seq<int>)
    ensures var f := Frame(k, size, width, addr, payload);
      && |f| == 1 + width + 4 * |payload|
      && f[0] == Header(k, size)
      && f[1..1 + width] == BeBytes(width, addr)
      && forall i :: 0 <= i < |payload| ==>
           f[1 + width + 4 * i..1 + width + 4 * i + 4] == BeBytes(4, payload[i])
  {
    var f := Frame(k, size, width, addr, payload);
    assert f[1..1 + width] == BeBytes(width, addr);
    forall i | 0 <= i < |payload|
      ensures f[1 + width + 4 * i..1 + width + 4 * i + 4] == BeBytes(4, payload[i])
    {
      WordsAt(payload, i);
      assert f[1 + width..] == Words(payload);
    }
  }

  /** The payload of a frame as its receiver decodes it: one word per four bytes after the address. */
  function PayloadWords(f: seq<byte>, width: nat, count: nat): (ws: seq<nat>)
    requires 1 + width + 4 * count <= |f|
    ensures |ws| == count
  {
    seq(count, i requires 0 <= i < count => BeValue(f[1 + width + 4 * i..1 + width + 4 * i + 4]))
  }

  /** The receiver decodes exactly the 32-bit words the frame was built from. */
  lemma PayloadRoundTrip(k: Kind, size: int, width: nat, addr: int, payload: seq<int>)
    requires forall i :: 0 <= i < |payload| ==> IsWord(payload[i])
    ensures PayloadWords(Frame(k, size, width, addr, payload), width, |payload|) == payload
  {
    var f := Frame(k, size, width, addr, payload);
    var ws := PayloadWords(f, width, |payload|);
    forall i | 0 <= i < |payload|
      ensures ws[i] == payload[i]
    {
      FrameLayout(k, size, width, addr, payload);
      WordRoundTrip(payload[i]);
    }
  }

  /**
   * A frame of in-range fields parses back: the top three bits of the first
   * byte are the kind, the next `width` bytes decode to the address, and each
   * following group of four bytes decodes to its payload word.
   */
  lemma FrameDecodes(k: Kind, size: int, width: nat, addr: int, payload: seq<int>)
    requires 0 <= addr < Pow256(width)
    requires forall i :: 0 <= i < |payload| ==> IsWord(payload[i])
    ensures var f := Frame(k, size, width, addr, payload);
      && |f| == 1 + width + 4 * |payload|
      && f[0] / 32 == Code(k) && f[0] % 32 == size % 32
      && BeValue(f[1..1 + width]) == addr
      && forall i :: 0 <= i < |payload| ==> BeValue(f[1 + width + 4 * i..1 + width + 4 * i + 4]) == payload[i]
  {
    FrameLayout(k, size, width, addr, payload);
    BeRoundTrip(width, addr);
    forall i | 0 <= i < |payload|
      ensures BeValue(BeBytes(4, payload[i])) == payload[i]
    {
      WordRoundTrip(payload[i]);
    }
  }
}
