/**
 * The byte ring of the deferred-message queue, as values. Positions are
 * the queue's unbounded `read` and `write` counters; a position `p` lives
 * at index `p % qs` of the `qs`-byte buffer. Each message is a record: a
 * four-byte little-endian size header followed by the message's bytes.
 * A record never crosses the end of the buffer: when it would, the writer
 * fills the rest of the buffer with 0xFF and starts the record at index 0.
 */
module RingLayout {
  /** A uint8_t. */
  newtype byte = x: int | 0 <= x < 0x100

  /** The size header is a uint32_t. */
  const HEADER: nat := 4
  const PAD_BYTE: byte := 0xFF
  /** What a header read over padding yields. */
  const PAD_WORD: nat := 0xFFFF_FFFF

  // ---------------------------------------------------------------------
  // A uint32_t in memory, such as the size header: four bytes, low byte first
  // ---------------------------------------------------------------------

  /** The low byte of `n`: what a uint8_t cast keeps. */
  function LowByte(n: nat): byte {
    (n % 0x100) as byte
  }

  /** The four bytes stored for the uint32_t value `n`, low byte first. */
  function Word32(n: nat): (h: seq<byte>)
    ensures |h| == HEADER
  {
    var q1 := n / 0x100;
    var q2 := q1 / 0x100;
    [LowByte(n), LowByte(q1), LowByte(q2), LowByte(q2 / 0x100)]
  }

  /** The uint32_t value four stored bytes hold. */
  function WordValue(b: seq<byte>): nat
    requires |b| == HEADER
  {
    b[0] as nat + 0x100 * (b[1] as nat + 0x100 * (b[2] as nat + 0x100 * b[3] as nat))
  }

  lemma Digit(n: nat)
    ensures n == n % 0x100 + 0x100 * (n / 0x100)
  {
  }

  lemma TopDigit(n: nat)
    requires n < 0x1_0000_0000
    ensures n / 0x100 / 0x100 / 0x100 < 0x100
    ensures (n / 0x100 / 0x100 / 0x100) % 0x100 == n / 0x100 / 0x100 / 0x100
  {
    assert n / 0x100 < 0x100_0000;
    assert n / 0x100 / 0x100 < 0x1_0000;
  }

  lemma DigitsSum(n: nat, a0: nat, a1: nat, a2: nat, a3: nat, q1: nat, q2: nat)
    requires n == a0 + 0x100 * q1 && q1 == a1 + 0x100 * q2 && q2 == a2 + 0x100 * a3
    ensures a0 + 0x100 * (a1 + 0x100 * (a2 + 0x100 * a3)) == n
  {
  }

  /** Every value a uint32_t holds is read back from the bytes stored for it. */
  lemma HeaderRoundTrip(n: nat)
    requires n < 0x1_0000_0000
    ensures WordValue(Word32(n)) == n
  {
    var q1 := n / 0x100;
    var q2 := q1 / 0x100;
    var q3 := q2 / 0x100;
    var b := Word32(n);
    assert b[0] as nat == n % 0x100;
    assert b[1] as nat == q1 % 0x100;
    assert b[2] as nat == q2 % 0x100;
    assert b[3] as nat == q3 % 0x100;
    Digit(n);
    Digit(q1);
    Digit(q2);
    TopDigit(n);
    DigitsSum(n, n % 0x100, q1 % 0x100, q2 % 0x100, q3, q1, q2);
  }

  /** Any four stored bytes are the bytes stored for the value they hold. */
  lemma WordRoundTrip(b: seq<byte>)
    requires |b| == HEADER
    ensures WordValue(b) < 0x1_0000_0000 && Word32(WordValue(b)) == b
  {
    var b0, b1, b2, b3 := b[0] as nat, b[1] as nat, b[2] as nat, b[3] as nat;
    var q2 := b2 + 0x100 * b3;
    var q1 := b1 + 0x100 * q2;
    var n := b0 + 0x100 * q1;
    assert n == WordValue(b);
    ModUnique(n, 0x100, q1, b0);
    ModUnique(q1, 0x100, q2, b1);
    ModUnique(q2, 0x100, b3, b2);
    ModUnique(b3, 0x100, 0, b3);
    assert Word32(n) == [b[0], b[1], b[2], b[3]];
  }

  // ---------------------------------------------------------------------
  // Positions modulo the ring size
  // ---------------------------------------------------------------------

  lemma MulAtLeast(a: int, b: int)
    requires a > 0 && b >= 1
    ensures a * b >= a
  {
  }

  lemma ModUnique(x: int, qs: int, k: int, r: int)
    requires qs > 0 && x == qs * k + r && 0 <= r < qs
    ensures x % qs == r && x / qs == k
  {
    var q, m := x / qs, x % qs;
    assert x == qs * q + m;
    assert qs * (k - q) == m - r;
    if k > q {
      MulAtLeast(qs, k - q);
    } else if k < q {
      MulAtLeast(qs, q - k);
    }
  }

  /** Moving forward within one lap moves the index by the same amount. */
  lemma ModOffset(p: nat, j: nat, qs: nat)
    requires qs > 0 && p % qs + j < qs
    ensures (p + j) % qs == p % qs + j
  {
    ModUnique(p + j, qs, p / qs, p % qs + j);
  }

  /** Moving forward by the bytes left before the end lands on index 0. */
  lemma ModBoundary(p: nat, qs: nat)
    requires qs > 0
    ensures (p + (qs - p % qs)) % qs == 0
  {
    ModUnique(p + (qs - p % qs), qs, p / qs + 1, 0);
  }

  /** Positions less than one lap apart occupy different indices. */
  lemma ModDistinct(p: nat, q: nat, qs: nat)
    requires qs > 0 && p < q < p + qs
    ensures p % qs != q % qs
  {
    if p % qs == q % qs {
      var d := q - p;
      ModUnique(q, qs, p / qs + (p % qs + d) / qs, (p % qs + d) % qs);
    }
  }

  // ---------------------------------------------------------------------
  // Where the writer puts a record
  // ---------------------------------------------------------------------

  /** `QUEUE_SIZE`: a uint16_t, and large enough for a header and a byte. */
  predicate Geometry(qs: nat) {
    HEADER < qs < 0x1_0000
  }

  /**
   * The padding `alloc` writes before a record of `len` bytes at `w`:
   * the rest of the buffer when header and bytes would cross its end,
   * except at index 0, where the loop does not run.
   */
  function Pad(qs: nat, w: nat, len: nat): (p: nat)
    requires qs > 0
    ensures p < qs
    ensures p > 0 ==> p == qs - w % qs && (w + p) % qs == 0
    ensures p == 0 ==> w % qs + HEADER + len <= qs || w % qs == 0
  {
    var rw := w % qs;
    if rw + HEADER + len > qs && rw != 0 then
      ModBoundary(w, qs);
      qs - rw
    else 0
  }

  /** The position of the record's header. */
  function Start(qs: nat, w: nat, len: nat): nat
    requires qs > 0
  {
    w + Pad(qs, w, len)
  }

  /** The position just after the record: the new `write`. */
  function End(qs: nat, w: nat, len: nat): nat
    requires qs > 0
  {
    Start(qs, w, len) + HEADER + len
  }

  lemma StartIndex(qs: nat, w: nat, len: nat)
    requires qs > 0 && HEADER + len <= qs
    ensures var s := Start(qs, w, len) % qs;
      s + HEADER + len <= qs && (Pad(qs, w, len) > 0 ==> s == 0) && (Pad(qs, w, len) == 0 ==> s == w % qs)
  {
  }

  /**
   * The corrected `enoughSpace`: the record, with its four-byte header
   * and any padding, fits in the part of the ring that has been read.
   */
  predicate EnoughSpace(qs: nat, read: nat, write: nat, size: nat)
    requires qs > 0
  {
    End(qs, write, size) - read <= qs
  }

  /** `enoughSpace` as written: a two-byte header and no padding. */
  predicate EnoughSpaceAsWritten(qs: nat, read: nat, write: nat, size: nat) {
    (write + 2 + size) - read <= qs
  }

  /** The corrected check asks for at least the room the record takes. */
  lemma EnoughSpaceBounds(qs: nat, read: nat, write: nat, size: nat)
    requires qs > 0 && read <= write && EnoughSpace(qs, read, write, size)
    ensures HEADER + size <= qs && End(qs, write, size) - read <= qs
    ensures EnoughSpaceAsWritten(qs, read, write, size)
  {
  }

  function Fill(b: byte, n: nat): (r: seq<byte>)
    ensures |r| == n && forall i :: 0 <= i < n ==> r[i] == b
  {
    seq(n, _ => b)
  }

  /** `alloc(size)` on the buffer: the padding, then the size header. */
  function Reserve(buf: seq<byte>, qs: nat, w: nat, len: nat): (b: seq<byte>)
    requires Geometry(qs) && |buf| == qs && HEADER + len <= qs
    ensures |b| == qs
    ensures forall i :: 0 <= i < qs ==>
      b[i] == (var s := Start(qs, w, len) % qs;
               if s <= i < s + HEADER then Word32(len)[i - s]
               else if Pad(qs, w, len) > 0 && w % qs <= i then PAD_BYTE
               else buf[i])
  {
    StartIndex(qs, w, len);
    var s := Start(qs, w, len) % qs;
    var h := Word32(len);
    var b := Place(Padded(buf, qs, w, len), s, h);
    assert forall i :: s <= i < s + HEADER ==> b[i] == b[s..s + HEADER][i - s];
    b
  }

  /** `alloc`'s padding loop: 0xFF from `w`'s index to the end, when the record would cross it. */
  function Padded(buf: seq<byte>, qs: nat, w: nat, len: nat): (b: seq<byte>)
    requires qs > 0 && |buf| == qs
    ensures |b| == qs
    ensures forall i :: 0 <= i < qs ==> b[i] == if Pad(qs, w, len) > 0 && w % qs <= i then PAD_BYTE else buf[i]
  {
    var rw := w % qs;
    if Pad(qs, w, len) > 0 then buf[..rw] + Fill(PAD_BYTE, qs - rw) else buf
  }

  /** The message constructor writing its bytes at `at`. */
  function Place(buf: seq<byte>, at: nat, m: seq<byte>): (b: seq<byte>)
    requires at + |m| <= |buf|
    ensures |b| == |buf|
    ensures b[at..at + |m|] == m
    ensures forall i :: 0 <= i < |buf| && !(at <= i < at + |m|) ==> b[i] == buf[i]
  {
    buf[..at] + m + buf[at + |m|..]
  }

  /** Placing at `at` leaves what lies below `at` as it was. */
  lemma PlacePrefix(buf: seq<byte>, at: nat, m: seq<byte>)
    requires at + |m| <= |buf|
    ensures Place(buf, at, m)[..at] == buf[..at]
  {
  }

  /** The address `alloc` returns: the index just after the header. */
  function Address(qs: nat, w: nat, len: nat): nat
    requires qs > 0
  {
    (Start(qs, w, len) + HEADER) % qs
  }

  /** The record's bytes end inside the buffer, after its header. */
  lemma AddressFits(qs: nat, w: nat, len: nat)
    requires Geometry(qs) && HEADER + len <= qs
    ensures Address(qs, w, len) + len <= qs
  {
    StartIndex(qs, w, len);
    if 0 < len {
      ModOffset(Start(qs, w, len), HEADER, qs);
    }
  }

  /** The ring after `alloc(|m|)` at `w` and the constructor of `m` at the address it returns. */
  function Enqueue(buf: seq<byte>, qs: nat, w: nat, m: seq<byte>): (b: seq<byte>)
    requires Geometry(qs) && |buf| == qs && HEADER + |m| <= qs
    ensures |b| == qs
  {
    AddressFits(qs, w, |m|);
    Place(Reserve(buf, qs, w, |m|), Address(qs, w, |m|), m)
  }

  // ---------------------------------------------------------------------
  // The layout of the unread part
  // ---------------------------------------------------------------------

  function ReadWord(buf: seq<byte>, i: nat): nat
    requires i + HEADER <= |buf|
  {
    WordValue(buf[i..i + HEADER])
  }

  /** The record of message `m` is in place at position `w`, as `alloc` and the constructor leave it. */
  predicate Record(buf: seq<byte>, qs: nat, w: nat, m: seq<byte>)
    requires Geometry(qs) && |buf| == qs
  {
    var s := Start(qs, w, |m|) % qs;
    0 < |m| && HEADER + |m| <= qs && s + HEADER + |m| <= qs &&
    (Pad(qs, w, |m|) > 0 ==> forall j :: w % qs <= j < qs ==> buf[j] == PAD_BYTE) &&
    buf[s..s + HEADER] == Word32(|m|) &&
    buf[s + HEADER..s + HEADER + |m|] == m
  }

  /** The unread part `[r, w)` holds the records of `ps`, oldest first. */
  predicate Layout(buf: seq<byte>, qs: nat, r: nat, w: nat, ps: seq<seq<byte>>)
    requires Geometry(qs) && |buf| == qs
    decreases |ps|
  {
    if ps == [] then r == w
    else
      Record(buf, qs, r, ps[0]) && End(qs, r, |ps[0]|) <= w &&
      Layout(buf, qs, End(qs, r, |ps[0]|), w, ps[1..])
  }

  /** The bytes at the positions `[r, w)` are the same in both buffers. */
  predicate Agree(buf: seq<byte>, buf': seq<byte>, qs: nat, r: nat, w: nat)
    requires qs > 0 && |buf| == qs && |buf'| == qs
  {
    forall p :: r <= p < w ==> buf'[p % qs] == buf[p % qs]
  }

  /** `alloc` and the constructor together leave the new record in place. */
  lemma ReservePlaceRecord(buf: seq<byte>, qs: nat, w: nat, m: seq<byte>)
    requires Geometry(qs) && |buf| == qs && 0 < |m| && HEADER + |m| <= qs && End(qs, w, |m|) - w <= qs
    ensures Address(qs, w, |m|) == Start(qs, w, |m|) % qs + HEADER
    ensures Address(qs, w, |m|) + |m| <= qs
    ensures Record(Place(Reserve(buf, qs, w, |m|), Address(qs, w, |m|), m), qs, w, m)
  {
    StartIndex(qs, w, |m|);
    var s := Start(qs, w, |m|) % qs;
    ModOffset(Start(qs, w, |m|), HEADER, qs);
    var r := Reserve(buf, qs, w, |m|);
    var b := Place(r, s + HEADER, m);
    assert b[s..s + HEADER] == r[s..s + HEADER];
    if Pad(qs, w, |m|) > 0 {
      forall j | w % qs <= j < qs
        ensures b[j] == PAD_BYTE
      {
        assert r[j] == PAD_BYTE;
      }
    }
  }

  /** An unread position's index is neither padding nor part of the new record. */
  lemma UnreadIndexUntouched(qs: nat, r: nat, w: nat, len: nat, p: nat)
    requires qs > 0 && HEADER + len <= qs && r <= p < w && End(qs, w, len) - r <= qs
    ensures var s := Start(qs, w, len) % qs;
      !(s <= p % qs < s + HEADER + len) && !(Pad(qs, w, len) > 0 && w % qs <= p % qs)
  {
    UnreadOutsidePad(qs, r, w, len, p);
    UnreadOutsideRecord(qs, r, w, len, p);
  }

  /** An unread position's index lies outside the padding `alloc` writes. */
  lemma UnreadOutsidePad(qs: nat, r: nat, w: nat, len: nat, p: nat)
    requires qs > 0 && r <= p < w && End(qs, w, len) - r <= qs
    ensures !(Pad(qs, w, len) > 0 && w % qs <= p % qs)
  {
    var i := p % qs;
    if Pad(qs, w, len) > 0 && w % qs <= i {
      var q := w + (i - w % qs);
      ModOffset(w, i - w % qs, qs);
      ModDistinct(p, q, qs);
      assert false;
    }
  }

  /** An unread position's index lies outside the record `alloc` reserves. */
  lemma UnreadOutsideRecord(qs: nat, r: nat, w: nat, len: nat, p: nat)
    requires qs > 0 && HEADER + len <= qs && r <= p < w && End(qs, w, len) - r <= qs
    ensures var s := Start(qs, w, len) % qs; !(s <= p % qs < s + HEADER + len)
  {
    var st := Start(qs, w, len);
    var s := st % qs;
    var i := p % qs;
    StartIndex(qs, w, len);
    if s <= i < s + HEADER + len {
      var q := st + (i - s);
      ModOffset(st, i - s, qs);
      ModDistinct(p, q, qs);
      assert false;
    }
  }

  /** `alloc` and the constructor change no index that an unread position occupies. */
  lemma ReservePlaceAgree(buf: seq<byte>, qs: nat, r: nat, w: nat, m: seq<byte>)
    requires Geometry(qs) && |buf| == qs && 0 < |m| && r <= w && End(qs, w, |m|) - r <= qs
    ensures HEADER + |m| <= qs && Address(qs, w, |m|) + |m| <= qs
    ensures Agree(buf, Place(Reserve(buf, qs, w, |m|), Address(qs, w, |m|), m), qs, r, w)
  {
    StartIndex(qs, w, |m|);
    ReservePlaceRecord(buf, qs, w, m);
    var s := Start(qs, w, |m|) % qs;
    var a := Address(qs, w, |m|);
    var rs := Reserve(buf, qs, w, |m|);
    var b := Place(rs, a, m);
    forall p | r <= p < w
      ensures b[p % qs] == buf[p % qs]
    {
      UnreadIndexUntouched(qs, r, w, |m|, p);
      var i := p % qs;
      assert b[i] == rs[i];
    }
  }

  /** A record survives any change outside the positions it occupies. */
  lemma RecordFrame(buf: seq<byte>, buf': seq<byte>, qs: nat, r: nat, m: seq<byte>, w: nat)
    requires Geometry(qs) && |buf| == qs && |buf'| == qs
    requires Record(buf, qs, r, m) && End(qs, r, |m|) <= w && Agree(buf, buf', qs, r, w)
    ensures Record(buf', qs, r, m)
  {
    StartIndex(qs, r, |m|);
    var st := Start(qs, r, |m|);
    var s := st % qs;
    forall j | s <= j < s + HEADER + |m|
      ensures buf'[j] == buf[j]
    {
      AgreeAt(buf, buf', qs, r, w, st, j - s);
    }
    assert buf'[s..s + HEADER] == buf[s..s + HEADER];
    assert buf'[s + HEADER..s + HEADER + |m|] == buf[s + HEADER..s + HEADER + |m|];
    if Pad(qs, r, |m|) > 0 {
      forall j | r % qs <= j < qs
        ensures buf'[j] == buf[j]
      {
        AgreeAt(buf, buf', qs, r, w, r, j - r % qs);
      }
    }
  }

  /** Agreeing buffers agree at the index `j` places past position `base`, within one lap. */
  lemma AgreeAt(buf: seq<byte>, buf': seq<byte>, qs: nat, r: nat, w: nat, base: nat, j: nat)
    requires qs > 0 && |buf| == qs && |buf'| == qs && Agree(buf, buf', qs, r, w)
    requires base % qs + j < qs && r <= base + j < w
    ensures buf'[base % qs + j] == buf[base % qs + j]
  {
    ModOffset(base, j, qs);
    var p := base + j;
    assert buf'[p % qs] == buf[p % qs];
  }

  /** The unread records survive any change outside the unread positions. */
  lemma {:induction false} LayoutFrame(buf: seq<byte>, buf': seq<byte>, qs: nat, r: nat, w: nat, ps: seq<seq<byte>>)
    requires Geometry(qs) && |buf| == qs && |buf'| == qs
    requires Layout(buf, qs, r, w, ps) && Agree(buf, buf', qs, r, w)
    ensures Layout(buf', qs, r, w, ps)
    decreases |ps|
  {
    if ps != [] {
      var e := End(qs, r, |ps[0]|);
      RecordFrame(buf, buf', qs, r, ps[0], w);
      LayoutFrame(buf, buf', qs, e, w, ps[1..]);
    }
  }

  /** A record written at `w` becomes the newest unread message. */
  lemma {:induction false} LayoutAppend(buf: seq<byte>, qs: nat, r: nat, w: nat, ps: seq<seq<byte>>, m: seq<byte>)
    requires Geometry(qs) && |buf| == qs
    requires Layout(buf, qs, r, w, ps) && Record(buf, qs, w, m)
    ensures Layout(buf, qs, r, End(qs, w, |m|), ps + [m])
    decreases |ps|
  {
    if ps == [] {
      assert [] + [m] == [m];
      assert [m][1..] == [];
    } else {
      var e := End(qs, r, |ps[0]|);
      LayoutAppend(buf, qs, e, w, ps[1..], m);
      assert (ps + [m])[0] == ps[0];
      assert (ps + [m])[1..] == ps[1..] + [m];
      LayoutEnds(buf, qs, e, w, ps[1..]);
    }
  }

  /** The unread records never run past `w`. */
  lemma {:induction false} LayoutEnds(buf: seq<byte>, qs: nat, r: nat, w: nat, ps: seq<seq<byte>>)
    requires Geometry(qs) && |buf| == qs && Layout(buf, qs, r, w, ps)
    ensures r <= w
    decreases |ps|
  {
    if ps != [] {
      LayoutEnds(buf, qs, End(qs, r, |ps[0]|), w, ps[1..]);
    }
  }

  /**
   * The untimed send: with the corrected space check, reserving,
   * constructing and advancing `write` appends the message to the unread
   * records and keeps the ring within one lap.
   */
  lemma SendAppends(buf: seq<byte>, qs: nat, r: nat, w: nat, ps: seq<seq<byte>>, m: seq<byte>)
    requires Geometry(qs) && |buf| == qs && Layout(buf, qs, r, w, ps)
    requires 0 < |m| && EnoughSpace(qs, r, w, |m|)
    ensures HEADER + |m| <= qs && Address(qs, w, |m|) + |m| <= qs
    ensures var b := Place(Reserve(buf, qs, w, |m|), Address(qs, w, |m|), m);
      Layout(b, qs, r, End(qs, w, |m|), ps + [m]) && End(qs, w, |m|) - r <= qs
  {
    LayoutEnds(buf, qs, r, w, ps);
    ReservePlaceRecord(buf, qs, w, m);
    ReservePlaceAgree(buf, qs, r, w, m);
    var b := Place(Reserve(buf, qs, w, |m|), Address(qs, w, |m|), m);
    LayoutFrame(buf, b, qs, r, w, ps);
    LayoutAppend(b, qs, r, w, ps, m);
  }

  // ---------------------------------------------------------------------
  // Where the reader finds a record
  // ---------------------------------------------------------------------

  /**
   * The corrected skip in `dispatch`: when fewer bytes than a header are
   * left before the end, the next record starts at index 0.
   */
  function Skip(qs: nat, r: nat): (r': nat)
    requires qs > 0
    ensures r' % qs + HEADER <= qs || r' % qs == 0
  {
    var rr := r % qs;
    if qs - rr < HEADER then
      ModBoundary(r, qs);
      r + (qs - rr)
    else r
  }

  /** The skip as written: one byte, and only when a single byte is left. */
  function SkipAsWritten(qs: nat, r: nat): nat
    requires qs > 0
  {
    if qs - r % qs < 2 then r + 1 else r
  }

  /** Where `dispatch` reads the size header: past the skip, and past a padding run. */
  function HeaderAt(buf: seq<byte>, qs: nat, r: nat): (h: nat)
    requires Geometry(qs) && |buf| == qs
    ensures h % qs + HEADER <= qs
  {
    var r1 := Skip(qs, r);
    if ReadWord(buf, r1 % qs) == PAD_WORD then
      ModBoundary(r1, qs);
      r1 + (qs - r1 % qs)
    else r1
  }

  lemma PadWord()
    ensures WordValue([PAD_BYTE, PAD_BYTE, PAD_BYTE, PAD_BYTE]) == PAD_WORD
  {
  }

  /**
   * The reader agrees with the writer: at the position of an unread
   * record it finds the record's header, reads the message's length, and
   * the message's bytes follow.
   */
  lemma ReaderFindsRecord(buf: seq<byte>, qs: nat, r: nat, m: seq<byte>)
    requires Geometry(qs) && |buf| == qs && Record(buf, qs, r, m)
    ensures HeaderAt(buf, qs, r) == Start(qs, r, |m|)
    ensures ReadWord(buf, HeaderAt(buf, qs, r) % qs) == |m|
    ensures (HeaderAt(buf, qs, r) + HEADER) % qs == HeaderAt(buf, qs, r) % qs + HEADER
    ensures HeaderAt(buf, qs, r) % qs + HEADER + |m| <= qs
    ensures buf[(HeaderAt(buf, qs, r) + HEADER) % qs..(HeaderAt(buf, qs, r) + HEADER) % qs + |m|] == m
  {
    StartIndex(qs, r, |m|);
    var st := Start(qs, r, |m|);
    var s := st % qs;
    HeaderRoundTrip(|m|);
    assert ReadWord(buf, s) == |m| != PAD_WORD;
    var rr := r % qs;
    if Pad(qs, r, |m|) > 0 {
      ModBoundary(r, qs);
      assert s == 0 && st == r + (qs - rr);
      if qs - rr >= HEADER {
        assert buf[rr..rr + HEADER] == [PAD_BYTE, PAD_BYTE, PAD_BYTE, PAD_BYTE];
        PadWord();
        assert Skip(qs, r) == r;
        assert ReadWord(buf, rr) == PAD_WORD;
      } else {
        assert Skip(qs, r) == st;
      }
    } else {
      assert Skip(qs, r) == r == st;
    }
    assert HeaderAt(buf, qs, r) == st;
    ModOffset(st, HEADER, qs);
  }

  /**
   * `dispatch` on a ring holding the records of `ps`: the header it finds
   * gives the oldest message's length, the bytes after it are that
   * message, and they end where the oldest record ends.
   */
  lemma NextRecord(buf: seq<byte>, qs: nat, r: nat, w: nat, ps: seq<seq<byte>>)
    requires Geometry(qs) && |buf| == qs && Layout(buf, qs, r, w, ps) && ps != []
    ensures var h := HeaderAt(buf, qs, r);
      var a := (h + HEADER) % qs;
      a == h % qs + HEADER && a + |ps[0]| <= qs &&
      ReadWord(buf, h % qs) == |ps[0]| &&
      buf[a..a + |ps[0]|] == ps[0] &&
      h + HEADER + |ps[0]| == End(qs, r, |ps[0]|)
  {
    ReaderFindsRecord(buf, qs, r, ps[0]);
  }

  /** Past the oldest record lie the records of the rest. */
  lemma LayoutRest(buf: seq<byte>, qs: nat, r: nat, w: nat, ps: seq<seq<byte>>)
    requires Geometry(qs) && |buf| == qs && Layout(buf, qs, r, w, ps) && ps != []
    ensures Layout(buf, qs, End(qs, r, |ps[0]|), w, ps[1..])
  {
  }

  // ---------------------------------------------------------------------
  // Findings
  // ---------------------------------------------------------------------

  /**
   * `enoughSpace` as written lets a record overwrite unread data, and lets
   * `alloc` write past the end of the buffer. In a 16-byte ring whose one
   * unread record of 4 bytes starts at index 0 (`read` 0, `write` 8), a
   * 6-byte message passes the check; `alloc` pads to the end and writes
   * the new header over the unread one. In an empty 16-byte ring, a
   * 14-byte message passes the check, though header and bytes take 18.
   */
  lemma EnoughSpaceAsWrittenOverwrites(buf: seq<byte>, m: seq<byte>)
    requires |buf| == 16 && |m| == 4 && Record(buf, 16, 0, m)
    ensures Layout(buf, 16, 0, 8, [m])
    ensures EnoughSpaceAsWritten(16, 0, 8, 6) && !EnoughSpace(16, 0, 8, 6)
    ensures ReadWord(buf, 0) == 4 && ReadWord(Reserve(buf, 16, 8, 6), 0) == 6
    ensures EnoughSpaceAsWritten(16, 0, 0, 14) && HEADER + 14 > 16
  {
    OneRecord(buf, m);
    HeaderOverwritten(buf);
  }

  /** The ring of the example: one unread 4-byte record at index 0. */
  lemma OneRecord(buf: seq<byte>, m: seq<byte>)
    requires |buf| == 16 && |m| == 4 && Record(buf, 16, 0, m)
    ensures Layout(buf, 16, 0, 8, [m]) && ReadWord(buf, 0) == 4
  {
    assert [m][1..] == [];
    HeaderRoundTrip(4);
  }

  /** Reserving 6 bytes at `write` 8 of a 16-byte ring puts the new header at index 0. */
  lemma HeaderOverwritten(buf: seq<byte>)
    requires |buf| == 16
    ensures ReadWord(Reserve(buf, 16, 8, 6), 0) == 6
  {
    assert Pad(16, 8, 6) == 8 && Start(16, 8, 6) % 16 == 0;
    var r := Reserve(buf, 16, 8, 6);
    assert r == Place(Padded(buf, 16, 8, 6), 0, Word32(6));
    assert r[0..4] == Word32(6);
    HeaderRoundTrip(6);
  }

  /**
   * The skip as written reads a header across the end of the buffer.
   * A 4-byte message sent when `write` is at index 14 of a 16-byte ring
   * is padded by two bytes and starts at index 0; at index 14 the
   * as-written skip does not move, and the four-byte header read there
   * runs two bytes past the end. The corrected skip lands on the record.
   */
  lemma SkipAsWrittenOverruns(buf: seq<byte>, m: seq<byte>)
    requires |buf| == 16 && |m| == 4
    ensures var b := Place(Reserve(buf, 16, 14, 4), Address(16, 14, 4), m);
      Layout(b, 16, 14, 24, [m]) &&
      SkipAsWritten(16, 14) % 16 + HEADER > 16 &&
      HeaderAt(b, 16, 14) == 16
  {
    var b := Place(Reserve(buf, 16, 14, 4), Address(16, 14, 4), m);
    ReservePlaceRecord(buf, 16, 14, m);
    assert [m][1..] == [];
    ReaderFindsRecord(b, 16, 14, m);
  }
}
