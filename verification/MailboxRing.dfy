/** Ring buffer of one page that is mapped twice in a row, and the messages packed into it
    (src/ipc/mailbox.h). */
module MailboxRing {
  import opened Words

  const RING_SIZE: int := 4096
  const HEADER_SIZE: int := 9
  const MAX_MESSAGE_SIZE: int := 255

  type byte = b: int | 0 <= b < 256

  // ---------- the page seen through both mappings ----------

  /** `n` bytes from address `a` on, counted from the start of the first mapping. */
  ghost function Window(r: seq<byte>, a: nat, n: nat): (w: seq<byte>)
    requires |r| == RING_SIZE
    ensures |w| == n
  {
    seq<byte>(n, k requires 0 <= k < n => r[(a + k) % RING_SIZE])
  }

  /** Bytes are written from address `a` on. */
  ghost function Overlay(r: seq<byte>, a: nat, bytes: seq<byte>): (r': seq<byte>)
    requires |r| == RING_SIZE
    ensures |r'| == RING_SIZE
  {
    seq<byte>(RING_SIZE, j requires 0 <= j < RING_SIZE =>
      if (j - a) % RING_SIZE < |bytes| then bytes[(j - a) % RING_SIZE] else r[j])
  }

  lemma Offset(a: nat, k: nat, c: nat)
    ensures ((a + k) % RING_SIZE - c) % RING_SIZE == (a + k - c) % RING_SIZE
  {
    var m := (a + k) / RING_SIZE;
    assert a + k - c == (a + k) % RING_SIZE - c + m * RING_SIZE;
    ShiftByRings((a + k) % RING_SIZE - c, m);
  }

  lemma ShiftByRings(x: int, m: nat)
    ensures (x + m * RING_SIZE) % RING_SIZE == x % RING_SIZE
  {
  }

  /** Offsets of a window relative to the start of what was written. */
  lemma Inside(x: int)
    ensures 0 <= x < RING_SIZE ==> x % RING_SIZE == x
    ensures -RING_SIZE <= x < 0 ==> x % RING_SIZE == x + RING_SIZE
  {
  }

  /** What was written is read back. */
  lemma WrittenWindow(r: seq<byte>, a: nat, bytes: seq<byte>)
    requires |r| == RING_SIZE && |bytes| <= RING_SIZE
    ensures Window(Overlay(r, a, bytes), a, |bytes|) == bytes
  {
    forall k | 0 <= k < |bytes| ensures Window(Overlay(r, a, bytes), a, |bytes|)[k] == bytes[k] {
      Offset(a, k, a);
      Inside(k);
    }
  }

  /** Bytes behind a window are written without disturbing it, as long as both fit into the ring. */
  lemma KeptWindow(r: seq<byte>, h: nat, n: nat, a: nat, bytes: seq<byte>)
    requires |r| == RING_SIZE && n + |bytes| <= RING_SIZE && a % RING_SIZE == (h + n) % RING_SIZE
    ensures Window(Overlay(r, a, bytes), h, n) == Window(r, h, n)
  {
    forall k | 0 <= k < n ensures Window(Overlay(r, a, bytes), h, n)[k] == Window(r, h, n)[k] {
      Offset(h, k, a);
      SameStart(h + k, a, h + n);
      Inside(k - n);
    }
  }

  lemma SameStart(x: int, a: nat, b: nat)
    requires a % RING_SIZE == b % RING_SIZE
    ensures (x - a) % RING_SIZE == (x - b) % RING_SIZE
  {
    var m := a / RING_SIZE - b / RING_SIZE;
    assert x - b == (x - a) + m * RING_SIZE;
    if m >= 0 { ShiftByRings(x - a, m); } else { ShiftByRings(x - b, -m); }
  }

  /** A window is overwritten in its middle. */
  lemma MiddleWindow(r: seq<byte>, h: nat, n: nat, s: nat, bytes: seq<byte>)
    requires |r| == RING_SIZE && n <= RING_SIZE && s + |bytes| <= n
    ensures Window(Overlay(r, h + s, bytes), h, n) == Window(r, h, n)[..s] + bytes + Window(r, h, n)[s + |bytes|..]
  {
    forall k | 0 <= k < n
      ensures Window(Overlay(r, h + s, bytes), h, n)[k] ==
        if s <= k < s + |bytes| then bytes[k - s] else Window(r, h, n)[k]
    {
      Offset(h, k, h + s);
      Inside(k - s);
    }
  }

  lemma WindowParts(r: seq<byte>, h: nat, n: nat, s: nat, m: nat)
    requires |r| == RING_SIZE && s + m <= n
    ensures Window(r, h + s, m) == Window(r, h, n)[s..s + m]
  {
  }

  /** Addresses a ring apart see the same bytes. */
  lemma SameWindow(r: seq<byte>, a: nat, b: nat, n: nat)
    requires |r| == RING_SIZE && a % RING_SIZE == b % RING_SIZE
    ensures Window(r, a, n) == Window(r, b, n)
  {
    forall k | 0 <= k < n ensures Window(r, a, n)[k] == Window(r, b, n)[k] {
      Congruent(a, b, k);
    }
  }

  lemma Congruent(a: nat, b: nat, k: nat)
    requires a % RING_SIZE == b % RING_SIZE
    ensures (a + k) % RING_SIZE == (b + k) % RING_SIZE
  {
    var m := a / RING_SIZE - b / RING_SIZE;
    assert a + k == (b + k) + m * RING_SIZE;
    if m >= 0 { ShiftByRings(b + k, m); } else { ShiftByRings(a + k, -m); }
  }

  lemma WindowJoins(r: seq<byte>, a: nat, n: nat, m: nat)
    requires |r| == RING_SIZE
    ensures Window(r, a, n + m) == Window(r, a, n) + Window(r, a + n, m)
  {
  }

  // ---------- messages as bytes ----------

  datatype Header = Header(sender: u32, reader: u32, size: byte)

  datatype Message = Message(sender: u32, reader: u32, data: seq<byte>)

  /** Four bytes, the low one first. */
  function Bytes32(x: u32): (b: seq<byte>)
    ensures |b| == 4
  {
    [x % 256, x / 256 % 256, x / 65536 % 256, x / 16777216]
  }

  function Word32(b: seq<byte>): u32
    requires |b| == 4
  {
    var b0: int, b1: int, b2: int, b3: int := b[0], b[1], b[2], b[3];
    b0 + 256 * b1 + 65536 * b2 + 16777216 * b3
  }

  lemma WordRoundTrip(x: u32)
    ensures Word32(Bytes32(x)) == x
  {
    var x1 := x / 256;
    var x2 := x1 / 256;
    assert x / 65536 == x2 && x / 16777216 == x2 / 256;
    assert x == 256 * x1 + x % 256 && x1 == 256 * x2 + x1 % 256 && x2 == 256 * (x2 / 256) + x2 % 256;
  }

  function HeaderBytes(h: Header): (b: seq<byte>)
    ensures |b| == HEADER_SIZE
  {
    Bytes32(h.sender) + Bytes32(h.reader) + [h.size]
  }

  function ParseHeader(b: seq<byte>): Header
    requires |b| == HEADER_SIZE
  {
    Header(Word32(b[..4]), Word32(b[4..8]), b[8])
  }

  lemma HeaderRoundTrip(h: Header)
    ensures ParseHeader(HeaderBytes(h)) == h
  {
    hide Bytes32, Word32;
    WordRoundTrip(h.sender);
    WordRoundTrip(h.reader);
    assert HeaderBytes(h)[..4] == Bytes32(h.sender) && HeaderBytes(h)[4..8] == Bytes32(h.reader);
  }

  /** Where the parts of a header are: sender, reader and length, without gaps, the low bytes first. */
  lemma HeaderLayout(b: seq<byte>)
    requires |b| == 9
    ensures var h := ParseHeader(b);
      && h.sender == (b[0] as int) + 0x100 * (b[1] as int) + 0x1_0000 * (b[2] as int) + 0x100_0000 * (b[3] as int)
      && h.reader == (b[4] as int) + 0x100 * (b[5] as int) + 0x1_0000 * (b[6] as int) + 0x100_0000 * (b[7] as int)
      && h.size == b[8]
  {
  }

  /** A message in the ring; one that was read before its predecessors stays as a gap. A message
      without sender and reader counts as read from the start. */
  datatype Slot = Slot(message: Message, read: bool)

  ghost predicate Sound(s: Slot) {
    |s.message.data| <= MAX_MESSAGE_SIZE && (s.read || s.message.sender != 0 || s.message.reader != 0)
  }

  ghost function SlotHeader(s: Slot): Header
    requires Sound(s)
  {
    if s.read then Header(0, 0, |s.message.data|) else Header(s.message.sender, s.message.reader, |s.message.data|)
  }

  ghost function SlotSize(s: Slot): nat {
    HEADER_SIZE + |s.message.data|
  }

  ghost function SlotBytes(s: Slot): (b: seq<byte>)
    requires Sound(s)
    ensures |b| == SlotSize(s)
  {
    HeaderBytes(SlotHeader(s)) + s.message.data
  }

  ghost predicate AllSound(slots: seq<Slot>) {
    forall k :: 0 <= k < |slots| ==> Sound(slots[k])
  }

  ghost function Bytes(slots: seq<Slot>): seq<byte>
    requires AllSound(slots)
  {
    if slots == [] then [] else SlotBytes(slots[0]) + Bytes(slots[1..])
  }

  lemma {:induction false} BytesJoin(a: seq<Slot>, b: seq<Slot>)
    requires AllSound(a) && AllSound(b)
    ensures AllSound(a + b) && Bytes(a + b) == Bytes(a) + Bytes(b)
  {
    hide SlotBytes, Sound;
    if a == [] {
      assert a + b == b;
    } else {
      BytesJoin(a[1..], b);
      assert (a + b)[1..] == a[1..] + b;
    }
  }

  lemma BytesOne(s: Slot)
    requires Sound(s)
    ensures AllSound([s]) && Bytes([s]) == SlotBytes(s)
  {
    hide SlotBytes, Sound;
    assert Bytes([]) == [];
  }

  lemma SoundParts(slots: seq<Slot>, i: nat)
    requires AllSound(slots) && i < |slots|
    ensures AllSound(slots[..i]) && AllSound(slots[i + 1..]) && AllSound(slots[..i + 1]) && Sound(slots[i])
    ensures slots[..i + 1] == slots[..i] + [slots[i]] && slots == slots[..i + 1] + slots[i + 1..]
  {
    hide Sound;
  }

  /** Where slot `i` is in the bytes. */
  lemma BytesAround(slots: seq<Slot>, i: nat)
    requires AllSound(slots) && i < |slots|
    ensures AllSound(slots[..i]) && AllSound(slots[i + 1..]) && AllSound(slots[..i + 1]) && Sound(slots[i])
    ensures Bytes(slots) == Bytes(slots[..i]) + SlotBytes(slots[i]) + Bytes(slots[i + 1..])
    ensures Bytes(slots[..i + 1]) == Bytes(slots[..i]) + SlotBytes(slots[i])
  {
    hide SlotBytes, Sound, Bytes, AllSound;
    SoundParts(slots, i);
    BytesOne(slots[i]);
    BytesJoin(slots[..i], [slots[i]]);
    BytesJoin(slots[..i + 1], slots[i + 1..]);
  }

  lemma SlotHeaderBytes(s: Slot)
    requires Sound(s)
    ensures ParseHeader(SlotBytes(s)[..HEADER_SIZE]) == SlotHeader(s)
    ensures SlotBytes(s)[HEADER_SIZE..] == s.message.data && SlotHeader(s).size == |s.message.data|
  {
    hide HeaderBytes;
    HeaderRoundTrip(SlotHeader(s));
    assert SlotBytes(s)[..HEADER_SIZE] == HeaderBytes(SlotHeader(s));
  }

  /** Zeroing the first eight bytes of a slot marks it as read. */
  lemma ReadBytes(s: Slot)
    requires Sound(s)
    ensures SlotBytes(s.(read := true)) == seq(8, _ => 0) + SlotBytes(s)[8..]
  {
    assert HeaderBytes(SlotHeader(s.(read := true)))[..8] == seq(8, _ => 0);
  }
}
