/** The mailbox of a process (src/ipc/mailbox.c). */
module Mailboxes {
  import opened Words
  import opened MailboxRing

  /** Address-space and thread parts of an identifier. */
  function AidOf(pid: u32): u16 {
    pid / TWO_TO_THE_16
  }

  function TidOf(pid: u32): u16 {
    pid % TWO_TO_THE_16
  }

  /** Zero in a message matches nothing, zero as a target matches any other; without a thread part
      in the message the address spaces are compared. */
  predicate MatchPid(fieldPid: u32, targetPid: u32): (matches: bool)
    ensures matches <==>
      && fieldPid != 0
      && (targetPid == 0 || targetPid == fieldPid
          || (fieldPid % 0x1_0000 == 0 && fieldPid <= targetPid < fieldPid + 0x1_0000))
  {
    if fieldPid == 0 then false
    else if targetPid == 0 then true
    else if TidOf(fieldPid) == 0 then AidOf(fieldPid) == AidOf(targetPid)
    else fieldPid == targetPid
  }

  predicate Matches(h: Header, sender: u32, reader: u32) {
    MatchPid(h.sender, sender) && MatchPid(h.reader, reader)
  }

  /** Both ends are in the first mapping, and the tail is `used` bytes behind the head. */
  predicate RingEnds(head: nat, tail: nat, used: nat) {
    head < RING_SIZE && tail < RING_SIZE && tail == (head + used) % RING_SIZE
  }

  /** `page_ptr`: the start of a page. */
  function PagePtr(addr: nat): nat {
    addr / RING_SIZE * RING_SIZE
  }

  /** An address on the second mapping is moved to the first one. */
  method OffCopyPage(addr: nat) returns (a: nat)
    requires addr < 2 * RING_SIZE
    ensures a == addr % RING_SIZE
  {
    a := addr;
    if PagePtr(addr) == RING_SIZE {
      a := addr % RING_SIZE;
    }
  }

  lemma TailMoves(head: nat, tail: nat, used: nat, n: nat)
    requires RingEnds(head, tail, used)
    ensures RingEnds(head, (tail + n) % RING_SIZE, used + n)
    ensures head < RING_SIZE && tail < RING_SIZE && tail % RING_SIZE == (head + used) % RING_SIZE
  {
    Congruent(tail, head + used, n);
  }

  lemma HeadMoves(head: nat, tail: nat, used: nat, n: nat)
    requires RingEnds(head, tail, used) && n <= used
    ensures RingEnds((head + n) % RING_SIZE, tail, used - n) && head < RING_SIZE
  {
    Congruent((head + n) % RING_SIZE, head + n, used - n);
  }

  class Mailbox {
    /** The bytes of the page; addresses count from its first mapping, the second one follows. */
    const ring: array<byte>
    var head: nat
    var tail: nat
    var usedSize: u16

    ghost var slots: seq<Slot>

    ghost predicate Valid()
      reads this, ring
    {
      && ring.Length == RING_SIZE && AllSound(slots)
      && usedSize == |Bytes(slots)| <= RING_SIZE && RingEnds(head, tail, usedSize)
      && Window(ring[..], head, usedSize) == Bytes(slots)
    }

    /** The messages that can still be read, oldest first. */
    ghost function Unread(): seq<Message>
      reads this
    {
      Pending(slots)
    }

    constructor ()
      ensures Valid() && slots == [] && Unread() == [] && usedSize == 0 && fresh(ring)
    {
      ring := new byte[RING_SIZE];
      head, tail, usedSize, slots := 0, 0, 0, [];
    }

    /** A byte of the two mapped pages. */
    method Load(addr: nat) returns (b: byte)
      requires ring.Length == RING_SIZE && addr < 2 * RING_SIZE
      ensures b == ring[addr % RING_SIZE]
    {
      b := ring[addr % RING_SIZE];
    }

    method CopyIn(addr: nat, bytes: seq<byte>)
      requires ring.Length == RING_SIZE && addr + |bytes| <= 2 * RING_SIZE && |bytes| <= RING_SIZE
      modifies ring
      ensures ring[..] == Overlay(old(ring[..]), addr, bytes)
    {
      var i := 0;
      ghost var r := ring[..];
      while i < |bytes|
        invariant 0 <= i <= |bytes| && ring[..] == Overlay(r, addr, bytes[..i])
      {
        OverlayGrows(r, addr, bytes, i);
        ring[(addr + i) % RING_SIZE] := bytes[i];
        i := i + 1;
      }
      assert bytes[..i] == bytes;
    }

    method CopyOut(addr: nat, n: nat) returns (bytes: seq<byte>)
      requires ring.Length == RING_SIZE && addr + n <= 2 * RING_SIZE
      ensures bytes == Window(ring[..], addr, n)
    {
      bytes := [];
      while |bytes| < n
        invariant |bytes| <= n && bytes == Window(ring[..], addr, |bytes|)
      {
        var b := Load(addr + |bytes|);
        bytes := bytes + [b];
      }
    }

    /** Puts a message at the tail; it is refused if the page has no room for it. Without sender and
        reader it is there only to be cleaned up. */
    method SendMessage(sender: u32, reader: u32, size: byte, data: seq<byte>) returns (sent: bool)
      requires Valid() && size <= |data|
      modifies this, ring
      ensures Valid() && sent == (old(usedSize) + 9 + size <= 4096)
      ensures if sent then usedSize == old(usedSize) + 9 + size else unchanged(this) && unchanged(ring)
      ensures var lost := sender == 0 && reader == 0;
        sent ==> && slots == old(slots) + [Slot(Message(sender, reader, data[..size]), lost)]
                 && Unread() == old(Unread()) + if lost then [] else [Message(sender, reader, data[..size])]
    {
      hide HeaderBytes, ParseHeader, SlotBytes, Window, Overlay, Sound, RingEnds, AllSound, Bytes, Pending;
      TailMoves(head, tail, usedSize, HEADER_SIZE + size);
      var header := Header(sender, reader, size);
      if usedSize + HEADER_SIZE + size > RING_SIZE {
        return false;
      }
      ghost var r, m := ring[..], Slot(Message(sender, reader, data[..size]), sender == 0 && reader == 0);
      NewSound(m);
      CopyIn(tail, HeaderBytes(header));
      tail := tail + HEADER_SIZE;
      ghost var r1 := ring[..];
      CopyIn(tail, data[..size]);
      tail := tail + size;
      tail := OffCopyPage(tail);
      Appended(r, r1, ring[..], head, usedSize, old(tail), slots, m);
      usedSize := usedSize + HEADER_SIZE + size;
      PendingJoin(slots, [m]);
      PendingOne(m);
      slots := slots + [m];
      sent := true;
    }

    /** The number of bytes that are cleaned up at the head. */
    method MessageCleanup() returns (cleaned: nat)
      requires ring.Length == RING_SIZE && InPages(ring[..], usedSize, 0, 0, head)
      ensures cleaned == CleanupLoop(ring[..], usedSize, 0, 0, head) < 2 * RING_SIZE
    {
      hide Window, ParseHeader, CleanupLoop, InPages;
      cleaned := 0;
      var seen: nat, tmp: nat := 0, head;
      InPagesTurn(ring[..], usedSize, cleaned, seen, tmp);
      var bytes := CopyOut(tmp, HEADER_SIZE);
      var header := ParseHeader(bytes);
      while header.sender == 0 && header.reader == 0 && seen < usedSize
        invariant tmp == head + seen && cleaned <= seen && tmp + HEADER_SIZE <= 2 * RING_SIZE
        invariant header == ParseHeader(Window(ring[..], tmp, HEADER_SIZE))
        invariant InPages(ring[..], usedSize, cleaned, seen, tmp)
        invariant CleanupLoop(ring[..], usedSize, cleaned, seen, tmp) == CleanupLoop(ring[..], usedSize, 0, 0, head)
        decreases usedSize - seen
      {
        CleanupTurn(ring[..], usedSize, cleaned, seen, tmp);
        InPagesTurn(ring[..], usedSize, cleaned, seen, tmp);
        cleaned := cleaned + HEADER_SIZE + header.size;
        seen := seen + cleaned;
        tmp := tmp + cleaned;
        InPagesTurn(ring[..], usedSize, cleaned, seen, tmp);
        bytes := CopyOut(tmp, HEADER_SIZE);
        header := ParseHeader(bytes);
      }
      CleanupEnds(ring[..], usedSize, cleaned, seen, tmp);
    }

    /** Searches for the oldest message that matches. */
    method FindMessage(sender: u32, reader: u32) returns (seen: nat, header: Header)
      requires Valid()
      ensures var i := FirstMatch(slots, sender, reader);
        && i <= |slots| && AllSound(slots[..i]) && seen == |Bytes(slots[..i])| <= usedSize
        && (seen == usedSize <==> i == |slots|)
        && (i < |slots| ==> header == SlotHeader(slots[i]))
    {
      hide Window, Bytes, AllSound, ParseHeader, SlotHeader, SlotSize, RingEnds, Matches;
      seen, header := 0, Header(0, 0, 0);
      var current := head;
      ghost var i := 0;
      ghost var goal := FirstMatch(slots, sender, reader);
      FirstMatchFrom(slots, sender, reader, 0);
      EndsInside(head, tail, usedSize);
      NoBytes(slots);
      while seen < usedSize
        invariant 0 <= i <= |slots| && AllSound(slots[..i]) && seen == |Bytes(slots[..i])| <= usedSize
        invariant current == head + seen
        invariant seen == usedSize <==> i == |slots|
        invariant AllSound(slots[i..]) && goal == i + FirstMatch(slots[i..], sender, reader)
        decreases usedSize - seen
      {
        HeaderAt(ring[..], head, usedSize, slots, i);
        FirstMatchFrom(slots, sender, reader, i);
        var bytes := CopyOut(current, HEADER_SIZE);
        header := ParseHeader(bytes);
        if Matches(header, sender, reader) {
          return;
        }
        var total := HEADER_SIZE + header.size;
        seen := seen + total;
        current := current + total;
        i := i + 1;
      }
      FirstMatchFrom(slots, sender, reader, i);
    }

    /** Once the message is marked, the clean-up takes whole read messages and looks at mapped bytes only. */
    ghost predicate Readable(sender: u32, reader: u32)
      requires Valid()
      reads this, ring
    {
      var i := FirstMatch(slots, sender, reader);
      i < |slots| ==> Cleanable(Marked(ring[..], head, slots, i), head, usedSize, MarkedSlots(slots, i))
    }

    /** Reads the oldest message that matches and takes it out of the mailbox. */
    method ReadMessage(sender: u32, reader: u32) returns (found: bool, message: Message, ghost j: nat)
      requires Valid() && Readable(sender, reader)
      modifies this, ring
      ensures Valid() && found == (FirstMatch(old(slots), sender, reader) < |old(slots)|)
      ensures !found ==>
        unchanged(this) && unchanged(ring) && forall k :: 0 <= k < |Unread()| ==> !Wanted(Unread()[k], sender, reader)
      ensures found ==>
        var i := FirstMatch(old(slots), sender, reader);
        var marked, r := MarkedSlots(old(slots), i), Marked(old(ring[..]), old(head), old(slots), i);
        slots == marked[Taken(r, old(head), old(usedSize), marked)..]
      ensures found ==>
        && j < |old(Unread())| && message == old(Unread())[j] && Wanted(message, sender, reader)
        && (forall k :: 0 <= k < j ==> !Wanted(old(Unread())[k], sender, reader))
        && Unread() == old(Unread())[..j] + old(Unread())[j + 1..]
      ensures sender == 0 && reader == 0 ==>
        if found then
          && message.sender != 0 && message.reader != 0
          && forall k :: 0 <= k < j ==> old(Unread())[k].sender == 0 || old(Unread())[k].reader == 0
        else forall k :: 0 <= k < |Unread()| ==> Unread()[k].sender == 0 || Unread()[k].reader == 0
    {
      hide Window, Overlay, Bytes, AllSound, ParseHeader, SlotHeader, SlotSize, RingEnds, Matches, Wanted, Pending,
        FirstMatch, Cleanable, Taken;
      ghost var was, i, r := slots, FirstMatch(slots, sender, reader), ring[..];
      EndsInside(head, tail, usedSize);
      FirstWanted(slots, sender, reader);
      WantedByAny();
      var seen, header := FindMessage(sender, reader);
      if seen >= usedSize {
        return false, Message(0, 0, []), 0;
      }
      HeaderAt(r, head, usedSize, slots, i);
      var current := head + seen;
      var data := CopyOut(current + HEADER_SIZE, header.size);
      message := Message(header.sender, header.reader, data);
      j := |Pending(was[..i])|;
      found := true;
      CopyIn(current, seq(8, _ => 0));
      MarkRead(r, ring[..], head, usedSize, slots, i);
      slots := MarkedSlots(slots, i);
      PendingTaken(ring[..], head, usedSize, slots);
      CleanUp();
    }

    /** Removes read messages at the head. */
    method CleanUp()
      requires ring.Length == RING_SIZE && RingEnds(head, tail, usedSize) && Holds(ring[..], head, usedSize, slots)
      requires slots != []
      requires Cleanable(ring[..], head, usedSize, slots)
      modifies this
      ensures Valid() && slots == old(slots)[Taken(ring[..], old(head), old(usedSize), old(slots))..]
    {
      hide Window, Bytes, AllSound, ParseHeader, SlotHeader, SlotSize, RingEnds, InPages, Taken, Whole, Holds,
        CleanupLoop;
      EndsInside(head, tail, usedSize);
      DropTaken(ring[..], head, usedSize, slots);
      ghost var n := Taken(ring[..], head, usedSize, slots);
      var size := MessageCleanup();
      HeadMoves(head, tail, usedSize, size);
      usedSize := usedSize - size;
      head := head + size;
      head := OffCopyPage(head);
      slots := slots[n..];
      HeldParts(ring[..], head, usedSize, slots);
    }
  }

  // ---------- the clean-up ----------

  /** The ring holds these slots. */
  ghost predicate Holds(r: seq<byte>, head: nat, used: nat, slots: seq<Slot>) {
    |r| == RING_SIZE && AllSound(slots) && used == |Bytes(slots)| <= RING_SIZE && Window(r, head, used) == Bytes(slots)
  }

  lemma HeldParts(r: seq<byte>, head: nat, used: nat, slots: seq<Slot>)
    requires Holds(r, head, used, slots)
    ensures |r| == RING_SIZE && AllSound(slots) && used == |Bytes(slots)| <= RING_SIZE
    ensures Window(r, head, used) == Bytes(slots)
  {
    hide Window, Bytes, AllSound;
  }

  /** What the loop of the clean-up finds after two read messages ends it. It looks as far behind them
      as the first one is long. */
  ghost predicate Stops(r: seq<byte>, head: nat, used: nat, s0: nat, s1: nat)
    requires |r| == RING_SIZE
  {
    var at := s0 + s1 + s0;
    at >= used || var h := ParseHeader(Window(r, head + at, HEADER_SIZE)); h.sender != 0 || h.reader != 0
  }

  /** The loop of the clean-up: it advances by all that was cleaned so far, not by one message. */
  ghost function CleanupLoop(r: seq<byte>, used: nat, cleaned: nat, seen: nat, tmp: nat): nat
    requires |r| == RING_SIZE
    decreases used - seen
  {
    var h := ParseHeader(Window(r, tmp, HEADER_SIZE));
    if h.sender == 0 && h.reader == 0 && seen < used then
      var c := cleaned + HEADER_SIZE + h.size;
      CleanupLoop(r, used, c, seen + c, tmp + c)
    else
      cleaned
  }

  /** All headers that the loop looks at are in the two mapped pages. */
  ghost predicate InPages(r: seq<byte>, used: nat, cleaned: nat, seen: nat, tmp: nat)
    requires |r| == RING_SIZE
    decreases used - seen
  {
    && tmp + HEADER_SIZE <= 2 * RING_SIZE
    && var h := ParseHeader(Window(r, tmp, HEADER_SIZE));
       h.sender == 0 && h.reader == 0 && seen < used ==>
         var c := cleaned + HEADER_SIZE + h.size; InPages(r, used, c, seen + c, tmp + c)
  }

  lemma InPagesTurn(r: seq<byte>, used: nat, cleaned: nat, seen: nat, tmp: nat)
    requires |r| == RING_SIZE && InPages(r, used, cleaned, seen, tmp)
    ensures tmp + HEADER_SIZE <= 2 * RING_SIZE
    ensures var h := ParseHeader(Window(r, tmp, HEADER_SIZE));
      h.sender == 0 && h.reader == 0 && seen < used ==>
        var c := cleaned + HEADER_SIZE + h.size; InPages(r, used, c, seen + c, tmp + c)
  {
    hide ParseHeader, Window;
  }

  /** How many messages at the head are read. */
  ghost function ReadPrefix(slots: seq<Slot>): (n: nat)
    ensures n <= |slots| && (forall k :: 0 <= k < n ==> slots[k].read) && (n < |slots| ==> !slots[n].read)
  {
    if slots == [] || !slots[0].read then 0 else 1 + ReadPrefix(slots[1..])
  }

  /** The clean-up takes exactly the first `j` messages, which are read. */
  ghost predicate Whole(r: seq<byte>, head: nat, used: nat, slots: seq<Slot>, j: nat)
    requires |r| == RING_SIZE
  {
    && AllSound(slots) && j <= ReadPrefix(slots) && AllSound(slots[..j])
    && CleanupLoop(r, used, 0, 0, head) == |Bytes(slots[..j])|
  }

  /** The clean-up takes whole read messages, and looks at mapped bytes only. */
  ghost predicate Cleanable(r: seq<byte>, head: nat, used: nat, slots: seq<Slot>)
    requires |r| == RING_SIZE
  {
    InPages(r, used, 0, 0, head) && exists j: nat :: Whole(r, head, used, slots, j)
  }

  /** How many messages it takes. */
  ghost function Taken(r: seq<byte>, head: nat, used: nat, slots: seq<Slot>): (j: nat)
    requires |r| == RING_SIZE && Cleanable(r, head, used, slots)
    ensures Whole(r, head, used, slots, j) && j <= |slots|
  {
    var j: nat :| Whole(r, head, used, slots, j);
    j
  }

  /** The number is determined by the bytes. */
  lemma TakenIs(r: seq<byte>, head: nat, used: nat, slots: seq<Slot>, j: nat)
    requires |r| == RING_SIZE && Cleanable(r, head, used, slots) && Whole(r, head, used, slots, j)
    ensures Taken(r, head, used, slots) == j
  {
    hide Bytes, CleanupLoop, InPages, Taken;
    var k := Taken(r, head, used, slots);
    if k < j { MoreBytes(slots, k, j); }
    if j < k { MoreBytes(slots, j, k); }
  }

  lemma MoreBytes(slots: seq<Slot>, j: nat, k: nat)
    requires AllSound(slots) && j < k <= |slots|
    ensures AllSound(slots[..j]) && AllSound(slots[..k]) && |Bytes(slots[..j])| < |Bytes(slots[..k])|
  {
    hide Bytes;
    BytesJoin(slots[..j], slots[j..k]);
    assert slots[..j] + slots[j..k] == slots[..k];
    NoBytes(slots[j..k]);
  }

  lemma CleanupTurn(r: seq<byte>, used: nat, cleaned: nat, seen: nat, tmp: nat)
    requires |r| == RING_SIZE
    ensures var h := ParseHeader(Window(r, tmp, HEADER_SIZE));
      h.sender == 0 && h.reader == 0 && seen < used ==>
        var c := cleaned + HEADER_SIZE + h.size;
        CleanupLoop(r, used, c, seen + c, tmp + c) == CleanupLoop(r, used, cleaned, seen, tmp)
  {
    hide ParseHeader, Window;
  }

  lemma CleanupEnds(r: seq<byte>, used: nat, cleaned: nat, seen: nat, tmp: nat)
    requires |r| == RING_SIZE
    ensures var h := ParseHeader(Window(r, tmp, HEADER_SIZE));
      !(h.sender == 0 && h.reader == 0 && seen < used) ==> CleanupLoop(r, used, cleaned, seen, tmp) == cleaned
  {
    hide ParseHeader, Window;
  }

  lemma {:induction false} CleanupGrows(r: seq<byte>, used: nat, cleaned: nat, seen: nat, tmp: nat)
    requires |r| == RING_SIZE
    ensures CleanupLoop(r, used, cleaned, seen, tmp) >= cleaned
    decreases used - seen
  {
    hide ParseHeader, Window;
    var h := ParseHeader(Window(r, tmp, HEADER_SIZE));
    if h.sender == 0 && h.reader == 0 && seen < used {
      var c := cleaned + HEADER_SIZE + h.size;
      CleanupGrows(r, used, c, seen + c, tmp + c);
    }
  }

  /** What the first turns of the loop find: the headers of the messages at the head, as long as
      they are read. */
  lemma CleanupTurns(r: seq<byte>, head: nat, used: nat, slots: seq<Slot>)
    requires Holds(r, head, used, slots) && slots != []
    ensures var s0, h0 := SlotSize(slots[0]), ParseHeader(Window(r, head, HEADER_SIZE));
      && s0 <= HEADER_SIZE + MAX_MESSAGE_SIZE && 0 < s0 <= used
      && (h0.sender == 0 && h0.reader == 0 <==> slots[0].read) && HEADER_SIZE + h0.size == s0
      && (|slots| == 1 ==> s0 == used)
      && (|slots| > 1 ==>
            var s1, h1 := SlotSize(slots[1]), ParseHeader(Window(r, head + s0, HEADER_SIZE));
            && s1 <= HEADER_SIZE + MAX_MESSAGE_SIZE && s0 < s0 + s1 <= used
            && (h1.sender == 0 && h1.reader == 0 <==> slots[1].read) && HEADER_SIZE + h1.size == s1)
  {
    hide Window, ParseHeader, Bytes;
    HeaderAt(r, head, used, slots, 0);
    NoBytes(slots);
    assert slots[..1] == [slots[0]];
    if |slots| > 1 { HeaderAt(r, head, used, slots, 1); }
  }

  /** How much the clean-up takes. With no read message at the head it takes nothing, with one exactly
      this one. With two or more it takes exactly two if and only if the loop stops there, and else
      more; if it stops it takes whole read messages, and with two this is the only way. */
  lemma CleanupExact(r: seq<byte>, head: nat, used: nat, slots: seq<Slot>)
    requires Holds(r, head, used, slots) && slots != [] && head < RING_SIZE
    ensures var n := ReadPrefix(slots);
      && (n <= 1 ==> Cleanable(r, head, used, slots) && Taken(r, head, used, slots) == n)
      && (n >= 2 ==>
            var s0, s1 := SlotSize(slots[0]), SlotSize(slots[1]);
            && CleanupLoop(r, used, 0, 0, head) >= s0 + s1
            && (CleanupLoop(r, used, 0, 0, head) == s0 + s1 <==> Stops(r, head, used, s0, s1))
            && (Stops(r, head, used, s0, s1) ==>
                  Cleanable(r, head, used, slots) && Taken(r, head, used, slots) == 2)
            && (n == 2 && Cleanable(r, head, used, slots) ==> Stops(r, head, used, s0, s1)))
  {
    hide Window, ParseHeader, Bytes, CleanupLoop, Holds, SlotSize, InPages, Taken;
    HeldParts(r, head, used, slots);
    CleanupTurns(r, head, used, slots);
    FirstBytes(slots);
    var n := ReadPrefix(slots);
    FirstTurns(r, head, used, slots);
    if n <= 1 {
      assert Whole(r, head, used, slots, n);
      TakenIs(r, head, used, slots, n);
    } else {
      var s0, s1 := SlotSize(slots[0]), SlotSize(slots[1]);
      if Stops(r, head, used, s0, s1) {
        assert Whole(r, head, used, slots, 2);
        TakenIs(r, head, used, slots, 2);
      }
    }
  }

  lemma FirstBytes(slots: seq<Slot>)
    requires AllSound(slots) && slots != []
    ensures AllSound(slots[..0]) && |Bytes(slots[..0])| == 0
    ensures AllSound(slots[..1]) && |Bytes(slots[..1])| == SlotSize(slots[0])
    ensures |slots| > 1 ==> AllSound(slots[..2]) && |Bytes(slots[..2])| == SlotSize(slots[0]) + SlotSize(slots[1])
  {
    hide SlotBytes, SlotSize, Bytes;
    NoBytes(slots);
    BytesAround(slots, 0);
    if |slots| > 1 { BytesAround(slots, 1); }
  }

  /** The first turns of the loop, up to the third one. */
  lemma FirstTurns(r: seq<byte>, head: nat, used: nat, slots: seq<Slot>)
    requires Holds(r, head, used, slots) && slots != [] && head < RING_SIZE
    ensures var n, loop, s0 := ReadPrefix(slots), CleanupLoop(r, used, 0, 0, head), SlotSize(slots[0]);
      && (n == 0 ==> loop == 0 && InPages(r, used, 0, 0, head))
      && (n == 1 ==> loop == s0 && InPages(r, used, 0, 0, head))
      && (n >= 2 ==>
            var s1 := SlotSize(slots[1]);
            && loop >= s0 + s1 && (loop == s0 + s1 <==> Stops(r, head, used, s0, s1))
            && (Stops(r, head, used, s0, s1) ==> InPages(r, used, 0, 0, head)))
  {
    hide Window, ParseHeader, Bytes, CleanupLoop, Holds, SlotSize, InPages;
    HeldParts(r, head, used, slots);
    CleanupTurns(r, head, used, slots);
    CleanupTurn(r, used, 0, 0, head);
    CleanupEnds(r, used, 0, 0, head);
    InPagesStep(r, used, 0, 0, head);
    if slots[0].read {
      var s0 := SlotSize(slots[0]);
      CleanupTurn(r, used, s0, s0, head + s0);
      CleanupEnds(r, used, s0, s0, head + s0);
      InPagesStep(r, used, s0, s0, head + s0);
      if |slots| > 1 && slots[1].read {
        var c := s0 + SlotSize(slots[1]);
        CleanupTurn(r, used, c, c + s0, head + s0 + c);
        CleanupEnds(r, used, c, c + s0, head + s0 + c);
        InPagesStep(r, used, c, c + s0, head + s0 + c);
        var h := ParseHeader(Window(r, head + s0 + c, HEADER_SIZE));
        CleanupGrows(r, used, c + HEADER_SIZE + h.size, c + s0 + (c + HEADER_SIZE + h.size),
          head + s0 + c + (c + HEADER_SIZE + h.size));
      }
    }
  }

  lemma InPagesStep(r: seq<byte>, used: nat, cleaned: nat, seen: nat, tmp: nat)
    requires |r| == RING_SIZE && tmp + HEADER_SIZE <= 2 * RING_SIZE
    ensures var h := ParseHeader(Window(r, tmp, HEADER_SIZE));
      InPages(r, used, cleaned, seen, tmp) <==>
        (h.sender == 0 && h.reader == 0 && seen < used ==>
           var c := cleaned + HEADER_SIZE + h.size; InPages(r, used, c, seen + c, tmp + c))
  {
    hide ParseHeader, Window;
  }

  // ---------- messages of one size ----------

  ghost predicate OfSize(slots: seq<Slot>, s: nat) {
    forall k :: 0 <= k < |slots| ==> SlotSize(slots[k]) == s
  }

  /** Where the loop looks, in messages of one size: it advances by one more in each turn. */
  ghost function Place(k: nat): (t: nat)
    ensures k <= t
  {
    if k == 0 then 0 else Place(k - 1) + k
  }

  /** The turns of the loop, from the `k`th one on: as long as the message there is read. */
  ghost function Turns(slots: seq<Slot>, k: nat): (n: nat)
    ensures n >= k
    decreases |slots| - Place(k)
  {
    if Place(k) < |slots| && slots[Place(k)].read then Turns(slots, k + 1) else k
  }

  lemma {:induction false} BytesOfSize(slots: seq<Slot>, s: nat, k: nat)
    requires AllSound(slots) && OfSize(slots, s) && k <= |slots|
    ensures AllSound(slots[..k]) && |Bytes(slots[..k])| == k * s
  {
    hide SlotBytes, SlotSize, Bytes;
    if k == 0 {
      NoBytes(slots);
    } else {
      BytesOfSize(slots, s, k - 1);
      BytesAround(slots, k - 1);
    }
  }

  lemma {:induction false} LoopOfSize(r: seq<byte>, head: nat, used: nat, slots: seq<Slot>, s: nat, k: nat)
    requires Holds(r, head, used, slots) && OfSize(slots, s)
    ensures CleanupLoop(r, used, k * s, Place(k) * s, head + Place(k) * s) == Turns(slots, k) * s
    decreases |slots| - Place(k)
  {
    hide Window, ParseHeader, Bytes, SlotSize, CleanupLoop, AllSound, OfSize;
    HeldParts(r, head, used, slots);
    var t := Place(k);
    Multiples(0, t, s);
    Multiples(0, k, s);
    CleanupTurn(r, used, k * s, t * s, head + t * s);
    CleanupEnds(r, used, k * s, t * s, head + t * s);
    AllOfSize(slots, s);
    if t < |slots| {
      BytesOfSize(slots, s, t);
      HeaderAt(r, head, used, slots, t);
      ReadHeader(slots, s, t);
      Multiples(t, |slots|, s);
      NextPlace(k, s);
      if slots[t].read { LoopOfSize(r, head, used, slots, s, k + 1); }
    } else {
      Multiples(|slots|, t, s);
    }
  }

  lemma AllOfSize(slots: seq<Slot>, s: nat)
    requires AllSound(slots) && OfSize(slots, s)
    ensures |Bytes(slots)| == |slots| * s
  {
    hide SlotSize, Bytes;
    BytesOfSize(slots, s, |slots|);
    assert slots[..|slots|] == slots;
  }

  lemma ReadHeader(slots: seq<Slot>, s: nat, t: nat)
    requires AllSound(slots) && OfSize(slots, s) && t < |slots| && Sound(slots[t])
    ensures var h := SlotHeader(slots[t]); (h.sender == 0 && h.reader == 0 <==> slots[t].read)
    ensures HEADER_SIZE + SlotHeader(slots[t]).size == s
  {
  }

  lemma Multiples(a: nat, b: nat, s: nat)
    requires a <= b
    ensures 0 <= a * s <= b * s
    ensures a < b && s > 0 ==> a * s < b * s
  {
  }

  lemma NextPlace(k: nat, s: nat)
    ensures (k + 1) * s == k * s + s && Place(k + 1) * s == Place(k) * s + (k * s + s)
  {
  }

  /** For messages of one size: how much the clean-up takes, and that these are whole read messages
      if and only if there are as many of them at the head as the loop has turns. */
  lemma UniformExact(r: seq<byte>, head: nat, used: nat, slots: seq<Slot>, s: nat)
    requires Holds(r, head, used, slots) && slots != [] && OfSize(slots, s)
    ensures CleanupLoop(r, used, 0, 0, head) == Turns(slots, 0) * s
    ensures (exists j: nat :: Whole(r, head, used, slots, j)) <==> Turns(slots, 0) <= ReadPrefix(slots)
  {
    hide Window, ParseHeader, Bytes, CleanupLoop, AllSound, Turns;
    HeldParts(r, head, used, slots);
    LoopOfSize(r, head, used, slots, s, 0);
    var n := Turns(slots, 0);
    assert s >= HEADER_SIZE by { assert SlotSize(slots[0]) == s; }
    if n <= ReadPrefix(slots) {
      BytesOfSize(slots, s, n);
      assert Whole(r, head, used, slots, n);
    }
    if j: nat :| Whole(r, head, used, slots, j) {
      BytesOfSize(slots, s, j);
      if j < n { Multiples(j, n, s); }
    }
  }

  /** The slots and the bytes once message `i` is marked as read. */
  ghost function MarkedSlots(slots: seq<Slot>, i: nat): seq<Slot>
    requires i < |slots|
  {
    slots[i := slots[i].(read := true)]
  }

  ghost function Marked(r: seq<byte>, head: nat, slots: seq<Slot>, i: nat): seq<byte>
    requires |r| == RING_SIZE && AllSound(slots) && i < |slots|
  {
    Overlay(r, head + |Bytes(slots[..i])|, seq(8, _ => 0))
  }

  lemma PendingTaken(r: seq<byte>, head: nat, used: nat, slots: seq<Slot>)
    requires |r| == RING_SIZE && Cleanable(r, head, used, slots)
    ensures Pending(slots[Taken(r, head, used, slots)..]) == Pending(slots)
  {
    hide Cleanable, CleanupLoop, Bytes, Taken;
    ReadNotPending(slots, Taken(r, head, used, slots));
  }

  lemma OneMoreRead(slots: seq<Slot>)
    requires slots != [] && slots[0].read
    ensures ReadPrefix(slots) == 1 + ReadPrefix(slots[1..])
  {
  }

  lemma {:induction false} ReadNotPending(slots: seq<Slot>, j: nat)
    requires j <= ReadPrefix(slots)
    ensures Pending(slots[j..]) == Pending(slots)
  {
    hide Pending, ReadPrefix;
    if j == 0 {
      assert slots[0..] == slots;
    } else {
      OneMoreRead(slots);
      ReadNotPending(slots[1..], j - 1);
      PendingSplit(slots);
      assert slots[1..][j - 1..] == slots[j..];
    }
  }

  /** What remains when the messages that the clean-up takes go. */
  lemma DropTaken(r: seq<byte>, head: nat, used: nat, slots: seq<Slot>)
    requires Holds(r, head, used, slots) && head < RING_SIZE && Cleanable(r, head, used, slots)
    ensures var n := CleanupLoop(r, used, 0, 0, head);
      n <= used <= RING_SIZE && Holds(r, (head + n) % RING_SIZE, used - n, slots[Taken(r, head, used, slots)..])
  {
    hide Window, Bytes, AllSound, CleanupLoop, Cleanable, Taken;
    HeldParts(r, head, used, slots);
    var j := Taken(r, head, used, slots);
    SoundRest(slots, j);
    var n := |Bytes(slots[..j])|;
    BytesJoin(slots[..j], slots[j..]);
    assert slots[..j] + slots[j..] == slots;
    WindowParts(r, head, used, n, used - n);
    SameWindow(r, (head + n) % RING_SIZE, head + n, used - n);
    assert Bytes(slots)[n..n + (used - n)] == Bytes(slots[j..]);
  }

  lemma SoundRest(slots: seq<Slot>, j: nat)
    requires AllSound(slots) && j <= |slots|
    ensures AllSound(slots[..j]) && AllSound(slots[j..])
  {
    hide Sound;
  }

  /** The index of the first slot whose header matches, or the number of slots. */
  ghost function FirstMatch(slots: seq<Slot>, sender: u32, reader: u32): (i: nat)
    requires AllSound(slots)
    ensures i <= |slots|
  {
    if slots == [] || Matches(SlotHeader(slots[0]), sender, reader) then 0
    else 1 + FirstMatch(slots[1..], sender, reader)
  }

  lemma FirstMatchFrom(slots: seq<Slot>, sender: u32, reader: u32, i: nat)
    requires AllSound(slots) && i <= |slots|
    ensures AllSound(slots[i..]) && slots[0..] == slots
    ensures i < |slots| ==>
      && AllSound(slots[i + 1..]) && Sound(slots[i])
      && FirstMatch(slots[i..], sender, reader)
         == if Matches(SlotHeader(slots[i]), sender, reader) then 0 else 1 + FirstMatch(slots[i + 1..], sender, reader)
    ensures i == |slots| ==> FirstMatch(slots[i..], sender, reader) == 0
  {
    hide Sound, Matches, SlotHeader;
    if i < |slots| { assert slots[i..][1..] == slots[i + 1..]; }
  }

  lemma EndsInside(head: nat, tail: nat, used: nat)
    requires RingEnds(head, tail, used)
    ensures head < RING_SIZE && tail < RING_SIZE
  {
  }

  lemma NoBytes(slots: seq<Slot>)
    requires AllSound(slots)
    ensures AllSound(slots[..0]) && Bytes(slots[..0]) == [] && (slots == [] <==> Bytes(slots) == [])
  {
    assert slots[..0] == [];
  }

  /** The header of slot `i` is where the search looks for it. */
  lemma HeaderAt(r: seq<byte>, head: nat, used: nat, slots: seq<Slot>, i: nat)
    requires |r| == RING_SIZE && AllSound(slots) && i < |slots| && Window(r, head, used) == Bytes(slots)
    requires used == |Bytes(slots)|
    ensures AllSound(slots[..i]) && AllSound(slots[..i + 1]) && Sound(slots[i])
    ensures var s := |Bytes(slots[..i])|;
      && |Bytes(slots[..i + 1])| == s + SlotSize(slots[i]) <= used
      && SlotSize(slots[i]) == HEADER_SIZE + SlotHeader(slots[i]).size
      && (s + SlotSize(slots[i]) == used <==> i + 1 == |slots|)
      && ParseHeader(Window(r, head + s, HEADER_SIZE)) == SlotHeader(slots[i])
      && Window(r, head + s + HEADER_SIZE, |slots[i].message.data|) == slots[i].message.data
    ensures i == 0 ==> |Bytes(slots[..0])| == 0
  {
    hide Window, ParseHeader, Sound, Bytes, SlotBytes, SlotHeader, AllSound;
    SoundAt(slots, i);
    BytesAround(slots, i);
    NoBytes(slots);
    NoBytes(slots[i + 1..]);
    var s, b := |Bytes(slots[..i])|, SlotBytes(slots[i]);
    WindowParts(r, head, used, s, HEADER_SIZE);
    WindowParts(r, head, used, s + HEADER_SIZE, |slots[i].message.data|);
    SlotHeaderBytes(slots[i]);
    assert Window(r, head, used)[s..s + |b|] == b;
    assert Window(r, head, used)[s..s + HEADER_SIZE] == b[..HEADER_SIZE];
    assert Window(r, head, used)[s + HEADER_SIZE..s + |b|] == b[HEADER_SIZE..];
  }

  lemma SoundAt(slots: seq<Slot>, i: nat)
    requires AllSound(slots) && i < |slots|
    ensures Sound(slots[i])
  {
  }

  lemma PendingOne(m: Slot)
    ensures Pending([m]) == if m.read then [] else [m.message]
  {
  }

  /** The messages of slots that were not read. */
  ghost function Pending(slots: seq<Slot>): seq<Message> {
    if slots == [] then [] else (if slots[0].read then [] else [slots[0].message]) + Pending(slots[1..])
  }

  lemma NonePending()
    ensures Pending([]) == []
  {
  }

  lemma PendingSplit(slots: seq<Slot>)
    requires slots != []
    ensures Pending(slots) == (if slots[0].read then [] else [slots[0].message]) + Pending(slots[1..])
  {
  }

  lemma {:induction false} PendingJoin(a: seq<Slot>, b: seq<Slot>)
    ensures Pending(a + b) == Pending(a) + Pending(b)
  {
    hide Pending;
    if a == [] {
      NonePending();
      assert a + b == b;
    } else {
      PendingJoin(a[1..], b);
      PendingSplit(a);
      PendingSplit(a + b);
      assert (a + b)[1..] == a[1..] + b;
    }
  }

  lemma OverlayGrows(r: seq<byte>, a: nat, bytes: seq<byte>, i: nat)
    requires |r| == RING_SIZE && i < |bytes| <= RING_SIZE
    ensures Overlay(r, a, bytes[..i + 1]) == Overlay(r, a, bytes[..i])[(a + i) % RING_SIZE := bytes[i]]
    ensures i == 0 ==> Overlay(r, a, bytes[..0]) == r
  {
    var x, y := Overlay(r, a, bytes[..i + 1]), Overlay(r, a, bytes[..i])[(a + i) % RING_SIZE := bytes[i]];
    forall j | 0 <= j < RING_SIZE ensures x[j] == y[j] {
      Offset(a, i, a);
      Inside(i);
      BackAgain(j, a);
    }
  }

  lemma BackAgain(j: nat, a: nat)
    requires j < RING_SIZE
    ensures (a + (j - a) % RING_SIZE) % RING_SIZE == j
  {
    var q := (j - a) / RING_SIZE;
    assert a + (j - a) % RING_SIZE == j - q * RING_SIZE && q <= 0;
    ShiftByRings(j, -q);
    Inside(j);
  }

  /** The bytes of a new message behind those of the others. */
  lemma Appended(r: seq<byte>, r1: seq<byte>, r2: seq<byte>, head: nat, used: nat, tail: nat, slots: seq<Slot>, m: Slot)
    requires |r| == |r1| == |r2| == RING_SIZE && AllSound(slots) && Sound(m)
    requires Window(r, head, used) == Bytes(slots) && used + SlotSize(m) <= RING_SIZE
    requires tail % RING_SIZE == (head + used) % RING_SIZE
    requires r1 == Overlay(r, tail, HeaderBytes(SlotHeader(m)))
    requires r2 == Overlay(r1, tail + HEADER_SIZE, m.message.data)
    ensures AllSound(slots + [m]) && Window(r2, head, used + SlotSize(m)) == Bytes(slots + [m])
    ensures |Bytes(slots + [m])| == used + SlotSize(m)
  {
    hide Window, Overlay, HeaderBytes, SlotHeader, Sound;
    var h, data, n := HeaderBytes(SlotHeader(m)), m.message.data, used + HEADER_SIZE;
    Congruent(tail, head + used, HEADER_SIZE);
    KeptWindow(r, head, used, tail, h);
    KeptWindow(r1, head, n, tail + HEADER_SIZE, data);
    WindowJoins(r1, head, used, HEADER_SIZE);
    SameWindow(r1, tail, head + used, HEADER_SIZE);
    WrittenWindow(r, tail, h);
    WindowJoins(r2, head, n, |data|);
    SameWindow(r2, tail + HEADER_SIZE, head + n, |data|);
    WrittenWindow(r1, tail + HEADER_SIZE, data);
    OneSlot(slots, m);
  }

  lemma OneSlot(slots: seq<Slot>, m: Slot)
    requires AllSound(slots) && Sound(m)
    ensures AllSound(slots + [m]) && Bytes(slots + [m]) == Bytes(slots) + (HeaderBytes(SlotHeader(m)) + m.message.data)
  {
    hide HeaderBytes, SlotHeader, Sound;
    BytesJoin(slots, [m]);
    assert Bytes([m]) == SlotBytes(m);
  }

  lemma NewSound(m: Slot)
    requires |m.message.data| <= MAX_MESSAGE_SIZE && m.read == (m.message.sender == 0 && m.message.reader == 0)
    ensures Sound(m) && SlotHeader(m) == Header(m.message.sender, m.message.reader, |m.message.data|)
  {
  }

  /** Three messages of different senders, the second one read or not. */
  ghost function ThreeSlots(second: bool): (slots: seq<Slot>)
    ensures AllSound(slots)
  {
    [Slot(Message(0x1_0000, 0x5_0000, []), false), Slot(Message(0x2_0000, 0x5_0000, []), second),
     Slot(Message(0x3_0000, 0x5_0000, seq<byte>(18, _ => 0)), false)]
  }

  lemma ThreeMatches()
    ensures FirstMatch(ThreeSlots(false), 0x2_0000, 0x5_0000) == 1
    ensures FirstMatch(ThreeSlots(true), 0x1_0000, 0x5_0000) == 0
    ensures MarkedSlots(ThreeSlots(false), 1) == ThreeSlots(true) && ReadPrefix(ThreeSlots(true)) == 0
    ensures Pending(ThreeSlots(true)) == [ThreeSlots(true)[0].message, ThreeSlots(true)[2].message]
  {
    var slots := ThreeSlots(false);
    assert AllSound(slots[1..]) && FirstMatch(slots[1..], 0x2_0000, 0x5_0000) == 0;
    var t := ThreeSlots(true);
    assert Pending(t[2..]) == [t[2].message] + Pending(t[2..][1..]);
    assert Pending(t[1..]) == Pending(t[1..][1..]) && t[1..][1..] == t[2..];
  }

  /** The second one of the three can be read: nothing is cleaned up. */
  lemma SecondReadable(r: seq<byte>, head: nat, used: nat)
    requires head < RING_SIZE && Holds(r, head, used, ThreeSlots(false))
    ensures var r' := Marked(r, head, ThreeSlots(false), 1);
      Cleanable(r', head, used, ThreeSlots(true)) && Taken(r', head, used, ThreeSlots(true)) == 0
  {
    hide Window, Overlay, Bytes, ParseHeader, CleanupLoop, InPages, Taken;
    var t, r' := ThreeSlots(false), Marked(r, head, ThreeSlots(false), 1);
    MarkRead(r, r', head, used, t, 1);
    ThreeMatches();
    CleanupExact(r', head, used, ThreeSlots(true));
  }

  lemma ThreeOverrun(r: seq<byte>, head: nat, used: nat)
    requires head < RING_SIZE && Holds(r, head, used, ThreeSlots(true))
    ensures var slots, r' := MarkedSlots(ThreeSlots(true), 0), Marked(r, head, ThreeSlots(true), 0);
      |Bytes(slots[..2])| == 18 && !Cleanable(r', head, used, slots) && CleanupLoop(r', used, 0, 0, head) > 18
  {
    hide Window, Overlay, Bytes, ParseHeader, CleanupLoop;
    var t := ThreeSlots(true);
    var slots, r' := MarkedSlots(t, 0), Marked(r, head, t, 0);
    NoBytes(t);
    MarkRead(r, r', head, used, t, 0);
    CleanupExact(r', head, used, slots);
    HeaderAt(r', head, used, slots, 0);
    HeaderAt(r', head, used, slots, 1);
    HeaderAt(r', head, used, slots, 2);
    NoBytes(slots);
    WindowParts(r', head + 27, 18, 0, HEADER_SIZE);
    ZeroHeader(slots[2].message.data);
  }

  lemma ZeroHeader(zeros: seq<byte>)
    requires zeros == seq(18, _ => 0)
    ensures ParseHeader(zeros[0..HEADER_SIZE]) == Header(0, 0, 0)
  {
  }

  /** A run that leads to a mailbox in which the clean-up takes bytes of an unread message: of three
      messages the second one was read, and the first one is about to be. The loop finds zeros in the
      data of the third message. */
  method Overtaken() returns (m: Mailbox)
    ensures m.Valid() && m.slots == ThreeSlots(true) && |m.Unread()| == 2 && !m.Readable(0x1_0000, 0x5_0000)
    ensures var slots, r := MarkedSlots(m.slots, 0), Marked(m.ring[..], m.head, m.slots, 0);
      |Bytes(slots[..2])| == 18 && CleanupLoop(r, m.usedSize, 0, 0, m.head) > 18
  {
    hide Window, Overlay, Bytes, ParseHeader, SlotHeader, Marked, MatchPid, FirstMatch, CleanupLoop, Pending, RingEnds;
    m := new Mailbox();
    var zeros := seq<byte>(18, _ => 0);
    var sent := m.SendMessage(0x1_0000, 0x5_0000, 0, []);
    sent := m.SendMessage(0x2_0000, 0x5_0000, 0, []);
    sent := m.SendMessage(0x3_0000, 0x5_0000, 18, zeros);
    assert zeros[..18] == zeros && m.slots == ThreeSlots(false);
    ThreeMatches();
    EndsInside(m.head, m.tail, m.usedSize);
    SecondReadable(m.ring[..], m.head, m.usedSize);
    var found, message;
    ghost var j;
    found, message, j := m.ReadMessage(0x2_0000, 0x5_0000);
    EndsInside(m.head, m.tail, m.usedSize);
    ThreeOverrun(m.ring[..], m.head, m.usedSize);
  }

  /** Sender and reader of the message are the given ones, or any if zero is given; identifiers without a
      thread part stand for all threads of the address space. */
  predicate Wanted(m: Message, sender: u32, reader: u32) {
    Picks(sender, m.sender) && Picks(reader, m.reader)
  }

  predicate Picks(target: u32, pid: u32) {
    && pid != 0
    && (target == 0 || target == pid || (pid % 0x1_0000 == 0 && pid <= target < pid + 0x1_0000))
  }

  lemma WantedByAny()
    ensures forall m: Message :: Wanted(m, 0, 0) <==> m.sender != 0 && m.reader != 0
  {
  }

  /** Slot `i` holds the oldest unread message that is wanted; there is none if `i` is the number of slots. */
  ghost predicate OldestWanted(slots: seq<Slot>, i: nat, sender: u32, reader: u32)
    requires AllSound(slots) && i <= |slots|
  {
    var all := Pending(slots);
    if i < |slots| then
      && Sound(slots[i]) && !slots[i].read
      && SlotHeader(slots[i]) == Header(slots[i].message.sender, slots[i].message.reader, |slots[i].message.data|)
      && var j := |Pending(slots[..i])|;
         && j < |all| && all[j] == slots[i].message && Wanted(all[j], sender, reader)
         && (forall k :: 0 <= k < j ==> !Wanted(all[k], sender, reader))
         && Pending(slots[i := slots[i].(read := true)]) == all[..j] + all[j + 1..]
         && (i == 0 ==> j == 0 && Pending(slots[1..]) == all[1..])
    else
      forall k :: 0 <= k < |all| ==> !Wanted(all[k], sender, reader)
  }

  /** The slot that the search stops at holds the oldest unread message that is wanted. */
  lemma {:induction false} FirstWanted(slots: seq<Slot>, sender: u32, reader: u32)
    requires AllSound(slots)
    ensures OldestWanted(slots, FirstMatch(slots, sender, reader), sender, reader)
    decreases |slots|
  {
    hide MatchPid, OldestWanted, Sound, Pending;
    if slots == [] {
      NoneWanted(sender, reader);
    } else if Matches(SlotHeader(slots[0]), sender, reader) {
      HeadWanted(slots, sender, reader);
    } else {
      FirstWanted(slots[1..], sender, reader);
      TailWanted(slots, FirstMatch(slots[1..], sender, reader), sender, reader);
    }
  }

  lemma NoneWanted(sender: u32, reader: u32)
    ensures OldestWanted([], 0, sender, reader)
  {
  }

  lemma HeadWanted(slots: seq<Slot>, sender: u32, reader: u32)
    requires AllSound(slots) && slots != [] && Matches(SlotHeader(slots[0]), sender, reader)
    ensures OldestWanted(slots, 0, sender, reader)
  {
    hide MatchPid;
    NothingMatchesZero(sender, reader);
    PendingSplit(slots);
    var slots' := slots[0 := slots[0].(read := true)];
    PendingSplit(slots');
    assert slots'[1..] == slots[1..] && slots[..0] == [];
  }

  lemma TailWanted(slots: seq<Slot>, i: nat, sender: u32, reader: u32)
    requires AllSound(slots) && slots != [] && !Matches(SlotHeader(slots[0]), sender, reader)
    requires i <= |slots| - 1 && OldestWanted(slots[1..], i, sender, reader)
    ensures OldestWanted(slots, i + 1, sender, reader)
  {
    hide MatchPid, Pending;
    PendingSplit(slots);
    if i + 1 < |slots| {
      var m := slots[i + 1].(read := true);
      PendingSplit(slots[..i + 1]);
      PendingSplit(slots[i + 1 := m]);
      assert slots[..i + 1][1..] == slots[1..][..i];
      assert slots[i + 1 := m][1..] == slots[1..][i := m];
      Shifted(if slots[0].read then [] else [slots[0].message], Pending(slots[1..]), |Pending(slots[1..][..i])|);
    }
  }

  lemma Shifted(h: seq<Message>, t: seq<Message>, j: nat)
    requires j < |t|
    ensures h + (t[..j] + t[j + 1..]) == (h + t)[..|h| + j] + (h + t)[|h| + j + 1..]
  {
  }

  lemma NothingMatchesZero(sender: u32, reader: u32)
    ensures !MatchPid(0, sender) && !MatchPid(0, reader)
  {
  }

  /** A slot is marked as read by zeroing its identifiers. */
  lemma MarkRead(r: seq<byte>, r': seq<byte>, head: nat, used: nat, slots: seq<Slot>, i: nat)
    requires |r| == RING_SIZE && AllSound(slots) && i < |slots| && Window(r, head, used) == Bytes(slots)
    requires used == |Bytes(slots)| <= RING_SIZE
    requires AllSound(slots[..i]) && r' == Overlay(r, head + |Bytes(slots[..i])|, seq(8, _ => 0))
    ensures var slots' := slots[i := slots[i].(read := true)];
      |r'| == RING_SIZE && AllSound(slots') && Bytes(slots') == Window(r', head, used) && |Bytes(slots')| == used
  {
    hide Window, Overlay, Bytes, SlotBytes;
    var m, s := slots[i].(read := true), |Bytes(slots[..i])|;
    var slots' := slots[i := m];
    assert slots'[..i] == slots[..i] && slots'[i + 1..] == slots[i + 1..];
    assert Sound(slots[i]) && Sound(m);
    BytesAround(slots, i);
    BytesAround(slots', i);
    ReadBytes(slots[i]);
    MiddleWindow(r, head, used, s, seq(8, _ => 0));
    EightOf(Bytes(slots[..i]), SlotBytes(slots[i]), Bytes(slots[i + 1..]));
  }

  lemma EightOf(a: seq<byte>, b: seq<byte>, c: seq<byte>)
    requires |b| >= 8
    ensures (a + b + c)[..|a|] == a && (a + b + c)[|a| + 8..] == b[8..] + c
  {
  }
}
