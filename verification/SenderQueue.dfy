/** The sender's ring of packets in flight (`src/lib/queue/queue.c`). */
module SenderQueue {
  import opened Octets
  import opened Packets
  import opened SeqNum

  /** The first position at or after `from` that holds seqnum, or |numbers|. */
  function Find(numbers: seq<u8>, from: nat, seqnum: u8): (k: nat)
    requires from <= |numbers|
    ensures from <= k <= |numbers|
    ensures forall j :: from <= j < k ==> numbers[j] != seqnum
    ensures k < |numbers| ==> numbers[k] == seqnum
    decreases |numbers| - from
  {
    if from == |numbers| || numbers[from] == seqnum then from else Find(numbers, from + 1, seqnum)
  }

  /** The slot at offset i from slot pop, around the ring. */
  function Slot(pop: int, i: int): (j: int)
    requires 0 <= pop < MAX_WINDOW_SIZE && 0 <= i <= MAX_WINDOW_SIZE
    ensures 0 <= j < MAX_WINDOW_SIZE
  {
    if pop + i < MAX_WINDOW_SIZE then pop + i else pop + i - MAX_WINDOW_SIZE
  }

  lemma NextSlot(pop: int)
    requires 0 <= pop < MAX_WINDOW_SIZE
    ensures (1 + pop) % MAX_WINDOW_SIZE == Slot(pop, 1) && Slot(Slot(pop, 1), MAX_WINDOW_SIZE - 1) == pop
    ensures forall i :: 0 <= i < MAX_WINDOW_SIZE - 1 ==> Slot(Slot(pop, 1), i) == Slot(pop, i + 1)
  {
  }

  lemma SlotAfter(pop: int, k: nat)
    requires 0 <= pop < MAX_WINDOW_SIZE && k <= MAX_WINDOW_SIZE
    ensures k < MAX_WINDOW_SIZE ==> (Slot(pop, k) + 1) % MAX_WINDOW_SIZE == Slot(pop, k + 1)
    ensures Slot(pop, 0) == pop == Slot(pop, MAX_WINDOW_SIZE)
  {
  }

  datatype Cell = Empty | Held(pkt: Pkt)

  function NumbersOf(window: seq<Pkt>): (s: seq<u8>)
    ensures |s| == |window|
    ensures forall i :: 0 <= i < |s| ==> s[i] == window[i].seqnum
  {
    seq(|window|, i requires 0 <= i < |window| => window[i].seqnum)
  }

  class Queue {
    const window: array<Cell>
    var size: int
    var ptrAdd: int
    var ptrPop: int
    /** The packets in flight, oldest first. */
    ghost var contents: seq<Pkt>

    /** The occupied slots are the circular block of length `size` that starts at `ptrPop`. */
    ghost predicate Valid()
      reads this, window
      ensures Valid() ==> size == |contents| <= window.Length == MAX_WINDOW_SIZE
      ensures Valid() ==> 0 <= ptrPop < MAX_WINDOW_SIZE && 0 <= ptrAdd < MAX_WINDOW_SIZE
    {
      && window.Length == MAX_WINDOW_SIZE
      && size == |contents| <= MAX_WINDOW_SIZE
      && 0 <= ptrPop < MAX_WINDOW_SIZE
      && ptrAdd == Slot(ptrPop, size)
      && forall i :: 0 <= i < MAX_WINDOW_SIZE ==>
           window[Slot(ptrPop, i)] == if i < size then Held(contents[i]) else Empty
    }

    constructor ()
      ensures Valid() && fresh(window) && contents == []
    {
      size, ptrAdd, ptrPop, contents := 0, 0, 0, [];
      window := new Cell[MAX_WINDOW_SIZE](i => Empty);
    }

    /** On a full ring this would overwrite the oldest packet. */
    method Add(packet: Pkt)
      requires window.Length == MAX_WINDOW_SIZE && 0 <= ptrAdd < MAX_WINDOW_SIZE
      modifies this`size, this`ptrAdd, this`contents, window
      ensures window[..] == old(window[..])[old(ptrAdd) := Held(packet)]
      ensures ptrAdd == (old(ptrAdd) + 1) % MAX_WINDOW_SIZE && size == old(size) + 1
      ensures old(Valid()) && old(size) < MAX_WINDOW_SIZE ==> Valid() && contents == old(contents) + [packet]
    {
      window[ptrAdd] := Held(packet);
      ptrAdd := (ptrAdd + 1) % MAX_WINDOW_SIZE;
      size := size + 1;
      contents := contents + [packet];
    }

    method Peek() returns (c: Cell)
      requires Valid()
      ensures c == if size == 0 then Empty else Held(contents[0])
    {
      if size != 0 {
        return window[ptrPop];
      }
      return Empty;
    }

    /** On an empty ring this would leave the two ends of the block apart. */
    method Dequeue()
      requires window.Length == MAX_WINDOW_SIZE && 0 <= ptrPop < MAX_WINDOW_SIZE
      modifies this`size, this`ptrPop, this`contents, window
      ensures window[..] == old(window[..])[old(ptrPop) := Empty]
      ensures ptrPop == (1 + old(ptrPop)) % MAX_WINDOW_SIZE && size == old(size) - 1
      ensures old(Valid()) && old(size) > 0 ==> Valid() && contents == old(contents)[1..]
    {
      NextSlot(ptrPop);
      window[ptrPop] := Empty;
      ptrPop := (1 + ptrPop) % MAX_WINDOW_SIZE;
      size := size - 1;
      contents := if contents == [] then [] else contents[1..];
    }

    method IsHigherOrEqual(seqnum: u8) returns (b: bool)
      requires Valid()
      ensures b <==> size != 0 && HigherOrEqual(seqnum, contents[0].seqnum)
    {
      if size == 0 { return false; }
      var ref := Peek();
      var refSeqnum := ref.pkt.seqnum;
      if seqnum < refSeqnum && refSeqnum - seqnum > 100 { return true; }
      if refSeqnum < seqnum && seqnum - refSeqnum > 100 { return false; }
      return seqnum >= refSeqnum;
    }

    /** The loop of `get`: walks from `start` to the slot where the search ends, at offset pos. */
    method Seek(seqnum: u8, start: int, ghost from: nat) returns (index: int, ghost pos: nat)
      requires Valid() && from < MAX_WINDOW_SIZE && start == Slot(ptrPop, from)
      ensures from <= pos <= MAX_WINDOW_SIZE && index == Slot(ptrPop, pos) && (from < pos ==> pos <= size)
      ensures forall j :: from <= j < pos ==> contents[j].seqnum != seqnum
      ensures pos < size ==> contents[pos].seqnum == seqnum
    {
      index := start;
      pos := from;
      var firstTime := true;
      while window[index] != Empty && window[index].pkt.seqnum != seqnum
        invariant from <= pos <= MAX_WINDOW_SIZE && index == Slot(ptrPop, pos) && (firstTime <==> pos == from)
        invariant pos > from ==> pos <= size
        invariant forall j :: from <= j < pos ==> contents[j].seqnum != seqnum
        decreases MAX_WINDOW_SIZE - pos
      {
        if !firstTime && index == ptrPop { return; }
        firstTime := false;
        assert pos < size;
        SlotAfter(ptrPop, pos);
        index := (index + 1) % MAX_WINDOW_SIZE;
        pos := pos + 1;
      }
    }

    /**
     `get`: the search resumes at the slot `support`, or starts at the oldest packet when that is -1, and stops at an
     empty slot or on coming round to the oldest packet again. The packet found is handed out by its slot (-1 when there
     is none), and `next` is then the slot after it.
     */
    method Get(seqnum: u8, support: int) returns (found: int, next: int)
      requires Valid() && -1 <= support < MAX_WINDOW_SIZE
      ensures var k := Locate(NumbersOf(contents), StartOffset(ptrPop, support), seqnum);
              if k < size then found == Slot(ptrPop, k) && next == Slot(ptrPop, k + 1)
              else found == -1 && next == support
    {
      ghost var from := StartOffset(ptrPop, support);
      var index, pos := Seek(seqnum, if support == -1 then ptrPop else support, from);
      LocateStops(NumbersOf(contents), from, pos, seqnum);
      SlotAfter(ptrPop, pos);
      hide Slot, Locate, StartOffset;
      if window[index] == Empty || window[index].pkt.seqnum != seqnum {
        return -1, support;
      }
      return index, (index + 1) % MAX_WINDOW_SIZE;
    }

    /** The packet that `get` handed out. */
    method At(slot: int, ghost k: nat) returns (p: Pkt)
      requires Valid() && k < |contents| && slot == Slot(ptrPop, k)
      ensures p == contents[k]
    {
      return window[slot].pkt;
    }

    /** `pkt_set_timestamp` on a packet that `get` handed out. */
    method Restamp(slot: int, timestamp: u32, ghost k: nat)
      requires Valid() && k < |contents| && slot == Slot(ptrPop, k)
      modifies this`contents, window
      ensures Valid() && contents == old(contents)[k := old(contents)[k].(timestamp := timestamp)]
    {
      window[slot] := Held(window[slot].pkt.(timestamp := timestamp));
      contents := contents[k := contents[k].(timestamp := timestamp)];
    }
  }

  /** How far the slot `support` is from the oldest packet. */
  function StartOffset(pop: int, support: int): (o: nat)
    requires 0 <= pop < MAX_WINDOW_SIZE && -1 <= support < MAX_WINDOW_SIZE
    ensures o < MAX_WINDOW_SIZE && Slot(pop, o) == if support == -1 then pop else support
  {
    if support == -1 then 0 else if support >= pop then support - pop else support - pop + MAX_WINDOW_SIZE
  }

  /** The offset at which the search resumes after the packet at offset k. */
  function NextOffset(k: nat): nat {
    (k + 1) % MAX_WINDOW_SIZE
  }

  lemma NextStart(pop: int, k: nat)
    requires 0 <= pop < MAX_WINDOW_SIZE && k < MAX_WINDOW_SIZE
    ensures StartOffset(pop, -1) == 0 && StartOffset(pop, Slot(pop, k)) == k
    ensures StartOffset(pop, Slot(pop, k + 1)) == NextOffset(k)
  {
  }

  /**
   The offset that `get` finds, or |numbers|. A search that does not start at the oldest packet comes round to it when
   the ring is full, and looks at it, but goes no further.
   */
  function Locate(numbers: seq<u8>, from: nat, seqnum: u8): (k: nat)
    ensures k <= |numbers|
  {
    var k := if from <= |numbers| then Find(numbers, from, seqnum) else |numbers|;
    if k == |numbers| && from > 0 && |numbers| == MAX_WINDOW_SIZE && numbers[0] == seqnum then 0 else k
  }

  lemma {:induction false} FindSkips(numbers: seq<u8>, from: nat, pos: nat, seqnum: u8)
    requires from <= pos <= |numbers|
    requires forall j :: from <= j < pos ==> numbers[j] != seqnum
    ensures Find(numbers, from, seqnum) == Find(numbers, pos, seqnum)
    decreases pos - from
  {
    if from < pos {
      FindSkips(numbers, from + 1, pos, seqnum);
    }
  }

  /** Where a search that has passed over [from, pos) ends, if it ends at pos. */
  lemma LocateStops(numbers: seq<u8>, from: nat, pos: nat, seqnum: u8)
    requires |numbers| <= MAX_WINDOW_SIZE && from < MAX_WINDOW_SIZE
    requires from <= pos <= MAX_WINDOW_SIZE && (from < pos ==> pos <= |numbers|)
    requires forall j :: from <= j < pos ==> numbers[j] != seqnum
    ensures pos < |numbers| && numbers[pos] == seqnum ==> Locate(numbers, from, seqnum) == pos
    ensures |numbers| <= pos < MAX_WINDOW_SIZE ==> Locate(numbers, from, seqnum) == |numbers|
    ensures pos == MAX_WINDOW_SIZE ==>
              Locate(numbers, from, seqnum) == if numbers[0] == seqnum then 0 else MAX_WINDOW_SIZE
  {
    if pos <= |numbers| {
      FindSkips(numbers, from, pos, seqnum);
    }
  }

  /** Asked from the oldest packet, `get` succeeds exactly when the number is in the window. */
  lemma LocateFromOldest(numbers: seq<u8>, seqnum: u8)
    ensures Locate(numbers, 0, seqnum) < |numbers| <==> seqnum in numbers
    ensures seqnum in numbers ==> numbers[Locate(numbers, 0, seqnum)] == seqnum
  {
  }
}
