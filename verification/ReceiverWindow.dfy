/** The receiver's window, indexed by the offset from the awaited number (`src/lib/sorted_list/sorted_list.c`). */
module ReceiverWindow {
  import opened Octets
  import opened Options
  import opened Packets
  import opened SeqNum

  /** `pstl_t`: what is kept of a packet that came early. */
  datatype Stored = Stored(payload: seq<Octet>, length: u16, seqnum: u8, timestamp: u32)

  type Slots = seq<Option<Stored>>

  function Keep(p: Pkt): Stored {
    Stored(p.payload, p.length, p.seqnum, p.timestamp)
  }

  function NoPackets(): (s: Slots)
    ensures |s| == MAX_WINDOW_SIZE && forall i :: 0 <= i < |s| ==> s[i] == None
  {
    seq(MAX_WINDOW_SIZE, _ => None)
  }

  type Window = s: Slots | |s| == MAX_WINDOW_SIZE witness NoPackets()

  function Count(s: Slots): nat {
    if |s| == 0 then 0 else Count(s[..|s| - 1]) + if s[|s| - 1].Some? then 1 else 0
  }

  /** The window moved down by shift slots; nothing falls off at the top. */
  function Shifted(s: Slots, shift: nat): (t: Slots)
    ensures |t| == |s|
    ensures forall j :: 0 <= j < |t| ==> t[j] == if j + shift < |s| then s[j + shift] else None
  {
    seq(|s|, j requires 0 <= j < |s| => if j + shift < |s| then s[j + shift] else None)
  }

  lemma {:induction false} CountOfUpdate(s: Slots, i: nat, x: Option<Stored>)
    requires i < |s|
    ensures Count(s[i := x]) == Count(s) + (if x.Some? then 1 else 0) - (if s[i].Some? then 1 else 0)
    decreases |s|
  {
    var n := |s| - 1;
    if i < n {
      assert s[i := x][..n] == s[..n][i := x];
      CountOfUpdate(s[..n], i, x);
    } else {
      assert s[i := x][..n] == s[..n];
    }
  }

  lemma {:induction false} CountOfSplit(s: Slots, i: nat)
    requires i <= |s|
    ensures Count(s) == Count(s[..i]) + Count(s[i..])
    decreases |s|
  {
    var n := |s| - 1;
    if i == |s| {
      assert s[..i] == s;
    } else {
      assert s[..n][..i] == s[..i] && s[..n][i..] == s[i..][..n - i];
      CountOfSplit(s[..n], i);
    }
  }

  lemma CountOfFirst(s: Slots)
    requires |s| != 0
    ensures Count(s) == (if s[0].Some? then 1 else 0) + Count(s[1..])
  {
    CountOfSplit(s, 1);
    assert s[..1][..0] == [];
  }

  lemma {:induction false} CountIsZero(s: Slots)
    ensures Count(s) == 0 <==> forall i :: 0 <= i < |s| ==> s[i] == None
    decreases |s|
  {
    if |s| != 0 {
      var n := |s| - 1;
      CountIsZero(s[..n]);
      assert forall i :: 0 <= i < n ==> s[i] == s[..n][i];
    }
  }

  lemma CountOfShifted(s: Slots, shift: nat)
    requires shift <= |s| && forall i :: 0 <= i < shift ==> s[i] == None
    ensures Count(Shifted(s, shift)) == Count(s)
  {
    hide Count, Shifted;
    var t, n := Shifted(s, shift), |s| - shift;
    CountOfSplit(s, shift);
    CountIsZero(s[..shift]);
    CountOfSplit(t, n);
    CountIsZero(t[n..]);
    assert t[..n] == s[shift..];
  }

  lemma ShiftedIgnoresBelow(s: Slots, t: Slots, shift: nat)
    requires |s| == |t| && forall j :: shift <= j < |s| ==> s[j] == t[j]
    ensures Shifted(s, shift) == Shifted(t, shift)
  {
  }

  class WindowList {
    const window: array<Option<Stored>>
    var size: int
    var ptr: int

    /** `size` counts the packets kept. */
    ghost predicate Valid()
      reads this, window
    {
      && window.Length == MAX_WINDOW_SIZE
      && size == Count(window[..])
      && 0 <= ptr <= MAX_WINDOW_SIZE
    }

    /** No packet lies below `ptr`. */
    ghost predicate NoneBelow()
      requires ptr <= window.Length
      reads this, window
    {
      forall i :: 0 <= i < ptr ==> window[i] == None
    }

    /** `new_list` does not clear the window, so it is empty only if the memory happens to be. */
    constructor (memory: Window)
      ensures fresh(window) && window[..] == memory && size == ptr == 0
      ensures Valid() <==> memory == NoPackets()
    {
      size, ptr := 0, 0;
      window := new Option<Stored>[MAX_WINDOW_SIZE](i requires 0 <= i < MAX_WINDOW_SIZE => memory[i]);
      new;
      assert window[..] == memory;
      CountIsZero(memory);
    }

    method Add(packet: Pkt, waited: u8) returns (duplicate: bool)
      requires Valid() && Ind(packet.seqnum, waited) < MAX_WINDOW_SIZE
      modifies this`size, window
      ensures Valid()
      ensures var i := Ind(packet.seqnum, waited);
              && duplicate == old(window[i]).Some?
              && window[..] == (if duplicate then old(window[..]) else old(window[..])[i := Some(Keep(packet))])
              && window[i].Some?
              && (!duplicate ==>
                    window[i].value == Stored(packet.payload, packet.length, packet.seqnum, packet.timestamp))
    {
      var index := Ind(packet.seqnum, waited);
      if window[index] != None {
        return true;
      }
      CountOfUpdate(window[..], index, Some(Keep(packet)));
      window[index] := Some(Stored(packet.payload, packet.length, packet.seqnum, packet.timestamp));
      size := size + 1;
      return false;
    }

    /** Moves `ptr` to the first packet kept, and returns it; if there were none from `ptr` on, it would run on. */
    method Peek() returns (first: Option<Stored>)
      requires Valid() && (size != 0 ==> exists k :: ptr <= k < MAX_WINDOW_SIZE && window[k].Some?)
      modifies this`ptr
      ensures Valid()
      ensures size == 0 ==> first == None && ptr == old(ptr)
      ensures size != 0 ==> old(ptr) <= ptr < MAX_WINDOW_SIZE && window[ptr].Some? && first == window[ptr]
      ensures forall i :: old(ptr) <= i < ptr ==> window[i] == None
    {
      if size == 0 {
        return None;
      }
      ghost var k :| ptr <= k < MAX_WINDOW_SIZE && window[k].Some?;
      while window[ptr] == None
        invariant old(ptr) <= ptr <= k
        invariant forall i :: old(ptr) <= i < ptr ==> window[i] == None
        decreases MAX_WINDOW_SIZE - ptr
      {
        ptr := ptr + 1;
      }
      return window[ptr];
    }

    method Pop()
      requires Valid() && ptr < MAX_WINDOW_SIZE
      modifies this`size, window
      ensures window[..] == old(window[..])[ptr := None] && size == old(size) - 1
      ensures Valid() <==> old(window[ptr]).Some?
    {
      CountOfUpdate(window[..], ptr, None);
      window[ptr] := None;
      size := size - 1;
    }

    /** Re-bases the window from oldWaited to newWaited, in place, stopping once every packet kept has been moved. */
    method Reset(newWaited: u8, oldWaited: u8)
      requires Valid()
      modifies this`ptr, window
      ensures ptr == 0 && window.Length == MAX_WINDOW_SIZE
      ensures window[..] == Rebased(old(window[..]), Ind(newWaited, oldWaited))
      ensures newWaited != oldWaited && NoneUpTo(old(window[..]), Ind(newWaited, oldWaited)) ==>
                Valid() && window[..] == Shifted(old(window[..]), Ind(newWaited, oldWaited))
    {
      hide Count, Shifted, Rebased;
      var shift := Ind(newWaited, oldWaited);
      ghost var was := window[..];
      var nb := 0;
      var i := shift;
      if shift <= MAX_WINDOW_SIZE {
        CountOfSplit(was, shift);
      }
      while i < MAX_WINDOW_SIZE && nb < size
        invariant shift <= i && (i <= MAX_WINDOW_SIZE || i == shift)
        invariant i <= MAX_WINDOW_SIZE ==> Count(was[..shift]) + nb + Count(was[i..]) == size
        invariant forall j :: 0 <= j < i && j < MAX_WINDOW_SIZE ==> window[j] == PartlyRebased(was, shift, i, j)
        invariant forall j :: i <= j < MAX_WINDOW_SIZE ==> window[j] == was[j]
        decreases MAX_WINDOW_SIZE - i
      {
        CountOfFirst(was[i..]);
        assert was[i..][1..] == was[i + 1..];
        assert window[i] == was[i];
        if window[i] != None {
          window[i - shift] := window[i];
          window[i] := None;
          nb := nb + 1;
        }
        i := i + 1;
      }
      LoopHasRebased(was, window[..], i, shift);
      ptr := 0;
      if shift > 0 && NoneUpTo(was, shift) {
        RebasedIsShifted(was, shift);
      }
    }
  }

  /** No packet lies below slot n. */
  predicate NoneUpTo(s: Slots, n: nat) {
    forall j :: 0 <= j < n && j < |s| ==> s[j] == None
  }

  /** Slot j when the loop of `reset` has handled the slots below i. */
  function PartlyRebased(was: Slots, shift: nat, i: nat, j: nat): Option<Stored>
    requires j < |was|
  {
    if shift == 0 then None
    else if j + shift < i && j + shift < |was| && was[j + shift].Some? then was[j + shift]
    else if j < shift then was[j]
    else None
  }

  /**
   What `reset` makes of any window: packets below the offset stay where nothing is moved over them, and an offset of
   zero drops everything.
   */
  function Rebased(s: Slots, shift: nat): (t: Slots)
    ensures |t| == |s|
    ensures forall j :: 0 <= j < |t| ==> t[j] == PartlyRebased(s, shift, |s|, j)
  {
    seq(|s|, j requires 0 <= j < |s| => PartlyRebased(s, shift, |s|, j))
  }

  lemma RebasedIsShifted(s: Slots, shift: nat)
    requires shift > 0 && NoneUpTo(s, shift)
    ensures Rebased(s, shift) == Shifted(s, shift) && Count(Rebased(s, shift)) == Count(s)
  {
    assert Rebased(s, shift) == Shifted(s, shift);
    if shift <= |s| {
      CountOfShifted(s, shift);
    } else {
      CountIsZero(s);
      CountIsZero(Shifted(s, shift));
    }
  }

  /** Where the loop of `reset` has got to when it ends: if it ends early, no packet is left that it has not moved. */
  lemma LoopHasRebased(was: Slots, now: Slots, i: nat, shift: nat)
    requires |was| == |now| && shift <= i && (i <= |was| || i == shift)
    requires i < |was| ==> Count(was[i..]) == 0
    requires forall j :: 0 <= j < i && j < |was| ==> now[j] == PartlyRebased(was, shift, i, j)
    requires forall j :: i <= j < |was| ==> now[j] == was[j]
    ensures now == Rebased(was, shift)
  {
    hide Count;
    if i < |was| {
      CountIsZero(was[i..]);
      assert forall j :: i <= j < |was| ==> was[j] == was[i..][j - i];
    }
  }
}
