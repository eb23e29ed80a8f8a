/** The clock replacement policy (src/buffer/clock_replacer.cpp). */
module ClockReplacers {
  import opened Common

  /** How many steps the hand takes from `hand` to frame f, at least one and at most a full turn. */
  function Distance(hand: nat, f: nat, capacity: nat): (steps: int)
    requires hand < capacity && f < capacity
    ensures 1 <= steps <= capacity && (hand + steps) % capacity == f
  {
    if f > hand then f - hand else f - hand + capacity
  }

  /** The next position of the hand, (hand + 1) modulo the capacity. */
  function Advanced(hand: nat, capacity: nat): (r: nat)
    requires hand < capacity
    ensures r < capacity && r == (hand + 1) % capacity
  {
    if hand + 1 == capacity then 0 else hand + 1
  }

  ghost function Evictable(inClock: seq<bool>): set<nat> {
    set f: nat | f < |inClock| && inClock[f]
  }

  class ClockReplacer {
    const capacity: nat
    var refBits: seq<bool>
    var inClock: seq<bool>
    var clockHand: nat
    var size: nat

    ghost predicate Valid()
      reads this
    {
      && |refBits| == |inClock| == capacity
      && (capacity > 0 ==> clockHand < capacity)
      && size == |Evictable(inClock)|
      && forall f :: 0 <= f < capacity && refBits[f] ==> inClock[f]
    }

    constructor (numPages: nat)
      ensures Valid() && capacity == numPages && Evictable(inClock) == {}
    {
      capacity := numPages;
      refBits, inClock := seq(numPages, i => false), seq(numPages, i => false);
      clockHand, size := 0, 0;
      new;
      assert Evictable(inClock) == {};
    }

    method Pin(f: nat)
      requires Valid()
      modifies this
      ensures Valid()
      ensures Evictable(inClock) == old(Evictable(inClock)) - {f}
      ensures clockHand == old(clockHand)
      ensures forall g :: 0 <= g < capacity && g != f ==> refBits[g] == old(refBits[g])
    {
      if f >= capacity {
        return;
      }
      if inClock[f] {
        assert f in Evictable(inClock);
        inClock, refBits := inClock[f := false], refBits[f := false];
        assert Evictable(inClock) == old(Evictable(inClock)) - {f};
        size := size - 1;
      }
    }

    method Unpin(f: nat)
      requires Valid()
      modifies this
      ensures Valid()
      ensures Evictable(inClock) == if f < capacity then old(Evictable(inClock)) + {f} else old(Evictable(inClock))
      ensures clockHand == old(clockHand)
      ensures forall g :: 0 <= g < capacity ==> refBits[g] == (g == f || old(refBits[g]))
    {
      if f >= capacity {
        return;
      }
      if !inClock[f] {
        inClock, refBits := inClock[f := true], refBits[f := true];
        assert Evictable(inClock) == old(Evictable(inClock)) + {f};
        size := size + 1;
      } else {
        refBits := refBits[f := true];
      }
    }

    method Victim() returns (found: bool, frame: nat, ghost steps: nat)
      requires Valid()
      modifies this
      ensures Valid()
      ensures found <==> old(size) > 0
      ensures !found ==> unchanged(this)
      ensures found ==> frame < capacity && clockHand == frame && inClock == old(inClock)[frame := false]
      ensures found ==> Chosen(old(clockHand), old(inClock), old(refBits), frame, refBits, steps)
    {
      if size == 0 {
        return false, 0, 0;
      }
      SomeFrame(inClock);
      frame, steps := TurnHand();
      RemoveFrame(frame);
      found := true;
    }

    /** The hand moves on, clearing reference bits, until it meets an evictable frame with a clear one. */
    method TurnHand() returns (frame: nat, ghost steps: nat)
      requires Valid() && exists f :: 0 <= f < |inClock| && inClock[f]
      modifies this`clockHand, this`refBits
      ensures Valid() && frame == clockHand < capacity && inClock[frame] && !refBits[frame]
      ensures Chosen(old(clockHand), inClock, old(refBits), frame, refBits, steps)
    {
      steps := 0;
      ghost var hand0, ref0 := clockHand, refBits;
      SweepStart(hand0, inClock, ref0);
      var done := false;
      while !done
        invariant Valid() && clockHand < capacity && steps <= 2 * capacity
        invariant done ==> inClock[clockHand] && !refBits[clockHand]
        invariant done ==> Chosen(hand0, inClock, ref0, clockHand, refBits, steps)
        invariant !done ==> Sweep(hand0, inClock, ref0, refBits, clockHand, steps)
        decreases 2 * capacity - steps
      {
        NotTwiceRound(hand0, inClock, ref0, refBits, clockHand, steps);
        done := StepHand(hand0, ref0, steps);
        steps := steps + 1;
      }
      frame := clockHand;
    }

    /** One step of the hand: it has found the victim, or the frame under it has no reference bit left. */
    method StepHand(ghost hand0: nat, ghost ref0: seq<bool>, ghost n: nat) returns (done: bool)
      requires Valid() && Sweep(hand0, inClock, ref0, refBits, clockHand, n) && n < 2 * capacity
      requires forall f :: 0 <= f < |ref0| && ref0[f] ==> inClock[f]
      modifies this`clockHand, this`refBits
      ensures Valid() && clockHand < capacity
      ensures done ==> inClock[clockHand] && !refBits[clockHand]
      ensures if done then Chosen(hand0, inClock, ref0, clockHand, refBits, n + 1)
              else Sweep(hand0, inClock, ref0, refBits, clockHand, n + 1)
    {
      ghost var hand := clockHand;
      clockHand := Advanced(clockHand, capacity);
      done := inClock[clockHand] && !refBits[clockHand];
      if done {
        SweepEnds(hand0, inClock, ref0, refBits, hand, n);
      } else {
        SweepOn(hand0, inClock, ref0, refBits, hand, n);
        if inClock[clockHand] {
          refBits := refBits[clockHand := false];
        } else {
          assert refBits[clockHand := false] == refBits;
        }
      }
    }

    method RemoveFrame(f: nat)
      requires Valid() && f < capacity && inClock[f] && !refBits[f]
      modifies this`inClock, this`refBits, this`size
      ensures Valid() && inClock == old(inClock)[f := false] && refBits == old(refBits)
    {
      assert f in Evictable(inClock);
      inClock, refBits := inClock[f := false], refBits[f := false];
      assert Evictable(inClock) == old(Evictable(inClock)) - {f};
      size := size - 1;
    }
  }

  ghost predicate HasClear(inClock: seq<bool>, refBits: seq<bool>)
    requires |inClock| == |refBits|
  {
    exists f :: 0 <= f < |inClock| && inClock[f] && !refBits[f]
  }

  /** The policy: the first evictable frame after the hand with a clear reference bit, the bits before it being cleared;
      or, when every evictable frame has its bit set, the first one on the second turn, all bits being cleared. */
  ghost predicate Chosen(hand: nat, inClock: seq<bool>, ref: seq<bool>, frame: nat, ref': seq<bool>, steps: nat)
    requires hand < |inClock| == |ref| == |ref'| && frame < |inClock|
  {
    if HasClear(inClock, ref) then
      && FirstAfter(hand, inClock, ref, true, frame) && steps == Distance(hand, frame, |inClock|)
      && ClearedUpTo(ref, ref', hand, steps)
    else
      && FirstAfter(hand, inClock, ref, false, frame) && steps == |inClock| + Distance(hand, frame, |inClock|)
      && forall f :: 0 <= f < |ref'| ==> !ref'[f]
  }

  /** The reference bits after the hand has moved n steps. */
  ghost predicate ClearedUpTo(ref0: seq<bool>, ref: seq<bool>, hand: nat, n: int)
    requires hand < |ref0| == |ref|
  {
    forall f :: 0 <= f < |ref| ==> (ref[f] <==> ref0[f] && Distance(hand, f, |ref|) > n)
  }

  /** Where the hand stands n steps after `hand0`. */
  ghost predicate HandAt(hand0: nat, capacity: nat, hand: nat, n: nat)
    requires hand0 < capacity
  {
    && hand < capacity
    && if n == 0 then hand == hand0
       else if n <= capacity then Distance(hand0, hand, capacity) == n
       else Distance(hand0, hand, capacity) == n - capacity
  }

  /** After n steps without a victim: the bits passed are clear, every evictable frame passed had its bit set, and none
      has been passed twice. */
  ghost predicate Sweep(hand0: nat, inClock: seq<bool>, ref0: seq<bool>, ref: seq<bool>, hand: nat, n: nat) {
    && |inClock| == |ref0| == |ref| && hand0 < |inClock| && HandAt(hand0, |inClock|, hand, n) && n <= 2 * |inClock|
    && ClearedUpTo(ref0, ref, hand0, n)
    && (forall f :: 0 <= f < |inClock| && inClock[f] ==>
          (Distance(hand0, f, |inClock|) <= n ==> ref0[f]) && Distance(hand0, f, |inClock|) + |inClock| > n)
  }

  lemma SomeFrame(inClock: seq<bool>)
    requires |Evictable(inClock)| > 0
    ensures exists f :: 0 <= f < |inClock| && inClock[f]
  {
    var f :| f in Evictable(inClock);
  }

  lemma HandMoves(hand0: nat, capacity: nat, hand: nat, n: nat)
    requires hand0 < capacity && HandAt(hand0, capacity, hand, n) && n < 2 * capacity
    ensures HandAt(hand0, capacity, Advanced(hand, capacity), n + 1)
  {
  }

  lemma SweepStart(hand: nat, inClock: seq<bool>, ref: seq<bool>)
    requires hand < |inClock| == |ref|
    ensures Sweep(hand, inClock, ref, ref, hand, 0)
  {
  }

  /** Some frame is evictable, so the hand does not get twice around. */
  lemma NotTwiceRound(hand0: nat, inClock: seq<bool>, ref0: seq<bool>, ref: seq<bool>, hand: nat, n: nat)
    requires Sweep(hand0, inClock, ref0, ref, hand, n) && exists f :: 0 <= f < |inClock| && inClock[f]
    ensures n < 2 * |inClock|
  {
  }

  lemma SweepOn(hand0: nat, inClock: seq<bool>, ref0: seq<bool>, ref: seq<bool>, hand: nat, n: nat)
    requires Sweep(hand0, inClock, ref0, ref, hand, n) && n < 2 * |inClock|
    requires forall f :: 0 <= f < |ref0| && ref0[f] ==> inClock[f]
    requires var g := Advanced(hand, |inClock|); inClock[g] ==> ref[g]
    ensures var g := Advanced(hand, |inClock|); Sweep(hand0, inClock, ref0, ref[g := false], g, n + 1)
  {
    var g := Advanced(hand, |inClock|);
    HandMoves(hand0, |inClock|, hand, n);
    var ref' := ref[g := false];
    forall f | 0 <= f < |inClock| ensures ref'[f] <==> ref0[f] && Distance(hand0, f, |inClock|) > n + 1 {
      assert Distance(hand0, f, |inClock|) == Distance(hand0, g, |inClock|) ==> f == g;
    }
    forall f | 0 <= f < |inClock| && inClock[f]
      ensures (Distance(hand0, f, |inClock|) <= n + 1 ==> ref0[f]) && Distance(hand0, f, |inClock|) + |inClock| > n + 1
    {
      assert Distance(hand0, f, |inClock|) == Distance(hand0, g, |inClock|) ==> f == g;
    }
  }

  /** The first evictable frame the hand meets with a clear bit is the one the policy asks for. */
  lemma SweepEnds(hand0: nat, inClock: seq<bool>, ref0: seq<bool>, ref: seq<bool>, hand: nat, n: nat)
    requires Sweep(hand0, inClock, ref0, ref, hand, n) && n < 2 * |inClock|
    requires var g := Advanced(hand, |inClock|); inClock[g] && !ref[g]
    ensures Chosen(hand0, inClock, ref0, Advanced(hand, |inClock|), ref, n + 1)
  {
    var g := Advanced(hand, |inClock|);
    HandMoves(hand0, |inClock|, hand, n);
    if n + 1 <= |inClock| {
      forall f | 0 <= f < |ref| ensures ref[f] <==> ref0[f] && Distance(hand0, f, |ref|) > n + 1 {
        assert Distance(hand0, f, |inClock|) == Distance(hand0, g, |inClock|) ==> f == g;
      }
    }
  }

  /** `f` is the first evictable frame after the hand; with `clear`, the first whose reference bit is clear. */
  ghost predicate FirstAfter(hand: nat, inClock: seq<bool>, ref: seq<bool>, clear: bool, f: nat)
    requires hand < |inClock| == |ref|
  {
    && f < |inClock| && inClock[f] && (clear ==> !ref[f])
    && forall g :: 0 <= g < |inClock| && inClock[g] && (clear ==> !ref[g]) ==>
         Distance(hand, f, |inClock|) <= Distance(hand, g, |inClock|)
  }
}
