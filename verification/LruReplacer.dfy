/** src/buffer/lru_replacer.cpp: a list in order of unpinning, and a map into it. */
module LruReplacers {
  import opened Common

  type FrameId = nat

  // ---------------------------------------------------------------- what least recently unpinned means

  /** What has been done with a frame. */
  datatype Use = OnPin(frame: FrameId) | OnUnpin(frame: FrameId) | OnVictim(frame: FrameId)

  /** When the frame was unpinned for its present stay among the evictable ones; None while it is not evictable. An
      unpin of a frame that is evictable already does not count. */
  function Since(uses: seq<Use>, f: FrameId): Option<nat> {
    if uses == [] then None
    else
      var n := |uses| - 1;
      var before := Since(uses[..n], f);
      if uses[n].frame != f then before
      else if uses[n].OnUnpin? then if before.Some? then before else Some(n)
      else None
  }

  /** `f` has been evictable longer than `g`. */
  predicate Longer(uses: seq<Use>, f: FrameId, g: FrameId) {
    Since(uses, f).Some? && Since(uses, g).Some? && Since(uses, f).value < Since(uses, g).value
  }

  lemma {:induction false} SinceBounds(uses: seq<Use>, f: FrameId)
    ensures Since(uses, f).Some? ==> Since(uses, f).value < |uses|
  {
    if uses != [] { SinceBounds(uses[..|uses| - 1], f); }
  }

  lemma SinceNext(uses: seq<Use>, use: Use, f: FrameId)
    ensures Since(uses + [use], f) ==
            if use.frame != f then Since(uses, f)
            else if !use.OnUnpin? then None
            else if Since(uses, f).Some? then Since(uses, f) else Some(|uses|)
  {
    assert (uses + [use])[..|uses|] == uses;
  }

  ghost predicate NoneEvictable(uses: seq<Use>) { forall f :: Since(uses, f) == None }

  /** `f` is least recently unpinned. */
  ghost predicate Longest(uses: seq<Use>, f: FrameId) {
    Since(uses, f).Some? && forall g :: Since(uses, g).Some? && g != f ==> Longer(uses, f, g)
  }

  /** The list holds the evictable frames, those that have been so longest first. */
  ghost predicate InOrder(uses: seq<Use>, list: seq<FrameId>) {
    && (forall f {:trigger Since(uses, f)} :: f in list <==> Since(uses, f).Some?)
    && (forall i, j :: 0 <= i < j < |list| ==> Longer(uses, list[i], list[j]))
  }

  // ---------------------------------------------------------------- lists

  /** `s` without its element `x`. */
  function Without(s: seq<FrameId>, x: FrameId): (r: seq<FrameId>)
    ensures forall y :: y in r <==> y in s && y != x
  {
    if s == [] then []
    else if s[0] == x then Without(s[1..], x)
    else [s[0]] + Without(s[1..], x)
  }

  lemma {:induction false} WithoutDistinct(s: seq<FrameId>, x: FrameId)
    requires Distinct(s)
    ensures Distinct(Without(s, x))
  {
    if s != [] {
      WithoutDistinct(s[1..], x);
      assert s[0] !in s[1..];
    }
  }

  lemma {:induction false} WithoutAbsent(s: seq<FrameId>, x: FrameId)
    requires x !in s
    ensures Without(s, x) == s
  {
    if s != [] { WithoutAbsent(s[1..], x); }
  }

  /** One place is closed, and the others keep theirs. */
  lemma {:induction false} WithoutCloses(s: seq<FrameId>, k: nat)
    requires Distinct(s) && k < |s|
    ensures Without(s, s[k]) == s[..k] + s[k + 1..]
  {
    if k == 0 {
      WithoutAbsent(s[1..], s[0]);
    } else {
      WithoutCloses(s[1..], k - 1);
      assert s[..k] == [s[0]] + s[1..][..k - 1] && s[1..][k..] == s[k + 1..];
    }
  }

  lemma TailFacts(s: seq<FrameId>)
    requires s != [] && Distinct(s)
    ensures Distinct(s[1..]) && s[0] !in s[1..]
    ensures forall x :: x in s <==> x == s[0] || x in s[1..]
  {
  }

  /** The front of the list has been evictable longest. */
  lemma FrontIsLongest(uses: seq<Use>, list: seq<FrameId>)
    requires InOrder(uses, list)
    ensures if list == [] then NoneEvictable(uses) else Longest(uses, list[0])
    ensures list != [] ==> !NoneEvictable(uses)
  {
    assert list != [] ==> list[0] in list && Since(uses, list[0]).Some?;
    forall f | Since(uses, f).Some? && list != [] && f != list[0] ensures Longer(uses, list[0], f) {
      var j :| 0 <= j < |list| && list[j] == f;
    }
  }

  /** The frame at place k is not evictable any more. */
  lemma GoneInOrder(uses: seq<Use>, list: seq<FrameId>, k: nat, use: Use)
    requires InOrder(uses, list) && Distinct(list) && k < |list| && use.frame == list[k] && !use.OnUnpin?
    ensures InOrder(uses + [use], list[..k] + list[k + 1..])
  {
    var list' := list[..k] + list[k + 1..];
    forall f ensures f in list' <==> Since(uses + [use], f).Some? {
      SinceNext(uses, use, f);
      assert f in list <==> f in list' || f == list[k];
    }
    forall i, j | 0 <= i < j < |list'| ensures Longer(uses + [use], list'[i], list'[j]) {
      SinceNext(uses, use, list'[i]);
      SinceNext(uses, use, list'[j]);
      var i0, j0 := if i < k then i else i + 1, if j < k then j else j + 1;
      assert Longer(uses, list[i0], list[j0]);
    }
  }

  lemma FrontGone(uses: seq<Use>, list: seq<FrameId>)
    requires InOrder(uses, list) && Distinct(list) && list != []
    ensures InOrder(uses + [OnVictim(list[0])], list[1..]) && Distinct(list[1..])
    ensures forall f :: f in list[1..] <==> f in list && f != list[0]
  {
    GoneInOrder(uses, list, 0, OnVictim(list[0]));
    assert list[..0] + list[1..] == list[1..];
  }

  /** A use that changes nothing: a pin of a frame not evictable, an unpin of one that is. */
  lemma SameInOrder(uses: seq<Use>, list: seq<FrameId>, use: Use)
    requires InOrder(uses, list) && !use.OnVictim? && (use.OnUnpin? <==> use.frame in list)
    ensures InOrder(uses + [use], list)
  {
    forall f ensures Since(uses + [use], f) == Since(uses, f) { SinceNext(uses, use, f); }
    forall i, j | 0 <= i < j < |list| ensures Longer(uses + [use], list[i], list[j]) {
      assert Longer(uses, list[i], list[j]);
    }
  }

  lemma AddedInOrder(uses: seq<Use>, list: seq<FrameId>, f: FrameId)
    requires InOrder(uses, list) && f !in list
    ensures InOrder(uses + [OnUnpin(f)], list + [f])
  {
    var list' := list + [f];
    forall g ensures g in list' <==> Since(uses + [OnUnpin(f)], g).Some? {
      SinceNext(uses, OnUnpin(f), g);
    }
    forall i, j | 0 <= i < j < |list'| ensures Longer(uses + [OnUnpin(f)], list'[i], list'[j]) {
      SinceNext(uses, OnUnpin(f), list'[i]);
      SinceNext(uses, OnUnpin(f), list'[j]);
      SinceBounds(uses, list'[i]);
      assert list'[i] in list && (j < |list| ==> Longer(uses, list[i], list[j]));
    }
  }

  // ---------------------------------------------------------------- the replacer

  class LruReplacer {
    /** Front: least recently unpinned. */
    var list: seq<FrameId>
    /** The keys of lru_map_; its iterators are the positions in the list. */
    var inList: set<FrameId>
    ghost var uses: seq<Use>

    ghost predicate Valid()
      reads this
    {
      Distinct(list) && (forall f :: f in inList <==> f in list) && InOrder(uses, list)
    }

    constructor ()
      ensures Valid() && list == [] && uses == []
    {
      list, inList, uses := [], {}, [];
    }

    /** The frame that has been evictable longest, if there is any. */
    method Victim() returns (found: bool, frame: FrameId)
      requires Valid()
      modifies this
      ensures Valid()
      ensures found <==> !NoneEvictable(old(uses))
      ensures found ==> Longest(old(uses), frame) && uses == old(uses) + [OnVictim(frame)]
      ensures found <==> old(list) != []
      ensures found ==> frame == old(list)[0] && list == old(list)[1..]
      ensures !found ==> list == old(list) && uses == old(uses)
    {
      FrontIsLongest(uses, list);
      if list == [] {
        return false, 0;
      }
      frame := list[0];
      FrontGone(uses, list);
      inList := inList - {frame};
      list := list[1..];
      uses := uses + [OnVictim(frame)];
      found := true;
    }

    method Pin(frame: FrameId)
      requires Valid()
      modifies this
      ensures Valid() && list == Without(old(list), frame) && uses == old(uses) + [OnPin(frame)]
      ensures frame !in old(list) ==> list == old(list)
      ensures forall k :: 0 <= k < |old(list)| && old(list)[k] == frame ==>
                list == old(list)[..k] + old(list)[k + 1..]
    {
      WithoutDistinct(list, frame);
      if frame in inList {
        ghost var k :| 0 <= k < |list| && list[k] == frame;
        WithoutCloses(list, k);
        GoneInOrder(uses, list, k, OnPin(frame));
        list := Without(list, frame);
        inList := inList - {frame};
      } else {
        WithoutAbsent(list, frame);
        SameInOrder(uses, list, OnPin(frame));
      }
      uses := uses + [OnPin(frame)];
    }

    method Unpin(frame: FrameId)
      requires Valid()
      modifies this
      ensures Valid() && list == (if frame in old(list) then old(list) else old(list) + [frame])
      ensures uses == old(uses) + [OnUnpin(frame)]
    {
      if frame in inList {
        SameInOrder(uses, list, OnUnpin(frame));
      } else {
        AddedInOrder(uses, list, frame);
        list := list + [frame];
        inList := inList + {frame};
      }
      uses := uses + [OnUnpin(frame)];
    }
  }
}
