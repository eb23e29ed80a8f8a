/** Names that several layers share. */
module Common {

  const PAGE_SIZE := 4096

  type PageId = int

  const INVALID_PAGE_ID: PageId := -1

  type TxnId = int

  newtype Byte = x: int | 0 <= x < 256

  datatype Option<T> = None | Some(value: T)

  ghost predicate Distinct<T(!new)>(s: seq<T>) {
    forall i, j :: 0 <= i < j < |s| ==> s[i] != s[j]
  }

  /** A set of transaction or row ids is empty or has an element to pick. */
  lemma Inhabited(s: set<int>)
    ensures s == {} || exists x :: x in s
  {
    assert (forall x :: x !in s) ==> s == {};
  }

  /** A finite set of page ids leaves an id unused. */
  lemma UnusedPage(used: set<PageId>) returns (p: PageId)
    ensures p > INVALID_PAGE_ID && p !in used && forall q :: q in used ==> q < p
    decreases used
  {
    if q :| q in used {
      p := UnusedPage(used - {q});
      assert forall x :: x in used ==> x == q || x in used - {q};
      p := if q < p then p else q + 1;
    } else {
      p := 0;
    }
  }

  // ---------------------------------------------------------------- memory

  function Zeros(n: nat): (r: seq<Byte>)
    ensures |r| == n && forall i :: 0 <= i < n ==> r[i] == 0
  {
    seq(n, i => 0)
  }

  /** The contents of a buffer with `bytes` written at `at`. */
  function Written(before: seq<Byte>, at: nat, bytes: seq<Byte>): (r: seq<Byte>)
    requires at + |bytes| <= |before|
    ensures |r| == |before|
  {
    before[..at] + bytes + before[at + |bytes|..]
  }

  /** memcpy, memmove and memset into a buffer. */
  method WriteAt(buf: array<Byte>, at: nat, bytes: seq<Byte>)
    requires at + |bytes| <= buf.Length
    modifies buf
    ensures buf[..] == Written(old(buf[..]), at, bytes)
  {
    for k := 0 to |bytes|
      invariant forall x :: 0 <= x < buf.Length ==>
                  buf[x] == if at <= x < at + k then bytes[x - at] else old(buf[x])
    {
      buf[at + k] := bytes[k];
    }
  }
}
