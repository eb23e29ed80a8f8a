/** The pages of one B+ tree index: what a page stores, and the searches inside one page.

    A key is represented by its rank in the total order that KeyManager::CompareKeys induces, so keys are
    integers and CompareKeys is integer comparison. A page is a value; the tree object replaces whole pages. */
module TreePages {
  import opened Common

  type Key = int
  type RowId = int

  /** `keys` and `vals`/`kids` are the pair array. In an internal page `keys[0]` is present but meaningless. */
  datatype Page =
    | Leaf(parent: PageId, keys: seq<Key>, vals: seq<RowId>, next: PageId)
    | Internal(parent: PageId, keys: seq<Key>, kids: seq<PageId>)
  {
    predicate IsRootPage() { parent == INVALID_PAGE_ID }
  }

  /** Strictly increasing from position `from` on. */
  ghost predicate SortedFrom(keys: seq<Key>, from: nat) {
    forall i, j :: from <= i < j < |keys| ==> keys[i] < keys[j]
  }

  /** Binary search of a leaf: the first position whose key is not below `key`. */
  method KeyIndex(keys: seq<Key>, key: Key) returns (index: nat)
    requires SortedFrom(keys, 0)
    ensures index <= |keys|
    ensures forall i :: 0 <= i < index ==> keys[i] < key
    ensures forall i :: index <= i < |keys| ==> key <= keys[i]
  {
    var left, right := 0, |keys|;
    while left < right
      invariant 0 <= left <= right <= |keys|
      invariant forall i :: 0 <= i < left ==> keys[i] < key
      invariant forall i :: right <= i < |keys| ==> key <= keys[i]
    {
      var mid := left + (right - left) / 2;
      if keys[mid] < key {
        left := mid + 1;
      } else {
        right := mid;
      }
    }
    index := left;
  }

  /** Binary search of an internal page: the last child whose separator is not above `key`, or -1 when there is no
      child. The first separator is never read. */
  method ChildIndex(keys: seq<Key>, key: Key) returns (index: int)
    requires SortedFrom(keys, 1)
    ensures -1 <= index < |keys| && (index == -1 <==> keys == [])
    ensures index > 0 ==> keys[index] <= key
    ensures 0 <= index && index + 1 < |keys| ==> key < keys[index + 1]
  {
    if keys == [] {
      return -1;
    }
    var left, right: int := 1, |keys| - 1;
    index := 0;
    while left <= right
      invariant 1 <= left <= right + 1 <= |keys|
      invariant index == left - 1
      invariant index > 0 ==> keys[index] <= key
      invariant right + 1 < |keys| ==> key < keys[right + 1]
      decreases right - left
    {
      var mid := left + (right - left) / 2;
      if keys[mid] <= key {
        index := mid;
        left := mid + 1;
      } else {
        right := mid - 1;
      }
    }
  }

  /** InternalPage::ValueIndex: the first position of a child, or -1. */
  method ValueIndex(kids: seq<PageId>, child: PageId) returns (index: int)
    ensures -1 <= index < |kids|
    ensures index == -1 <==> child !in kids
    ensures index >= 0 ==> kids[index] == child && child !in kids[..index]
  {
    for i := 0 to |kids|
      invariant child !in kids[..i]
    {
      if kids[i] == child {
        return i;
      }
    }
    return -1;
  }
}
