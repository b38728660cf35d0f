/**
 * The list and string helpers of client/utils/general.ts: moving one item of a list to a new
 * position, comparing two possibly-null lists element by element, and capitalising a title.
 */
module General {
  import opened Results

  // ---------------------------------------------------------------------------------------------
  // moveInList
  // ---------------------------------------------------------------------------------------------

  /** The index at which the moved item ends up: insertion points after the item shift down by one. */
  function MovedIndex(itemIndex: nat, insertPoint: nat): (k: nat)
    ensures k == insertPoint || k + 1 == insertPoint
  {
    if insertPoint <= itemIndex then insertPoint else insertPoint - 1
  }

  /**
   * Reference definition of a move: take the item at `itemIndex` out, then put it back so that it
   * stands just before the item that was at `insertPoint` (or at the end when `insertPoint` is the
   * length).  The item lands at `MovedIndex`, and the other items keep their relative order.
   */
  function Moved<T>(list: seq<T>, itemIndex: nat, insertPoint: nat): (r: seq<T>)
    requires itemIndex < |list| && insertPoint <= |list|
    ensures |r| == |list|
    ensures r[MovedIndex(itemIndex, insertPoint)] == list[itemIndex]
    ensures var k := MovedIndex(itemIndex, insertPoint);
            r[..k] + r[k + 1..] == list[..itemIndex] + list[itemIndex + 1..]
  {
    var rest := list[..itemIndex] + list[itemIndex + 1..];
    var k := MovedIndex(itemIndex, insertPoint);
    var r := rest[..k] + [list[itemIndex]] + rest[k..];
    assert r[..k] == rest[..k] && r[k + 1..] == rest[k..];
    assert rest[..k] + rest[k..] == rest;
    r
  }

  /** What `moveInList` has pushed after visiting the first `i` items of `list`, one visit at a time. */
  ghost function Emitted<T>(list: seq<T>, itemIndex: nat, insertPoint: nat, i: nat): seq<T>
    requires itemIndex < |list| && i <= |list|
    decreases i
  {
    if i == 0 then []
    else
      Emitted(list, itemIndex, insertPoint, i - 1)
      + (if i - 1 == insertPoint then [list[itemIndex]] else [])
      + (if i - 1 != itemIndex then [list[i - 1]] else [])
  }

  /**
   * The same prefix in closed form: the items before `i` in their order, with the moved item
   * taken out once the walk has passed it and put in once the walk has passed the insertion point.
   */
  ghost function EmittedClosed<T>(list: seq<T>, itemIndex: nat, insertPoint: nat, i: nat): seq<T>
    requires itemIndex < |list| && insertPoint <= |list| && i <= |list|
  {
    var x := list[itemIndex];
    if insertPoint <= itemIndex then
      if i <= insertPoint then list[..i]
      else if i <= itemIndex then list[..insertPoint] + [x] + list[insertPoint..i]
      else list[..insertPoint] + [x] + list[insertPoint..itemIndex] + list[itemIndex + 1..i]
    else
      if i <= itemIndex then list[..i]
      else if i <= insertPoint then list[..itemIndex] + list[itemIndex + 1..i]
      else list[..itemIndex] + list[itemIndex + 1..insertPoint] + [x] + list[insertPoint..i]
  }

  /** The walk builds the closed-form prefix, visit by visit. */
  lemma {:induction false} EmittedIsClosed<T>(list: seq<T>, itemIndex: nat, insertPoint: nat, i: nat)
    requires itemIndex < |list| && insertPoint <= |list| && i <= |list|
    ensures Emitted(list, itemIndex, insertPoint, i) == EmittedClosed(list, itemIndex, insertPoint, i)
    decreases i
  {
    if i > 0 {
      var j := i - 1;
      EmittedIsClosed(list, itemIndex, insertPoint, j);
      ClosedStep(list, itemIndex, insertPoint, j);
    }
  }

  /** A slice of `s` grows by one element at its end. */
  lemma SliceGrows<T>(s: seq<T>, a: nat, b: nat)
    requires a <= b < |s|
    ensures s[a..b + 1] == s[a..b] + [s[b]]
  {
  }

  /** One more visit extends the closed form by exactly what the walk pushes at that visit. */
  lemma ClosedStep<T>(list: seq<T>, itemIndex: nat, insertPoint: nat, j: nat)
    requires itemIndex < |list| && insertPoint <= |list| && j < |list|
    ensures EmittedClosed(list, itemIndex, insertPoint, j + 1)
            == EmittedClosed(list, itemIndex, insertPoint, j)
               + (if j == insertPoint then [list[itemIndex]] else [])
               + (if j != itemIndex then [list[j]] else [])
  {
    var p, m := insertPoint, itemIndex;
    if p <= m {
      if j < p {
        assert list[..j + 1] == list[..j] + [list[j]];
      } else if j < m {
        SliceGrows(list, p, j);
      } else if j == m {
        assert list[m + 1..j + 1] == [] && list[p..p] == [];
      } else {
        SliceGrows(list, m + 1, j);
      }
    } else {
      if j < m {
        assert list[..j + 1] == list[..j] + [list[j]];
      } else if j == m {
        assert list[m + 1..j + 1] == [];
      } else if j < p {
        SliceGrows(list, m + 1, j);
      } else if j == p {
        assert list[p..j + 1] == [list[j]];
      } else {
        SliceGrows(list, p, j);
      }
    }
  }

  /**
   * moveInList: checks both indices, then walks the list once, pushing the moved item when the
   * walk reaches `insertPoint` and every other item in turn; an insertion point equal to the
   * length pushes the moved item last.
   */
  method MoveInList<T>(list: seq<T>, itemIndex: int, insertPoint: int) returns (r: Result<seq<T>>)
    ensures !(0 <= itemIndex < |list|) ==> r == Err("itemIndex out of range")
    ensures 0 <= itemIndex < |list| && !(0 <= insertPoint <= |list|) ==> r == Err("insertPoint out of range")
    ensures 0 <= itemIndex < |list| && 0 <= insertPoint <= |list| ==> r == Ok(Moved(list, itemIndex, insertPoint))
  {
    var n := |list|;
    if itemIndex < 0 || itemIndex >= n {
      return Err("itemIndex out of range");
    }
    if insertPoint < 0 || insertPoint > n {
      return Err("insertPoint out of range");
    }
    var newArray: seq<T> := [];
    var i := 0;
    while i < n
      invariant 0 <= i <= n
      invariant newArray == Emitted(list, itemIndex, insertPoint, i)
    {
      if i == insertPoint {
        newArray := newArray + [list[itemIndex]];
      }
      if i != itemIndex {
        newArray := newArray + [list[i]];
      }
      i := i + 1;
    }
    if n == insertPoint {
      newArray := newArray + [list[itemIndex]];
    }
    assert newArray == Moved(list, itemIndex, insertPoint) by {
      EmittedAll(list, itemIndex, insertPoint);
    }
    return Ok(newArray);
  }

  /** After the whole walk (and the final push for an insertion point at the end) the move is done. */
  lemma EmittedAll<T>(list: seq<T>, itemIndex: nat, insertPoint: nat)
    requires itemIndex < |list| && insertPoint <= |list|
    ensures Emitted(list, itemIndex, insertPoint, |list|)
              + (if insertPoint == |list| then [list[itemIndex]] else [])
            == Moved(list, itemIndex, insertPoint)
  {
    EmittedIsClosed(list, itemIndex, insertPoint, |list|);
    if insertPoint <= itemIndex {
      MovedBackward(list, itemIndex, insertPoint);
    } else {
      MovedForward(list, itemIndex, insertPoint);
    }
  }

  /** A move towards the front, in closed form. */
  lemma MovedBackward<T>(list: seq<T>, itemIndex: nat, insertPoint: nat)
    requires insertPoint <= itemIndex < |list|
    ensures Moved(list, itemIndex, insertPoint)
            == list[..insertPoint] + [list[itemIndex]] + list[insertPoint..itemIndex] + list[itemIndex + 1..]
  {
    var rest := list[..itemIndex] + list[itemIndex + 1..];
    assert rest[..insertPoint] == list[..insertPoint];
    assert rest[insertPoint..] == list[insertPoint..itemIndex] + list[itemIndex + 1..];
  }

  /** A move towards the back, in closed form; an insertion point at the length puts the item last. */
  lemma MovedForward<T>(list: seq<T>, itemIndex: nat, insertPoint: nat)
    requires itemIndex < insertPoint <= |list|
    ensures Moved(list, itemIndex, insertPoint)
            == list[..itemIndex] + list[itemIndex + 1..insertPoint] + [list[itemIndex]] + list[insertPoint..]
  {
    var rest := list[..itemIndex] + list[itemIndex + 1..];
    assert rest[..insertPoint - 1] == list[..itemIndex] + list[itemIndex + 1..insertPoint];
    assert rest[insertPoint - 1..] == list[insertPoint..];
  }

  /** A move only reorders: the result holds exactly the items of the input. */
  lemma {:induction false} MovedIsPermutation<T>(list: seq<T>, itemIndex: nat, insertPoint: nat)
    requires itemIndex < |list| && insertPoint <= |list|
    ensures multiset(Moved(list, itemIndex, insertPoint)) == multiset(list)
  {
    var r := Moved(list, itemIndex, insertPoint);
    var k := MovedIndex(itemIndex, insertPoint);
    assert r == r[..k] + [r[k]] + r[k + 1..];
    assert list == list[..itemIndex] + [list[itemIndex]] + list[itemIndex + 1..];
    calc {
      multiset(r);
      multiset(r[..k]) + multiset([r[k]]) + multiset(r[k + 1..]);
      multiset(r[..k] + r[k + 1..]) + multiset([list[itemIndex]]);
      multiset(list[..itemIndex] + list[itemIndex + 1..]) + multiset([list[itemIndex]]);
      multiset(list[..itemIndex]) + multiset([list[itemIndex]]) + multiset(list[itemIndex + 1..]);
      multiset(list);
    }
  }

  /** Moving an item to just before itself or just after itself leaves the list as it was. */
  lemma {:induction false} MovedInPlace<T>(list: seq<T>, itemIndex: nat, insertPoint: nat)
    requires itemIndex < |list|
    requires insertPoint == itemIndex || insertPoint == itemIndex + 1
    ensures Moved(list, itemIndex, insertPoint) == list
  {
    var r := Moved(list, itemIndex, insertPoint);
    assert MovedIndex(itemIndex, insertPoint) == itemIndex;
    assert r == r[..itemIndex] + [r[itemIndex]] + r[itemIndex + 1..];
    assert r[..itemIndex] == list[..itemIndex] by {
      assert (r[..itemIndex] + r[itemIndex + 1..])[..itemIndex] == r[..itemIndex];
    }
    assert r[itemIndex + 1..] == list[itemIndex + 1..] by {
      assert (r[..itemIndex] + r[itemIndex + 1..])[itemIndex..] == r[itemIndex + 1..];
    }
    assert list == list[..itemIndex] + [list[itemIndex]] + list[itemIndex + 1..];
  }

  // ---------------------------------------------------------------------------------------------
  // listsEqual
  // ---------------------------------------------------------------------------------------------

  /** Element-wise comparison of two arrays: same length and equal items at every position. */
  function ArraysEqual<T(==)>(a: seq<T>, b: seq<T>): (r: bool)
    decreases |a|
  {
    |a| == |b| && (a == [] || (a[0] == b[0] && ArraysEqual(a[1..], b[1..])))
  }

  /** The element-wise comparison is exactly structural equality of the two sequences. */
  lemma {:induction false} ArraysEqualIsEquality<T>(a: seq<T>, b: seq<T>)
    ensures ArraysEqual(a, b) <==> a == b
    decreases |a|
  {
    if |a| == |b| && a != [] {
      ArraysEqualIsEquality(a[1..], b[1..]);
      assert a == [a[0]] + a[1..] && b == [b[0]] + b[1..];
    }
  }

  /**
   * listsEqual: two absent lists are equal, an absent and a present one are not, and two present
   * lists are compared element by element.  The source's shortcut for one and the same list
   * reference gives the same answer as the element-wise comparison, since a list equals itself.
   */
  function ListsEqual<T(==)>(a: Option<seq<T>>, b: Option<seq<T>>): (r: bool)
    ensures r <==> a == b
  {
    match (a, b)
    case (None, None) => true
    case (Some(x), Some(y)) => ArraysEqualIsEquality(x, y); ArraysEqual(x, y)
    case _ => false
  }

  // ---------------------------------------------------------------------------------------------
  // upperCaseFirst
  // ---------------------------------------------------------------------------------------------

  /** Upper-case mapping of one character, for the ASCII letters. */
  function UpperChar(c: char): (u: char)
    ensures 'a' <= c <= 'z' ==> 'A' <= u <= 'Z' && u as int + 32 == c as int
    ensures !('a' <= c <= 'z') ==> u == c
  {
    if 'a' <= c <= 'z' then (c as int - 32) as char else c
  }

  /**
   * upperCaseFirst: the first character upper-cased, followed by the rest of the title unchanged.
   * An empty title has no first character, and the source then fails with a TypeError.
   */
  function UpperCaseFirst(title: string): (r: Result<string>)
    ensures r.Err? <==> title == []
    ensures r.Ok? ==> |r.value| == |title| && r.value[0] == UpperChar(title[0]) && r.value[1..] == title[1..]
  {
    if title == [] then Err("TypeError: title[0] is undefined")
    else Ok([UpperChar(title[0])] + title[1..])
  }

  /** Capitalising an already capitalised title changes nothing. */
  lemma UpperCaseFirstIdempotent(title: string)
    requires title != []
    ensures UpperCaseFirst(UpperCaseFirst(title).value) == UpperCaseFirst(title)
  {
    var once := UpperCaseFirst(title).value;
    assert once == [once[0]] + once[1..];
  }
}
