/**
 The bookmark list of the player window. Adding the frame under the slider appends it when
 it is not already present and re-sorts the list (Python's `list.sort()`); nothing happens
 before a video has been opened. The list therefore stays strictly ascending: an ordered
 set of distinct frame indices.
 */
module Bookmarks {

  /** Non-decreasing: what `list.sort()` guarantees. */
  predicate Ascending(s: seq<nat>)
  {
    forall i, j :: 0 <= i < j < |s| ==> s[i] <= s[j]
  }

  /** Strictly increasing: sorted and free of duplicates. */
  predicate StrictlyAscending(s: seq<nat>)
  {
    forall i, j :: 0 <= i < j < |s| ==> s[i] < s[j]
  }

  function Elems(s: seq<nat>): set<nat>
  {
    set x | x in s
  }

  /** Places x after every element not greater than it; one step of insertion sort. */
  function Insert(s: seq<nat>, x: nat): (r: seq<nat>)
    requires Ascending(s)
    ensures Ascending(r)
    ensures |r| == |s| + 1
    ensures r[0] == x || (s != [] && r[0] == s[0])
    ensures multiset(r) == multiset(s) + multiset{x}
  {
    if s == [] then [x]
    else if x < s[0] then [x] + s
    else
      assert s == [s[0]] + s[1..];
      AscendingSlice(s, 1, |s|);
      var t := Insert(s[1..], x);
      assert s[0] <= t[0];
      AscendingCons(s[0], t);
      [s[0]] + t
  }

  /** Putting a value no larger than the head in front of an ascending list keeps it ascending. */
  lemma {:induction false} AscendingCons(a: nat, t: seq<nat>)
    requires Ascending(t) && (t == [] || a <= t[0])
    ensures Ascending([a] + t)
  {
    var r := [a] + t;
    forall i, j | 0 <= i < j < |r|
      ensures r[i] <= r[j]
    {
      if i == 0 {
        assert r[j] == t[j - 1] && t[0] <= t[j - 1];
      } else {
        assert r[i] == t[i - 1] && r[j] == t[j - 1];
      }
    }
  }

  /** Inserting a frame that is not present keeps a duplicate-free list duplicate-free. */
  lemma {:induction false} InsertStrict(s: seq<nat>, x: nat)
    requires StrictlyAscending(s)
    requires x !in s
    ensures StrictlyAscending(Insert(s, x))
  {
    if s == [] {
    } else if x < s[0] {
      StrictCons(x, s);
    } else {
      var t := s[1..];
      assert StrictlyAscending(t) && x !in t by {
        forall i, j | 0 <= i < j < |t|
          ensures t[i] < t[j]
        {
          assert t[i] == s[i + 1] && t[j] == s[j + 1];
        }
        assert forall y :: y in t ==> y in s;
      }
      var r := Insert(t, x);
      assert StrictlyAscending(r) by {
        InsertStrict(t, x);
      }
      assert s[0] < r[0] by {
        assert x != s[0];
        assert t != [] ==> t[0] == s[1];
      }
      assert Insert(s, x) == [s[0]] + r;
      StrictCons(s[0], r);
    }
  }

  /** Putting a value smaller than the head in front of a strictly ascending list keeps it so. */
  lemma {:induction false} StrictCons(a: nat, t: seq<nat>)
    requires StrictlyAscending(t) && (t == [] || a < t[0])
    ensures StrictlyAscending([a] + t)
  {
    var r := [a] + t;
    forall i, j | 0 <= i < j < |r|
      ensures r[i] < r[j]
    {
      if i == 0 {
        assert r[j] == t[j - 1] && t[0] <= t[j - 1];
      } else {
        assert r[i] == t[i - 1] && r[j] == t[j - 1];
      }
    }
  }

  /** Python's `list.sort()` on integers: an ascending rearrangement of the list. */
  function Sort(s: seq<nat>): (r: seq<nat>)
    ensures Ascending(r)
    ensures multiset(r) == multiset(s)
  {
    if s == [] then []
    else
      assert s == s[..|s| - 1] + [s[|s| - 1]];
      Insert(Sort(s[..|s| - 1]), s[|s| - 1])
  }

  /**
   `add_bookmark`: with a video open and the slider on a frame not yet bookmarked, append
   it and sort; otherwise the list is left as it was.
   */
  function AddBookmark(loaded: bool, bookmarks: seq<nat>, current: nat): (r: seq<nat>)
    ensures !loaded || current in bookmarks ==> r == bookmarks
    ensures loaded && current !in bookmarks ==>
              Ascending(r) && multiset(r) == multiset(bookmarks) + multiset{current}
  {
    if loaded && current !in bookmarks then Sort(bookmarks + [current]) else bookmarks
  }

  /** Inserting a value no smaller than anything present appends it. */
  lemma {:induction false} InsertLargest(s: seq<nat>, x: nat)
    requires Ascending(s)
    requires forall i :: 0 <= i < |s| ==> s[i] <= x
    ensures Insert(s, x) == s + [x]
  {
    if s != [] {
      var t := s[1..];
      assert Ascending(t) && forall i :: 0 <= i < |t| ==> t[i] <= x by {
        AscendingSlice(s, 1, |s|);
        forall i | 0 <= i < |t|
          ensures t[i] <= x
        {
          assert t[i] == s[i + 1];
        }
      }
      var rest := Insert(t, x);
      assert rest == t + [x] by {
        InsertLargest(t, x);
      }
      InsertUnfold(s, x);
      ConsSnoc(s, x);
    }
  }

  /** A value no smaller than the head goes behind it. */
  lemma {:induction false} InsertUnfold(s: seq<nat>, x: nat)
    requires Ascending(s) && s != [] && s[0] <= x
    requires Ascending(s[1..])
    ensures Insert(s, x) == [s[0]] + Insert(s[1..], x)
  {
  }

  lemma {:induction false} ConsSnoc(s: seq<nat>, x: nat)
    requires s != []
    ensures [s[0]] + (s[1..] + [x]) == s + [x]
  {
  }

  /** Any slice of an ascending list is ascending. */
  lemma {:induction false} AscendingSlice(s: seq<nat>, lo: nat, hi: nat)
    requires Ascending(s) && lo <= hi <= |s|
    ensures Ascending(s[lo..hi])
  {
    var t := s[lo..hi];
    forall i, j | 0 <= i < j < |t|
      ensures t[i] <= t[j]
    {
      assert t[i] == s[lo + i] && t[j] == s[lo + j];
    }
  }

  /** Sorting a list that is already in order leaves it as it is. */
  lemma {:induction false} SortSorted(s: seq<nat>)
    requires Ascending(s)
    ensures Sort(s) == s
  {
    if s != [] {
      var p := s[..|s| - 1];
      var last := s[|s| - 1];
      AscendingInit(s);
      SortSorted(p);
      InsertLargest(p, last);
      SortSnoc(s);
    }
  }

  /** Dropping the last element of an ascending list leaves an ascending list bounded by it. */
  lemma {:induction false} AscendingInit(s: seq<nat>)
    requires Ascending(s) && s != []
    ensures var p := s[..|s| - 1];
            Ascending(p) && forall i :: 0 <= i < |p| ==> p[i] <= s[|s| - 1]
  {
    var p := s[..|s| - 1];
    AscendingSlice(s, 0, |s| - 1);
    forall i | 0 <= i < |p|
      ensures p[i] <= s[|s| - 1]
    {
      assert p[i] == s[i];
    }
  }

  /** If the front part sorts to itself and the last element inserts at the end, the list sorts to itself. */
  lemma {:induction false} SortSnoc(s: seq<nat>)
    requires s != []
    requires Sort(s[..|s| - 1]) == s[..|s| - 1]
    requires Ascending(s[..|s| - 1])
    requires Insert(s[..|s| - 1], s[|s| - 1]) == s[..|s| - 1] + [s[|s| - 1]]
    ensures Sort(s) == s
  {
    SortUnfold(s);
    SplitLast(s);
  }

  lemma {:induction false} SortUnfold(s: seq<nat>)
    requires s != []
    ensures Sort(s) == Insert(Sort(s[..|s| - 1]), s[|s| - 1])
  {
  }

  lemma {:induction false} SplitLast(s: seq<nat>)
    requires s != []
    ensures s[..|s| - 1] + [s[|s| - 1]] == s
  {
  }

  /** On a sorted list, append-and-sort is the same as inserting in place. */
  lemma {:induction false} AddBookmarkIsInsert(bookmarks: seq<nat>, current: nat)
    requires Ascending(bookmarks)
    requires current !in bookmarks
    ensures AddBookmark(true, bookmarks, current) == Insert(bookmarks, current)
  {
    var s := bookmarks + [current];
    assert s[..|s| - 1] == bookmarks;
    SortSorted(bookmarks);
  }

  /** Adding keeps the list an ordered set whose elements are the old ones plus the new one. */
  lemma {:induction false} AddBookmarkKeepsOrder(loaded: bool, bookmarks: seq<nat>, current: nat)
    requires StrictlyAscending(bookmarks)
    ensures StrictlyAscending(AddBookmark(loaded, bookmarks, current))
    ensures Elems(AddBookmark(loaded, bookmarks, current))
            == if loaded then Elems(bookmarks) + {current} else Elems(bookmarks)
  {
    if loaded && current !in bookmarks {
      assert Ascending(bookmarks);
      AddBookmarkIsInsert(bookmarks, current);
      InsertStrict(bookmarks, current);
      var r := Insert(bookmarks, current);
      ElemsOfMultiset(r, bookmarks, current);
    }
  }

  /** A sequence holding the elements of another plus one more has the set of elements plus that one. */
  lemma {:induction false} ElemsOfMultiset(r: seq<nat>, s: seq<nat>, x: nat)
    requires multiset(r) == multiset(s) + multiset{x}
    ensures Elems(r) == Elems(s) + {x}
  {
    forall y
      ensures y in Elems(r) <==> y in Elems(s) + {x}
    {
      assert y in r <==> y in multiset(r);
      assert y in s <==> y in multiset(s);
    }
  }

  /** Adding the same frame twice is the same as adding it once. */
  lemma {:induction false} AddBookmarkIdempotent(loaded: bool, bookmarks: seq<nat>, current: nat)
    ensures var once := AddBookmark(loaded, bookmarks, current);
            AddBookmark(loaded, once, current) == once
  {
    var once := AddBookmark(loaded, bookmarks, current);
    if loaded && current !in bookmarks {
      assert current in multiset(once);
    }
  }

  lemma {:induction false} ElemsNonEmpty(s: seq<nat>)
    ensures s != [] ==> Elems(s) != {}
  {
    if s != [] {
      assert s[0] in Elems(s);
    }
  }

  /** An ordered set is determined by its elements. */
  lemma {:induction false} StrictlyAscendingUnique(a: seq<nat>, b: seq<nat>)
    requires StrictlyAscending(a) && StrictlyAscending(b)
    requires Elems(a) == Elems(b)
    ensures a == b
    decreases |a|
  {
    if a == [] {
      ElemsNonEmpty(b);
    } else {
      assert a[0] in Elems(b);
      assert b != [];
      assert b[0] in Elems(a);
      assert a[0] == b[0];
      assert Elems(a[1..]) == Elems(a) - {a[0]};
      assert Elems(b[1..]) == Elems(b) - {b[0]};
      StrictlyAscendingUnique(a[1..], b[1..]);
      assert a == [a[0]] + a[1..] && b == [b[0]] + b[1..];
    }
  }

  /**
   The list after an addition is THE ascending arrangement of the old bookmarks and the new
   frame: any other duplicate-free ascending list holding exactly those frames is equal to it.
   */
  lemma {:induction false} AddBookmarkCanonical(bookmarks: seq<nat>, current: nat, other: seq<nat>)
    requires StrictlyAscending(bookmarks)
    requires StrictlyAscending(other) && Elems(other) == Elems(bookmarks) + {current}
    ensures AddBookmark(true, bookmarks, current) == other
  {
    AddBookmarkKeepsOrder(true, bookmarks, current);
    StrictlyAscendingUnique(AddBookmark(true, bookmarks, current), other);
  }

  /** A run of additions, one after the other, as the toolbar action performs them. */
  function AddAll(loaded: bool, bookmarks: seq<nat>, frames: seq<nat>): seq<nat>
    decreases |frames|
  {
    if frames == [] then bookmarks
    else AddAll(loaded, AddBookmark(loaded, bookmarks, frames[0]), frames[1..])
  }

  /**
   From any strictly ascending list, any run of additions leaves a duplicate-free ascending
   list whose elements are the old ones plus the frames added (only the old ones if no video
   was open).
   */
  lemma {:induction false} AddAllKeepsOrder(loaded: bool, bookmarks: seq<nat>, frames: seq<nat>)
    requires StrictlyAscending(bookmarks)
    ensures StrictlyAscending(AddAll(loaded, bookmarks, frames))
    ensures Elems(AddAll(loaded, bookmarks, frames))
            == if loaded then Elems(bookmarks) + Elems(frames) else Elems(bookmarks)
    decreases |frames|
  {
    if frames != [] {
      AddBookmarkKeepsOrder(loaded, bookmarks, frames[0]);
      AddAllKeepsOrder(loaded, AddBookmark(loaded, bookmarks, frames[0]), frames[1..]);
      assert Elems(frames) == {frames[0]} + Elems(frames[1..]);
    }
  }
}
