/**
 * The launcher session of src/app/mod.rs: ranking the snapshot by fuzzy
 * score on every frame, the Escape / Enter keys, and the rendered rows.
 */
module App {
  import opened Wrappers
  import opened WinShit

  // ---------------------------------------------------------------------
  // A stable sort by descending key, as slice::sort_by with `b.cmp(a)`
  // ---------------------------------------------------------------------

  ghost predicate SortedDesc<T>(s: seq<T>, key: T -> int)
  {
    forall i, j :: 0 <= i < j < |s| ==> key(s[i]) >= key(s[j])
  }

  /** The elements of s whose key is k, in their order in s. */
  function WithKey<T>(s: seq<T>, key: T -> int, k: int): seq<T>
  {
    if s == [] then []
    else (if key(s[0]) == k then [s[0]] else []) + WithKey(s[1..], key, k)
  }

  /** Place x after every element whose key is at least its own. */
  function Insert<T>(sorted: seq<T>, x: T, key: T -> int): (r: seq<T>)
    ensures |r| == |sorted| + 1
  {
    if sorted == [] then [x]
    else if key(sorted[0]) < key(x) then [x] + sorted
    else [sorted[0]] + Insert(sorted[1..], x, key)
  }

  /** Stable sort by descending key: insert each element, left to right. */
  function StableSortDesc<T>(s: seq<T>, key: T -> int): (r: seq<T>)
    ensures |r| == |s|
  {
    if s == [] then [] else Insert(StableSortDesc(s[..|s| - 1], key), s[|s| - 1], key)
  }

  lemma {:induction false} InsertPermutes<T>(sorted: seq<T>, x: T, key: T -> int)
    ensures multiset(Insert(sorted, x, key)) == multiset(sorted) + multiset{x}
  {
    if sorted != [] && key(sorted[0]) >= key(x) {
      InsertPermutes(sorted[1..], x, key);
      assert sorted == [sorted[0]] + sorted[1..];
    }
  }

  /** Insertion keeps every key below a common bound. */
  lemma {:induction false} InsertBounded<T>(sorted: seq<T>, x: T, key: T -> int, bound: int)
    requires forall i :: 0 <= i < |sorted| ==> key(sorted[i]) <= bound
    requires key(x) <= bound
    ensures forall i :: 0 <= i < |Insert(sorted, x, key)| ==> key(Insert(sorted, x, key)[i]) <= bound
  {
    if sorted != [] && key(sorted[0]) >= key(x) {
      InsertBounded(sorted[1..], x, key, bound);
    }
  }

  lemma ConsSorted<T>(h: T, rest: seq<T>, key: T -> int)
    requires SortedDesc(rest, key)
    requires forall i :: 0 <= i < |rest| ==> key(rest[i]) <= key(h)
    ensures SortedDesc([h] + rest, key)
  {
    var r := [h] + rest;
    forall i, j | 0 <= i < j < |r| ensures key(r[i]) >= key(r[j]) {
      assert r[j] == rest[j - 1];
      if i > 0 {
        assert r[i] == rest[i - 1];
      }
    }
  }

  lemma {:induction false} InsertSorted<T>(sorted: seq<T>, x: T, key: T -> int)
    requires SortedDesc(sorted, key)
    ensures SortedDesc(Insert(sorted, x, key), key)
  {
    if sorted == [] {
    } else if key(sorted[0]) < key(x) {
      ConsSorted(x, sorted, key);
    } else {
      var tail := sorted[1..];
      assert SortedDesc(tail, key);
      InsertSorted(tail, x, key);
      assert forall i :: 0 <= i < |tail| ==> key(tail[i]) <= key(sorted[0]) by {
        forall i | 0 <= i < |tail| ensures key(tail[i]) <= key(sorted[0]) {
          assert tail[i] == sorted[i + 1];
        }
      }
      InsertBounded(tail, x, key, key(sorted[0]));
      ConsSorted(sorted[0], Insert(tail, x, key), key);
    }
  }

  lemma {:induction false} WithKeyAppend<T>(a: seq<T>, b: seq<T>, key: T -> int, k: int)
    ensures WithKey(a + b, key, k) == WithKey(a, key, k) + WithKey(b, key, k)
  {
    if a == [] {
      assert a + b == b;
    } else {
      var h := if key(a[0]) == k then [a[0]] else [];
      assert (a + b)[0] == a[0];
      assert (a + b)[1..] == a[1..] + b;
      WithKeyAppend(a[1..], b, key, k);
      assert WithKey(a + b, key, k) == h + WithKey(a[1..] + b, key, k);
      assert WithKey(a, key, k) == h + WithKey(a[1..], key, k);
    }
  }

  lemma {:induction false} WithKeyAbsent<T>(s: seq<T>, key: T -> int, k: int)
    requires forall i :: 0 <= i < |s| ==> key(s[i]) != k
    ensures WithKey(s, key, k) == []
  {
    if s != [] {
      WithKeyAbsent(s[1..], key, k);
    }
  }

  lemma {:induction false} InsertWithKey<T>(sorted: seq<T>, x: T, key: T -> int, k: int)
    requires SortedDesc(sorted, key)
    ensures WithKey(Insert(sorted, x, key), key, k) ==
      WithKey(sorted, key, k) + (if key(x) == k then [x] else [])
  {
    if sorted == [] {
      assert [x][1..] == [];
    } else if key(sorted[0]) < key(x) {
      WithKeyAppend([x], sorted, key, k);
      assert [x][1..] == [];
      if key(x) == k {
        WithKeyAbsent(sorted, key, k);
      }
    } else {
      InsertWithKey(sorted[1..], x, key, k);
      assert ([sorted[0]] + Insert(sorted[1..], x, key))[1..] == Insert(sorted[1..], x, key);
    }
  }

  /** The sorted result is ordered by non-increasing key. */
  lemma {:induction false} SortIsSorted<T>(s: seq<T>, key: T -> int)
    ensures SortedDesc(StableSortDesc(s, key), key)
  {
    if s != [] {
      SortIsSorted(s[..|s| - 1], key);
      InsertSorted(StableSortDesc(s[..|s| - 1], key), s[|s| - 1], key);
    }
  }

  /** The sort is a permutation: nothing added, dropped or duplicated. */
  lemma {:induction false} SortPermutes<T>(s: seq<T>, key: T -> int)
    ensures multiset(StableSortDesc(s, key)) == multiset(s)
  {
    if s != [] {
      SortPermutes(s[..|s| - 1], key);
      InsertPermutes(StableSortDesc(s[..|s| - 1], key), s[|s| - 1], key);
      assert s == s[..|s| - 1] + [s[|s| - 1]];
    }
  }

  /** The sort is stable: elements of equal key keep their relative order. */
  lemma {:induction false} SortIsStable<T>(s: seq<T>, key: T -> int, k: int)
    ensures WithKey(StableSortDesc(s, key), key, k) == WithKey(s, key, k)
  {
    if s != [] {
      var init := s[..|s| - 1];
      var last := s[|s| - 1];
      SortIsStable(init, key, k);
      SortIsSorted(init, key);
      InsertWithKey(StableSortDesc(init, key), last, key, k);
      assert s == init + [last];
      WithKeyAppend(init, [last], key, k);
      assert [last][1..] == [];
    }
  }

  lemma {:induction false} WithKeyHead<T>(s: seq<T>, key: T -> int)
    requires s != []
    ensures WithKey(s, key, key(s[0])) != [] && WithKey(s, key, key(s[0]))[0] == s[0]
  {
  }

  lemma {:induction false} WithKeyMember<T>(s: seq<T>, key: T -> int, k: int)
    requires WithKey(s, key, k) != []
    ensures exists i :: 0 <= i < |s| && key(s[i]) == k
  {
    if key(s[0]) != k {
      WithKeyMember(s[1..], key, k);
      var i :| 0 <= i < |s[1..]| && key(s[1..][i]) == k;
      assert key(s[i + 1]) == k;
    }
  }

  lemma {:induction false} WithKeyTail<T>(s: seq<T>, key: T -> int, k: int)
    requires s != []
    ensures WithKey(s[1..], key, k) ==
      if key(s[0]) == k then WithKey(s, key, k)[1..] else WithKey(s, key, k)
  {
  }

  /** Two non-empty sorted sequences agreeing on every key start alike. */
  lemma SameHead<T>(r: seq<T>, t: seq<T>, key: T -> int)
    requires r != [] && t != []
    requires SortedDesc(r, key) && SortedDesc(t, key)
    requires forall k :: WithKey(r, key, k) == WithKey(t, key, k)
    ensures r[0] == t[0]
  {
    var kr, kt := key(r[0]), key(t[0]);
    WithKeyHead(r, key);
    WithKeyHead(t, key);
    assert WithKey(r, key, kr) == WithKey(t, key, kr);
    assert WithKey(r, key, kt) == WithKey(t, key, kt);
    WithKeyMember(t, key, kr);
    WithKeyMember(r, key, kt);
    assert kr == kt;
  }

  /** Dropping the common head keeps the agreement on every key. */
  lemma SameTails<T>(r: seq<T>, t: seq<T>, key: T -> int)
    requires r != [] && t != [] && r[0] == t[0]
    requires forall k :: WithKey(r, key, k) == WithKey(t, key, k)
    ensures forall k :: WithKey(r[1..], key, k) == WithKey(t[1..], key, k)
  {
    forall k ensures WithKey(r[1..], key, k) == WithKey(t[1..], key, k) {
      WithKeyTail(r, key, k);
      WithKeyTail(t, key, k);
      assert WithKey(r, key, k) == WithKey(t, key, k);
    }
  }

  /**
   * Two sequences sorted by descending key that agree on the elements of
   * every key, in order, are equal: a stable descending sort has one result.
   */
  lemma {:induction false} StableSortUnique<T>(r: seq<T>, t: seq<T>, key: T -> int)
    requires SortedDesc(r, key) && SortedDesc(t, key)
    requires forall k :: WithKey(r, key, k) == WithKey(t, key, k)
    ensures r == t
    decreases |r| + |t|
  {
    if r == [] && t != [] {
      WithKeyHead(t, key);
    } else if r != [] && t == [] {
      WithKeyHead(r, key);
    } else if r != [] && t != [] {
      SameHead(r, t, key);
      SameTails(r, t, key);
      StableSortUnique(r[1..], t[1..], key);
      assert r == [r[0]] + r[1..] && t == [t[0]] + t[1..];
    }
  }

  /** Any sequence sorted by descending key that keeps the per-key order of s
      is the stable sort of s: StableSortDesc is what slice::sort_by returns. */
  lemma StableSortCharacterised<T>(s: seq<T>, r: seq<T>, key: T -> int)
    requires SortedDesc(r, key)
    requires forall k :: WithKey(r, key, k) == WithKey(s, key, k)
    ensures r == StableSortDesc(s, key)
  {
    SortIsSorted(s, key);
    forall k ensures WithKey(r, key, k) == WithKey(StableSortDesc(s, key), key, k) {
      SortIsStable(s, key, k);
    }
    StableSortUnique(r, StableSortDesc(s, key), key);
  }

  /** When every key is the same, the order is unchanged. */
  lemma AllTiedUnchanged<T>(s: seq<T>, key: T -> int, c: int)
    requires forall i :: 0 <= i < |s| ==> key(s[i]) == c
    ensures StableSortDesc(s, key) == s
  {
    StableSortCharacterised(s, s, key);
  }

  /** The first element has the highest key of all. */
  lemma HighestKeyFirst<T>(s: seq<T>, key: T -> int)
    requires s != []
    ensures |StableSortDesc(s, key)| == |s|
    ensures forall i :: 0 <= i < |s| ==> key(StableSortDesc(s, key)[0]) >= key(s[i])
  {
    var r := StableSortDesc(s, key);
    SortPermutes(s, key);
    SortIsSorted(s, key);
    assert |r| == |multiset(r)| == |multiset(s)| == |s|;
    forall i | 0 <= i < |s| ensures key(r[0]) >= key(s[i]) {
      assert s[i] in multiset(r);
      var j :| 0 <= j < |r| && r[j] == s[i];
    }
  }

  // ---------------------------------------------------------------------
  // Scoring
  // ---------------------------------------------------------------------

  /** sublime_fuzzy's case-insensitive best match of a query against a title:
      the match's score, or None when there is no match. */
  type Matcher = (string, string) -> Option<int>

  /** The score a title gets: the best match's score, 0 without a match. */
  function TitleScore(matcher: Matcher, query: string, title: string): (score: int)
    ensures matcher(query, title).None? ==> score == 0
    ensures matcher(query, title).Some? ==> score == matcher(query, title).value
  {
    match matcher(query, title)
    case Some(s) => s
    case None => 0
  }

  /** The order the windows are shown in for a query. */
  function RankByScore(windows: seq<WindowInfo>, matcher: Matcher, query: string): (r: seq<WindowInfo>)
    ensures |r| == |windows|
  {
    StableSortDesc(windows, (w: WindowInfo) => TitleScore(matcher, query, w.title))
  }

  /** Scores never increase down the ranked list, and the list is a permutation
      of the snapshot. */
  lemma RankedNonIncreasing(windows: seq<WindowInfo>, matcher: Matcher, query: string)
    ensures var r := RankByScore(windows, matcher, query);
      && multiset(r) == multiset(windows)
      && forall i, j :: 0 <= i < j < |r| ==>
        TitleScore(matcher, query, r[i].title) >= TitleScore(matcher, query, r[j].title)
  {
    var key := (w: WindowInfo) => TitleScore(matcher, query, w.title);
    SortIsSorted(windows, key);
    SortPermutes(windows, key);
  }

  /** When no title matches the query, every score is 0 and the order stays. */
  lemma NoMatchKeepsOrder(windows: seq<WindowInfo>, matcher: Matcher, query: string)
    requires forall i :: 0 <= i < |windows| ==> matcher(query, windows[i].title).None?
    ensures RankByScore(windows, matcher, query) == windows
  {
    AllTiedUnchanged(windows, (w: WindowInfo) => TitleScore(matcher, query, w.title), 0);
  }

  // ---------------------------------------------------------------------
  // Rows
  // ---------------------------------------------------------------------

  /** What one rendered row does: whether it is highlighted, the window it
      focuses when clicked, and whether it asks the frame to close. */
  datatype RowResponse = RowResponse(highlighted: bool, focused: Option<Hwnd>, shouldClose: bool)

  /** window_element: the row of one window; a click focuses that window's
      handle and answers true. */
  function WindowElement(window: WindowInfo, topElement: bool, clicked: bool): (resp: RowResponse)
    ensures resp.highlighted == topElement
    ensures resp.shouldClose <==> clicked
    ensures resp.focused == if clicked then Some(window.handle) else None
  {
    RowResponse(topElement, if clicked then Some(window.handle) else None, clicked)
  }

  /**
   * The for_each over the ranked windows: the first row is rendered with the
   * top-element flag, every later one without; a clicked row focuses its
   * window and closes the frame.
   */
  method RenderRows(rows: seq<WindowInfo>, clickedRow: Option<nat>)
    returns (highlighted: seq<bool>, focused: seq<Hwnd>, close: bool)
    ensures |highlighted| == |rows|
    ensures forall i :: 0 <= i < |rows| ==> (highlighted[i] <==> i == 0)
    ensures close <==> clickedRow.Some? && clickedRow.value < |rows|
    ensures focused == if close then [rows[clickedRow.value].handle] else []
  {
    highlighted, focused, close := [], [], false;
    var topElementSet := false;
    var i := 0;
    while i < |rows|
      invariant 0 <= i <= |rows|
      invariant topElementSet <==> i > 0
      invariant |highlighted| == i
      invariant forall k :: 0 <= k < i ==> (highlighted[k] <==> k == 0)
      invariant close <==> clickedRow.Some? && clickedRow.value < i
      invariant focused == if close then [rows[clickedRow.value].handle] else []
    {
      var resp := WindowElement(rows[i], !topElementSet, clickedRow == Some(i));
      highlighted := highlighted + [resp.highlighted];
      if resp.focused.Some? {
        focused := focused + [resp.focused.value];
      }
      if resp.shouldClose {
        close := true;
      }
      topElementSet := true;
      i := i + 1;
    }
  }

  // ---------------------------------------------------------------------
  // One frame of the session
  // ---------------------------------------------------------------------

  /** The input of one frame: the keys pressed, the query once the text edit
      has applied this frame's typing, and the row that reports a click. */
  datatype FrameInput = FrameInput(
    escapePressed: bool,
    enterPressed: bool,
    editedQuery: string,
    clickedRow: Option<nat>)

  /** What one frame does: either it panics (Enter on an empty list), or it
      lists the handles passed to focus_window in call order, whether
      frame.close() was called, and the highlight flag of each row. */
  datatype FrameOutput =
    | Panicked
    | Rendered(focused: seq<Hwnd>, close: bool, highlighted: seq<bool>)

  class MyApp {
    var query: string
    var windows: seq<WindowInfo>

    /** MyApp { windows, ..Default::default() }: the query starts empty. */
    constructor (windows: seq<WindowInfo>)
      ensures this.query == "" && this.windows == windows
    {
      this.query := "";
      this.windows := windows;
    }

    /**
     * MyApp::update. Escape closes; Enter focuses the window at index 0 of
     * the order rendered by the previous frame and closes; then the query is
     * edited, the snapshot is re-sorted in place by descending score, and the
     * rows are rendered.
     */
    method Update(input: FrameInput, matcher: Matcher) returns (out: FrameOutput)
      modifies this
      ensures input.enterPressed && old(windows) == [] ==>
        out == Panicked && query == old(query) && windows == old(windows)
      ensures !(input.enterPressed && old(windows) == []) ==>
        && query == input.editedQuery
        && windows == RankByScore(old(windows), matcher, input.editedQuery)
        && out.Rendered?
        && |out.highlighted| == |windows|
        && (forall i :: 0 <= i < |windows| ==> (out.highlighted[i] <==> i == 0))
        && var clicked := input.clickedRow.Some? && input.clickedRow.value < |windows|;
           && out.focused ==
                (if input.enterPressed then [old(windows)[0].handle] else []) +
                (if clicked then [windows[input.clickedRow.value].handle] else [])
           && (out.close <==> input.escapePressed || input.enterPressed || clicked)
    {
      var close := false;
      var focused: seq<Hwnd> := [];
      if input.escapePressed {
        close := true;
      }
      if input.enterPressed {
        if |windows| == 0 {
          return Panicked;
        }
        focused := focused + [windows[0].handle];
        close := true;
      }
      query := input.editedQuery;
      windows := RankByScore(windows, matcher, query);
      var highlighted, rowFocused, rowClose := RenderRows(windows, input.clickedRow);
      if rowClose {
        close := true;
      }
      return Rendered(focused + rowFocused, close, highlighted);
    }
  }
}
