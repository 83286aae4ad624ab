/** The message handlers that change the file queue and the options: adding
    files (with and without de-duplication), drag-and-drop reordering,
    selection, deletion of the selected files, the validated text inputs, and
    recording a file's conversion result. Each handler is a method on the
    application state; the functions beside them say what the handlers
    compute, and the lemmas what those computations guarantee. Persisting the
    options after a change is not part of this model. */
module Handlers {
  import opened Common
  import opened State

  // ------------------------------------------------ adding files

  /** Whether some queued item has path `p` (`iter().any`). */
  function HasPath(files: seq<FileItem>, p: FilePath): (r: bool)
    ensures r <==> exists k :: 0 <= k < |files| && files[k].path == p
  {
    if files == [] then false
    else if files[0].path == p then true
    else
      assert forall k :: 1 <= k < |files| ==> files[k] == files[1..][k - 1];
      HasPath(files[1..], p)
  }

  /** No two queued items share a path. */
  predicate DistinctPaths(files: seq<FileItem>) {
    forall i, j :: 0 <= i < j < |files| ==> files[i].path != files[j].path
  }

  /** The queue after adding `paths` (with the identifiers `ids`) as
      `handle_files_selected` does: in order, each path is appended unless an
      item, possibly one appended earlier in the same batch, already has it. */
  function WithSelectedFiles(files: seq<FileItem>, paths: seq<FilePath>, ids: seq<Uuid>): (r: seq<FileItem>)
    requires |paths| == |ids|
    ensures |files| <= |r| <= |files| + |paths|
  {
    if paths == [] then files
    else
      var n := |paths| - 1;
      var before := WithSelectedFiles(files, paths[..n], ids[..n]);
      if HasPath(before, paths[n]) then before else before + [NewFileItem(ids[n], paths[n])]
  }

  /** The existing items stay where they are, and every appended item is a
      fresh, pending item for one of the given paths. */
  lemma {:induction false} SelectedFilesExtend(files: seq<FileItem>, paths: seq<FilePath>, ids: seq<Uuid>)
    requires |paths| == |ids|
    ensures var r := WithSelectedFiles(files, paths, ids);
      && |files| <= |r| <= |files| + |paths|
      && r[..|files|] == files
      && forall k :: |files| <= k < |r| ==>
           exists j :: 0 <= j < |paths| && r[k] == NewFileItem(ids[j], paths[j])
  {
    if paths != [] {
      var n := |paths| - 1;
      SelectedFilesExtend(files, paths[..n], ids[..n]);
      var before := WithSelectedFiles(files, paths[..n], ids[..n]);
      var r := WithSelectedFiles(files, paths, ids);
      forall k | |files| <= k < |r|
        ensures exists j :: 0 <= j < |paths| && r[k] == NewFileItem(ids[j], paths[j])
      {
        if k < |before| {
          var j :| 0 <= j < n && before[k] == NewFileItem(ids[..n][j], paths[..n][j]);
          assert r[k] == NewFileItem(ids[j], paths[j]);
        } else {
          assert r[k] == NewFileItem(ids[n], paths[n]);
        }
      }
    }
  }

  /** Adding files never creates a duplicate path, and afterwards every given
      path is in the queue. */
  lemma {:induction false} SelectedFilesDistinct(files: seq<FileItem>, paths: seq<FilePath>, ids: seq<Uuid>)
    requires |paths| == |ids|
    requires DistinctPaths(files)
    ensures DistinctPaths(WithSelectedFiles(files, paths, ids))
    ensures forall j :: 0 <= j < |paths| ==> HasPath(WithSelectedFiles(files, paths, ids), paths[j])
  {
    if paths != [] {
      var n := |paths| - 1;
      SelectedFilesDistinct(files, paths[..n], ids[..n]);
      var before := WithSelectedFiles(files, paths[..n], ids[..n]);
      var r := WithSelectedFiles(files, paths, ids);
      assert r[..|before|] == before;
      forall j | 0 <= j < |paths|
        ensures HasPath(r, paths[j])
      {
        if j < n {
          assert paths[j] == paths[..n][j];
          var k :| 0 <= k < |before| && before[k].path == paths[j];
          assert r[k] == before[k];
        } else {
          assert HasPath(before, paths[n]) || r[|before|].path == paths[n];
        }
      }
    }
  }

  /** `handle_files_selected`. `ids` are the identifiers the new items get,
      one per path. */
  method FilesSelected(state: AppState, paths: seq<FilePath>, ids: seq<Uuid>)
    requires |ids| == |paths|
    modifies state
    ensures state.files == WithSelectedFiles(old(state.files), paths, ids)
    ensures unchanged(state`selectedIndices, state`isProcessing, state`options, state`draggingIndex, state`hoveredIndex)
  {
    var i := 0;
    while i < |paths|
      invariant 0 <= i <= |paths|
      invariant state.files == WithSelectedFiles(old(state.files), paths[..i], ids[..i])
      invariant unchanged(state`selectedIndices, state`isProcessing, state`options, state`draggingIndex, state`hoveredIndex)
    {
      assert paths[..i + 1][..i] == paths[..i] && ids[..i + 1][..i] == ids[..i];
      if !HasPath(state.files, paths[i]) {
        state.files := state.files + [NewFileItem(ids[i], paths[i])];
      }
      i := i + 1;
    }
    assert paths[..i] == paths && ids[..i] == ids;
  }

  /** The items `handle_external_files` appends: one per dropped path that is
      a regular file, in order, without looking at the queue. */
  function ExternalItems(paths: seq<FilePath>, ids: seq<Uuid>, isFile: FilePath -> bool): (r: seq<FileItem>)
    requires |paths| == |ids|
    ensures |r| <= |paths|
    ensures forall k :: 0 <= k < |r| ==> r[k].status == Pending && isFile(r[k].path)
    ensures forall j :: 0 <= j < |paths| && isFile(paths[j]) ==> NewFileItem(ids[j], paths[j]) in r
  {
    if paths == [] then []
    else
      var n := |paths| - 1;
      var before := ExternalItems(paths[..n], ids[..n], isFile);
      assert forall j :: 0 <= j < n ==> paths[j] == paths[..n][j] && ids[j] == ids[..n][j];
      before + (if isFile(paths[n]) then [NewFileItem(ids[n], paths[n])] else [])
  }

  /** `handle_external_files`. */
  method ExternalFiles(state: AppState, paths: seq<FilePath>, ids: seq<Uuid>, isFile: FilePath -> bool)
    requires |ids| == |paths|
    modifies state
    ensures state.files == old(state.files) + ExternalItems(paths, ids, isFile)
    ensures unchanged(state`selectedIndices, state`isProcessing, state`options, state`draggingIndex, state`hoveredIndex)
  {
    var i := 0;
    while i < |paths|
      invariant 0 <= i <= |paths|
      invariant state.files == old(state.files) + ExternalItems(paths[..i], ids[..i], isFile)
      invariant unchanged(state`selectedIndices, state`isProcessing, state`options, state`draggingIndex, state`hoveredIndex)
    {
      assert paths[..i + 1][..i] == paths[..i] && ids[..i + 1][..i] == ids[..i];
      if isFile(paths[i]) {
        state.files := state.files + [NewFileItem(ids[i], paths[i])];
      }
      i := i + 1;
    }
    assert paths[..i] == paths && ids[..i] == ids;
  }

  /** Unlike the file dialog, dropping a file that is already queued queues it
      a second time. */
  lemma DroppedFileIsNotDeduplicated(files: seq<FileItem>, p: FilePath, id: Uuid, isFile: FilePath -> bool)
    requires isFile(p) && HasPath(files, p)
    ensures WithSelectedFiles(files, [p], [id]) == files
    ensures !DistinctPaths(files + ExternalItems([p], [id], isFile))
  {
    assert [p][..0] == [] && [id][..0] == [];
    var k :| 0 <= k < |files| && files[k].path == p;
    var r := files + ExternalItems([p], [id], isFile);
    assert ExternalItems([p], [id], isFile) == [NewFileItem(id, p)];
    assert r[k].path == r[|files|].path;
  }

  // ------------------------------------------------ drag and drop

  function RemoveAt<T>(s: seq<T>, i: nat): (r: seq<T>)
    requires i < |s|
    ensures |r| == |s| - 1
  {
    s[..i] + s[i + 1..]
  }

  function InsertAt<T>(s: seq<T>, i: nat, x: T): (r: seq<T>)
    requires i <= |s|
    ensures |r| == |s| + 1
  {
    s[..i] + [x] + s[i..]
  }

  /** `remove(from)` followed by `insert(to, item)`: the item moves to index
      `to`, the queue keeps its items. */
  function Moved<T>(s: seq<T>, from: nat, to: nat): (r: seq<T>)
    requires from < |s| && to < |s|
    ensures |r| == |s| && r[to] == s[from]
    ensures multiset(r) == multiset(s)
  {
    var rest := RemoveAt(s, from);
    var x := s[from];
    var moved := InsertAt(rest, to, x);
    assert moved[to] == x;
    calc {
      multiset(moved);
      { assert moved == rest[..to] + [x] + rest[to..]; }
      multiset(rest[..to]) + multiset{x} + multiset(rest[to..]);
      { assert rest == rest[..to] + rest[to..]; }
      multiset(rest) + multiset{x};
      { assert rest == s[..from] + s[from + 1..]; }
      multiset(s[..from]) + multiset(s[from + 1..]) + multiset{x};
      { assert s == s[..from] + [x] + s[from + 1..]; }
      multiset(s);
    }
    moved
  }

  /** Apart from the moved item, the queue keeps its order. */
  lemma MovedKeepsOthersInOrder<T>(s: seq<T>, from: nat, to: nat)
    requires from < |s| && to < |s|
    ensures RemoveAt(Moved(s, from, to), to) == RemoveAt(s, from)
  {
    var rest := RemoveAt(s, from);
    var r := Moved(s, from, to);
    assert r[..to] == rest[..to];
    assert r[to + 1..] == rest[to..];
  }

  /** Dragging the item back where it came from restores the queue. */
  lemma MoveBack<T>(s: seq<T>, from: nat, to: nat)
    requires from < |s| && to < |s|
    ensures Moved(Moved(s, from, to), to, from) == s
  {
    var r := Moved(s, from, to);
    MovedKeepsOthersInOrder(s, from, to);
    var rest := RemoveAt(s, from);
    assert RemoveAt(r, to) == rest;
    assert InsertAt(rest, from, s[from]) == s;
  }

  /** `handle_item_drag_started`. */
  method DragStarted(state: AppState, index: nat)
    modifies state
    ensures state.draggingIndex == Some(index)
    ensures unchanged(state`files, state`selectedIndices, state`isProcessing, state`options, state`hoveredIndex)
  {
    state.draggingIndex := Some(index);
  }

  /** `handle_item_dropped`: a drag from one valid index to another moves the
      item and clears the selection (whose indices no longer fit); any other
      drop changes nothing. Either way the drag ends. */
  method ItemDropped(state: AppState)
    modifies state
    ensures var from, to, n := old(state.draggingIndex), old(state.hoveredIndex), |old(state.files)|;
      if from.Some? && to.Some? && from.value != to.value && from.value < n && to.value < n then
        state.files == Moved(old(state.files), from.value, to.value) && state.selectedIndices == {}
      else
        state.files == old(state.files) && state.selectedIndices == old(state.selectedIndices)
    ensures state.draggingIndex == None && state.hoveredIndex == None
    ensures unchanged(state`isProcessing, state`options)
  {
    if state.draggingIndex.Some? {
      var from := state.draggingIndex.value;
      if state.hoveredIndex.Some? {
        var to := state.hoveredIndex.value;
        if from != to && from < |state.files| && to < |state.files| {
          var item := state.files[from];
          state.files := state.files[..from] + state.files[from + 1..];
          state.files := state.files[..to] + [item] + state.files[to..];
          state.selectedIndices := {};
        }
      }
    }
    state.draggingIndex := None;
    state.hoveredIndex := None;
  }

  /** `handle_item_hovered`: the hover target follows the pointer only while a
      drag is in progress. */
  method ItemHovered(state: AppState, index: Option<nat>)
    modifies state
    ensures state.hoveredIndex == if old(state.draggingIndex).Some? then index else old(state.hoveredIndex)
    ensures unchanged(state`files, state`selectedIndices, state`isProcessing, state`options, state`draggingIndex)
  {
    if state.draggingIndex.Some? {
      state.hoveredIndex := index;
    }
  }

  // ------------------------------------------------ selection

  /** The selection with the membership of `i`, and only `i`, flipped. */
  function Toggled(s: set<nat>, i: nat): (r: set<nat>)
    ensures i in r <==> i !in s
    ensures forall j :: j != i ==> (j in r <==> j in s)
  {
    if i in s then s - {i} else s + {i}
  }

  /** Toggling twice restores the selection. */
  lemma ToggleTwice(s: set<nat>, i: nat)
    ensures Toggled(Toggled(s, i), i) == s
  {
  }

  /** `handle_toggle_selection`. */
  method ToggleSelection(state: AppState, index: nat)
    modifies state
    ensures state.selectedIndices == Toggled(old(state.selectedIndices), index)
    ensures unchanged(state`files, state`isProcessing, state`options, state`draggingIndex, state`hoveredIndex)
  {
    if index in state.selectedIndices {
      state.selectedIndices := state.selectedIndices - {index};
    } else {
      state.selectedIndices := state.selectedIndices + {index};
    }
  }

  /** The items of `s` whose positions (counted from `base`) are not in
      `sel`, in their order. */
  function UnselectedFrom(s: seq<FileItem>, sel: set<nat>, base: nat): (r: seq<FileItem>)
    ensures |r| <= |s|
  {
    if s == [] then []
    else (if base in sel then [] else [s[0]]) + UnselectedFrom(s[1..], sel, base + 1)
  }

  /** The queue without the items at the selected positions. */
  function Unselected(s: seq<FileItem>, sel: set<nat>): (r: seq<FileItem>)
    ensures |r| <= |s|
  {
    UnselectedFrom(s, sel, 0)
  }

  /** Positions below the base are never looked at. */
  lemma {:induction false} UnselectedFromIgnoresBelow(s: seq<FileItem>, sel: set<nat>, base: nat, x: nat)
    requires x < base
    ensures UnselectedFrom(s, sel + {x}, base) == UnselectedFrom(s, sel, base)
    decreases |s|
  {
    if s != [] {
      UnselectedFromIgnoresBelow(s[1..], sel, base + 1, x);
    }
  }

  /** Removing one more position, below every position removed so far, takes
      out the item at that very index of the current queue: nothing before it
      has moved. Past the end it changes nothing. */
  lemma {:induction false} UnselectedRemoveBelow(s: seq<FileItem>, done: set<nat>, base: nat, idx: nat)
    requires base <= idx && idx !in done
    requires forall d :: d in done ==> idx < d
    ensures var v := UnselectedFrom(s, done, base);
      if idx - base < |s| then
        idx - base < |v| && UnselectedFrom(s, done + {idx}, base) == v[..idx - base] + v[idx - base + 1..]
      else
        UnselectedFrom(s, done + {idx}, base) == v && |v| <= idx - base
    decreases |s|
  {
    if s != [] {
      var v := UnselectedFrom(s, done, base);
      assert base !in done;
      if idx == base {
        UnselectedRemoveFirst(s, done, base);
      } else {
        var w := UnselectedFrom(s[1..], done, base + 1);
        var w' := UnselectedFrom(s[1..], done + {idx}, base + 1);
        UnselectedRemoveBelow(s[1..], done, base + 1, idx);
        assert base !in done + {idx};
        assert v == [s[0]] + w;
        assert UnselectedFrom(s, done + {idx}, base) == [s[0]] + w';
        ConsRemoveAt(s[0], w, w', idx - base - 1, |s| - 1);
      }
    }
  }

  /** Putting one item in front shifts a removal position by one. */
  lemma ConsRemoveAt<T>(a: T, w: seq<T>, w': seq<T>, k: nat, n: nat)
    requires if k < n then k < |w| && w' == w[..k] + w[k + 1..] else w' == w && |w| <= k
    ensures var v := [a] + w;
      if k + 1 < n + 1 then
        k + 1 < |v| && [a] + w' == v[..k + 1] + v[k + 2..]
      else
        [a] + w' == v && |v| <= k + 1
  {
    var v := [a] + w;
    if k < n {
      assert v[..k + 1] == [a] + w[..k];
      assert v[k + 2..] == w[k + 1..];
    }
  }

  /** Removing the position at the base takes out the first survivor, which
      is the queue's first item. */
  lemma UnselectedRemoveFirst(s: seq<FileItem>, done: set<nat>, base: nat)
    requires s != [] && base !in done
    ensures var v := UnselectedFrom(s, done, base);
      0 < |v| && UnselectedFrom(s, done + {base}, base) == v[1..]
  {
    UnselectedFromIgnoresBelow(s[1..], done, base + 1, base);
    assert UnselectedFrom(s, done, base) == [s[0]] + UnselectedFrom(s[1..], done, base + 1);
  }

  /** Positions past the end of the queue play no part. */
  lemma {:induction false} UnselectedFromIgnoresOutOfRange(s: seq<FileItem>, sel: set<nat>, base: nat)
    ensures UnselectedFrom(s, sel, base) == UnselectedFrom(s, (set k | k in sel && k < base + |s|), base)
    decreases |s|
  {
    if s != [] {
      UnselectedFromIgnoresOutOfRange(s[1..], sel, base + 1);
      var inRange := set k | k in sel && k < base + |s|;
      UnselectedFromIgnoresOutOfRange(s[1..], inRange, base + 1);
      assert (set k | k in inRange && k < base + 1 + |s[1..]|) == (set k | k in sel && k < base + 1 + |s[1..]|);
    }
  }

  lemma {:induction false} UnselectedFromKeepsUnselected(s: seq<FileItem>, sel: set<nat>, base: nat)
    ensures forall k :: 0 <= k < |s| && base + k !in sel ==> s[k] in UnselectedFrom(s, sel, base)
    ensures forall x :: x in UnselectedFrom(s, sel, base) ==>
      exists k :: 0 <= k < |s| && base + k !in sel && s[k] == x
    decreases |s|
  {
    if s != [] {
      UnselectedFromKeepsUnselected(s[1..], sel, base + 1);
      var r := UnselectedFrom(s, sel, base);
      var w := UnselectedFrom(s[1..], sel, base + 1);
      assert r == (if base in sel then [] else [s[0]]) + w;
      forall k | 0 <= k < |s| && base + k !in sel
        ensures s[k] in r
      {
        if k > 0 {
          assert s[k] == s[1..][k - 1];
        }
      }
      forall x | x in r
        ensures exists k :: 0 <= k < |s| && base + k !in sel && s[k] == x
      {
        if x in w {
          var k :| 0 <= k < |s[1..]| && base + 1 + k !in sel && s[1..][k] == x;
          assert s[k + 1] == x;
        }
      }
    }
  }

  /** What deleting keeps: an item survives exactly when some unselected
      position holds it; positions past the end are ignored; deleting with
      nothing selected keeps the queue. */
  lemma UnselectedProperties(s: seq<FileItem>, sel: set<nat>)
    ensures forall k :: 0 <= k < |s| && k !in sel ==> s[k] in Unselected(s, sel)
    ensures forall x :: x in Unselected(s, sel) ==> exists k :: 0 <= k < |s| && k !in sel && s[k] == x
    ensures Unselected(s, sel) == Unselected(s, (set k | k in sel && k < |s|))
    ensures Unselected(s, {}) == s
  {
    UnselectedFromKeepsUnselected(s, sel, 0);
    UnselectedFromIgnoresOutOfRange(s, sel, 0);
    UnselectedFromKeepsEverything(s, 0);
  }

  lemma {:induction false} UnselectedFromKeepsEverything(s: seq<FileItem>, base: nat)
    ensures UnselectedFrom(s, {}, base) == s
    decreases |s|
  {
    if s != [] {
      UnselectedFromKeepsEverything(s[1..], base + 1);
    }
  }

  /** The largest element of a non-empty set of indices. */
  lemma {:induction false} LargestExists(s: set<nat>)
    requires s != {}
    ensures exists m :: m in s && forall j :: j in s ==> j <= m
    decreases |s|
  {
    var x :| x in s;
    if s - {x} != {} {
      LargestExists(s - {x});
      var m :| m in s - {x} && forall j :: j in s - {x} ==> j <= m;
      var top := if x > m then x else m;
      forall j | j in s
        ensures j <= top
      {
        if j != x {
          assert j in s - {x};
        }
      }
    } else {
      assert s == {x};
    }
  }

  /** One step of the deletion loop, on the queue itself. */
  lemma DeleteStep(original: seq<FileItem>, done: set<nat>, idx: nat)
    requires idx !in done
    requires forall d :: d in done ==> idx < d
    ensures var files := UnselectedFrom(original, done, 0);
      UnselectedFrom(original, done + {idx}, 0) ==
        if idx < |files| then files[..idx] + files[idx + 1..] else files
  {
    UnselectedRemoveBelow(original, done, 0, idx);
  }

  /** Moving the largest remaining index to the removed ones keeps every
      remaining index below every removed one. */
  lemma MoveLargest(remaining: set<nat>, done: set<nat>, idx: nat)
    requires idx in remaining && forall j :: j in remaining ==> j <= idx
    requires remaining !! done && forall r, d :: r in remaining && d in done ==> r < d
    ensures (remaining - {idx}) + (done + {idx}) == remaining + done
    ensures (remaining - {idx}) !! (done + {idx})
    ensures forall r, d :: r in remaining - {idx} && d in done + {idx} ==> r < d
    ensures forall d :: d in done ==> idx < d
  {
  }

  /** `handle_delete_selected`: removes the selected indices from the largest
      down, skipping those past the end, so that each removal leaves the
      positions still to be removed in place; then clears the selection. */
  method DeleteSelected(state: AppState)
    modifies state
    ensures state.files == Unselected(old(state.files), old(state.selectedIndices))
    ensures state.selectedIndices == {}
    ensures unchanged(state`isProcessing, state`options, state`draggingIndex, state`hoveredIndex)
  {
    state.files := RemoveSelected(state.files, state.selectedIndices);
    state.selectedIndices := {};
  }

  /** The deletion loop: the selected indices are taken from the largest
      down, each removed from the queue if it is in range. */
  method RemoveSelected(files: seq<FileItem>, selected: set<nat>) returns (kept: seq<FileItem>)
    ensures kept == Unselected(files, selected)
  {
    kept := files;
    var remaining := selected;
    ghost var done: set<nat> := {};
    UnselectedFromKeepsEverything(files, 0);
    while remaining != {}
      invariant remaining + done == selected && remaining !! done
      invariant forall r, d :: r in remaining && d in done ==> r < d
      invariant kept == UnselectedFrom(files, done, 0)
      decreases |remaining|
    {
      LargestExists(remaining);
      var idx :| idx in remaining && forall j :: j in remaining ==> j <= idx;
      DeleteStep(files, done, idx);
      MoveLargest(remaining, done, idx);
      if idx < |kept| {
        kept := kept[..idx] + kept[idx + 1..];
      }
      remaining := remaining - {idx};
      done := done + {idx};
    }
  }

  /** `handle_clear_list`. */
  method ClearList(state: AppState)
    modifies state
    ensures state.files == [] && state.selectedIndices == {}
    ensures unchanged(state`isProcessing, state`options, state`draggingIndex, state`hoveredIndex)
  {
    state.files := [];
    state.selectedIndices := {};
  }

  // ------------------------------------------------ option inputs

  /** The quality after typing `value`: a `u8` is taken, capped at 100;
      anything else keeps the current quality. */
  function QualityFromInput(current: byte, value: string): byte {
    match ParseUnsigned(value, U8Max)
    case Some(n) => Min(n, 100)
    case None => current
  }

  /** Typed numbers up to 255 set the quality, capped at 100; numbers past 255
      and non-numbers leave it as it was. */
  lemma QualityInputOfNumber(current: byte, n: nat)
    ensures n <= 255 ==> QualityFromInput(current, NatToString(n)) == Min(n, 100)
    ensures n > 255 ==> QualityFromInput(current, NatToString(n)) == current
  {
    if n <= 255 {
      ParseNatToString(n, U8Max);
    } else {
      DigitsValueOfNatToString(n);
      assert NatToString(n)[0] != '+';
    }
  }

  /** Every text that is not a `u8` leaves the quality as it was. */
  lemma QualityInputRejects(current: byte, value: string)
    requires NotUnsignedText(value, U8Max)
    ensures QualityFromInput(current, value) == current
  {
    ParseRejectsNonNumbers(value, U8Max);
  }

  /** Worked example: a minus sign, a letter and a signed numeral past 255
      all leave the quality as it was. */
  lemma QualityInputRejectsExamples(current: byte)
    ensures QualityFromInput(current, "-5") == current
    ensures QualityFromInput(current, "a") == current
    ensures QualityFromInput(current, "+256") == current
  {
    QualityInputRejects(current, "-5");
    QualityInputRejects(current, "a");
    var t := "+256";
    assert t[1..] == "256" && AllDigits(t[1..]);
    assert DigitsValue("256") == 256 by {
      assert "256"[..2] == "25" && "25"[..1] == "2";
    }
    QualityInputRejects(current, t);
  }

  /** `handle_quality_input`. */
  method QualityInput(state: AppState, value: string)
    modifies state
    ensures state.options == old(state.options).(quality := QualityFromInput(old(state.options.quality), value))
    ensures unchanged(state`files, state`selectedIndices, state`isProcessing, state`draggingIndex, state`hoveredIndex)
  {
    var parsed := ParseUnsigned(value, U8Max);
    if parsed.Some? {
      var q: byte := if parsed.value <= 100 then parsed.value else 100;
      state.options := state.options.(quality := q);
    }
  }

  /** `handle_width_changed`: only strings of digits are accepted. */
  method WidthChanged(state: AppState, v: string)
    modifies state
    ensures state.options == if AllDigits(v) then old(state.options).(targetWidth := v) else old(state.options)
    ensures unchanged(state`files, state`selectedIndices, state`isProcessing, state`draggingIndex, state`hoveredIndex)
  {
    if AllDigits(v) {
      state.options := state.options.(targetWidth := v);
    }
  }

  /** `handle_height_changed`: only strings of digits are accepted. */
  method HeightChanged(state: AppState, v: string)
    modifies state
    ensures state.options == if AllDigits(v) then old(state.options).(targetHeight := v) else old(state.options)
    ensures unchanged(state`files, state`selectedIndices, state`isProcessing, state`draggingIndex, state`hoveredIndex)
  {
    if AllDigits(v) {
      state.options := state.options.(targetHeight := v);
    }
  }

  /** An accepted dimension is either empty or a plain decimal number, so it
      is read back as its value whenever that fits a `u32`. */
  lemma AcceptedDimensionParses(v: string)
    requires AllDigits(v) && v != []
    ensures DigitsValue(v) <= U32Max ==> ParseUnsigned(v, U32Max) == Some(DigitsValue(v))
    ensures DigitsValue(v) > U32Max ==> ParseUnsigned(v, U32Max) == None
  {
  }

  // ------------------------------------------------ conversion results

  /** A file's conversion result: success, or the error message. */
  datatype ConversionResult = Succeeded | FailedWith(message: string)

  function StatusFor(result: ConversionResult): FileStatus {
    match result
    case Succeeded => Done
    case FailedWith(e) => Error(e)
  }

  /** Position of the first item with identifier `id` (`iter_mut().find`). */
  function FirstWithId(files: seq<FileItem>, id: Uuid): (r: Option<nat>)
    ensures r.Some? ==> r.value < |files| && files[r.value].id == id
    ensures r.Some? ==> forall k :: 0 <= k < r.value ==> files[k].id != id
    ensures r.None? ==> forall k :: 0 <= k < |files| ==> files[k].id != id
  {
    if files == [] then None
    else if files[0].id == id then Some(0)
    else
      match FirstWithId(files[1..], id)
      case Some(k) => Some(k + 1)
      case None => None
  }

  /** The queue with the status of the first item with identifier `id` set
      to `st`. */
  function WithStatus(files: seq<FileItem>, id: Uuid, st: FileStatus): (r: seq<FileItem>)
    ensures |r| == |files|
    ensures forall i :: 0 <= i < |r| ==> r[i].id == files[i].id && r[i].path == files[i].path
  {
    match FirstWithId(files, id)
    case Some(k) => files[k := files[k].(status := st)]
    case None => files
  }

  /** Only the status of the item carrying the identifier changes (when the
      identifiers are unique, that is the one item with it); an unknown
      identifier changes nothing. */
  lemma WithStatusTouchesOnlyItsItem(files: seq<FileItem>, id: Uuid, st: FileStatus, k: nat)
    requires k < |files| && files[k].id == id
    requires forall i, j :: 0 <= i < j < |files| ==> files[i].id != files[j].id
    ensures WithStatus(files, id, st) == files[k := files[k].(status := st)]
  {
  }

  lemma WithStatusUnknownId(files: seq<FileItem>, id: Uuid, st: FileStatus)
    requires forall k :: 0 <= k < |files| ==> files[k].id != id
    ensures WithStatus(files, id, st) == files
  {
  }

  /** Whether some item is still being converted. */
  function AnyProcessing(files: seq<FileItem>): (r: bool)
    ensures r <==> exists k :: 0 <= k < |files| && files[k].status == Processing
  {
    if files == [] then false
    else if files[0].status == Processing then true
    else
      assert forall k :: 1 <= k < |files| ==> files[k] == files[1..][k - 1];
      AnyProcessing(files[1..])
  }

  /** `handle_file_converted`: records the result on the item with the
      identifier; when no item is left processing, the batch is over
      (`finished` stands for the `ConversionFinished` message it sends). */
  method FileConverted(state: AppState, id: Uuid, result: ConversionResult) returns (finished: bool)
    modifies state
    ensures state.files == WithStatus(old(state.files), id, StatusFor(result))
    ensures finished <==> !AnyProcessing(state.files)
    ensures state.isProcessing == (old(state.isProcessing) && !finished)
    ensures unchanged(state`selectedIndices, state`options, state`draggingIndex, state`hoveredIndex)
  {
    var files := state.files;
    var i := 0;
    while i < |files| && files[i].id != id
      invariant 0 <= i <= |files|
      invariant forall k :: 0 <= k < i ==> files[k].id != id
    {
      i := i + 1;
    }
    if i < |files| {
      state.files := files[i := files[i].(status := StatusFor(result))];
    }
    finished := !AnyProcessing(state.files);
    if finished {
      state.isProcessing := false;
    }
  }

  /** `handle_conversion_finished`, without the allocator calls. */
  method ConversionFinished(state: AppState)
    modifies state
    ensures !state.isProcessing
    ensures unchanged(state`files, state`selectedIndices, state`options, state`draggingIndex, state`hoveredIndex)
  {
    state.isProcessing := false;
  }
}
