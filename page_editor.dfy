/** The page editor: a grid of page thumbnails that can be selected, rotated,
    marked for deletion and dragged into a new order, and the list of pages
    that saving keeps. */
module PageEditor {
  import opened Wrappers
  import opened Sequences
  import opened JsSet

  /** One tile of the grid: its position (`index`), the page number shown under
      it (`number`), and the page number drawn on its placeholder thumbnail. */
  datatype PageEntry = PageEntry(index: int, number: int, thumbnail: int)

  /** What "Save" does: nothing without a document, nothing when every page is
      marked deleted, otherwise a new document of the pages in `keep`. */
  datatype SaveOutcome = NoPdfLoaded | AllPagesDeleted | Save(keep: seq<int>)

  /** A quarter-turn rotation, in degrees. */
  predicate QuarterTurn(r: int) {
    r == 0 || r == 90 || r == 180 || r == 270
  }

  ghost predicate QuarterTurns(m: map<int, int>) {
    forall k :: k in m ==> QuarterTurn(m[k])
  }

  /** The rotation recorded for a page; a page without an entry counts as
      unrotated. */
  function Rotation(m: map<int, int>, i: int): int {
    if i in m then m[i] else 0
  }

  /** The rotations after turning page `i` a further 90 degrees. */
  function Rotated(m: map<int, int>, i: int): (r: map<int, int>)
    ensures i in r && forall k :: k != i ==> (k in r <==> k in m)
    ensures forall k :: k != i ==> Rotation(r, k) == Rotation(m, k)
    ensures QuarterTurn(Rotation(m, i)) ==> QuarterTurn(Rotation(r, i)) && Rotation(r, i) != Rotation(m, i)
    ensures QuarterTurns(m) ==> QuarterTurns(r)
  {
    m[i := (Rotation(m, i) + 90) % 360]
  }

  /** Four quarter turns bring every page back to the rotation it had. */
  lemma RotateFourTimes(m: map<int, int>, i: int)
    requires QuarterTurns(m)
    ensures var r := Rotated(Rotated(Rotated(Rotated(m, i), i), i), i);
      forall k :: Rotation(r, k) == Rotation(m, k)
  {
    var r1 := Rotated(m, i);
    var r2 := Rotated(r1, i);
    var r3 := Rotated(r2, i);
    var r4 := Rotated(r3, i);
    var a := Rotation(m, i);
    assert QuarterTurn(a);
    if a == 0 {
      assert Rotation(r1, i) == 90 && Rotation(r2, i) == 180 && Rotation(r3, i) == 270;
    } else if a == 90 {
      assert Rotation(r1, i) == 180 && Rotation(r2, i) == 270 && Rotation(r3, i) == 0;
    } else if a == 180 {
      assert Rotation(r1, i) == 270 && Rotation(r2, i) == 0 && Rotation(r3, i) == 90;
    } else {
      assert Rotation(r1, i) == 0 && Rotation(r2, i) == 90 && Rotation(r3, i) == 180;
    }
  }

  /** The selection after clicking page `x`: it leaves the selection if it was
      in it, and joins it otherwise. */
  function Toggled(s: set<int>, x: int): (r: set<int>)
    ensures x in r <==> x !in s
    ensures r - {x} == s - {x}
  {
    if x in s then s - {x} else s + {x}
  }

  /** Clicking the same page twice leaves the selection as it was. */
  lemma ToggleTwice(s: set<int>, x: int)
    ensures Toggled(Toggled(s, x), x) == s
  {
    var t := Toggled(s, x);
    assert t - {x} == s - {x};
    assert x in Toggled(t, x) <==> x in s;
  }

  /** The pictures of the tiles, in grid order. */
  function Thumbnails(pages: seq<PageEntry>): (r: seq<int>)
    ensures |r| == |pages| && forall k :: 0 <= k < |pages| ==> r[k] == pages[k].thumbnail
  {
    seq(|pages|, k requires 0 <= k < |pages| => pages[k].thumbnail)
  }

  /** Moving a tile moves its picture: the pictures of the moved grid are the
      moved pictures of the grid. */
  lemma ThumbnailsMoved(pages: seq<PageEntry>, from: nat, to: nat)
    requires from < |pages| && to < |pages|
    ensures Thumbnails(Moved(pages, from, to)) == Moved(Thumbnails(pages), from, to)
  {
    var t := Thumbnails(pages);
    var rest := pages[..from] + pages[from + 1..];
    var restT := t[..from] + t[from + 1..];
    assert Thumbnails(rest) == restT;
    var m := Moved(pages, from, to);
    var mt := Moved(t, from, to);
    assert m == rest[..to] + [pages[from]] + rest[to..];
    assert mt == restT[..to] + [t[from]] + restT[to..];
    forall k | 0 <= k < |m| ensures Thumbnails(m)[k] == mt[k] {
      if k < to {
        assert m[k] == rest[k] && mt[k] == restT[k];
      } else if k > to {
        assert m[k] == rest[k - 1] && mt[k] == restT[k - 1];
      }
    }
  }

  /** The rotation of every page of a new document: none. */
  method InitialRotations(n: nat) returns (r: map<int, int>)
    ensures forall k :: k in r <==> 0 <= k < n
    ensures forall k :: k in r ==> r[k] == 0
  {
    r := map[];
    var i := 0;
    while i < n
      invariant 0 <= i <= n
      invariant forall k :: k in r <==> 0 <= k < i
      invariant forall k :: k in r ==> r[k] == 0
    {
      r := r[i := 0];
      i := i + 1;
    }
  }

  /** The tiles of a new document: tile `i` is page `i + 1` and shows it. */
  method InitialPages(n: nat) returns (r: seq<PageEntry>)
    ensures |r| == n && forall k :: 0 <= k < n ==> r[k] == PageEntry(k, k + 1, k + 1)
  {
    r := [];
    var i := 0;
    while i < n
      invariant 0 <= i <= n
      invariant |r| == i && forall k :: 0 <= k < i ==> r[k] == PageEntry(k, k + 1, k + 1)
    {
      r := r + [PageEntry(i, i + 1, i + 1)];
      i := i + 1;
    }
  }

  /** "Select all": every position below `n` not marked deleted joins the
      selection, and what was selected stays selected. */
  method AddUndeleted(selected: set<int>, deleted: set<int>, n: nat) returns (r: set<int>)
    ensures forall x :: x in r <==> x in selected || (0 <= x < n && x !in deleted)
  {
    r := selected;
    var i := 0;
    while i < n
      invariant 0 <= i <= n
      invariant forall x :: x in r <==> x in selected || (0 <= x < i && x !in deleted)
    {
      if i !in deleted {
        r := r + {i};
      }
      i := i + 1;
    }
  }

  /** The pages a save keeps: the positions below `total` that are not marked
      deleted, in increasing order. */
  method KeepList(total: nat, deleted: set<int>) returns (keep: seq<int>)
    ensures StrictlyIncreasing(keep)
    ensures forall x :: x in keep <==> 0 <= x < total && x !in deleted
  {
    keep := [];
    var i := 0;
    while i < total
      invariant 0 <= i <= total
      invariant StrictlyIncreasing(keep)
      invariant forall k :: 0 <= k < |keep| ==> keep[k] < i
      invariant forall x :: x in keep <==> 0 <= x < i && x !in deleted
    {
      if i !in deleted {
        keep := keep + [i];
      }
      i := i + 1;
    }
  }

  /** After a move, tile `k` gets position `k` and number `k + 1` again, and the
      rotation recorded for position `k` becomes the one its page had before. */
  method Renumber(moved: seq<PageEntry>, rotations: map<int, int>)
    returns (pages: seq<PageEntry>, newRotations: map<int, int>)
    requires forall k :: 0 <= k < |moved| ==> moved[k].index in rotations
    ensures |pages| == |moved|
    ensures forall k :: 0 <= k < |moved| ==> pages[k] == PageEntry(k, k + 1, moved[k].thumbnail)
    ensures forall k :: k in newRotations <==> 0 <= k < |moved|
    ensures forall k :: 0 <= k < |moved| ==> newRotations[k] == rotations[moved[k].index]
  {
    pages := [];
    newRotations := map[];
    var i := 0;
    while i < |moved|
      invariant 0 <= i <= |moved|
      invariant |pages| == i
      invariant forall k :: 0 <= k < i ==> pages[k] == PageEntry(k, k + 1, moved[k].thumbnail)
      invariant forall k :: k in newRotations <==> 0 <= k < i
      invariant forall k :: 0 <= k < i ==> newRotations[k] == rotations[moved[k].index]
    {
      newRotations := newRotations[i := rotations[moved[i].index]];
      pages := pages + [PageEntry(i, i + 1, moved[i].thumbnail)];
      i := i + 1;
    }
  }

  class Editor {
    /** Whether a document has been loaded. */
    var loaded: bool
    /** The page count of the loaded document. */
    var totalPages: nat
    var pages: seq<PageEntry>
    /** Selected and deleted tiles, by position in the grid. */
    var selectedPages: set<int>
    var deletedPages: set<int>
    /** Rotation in degrees, by position in the grid. */
    var rotations: map<int, int>
    /** The position of the tile being dragged, if any. */
    var draggedPage: Option<int>

    /** Tile `k` sits at position `k` with number `k + 1`, and every tile has
        a quarter-turn rotation. */
    ghost predicate Valid()
      reads this
    {
      && |pages| == totalPages
      && (forall k :: 0 <= k < |pages| ==> pages[k].index == k && pages[k].number == k + 1)
      && (forall k :: 0 <= k < |pages| ==> k in rotations)
      && QuarterTurns(rotations)
    }

    constructor ()
      ensures Valid() && !loaded
      ensures pages == [] && selectedPages == {} && deletedPages == {}
      ensures rotations == map[] && draggedPage == None
    {
      loaded := false;
      totalPages := 0;
      pages := [];
      selectedPages := {};
      deletedPages := {};
      rotations := map[];
      draggedPage := None;
    }

    /** Loading a document of `pageCount` pages (`None` when it cannot be
        read, which changes nothing): one unrotated tile per page, nothing
        selected and nothing deleted. */
    method LoadPdf(pageCount: Option<nat>)
      requires Valid()
      modifies this
      ensures Valid()
      ensures pageCount.None? ==>
        loaded == old(loaded) && totalPages == old(totalPages) && pages == old(pages)
        && selectedPages == old(selectedPages) && deletedPages == old(deletedPages)
        && rotations == old(rotations)
      ensures pageCount.Some? ==>
        && loaded && totalPages == pageCount.value
        && (forall k :: 0 <= k < totalPages ==> pages[k] == PageEntry(k, k + 1, k + 1))
        && (forall k :: k in rotations <==> 0 <= k < totalPages)
        && (forall k :: k in rotations ==> rotations[k] == 0)
        && selectedPages == {} && deletedPages == {}
      ensures draggedPage == old(draggedPage)
    {
      if pageCount.Some? {
        var n := pageCount.value;
        loaded := true;
        totalPages := n;
        pages := [];
        selectedPages := {};
        deletedPages := {};
        rotations := InitialRotations(n);
        pages := InitialPages(n);
      }
    }

    /** Clicking a tile flips whether it is selected. */
    method TogglePageSelection(pageIndex: int)
      requires Valid()
      modifies this
      ensures Valid() && selectedPages == Toggled(old(selectedPages), pageIndex)
      ensures pages == old(pages) && deletedPages == old(deletedPages) && rotations == old(rotations)
      ensures draggedPage == old(draggedPage) && totalPages == old(totalPages) && loaded == old(loaded)
    {
      selectedPages := Toggled(selectedPages, pageIndex);
    }

    /** "Select all" selects every tile not marked deleted. */
    method SelectAllPages()
      requires Valid()
      modifies this
      ensures Valid()
      ensures forall x :: x in selectedPages <==>
        x in old(selectedPages) || (0 <= x < |pages| && x !in deletedPages)
      ensures pages == old(pages) && deletedPages == old(deletedPages) && rotations == old(rotations)
      ensures draggedPage == old(draggedPage) && totalPages == old(totalPages) && loaded == old(loaded)
    {
      selectedPages := AddUndeleted(selectedPages, deletedPages, |pages|);
    }

    /** "Deselect all" empties the selection. */
    method DeselectAllPages()
      requires Valid()
      modifies this
      ensures Valid() && selectedPages == {}
      ensures pages == old(pages) && deletedPages == old(deletedPages) && rotations == old(rotations)
      ensures draggedPage == old(draggedPage) && totalPages == old(totalPages) && loaded == old(loaded)
    {
      selectedPages := {};
    }

    /** The rotate button turns one tile a further 90 degrees. */
    method RotatePage(pageIndex: int)
      requires Valid()
      modifies this
      ensures Valid() && rotations == Rotated(old(rotations), pageIndex)
      ensures Rotation(rotations, pageIndex) == (Rotation(old(rotations), pageIndex) + 90) % 360
      ensures pages == old(pages) && selectedPages == old(selectedPages) && deletedPages == old(deletedPages)
      ensures draggedPage == old(draggedPage) && totalPages == old(totalPages) && loaded == old(loaded)
    {
      rotations := Rotated(rotations, pageIndex);
    }

    /** "Delete selected" marks every selected tile deleted and clears the
        selection; with nothing selected it changes nothing. */
    method DeleteSelectedPages()
      requires Valid()
      modifies this
      ensures Valid()
      ensures old(selectedPages) == {} ==> deletedPages == old(deletedPages) && selectedPages == {}
      ensures old(selectedPages) != {} ==>
        deletedPages == old(deletedPages) + old(selectedPages) && selectedPages == {}
      ensures pages == old(pages) && rotations == old(rotations)
      ensures draggedPage == old(draggedPage) && totalPages == old(totalPages) && loaded == old(loaded)
    {
      if |selectedPages| == 0 {
        return;
      }
      deletedPages := deletedPages + selectedPages;
      selectedPages := {};
    }

    /** Moves the tile at `fromIndex` so that it lands at `toIndex`, then
        renumbers the tiles and carries each page's rotation to its new
        position. The selection and the deletion marks keep their positions. */
    method ReorderPages(fromIndex: nat, toIndex: nat)
      requires Valid()
      requires fromIndex < |pages| && toIndex < |pages|
      modifies this
      ensures Valid()
      ensures |pages| == |old(pages)|
      ensures Thumbnails(pages) == Moved(Thumbnails(old(pages)), fromIndex, toIndex)
      ensures forall k :: k in rotations <==> 0 <= k < |pages|
      ensures forall k :: 0 <= k < |pages| ==>
        rotations[k] == old(rotations)[Moved(old(pages), fromIndex, toIndex)[k].index]
      ensures rotations[toIndex] == old(rotations)[fromIndex]
      ensures selectedPages == old(selectedPages) && deletedPages == old(deletedPages)
      ensures draggedPage == old(draggedPage) && totalPages == old(totalPages) && loaded == old(loaded)
    {
      var moved := Moved(pages, fromIndex, toIndex);
      MovedFacts(pages, fromIndex, toIndex);
      ThumbnailsMoved(pages, fromIndex, toIndex);
      forall k | 0 <= k < |moved| ensures moved[k].index in rotations {
        assert moved[k] in multiset(pages);
        var j :| 0 <= j < |pages| && pages[j] == moved[k];
      }
      var newPages, newRotations := Renumber(moved, rotations);
      assert Thumbnails(newPages) == Thumbnails(moved);
      pages := newPages;
      rotations := newRotations;
    }

    /** Picking up a tile remembers its position. */
    method DragStart(pageIndex: nat)
      requires Valid() && pageIndex < |pages|
      modifies this
      ensures Valid() && draggedPage == Some(pageIndex)
      ensures pages == old(pages) && selectedPages == old(selectedPages)
      ensures deletedPages == old(deletedPages) && rotations == old(rotations)
      ensures totalPages == old(totalPages) && loaded == old(loaded)
    {
      draggedPage := Some(pageIndex);
    }

    /** Dropping onto the tile at `target` moves the dragged tile there, unless
        nothing is dragged or it is dropped onto itself. */
    method Drop(target: nat)
      requires Valid() && target < |pages|
      requires draggedPage.Some? ==> 0 <= draggedPage.value < |pages|
      modifies this
      ensures Valid() && |pages| == |old(pages)|
      ensures old(draggedPage).None? || old(draggedPage) == Some(target) ==>
        pages == old(pages) && rotations == old(rotations)
      ensures old(draggedPage).Some? && old(draggedPage) != Some(target) ==>
        Thumbnails(pages) == Moved(Thumbnails(old(pages)), old(draggedPage).value, target)
      ensures old(draggedPage).Some? && old(draggedPage) != Some(target) ==>
        (forall k :: k in rotations <==> 0 <= k < |pages|)
      ensures old(draggedPage).Some? && old(draggedPage) != Some(target) ==>
        forall k :: 0 <= k < |pages| ==>
          rotations[k] == old(rotations)[Moved(old(pages), old(draggedPage).value, target)[k].index]
      ensures selectedPages == old(selectedPages) && deletedPages == old(deletedPages)
      ensures draggedPage == old(draggedPage) && totalPages == old(totalPages) && loaded == old(loaded)
    {
      if draggedPage.Some? && draggedPage.value != target {
        ReorderPages(draggedPage.value, target);
      }
    }

    /** Letting go of a tile forgets the drag. */
    method DragEnd()
      requires Valid()
      modifies this
      ensures Valid() && draggedPage == None
      ensures pages == old(pages) && selectedPages == old(selectedPages)
      ensures deletedPages == old(deletedPages) && rotations == old(rotations)
      ensures totalPages == old(totalPages) && loaded == old(loaded)
    {
      draggedPage := None;
    }

    /** "Save": refuses without a document and when every page is marked
        deleted; otherwise keeps the pages of the original document whose
        position is not marked deleted, in document order, whatever the
        order of the grid. */
    method SaveEditedPdf() returns (r: SaveOutcome)
      requires Valid()
      ensures !loaded <==> r == NoPdfLoaded
      ensures r == AllPagesDeleted <==>
        loaded && forall i :: 0 <= i < totalPages ==> i in deletedPages
      ensures r.Save? ==> StrictlyIncreasing(r.keep) && r.keep != []
      ensures r.Save? ==> forall x :: x in r.keep <==> 0 <= x < totalPages && x !in deletedPages
    {
      if !loaded {
        return NoPdfLoaded;
      }
      var keep := KeepList(totalPages, deletedPages);
      if |keep| == 0 {
        return AllPagesDeleted;
      }
      assert keep[0] in keep;
      r := Save(keep);
    }
  }
}
