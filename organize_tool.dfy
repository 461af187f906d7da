/** The page organiser: the list of original page indices in their new order,
    as the drag-and-drop grid, the up/down buttons, the sort buttons, the
    remove button and the reset button edit it. */
module OrganizeTool {
  import opened Wrappers
  import opened Sequences

  /** `[0, 1, ..., pageCount - 1]`, built as the preview loop pushes one index
      per page. */
  method BuildOrder(pageCount: nat) returns (order: seq<int>)
    ensures order == Identity(pageCount)
  {
    order := [];
    var i := 0;
    while i < pageCount
      invariant 0 <= i <= pageCount
      invariant order == Identity(i)
    {
      order := order + [i];
      i := i + 1;
    }
  }

  /** The two arrow buttons next to a page. */
  datatype Step = Up | Down

  /** What pressing "Organize" does. */
  datatype Outcome =
    | NoFileSelected
    | NoPagesToOrganize
    | Reorganized(order: seq<int>, removed: nat)

  class Organizer {
    /** Whether a file has been chosen. */
    var hasFile: bool
    /** The number of page previews, one per page of the loaded document. */
    var previewCount: nat
    /** The original page indices, in the order the pages will be written. */
    var order: seq<int>

    /** Every page appears at most once, and only pages of the document. */
    ghost predicate Valid()
      reads this
    {
      Distinct(order) && InRange(order, previewCount)
    }

    constructor ()
      ensures Valid()
      ensures !hasFile && previewCount == 0 && order == []
    {
      hasFile := false;
      previewCount := 0;
      order := [];
    }

    /** Choosing files takes the first of them (`picked` is false when the
        list is empty, which leaves no file), clears the previews and the
        order, then loads the document; `pageCount` is its page count, or
        `None` when it cannot be loaded, in which case the grid stays empty. */
    method ChooseFile(picked: bool, pageCount: Option<nat>)
      modifies this
      ensures Valid() && hasFile == picked
      ensures !picked || pageCount.None? ==> previewCount == 0 && order == []
      ensures picked && pageCount.Some? ==>
        previewCount == pageCount.value && order == Identity(pageCount.value)
    {
      hasFile := picked;
      previewCount := 0;
      order := [];
      if picked && pageCount.Some? {
        var loaded := BuildOrder(pageCount.value);
        previewCount := pageCount.value;
        order := loaded;
      }
    }

    /** Dropping the page dragged from slot `dragIndex` onto slot `dropIndex`:
        nothing happens when they are the same slot, otherwise the page is
        taken out and inserted again so that it lands at `dropIndex`. */
    method Drop(dragIndex: nat, dropIndex: nat)
      requires Valid()
      requires dragIndex < |order| && dropIndex < |order|
      modifies this
      ensures Valid() && hasFile == old(hasFile) && previewCount == old(previewCount)
      ensures dragIndex == dropIndex ==> order == old(order)
      ensures dragIndex != dropIndex ==> order == Moved(old(order), dragIndex, dropIndex)
      ensures |order| == |old(order)| && multiset(order) == multiset(old(order))
    {
      if dragIndex != dropIndex {
        var newOrder := Moved(order, dragIndex, dropIndex);
        MovedFacts(order, dragIndex, dropIndex);
        KeepsValid(order, newOrder);
        order := newOrder;
      }
    }

    /** The arrow buttons: the page in slot `fromIndex` changes places with its
        neighbour above or below, unless there is no such neighbour. */
    method MovePage(fromIndex: nat, step: Step)
      requires Valid()
      requires fromIndex < |order|
      modifies this
      ensures Valid() && hasFile == old(hasFile) && previewCount == old(previewCount)
      ensures var toIndex := if step == Up then fromIndex - 1 else fromIndex + 1;
        if 0 <= toIndex < |old(order)| then order == Swapped(old(order), fromIndex, toIndex)
        else order == old(order)
    {
      var toIndex := if step == Up then fromIndex - 1 else fromIndex + 1;
      if 0 <= toIndex < |order| {
        var newOrder := Swapped(order, fromIndex, toIndex);
        SwappedFacts(order, fromIndex, toIndex);
        KeepsValid(order, newOrder);
        order := newOrder;
      }
    }

    /** The sort buttons: the current pages, sorted by original index. */
    method SortPages(dir: Direction)
      requires Valid()
      modifies this
      ensures Valid() && hasFile == old(hasFile) && previewCount == old(previewCount)
      ensures order == Sort(old(order), dir)
      ensures SortedBy(order, dir) && multiset(order) == multiset(old(order))
    {
      var newOrder := Sort(order, dir);
      KeepsValid(order, newOrder);
      order := newOrder;
    }

    /** The remove button: the page in slot `orderIndex` leaves the order. */
    method RemovePage(orderIndex: int)
      requires Valid()
      modifies this
      ensures Valid() && hasFile == old(hasFile) && previewCount == old(previewCount)
      ensures order == SpliceRemove(old(order), orderIndex)
      ensures 0 <= orderIndex < |old(order)| ==> |order| == |old(order)| - 1
    {
      SpliceRemoveKeepsDistinct(order, orderIndex);
      if 0 <= orderIndex < |order| {
        SpliceRemoveAt(order, orderIndex);
      }
      order := SpliceRemove(order, orderIndex);
    }

    /** The reset button: every page back, in document order, whatever was
        done before. */
    method ResetOrder()
      requires Valid()
      modifies this
      ensures Valid() && hasFile == old(hasFile) && previewCount == old(previewCount)
      ensures order == Identity(previewCount)
    {
      order := Identity(previewCount);
    }

    /** The checks and the count behind the "Organize" button: no file, then an
        empty order, are refused; otherwise the document is written in `order`
        and the number of removed pages is reported. Writing the document is a
        library call assumed to succeed: in the source the count is shown only
        after it returns, and a failure is reported as an error instead. */
    method Organize() returns (r: Outcome)
      requires Valid()
      ensures !hasFile <==> r == NoFileSelected
      ensures r == NoPagesToOrganize <==> hasFile && order == []
      ensures r.Reorganized? ==>
        r.order == order && r.order != [] && r.removed + |order| == previewCount
    {
      if !hasFile {
        return NoFileSelected;
      }
      if |order| == 0 {
        return NoPagesToOrganize;
      }
      DistinctBounded(order, previewCount);
      r := Reorganized(order, previewCount - |order|);
    }
  }

  /** A rearrangement of a valid order is valid. */
  lemma KeepsValid(before: seq<int>, after: seq<int>)
    requires Distinct(before) && multiset(after) == multiset(before)
    ensures Distinct(after)
    ensures forall x :: x in after <==> x in before
  {
    PermutationKeepsDistinct(before, after);
    forall x ensures x in after <==> x in before {
      assert x in after <==> x in multiset(after);
      assert x in before <==> x in multiset(before);
    }
  }
}
