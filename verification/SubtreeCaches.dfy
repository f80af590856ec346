/** The cache of completed note-commitment subtrees: a list that is stored as a kept prefix of the parent
    view's list plus the subtrees added since. */
module SubtreeCaches {

  import opened Options

  datatype SubtreeData = SubtreeData(root: int, nHeight: nat)
  datatype LatestSubtree = LatestSubtree(index: nat, root: int, nHeight: nat)

  /** What a view whose subtrees are the given list answers. */
  function LatestOf(list: seq<SubtreeData>): Option<LatestSubtree>
  {
    if |list| == 0 then None else Some(LatestSubtree(|list| - 1, list[|list| - 1].root, list[|list| - 1].nHeight))
  }

  function DataOf(list: seq<SubtreeData>, index: nat): Option<SubtreeData>
  {
    if index < |list| then Some(list[index]) else None
  }

  class SubtreeCache {
    var initialized: bool
    var parentLatestSubtree: Option<LatestSubtree>
    var newSubtrees: seq<SubtreeData>

    /** How many of the parent's subtrees are still part of this view. */
    function Kept(): nat
      reads this
    {
      if parentLatestSubtree.None? then 0 else parentLatestSubtree.value.index + 1
    }

    /** The cache is consistent with a parent view that has the given subtrees. */
    ghost predicate Fits(parent: seq<SubtreeData>)
      reads this
    {
      if !initialized then newSubtrees == [] && parentLatestSubtree.None?
      else Kept() <= |parent| && parentLatestSubtree == LatestOf(parent[..Kept()])
    }

    /** The subtrees of this view, given those of the parent view. */
    function List(parent: seq<SubtreeData>): seq<SubtreeData>
      requires Fits(parent)
      reads this
    {
      if !initialized then parent else parent[..Kept()] + newSubtrees
    }

    constructor ()
      ensures !initialized && newSubtrees == [] && parentLatestSubtree == None
    {
      initialized, parentLatestSubtree, newSubtrees := false, None, [];
    }

    /** Back to the uninitialized state: the view is the parent's again. */
    method Clear()
      modifies this
      ensures !initialized && newSubtrees == [] && parentLatestSubtree == None
      ensures forall parent :: Fits(parent) && List(parent) == parent
    {
      initialized := false;
      parentLatestSubtree := None;
      newSubtrees := [];
    }

    method Initialize(parent: seq<SubtreeData>)
      requires Fits(parent)
      modifies this
      ensures Fits(parent) && initialized && List(parent) == old(List(parent))
      ensures old(initialized) ==> parentLatestSubtree == old(parentLatestSubtree) && newSubtrees == old(newSubtrees)
    {
      if !initialized {
        assert parent[..|parent|] == parent;
        parentLatestSubtree := LatestOf(parent);
        initialized := true;
      }
    }

    method GetLatestSubtree(parent: seq<SubtreeData>) returns (r: Option<LatestSubtree>)
      requires Fits(parent)
      modifies this
      ensures Fits(parent) && initialized && List(parent) == old(List(parent))
      ensures r == LatestOf(List(parent))
      ensures old(initialized) ==> parentLatestSubtree == old(parentLatestSubtree) && newSubtrees == old(newSubtrees)
    {
      Initialize(parent);
      if |newSubtrees| > 0 {
        var index: nat;
        if parentLatestSubtree.Some? {
          index := parentLatestSubtree.value.index + |newSubtrees|;
        } else {
          index := |newSubtrees| - 1;
        }
        var last := newSubtrees[|newSubtrees| - 1];
        return Some(LatestSubtree(index, last.root, last.nHeight));
      } else {
        assert List(parent) == parent[..Kept()];
        return parentLatestSubtree;
      }
    }

    method GetSubtreeData(parent: seq<SubtreeData>, index: nat) returns (r: Option<SubtreeData>)
      requires Fits(parent)
      modifies this
      ensures Fits(parent) && List(parent) == old(List(parent))
      ensures r == DataOf(List(parent), index)
    {
      Initialize(parent);
      var latest := GetLatestSubtree(parent);
      if latest.None? || latest.value.index < index {
        return None;
      }
      if parentLatestSubtree.Some? {
        if index <= parentLatestSubtree.value.index {
          return DataOf(parent, index);
        } else {
          var localIndex := index - (parentLatestSubtree.value.index + 1);
          assert |newSubtrees| > localIndex;
          return Some(newSubtrees[localIndex]);
        }
      } else {
        assert |newSubtrees| > index;
        return Some(newSubtrees[index]);
      }
    }

    method PushSubtree(parent: seq<SubtreeData>, subtree: SubtreeData)
      requires Fits(parent)
      modifies this
      ensures Fits(parent) && initialized && List(parent) == old(List(parent)) + [subtree]
    {
      Initialize(parent);
      newSubtrees := newSubtrees + [subtree];
    }

    /** Removes the last subtree; an empty list, and only that, is an error. */
    method PopSubtree(parent: seq<SubtreeData>) returns (ok: bool)
      requires Fits(parent)
      modifies this
      ensures Fits(parent) && initialized
      ensures ok <==> |old(List(parent))| > 0
      ensures List(parent) == if ok then old(List(parent))[..|old(List(parent))| - 1] else []
    {
      Initialize(parent);
      ghost var was := List(parent);
      if |newSubtrees| == 0 {
        if parentLatestSubtree.Some? {
          var parentIndex := parentLatestSubtree.value.index;
          if parentIndex == 0 {
            parentLatestSubtree := None;
          } else {
            parentIndex := parentIndex - 1;
            var newParent := DataOf(parent, parentIndex);
            if newParent.None? {
              return false;
            }
            parentLatestSubtree := Some(LatestSubtree(parentIndex, newParent.value.root, newParent.value.nHeight));
          }
          assert List(parent) == was[..|was| - 1];
        } else {
          return false;
        }
      } else {
        newSubtrees := newSubtrees[..|newSubtrees| - 1];
        assert List(parent) == was[..|was| - 1];
      }
      return true;
    }

    /** Drops every subtree, those of the parent view included. */
    method ResetSubtrees()
      modifies this
      ensures initialized
      ensures forall parent :: Fits(parent) && List(parent) == []
    {
      initialized := true;
      parentLatestSubtree := None;
      newSubtrees := [];
    }

    /** The pop loop of BatchWrite. */
    method PopSubtrees(parent: seq<SubtreeData>, pops: nat)
      requires Fits(parent) && initialized && pops <= |List(parent)|
      modifies this
      ensures Fits(parent) && initialized
      ensures List(parent) == old(List(parent))[..|old(List(parent))| - pops]
    {
      ghost var was := List(parent);
      for i: nat := 0 to pops
        invariant Fits(parent) && initialized
        invariant List(parent) == was[..|was| - i]
      {
        var popped := PopSubtree(parent);
        assert was[..|was| - i][..|was| - i - 1] == was[..|was| - i - 1];
      }
    }

    /** The end of BatchWrite: the child's additions are added here. */
    method Append(parent: seq<SubtreeData>, more: seq<SubtreeData>)
      requires Fits(parent) && initialized
      modifies `newSubtrees
      ensures Fits(parent) && initialized && List(parent) == old(List(parent)) + more
    {
      newSubtrees := newSubtrees + more;
    }

    /** Writes a child's cache into this one.  parent is the list of the view below this one; the child's
        cache has been initialized from this view.  Afterwards this view has exactly the child's subtrees. */
    method BatchWrite(parent: seq<SubtreeData>, child: SubtreeCache) returns (ok: bool)
      requires child != this
      requires Fits(parent) && child.initialized && child.Fits(List(parent))
      modifies this, child
      ensures ok
      ensures Fits(parent) && initialized && List(parent) == old(child.List(List(parent)))
      ensures !child.initialized && child.newSubtrees == [] && child.parentLatestSubtree == None
    {
      ghost var mine := List(parent);
      ghost var kept := child.Kept();
      Initialize(parent);
      var best := GetLatestSubtree(parent);
      assert best == LatestOf(mine) && kept <= |mine|;
      if best.None? {
        if child.parentLatestSubtree.Some? {
          return false;
        }
      } else {
        var pops := best.value.index + 1;
        if child.parentLatestSubtree.Some? {
          if child.parentLatestSubtree.value.index > best.value.index {
            return false;
          }
          pops := best.value.index - child.parentLatestSubtree.value.index;
        }
        assert |mine| == kept + pops;
        PopSubtrees(parent, pops);
      }
      Append(parent, child.newSubtrees);
      child.Clear();
      return true;
    }
  }

  datatype Change = Push(subtree: SubtreeData) | Pop | Reset

  /** What a run of changes does to a plain list; popping an empty list is an error that changes nothing. */
  function Changed(list: seq<SubtreeData>, changes: seq<Change>): seq<SubtreeData>
    decreases |changes|
  {
    if changes == [] then list
    else
      match changes[0]
      case Push(subtree) => Changed(list + [subtree], changes[1..])
      case Pop => Changed(if list == [] then [] else list[..|list| - 1], changes[1..])
      case Reset => Changed([], changes[1..])
  }

  /** Makes a run of changes in one view. */
  method Make(view: SubtreeCache, parent: seq<SubtreeData>, changes: seq<Change>)
    requires view.Fits(parent)
    modifies view
    ensures view.Fits(parent) && view.List(parent) == Changed(old(view.List(parent)), changes)
    decreases |changes|
  {
    if changes != [] {
      match changes[0] {
        case Push(subtree) => view.PushSubtree(parent, subtree);
        case Pop => var ok := view.PopSubtree(parent);
        case Reset => view.ResetSubtrees();
      }
      Make(view, parent, changes[1..]);
    }
  }

  /** Making the changes in a child view and flushing it is making them in the view below, whatever the
      child kept, popped or pushed on the way. */
  method MakeInChild(view: SubtreeCache, parent: seq<SubtreeData>, changes: seq<Change>)
    requires view.Fits(parent)
    modifies view
    ensures view.Fits(parent) && view.List(parent) == Changed(old(view.List(parent)), changes)
  {
    var child := new SubtreeCache();
    var mine := view.List(parent);
    assert child.List(mine) == mine;
    Make(child, mine, changes);
    child.Initialize(mine);
    var ok := view.BatchWrite(parent, child);
  }
}
