/** Edits of a node's tags, kept as an overlay on its configuration
    (swarm/cell-protocol/src/node_tags.rs). */
module NodeTags {
  import opened Basics

  type Tag = string

  datatype Edit = Added(tag: Tag) | Removed(tag: Tag)

  /** What the edits say of a tag: nothing, or what the last of them said. */
  function LastEdit(edits: seq<Edit>, tag: Tag): Option<Edit> {
    if edits == [] then None
    else if edits[|edits| - 1].tag == tag then Some(edits[|edits| - 1])
    else LastEdit(edits[..|edits| - 1], tag)
  }

  lemma LastEditAppend(edits: seq<Edit>, e: Edit, tag: Tag)
    ensures LastEdit(edits + [e], tag) == if e.tag == tag then Some(e) else LastEdit(edits, tag)
  {
  }

  function Without(tags: seq<Tag>, tag: Tag): seq<Tag> {
    if tags == [] then []
    else Without(tags[..|tags| - 1], tag) + if tags[|tags| - 1] == tag then [] else [tags[|tags| - 1]]
  }

  ghost predicate NoRepeats(tags: seq<Tag>) {
    forall i, j :: 0 <= i < j < |tags| ==> tags[i] != tags[j]
  }

  lemma {:induction false} WithoutMeans(tags: seq<Tag>, tag: Tag)
    ensures forall t :: t in Without(tags, tag) <==> t in tags && t != tag
    ensures NoRepeats(tags) ==> NoRepeats(Without(tags, tag))
  {
    if tags != [] {
      var init, last := tags[..|tags| - 1], tags[|tags| - 1];
      WithoutMeans(init, tag);
      assert forall t :: t in tags <==> t in init || t == last;
      if NoRepeats(tags) {
        assert last !in init;
      }
    }
  }

  /** Keeps everything but this tag. */
  method Retain(tags: seq<Tag>, tag: Tag) returns (kept: seq<Tag>)
    ensures kept == Without(tags, tag)
  {
    kept := [];
    for i := 0 to |tags|
      invariant kept == Without(tags[..i], tag)
    {
      assert tags[..i + 1][..i] == tags[..i];
      if tags[i] != tag {
        kept := kept + [tags[i]];
      }
    }
    assert tags[..|tags|] == tags;
  }

  /** The two lists say of every tag what its last edit said. */
  ghost predicate Reflects(added: seq<Tag>, removed: seq<Tag>, edits: seq<Edit>) {
    && NoRepeats(added) && NoRepeats(removed) && (forall t :: t in added ==> t !in removed)
    && (forall t :: t in added <==> LastEdit(edits, t) == Some(Added(t)))
    && (forall t :: t in removed <==> LastEdit(edits, t) == Some(Removed(t)))
  }

  function PushNew(tags: seq<Tag>, tag: Tag): seq<Tag> {
    if tag in tags then tags else tags + [tag]
  }

  lemma AddReflects(added: seq<Tag>, removed: seq<Tag>, edits: seq<Edit>, tag: Tag)
    requires Reflects(added, removed, edits)
    ensures Reflects(PushNew(added, tag), Without(removed, tag), edits + [Added(tag)])
  {
    WithoutMeans(removed, tag);
    forall t ensures LastEdit(edits + [Added(tag)], t) == if t == tag then Some(Added(tag)) else LastEdit(edits, t) {
      LastEditAppend(edits, Added(tag), t);
    }
  }

  lemma RemoveReflects(added: seq<Tag>, removed: seq<Tag>, edits: seq<Edit>, tag: Tag)
    requires Reflects(added, removed, edits)
    ensures Reflects(Without(added, tag), PushNew(removed, tag), edits + [Removed(tag)])
  {
    WithoutMeans(added, tag);
    forall t ensures LastEdit(edits + [Removed(tag)], t) == if t == tag then Some(Removed(tag))
      else LastEdit(edits, t)
    {
      LastEditAppend(edits, Removed(tag), t);
    }
  }

  class Overlay {
    var added: seq<Tag>
    var removed: seq<Tag>
    ghost var edits: seq<Edit>

    ghost predicate Valid()
      reads this
    {
      Reflects(added, removed, edits)
    }

    constructor ()
      ensures Valid() && edits == [] && added == [] && removed == []
    {
      added, removed, edits := [], [], [];
    }

    /** Records that the node should carry the tag. */
    method Add(tag: Tag)
      requires Valid()
      modifies this
      ensures Valid() && edits == old(edits) + [Added(tag)]
      ensures added == PushNew(old(added), tag) && removed == Without(old(removed), tag)
    {
      AddReflects(added, removed, edits, tag);
      removed := Retain(removed, tag);
      if tag !in added {
        added := added + [tag];
      }
      edits := edits + [Added(tag)];
    }

    /** Records that the node should not carry the tag. */
    method Remove(tag: Tag)
      requires Valid()
      modifies this
      ensures Valid() && edits == old(edits) + [Removed(tag)]
      ensures added == Without(old(added), tag) && removed == PushNew(old(removed), tag)
    {
      RemoveReflects(added, removed, edits, tag);
      added := Retain(added, tag);
      if tag !in removed {
        removed := removed + [tag];
      }
      edits := edits + [Removed(tag)];
    }
  }

  /** The tags a node ends up carrying, each once: its configuration under the overlay, and what it
      cannot do without. */
  method Carried(added: seq<Tag>, removed: seq<Tag>, configured: seq<Tag>, intrinsic: seq<Tag>) returns (tags: seq<Tag>)
    ensures NoRepeats(tags)
    ensures forall t :: t in tags <==> t in intrinsic || (t !in removed && (t in configured || t in added))
  {
    tags := [];
    var listed := configured + added;
    for i := 0 to |listed|
      invariant NoRepeats(tags) && forall t :: t in tags <==> t in listed[..i] && t !in removed
    {
      if listed[i] !in removed && listed[i] !in tags {
        tags := tags + [listed[i]];
      }
    }
    assert listed[..|listed|] == listed;
    ghost var chosen := tags;
    for i := 0 to |intrinsic|
      invariant NoRepeats(tags) && forall t :: t in tags <==> t in chosen || t in intrinsic[..i]
    {
      if intrinsic[i] !in tags {
        tags := tags + [intrinsic[i]];
      }
    }
    assert intrinsic[..|intrinsic|] == intrinsic;
  }

  /** Last edit wins. */
  method Effective(overlay: Overlay?, configured: seq<Tag>, intrinsic: seq<Tag>) returns (tags: seq<Tag>)
    requires overlay != null ==> overlay.Valid()
    ensures NoRepeats(tags)
    ensures overlay == null ==> forall t :: t in tags <==> t in intrinsic || t in configured
    ensures overlay != null ==>
              forall t :: t in tags <==>
                t in intrinsic || LastEdit(overlay.edits, t) == Some(Added(t))
                  || (t in configured && LastEdit(overlay.edits, t) == None)
  {
    if overlay == null {
      tags := Carried([], [], configured, intrinsic);
    } else {
      tags := Carried(overlay.added, overlay.removed, configured, intrinsic);
      forall t ensures LastEdit(overlay.edits, t).Some? ==>
        LastEdit(overlay.edits, t) in {Some(Added(t)), Some(Removed(t))} {
        LastEditOf(overlay.edits, t);
      }
    }
  }

  lemma {:induction false} LastEditOf(edits: seq<Edit>, tag: Tag)
    ensures LastEdit(edits, tag).Some? ==> LastEdit(edits, tag).value.tag == tag
  {
    if edits != [] {
      LastEditOf(edits[..|edits| - 1], tag);
    }
  }
}
