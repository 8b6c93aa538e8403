/**
 * A workspace: a named list of collection ids and workspace-level
 * variables, both updated in place. Ids are given; timestamps are not
 * modelled.
 */
module Workspaces {
  import opened Wrappers

  /** No id occurs twice. */
  predicate NoDuplicates(ids: seq<nat>) {
    forall i, j :: 0 <= i < j < |ids| ==> ids[i] != ids[j]
  }

  /** The first position holding `x`, when there is one. */
  function Position(ids: seq<nat>, x: nat): (r: Option<nat>)
    ensures r.None? <==> x !in ids
    ensures r.Some? ==> r.value < |ids| && ids[r.value] == x && forall j :: 0 <= j < r.value ==> ids[j] != x
  {
    if ids == [] then None
    else if ids[0] == x then Some(0)
    else match Position(ids[1..], x)
      case None => None
      case Some(p) => Some(p + 1)
  }

  /** Deleting one position from a list without duplicates leaves one without duplicates and without that element. */
  lemma DeleteKeepsDistinct(ids: seq<nat>, p: nat)
    requires p < |ids| && NoDuplicates(ids)
    ensures NoDuplicates(ids[..p] + ids[p + 1..])
    ensures ids[p] !in ids[..p] + ids[p + 1..]
  {
    var rest := ids[..p] + ids[p + 1..];
    forall i, j | 0 <= i < j < |rest| ensures rest[i] != rest[j] {
      var i' := if i < p then i else i + 1;
      var j' := if j < p then j else j + 1;
      assert rest[i] == ids[i'] && rest[j] == ids[j'];
    }
    forall k | 0 <= k < |rest| ensures rest[k] != ids[p] {
      var k' := if k < p then k else k + 1;
      assert rest[k] == ids[k'];
    }
  }

  class Workspace {
    const id: nat
    var name: string
    var description: Option<string>
    var collectionIds: seq<nat>
    var variables: map<string, string>

    /** Each collection is listed once. */
    ghost predicate Valid()
      reads this
    {
      NoDuplicates(collectionIds)
    }

    /** `Workspace::new`: no description, collections or variables. */
    constructor (id: nat, name: string)
      ensures this.id == id && this.name == name && description.None?
      ensures collectionIds == [] && variables == map[] && Valid()
    {
      this.id := id;
      this.name := name;
      description := None;
      collectionIds := [];
      variables := map[];
    }

    /** `with_description` */
    method WithDescription(d: string)
      modifies this
      ensures description == Some(d)
      ensures name == old(name) && collectionIds == old(collectionIds) && variables == old(variables)
    {
      description := Some(d);
    }

    /** `add_collection`: appended unless already listed, so adding twice is adding once and no id is listed twice. */
    method AddCollection(cid: nat)
      modifies this
      requires Valid()
      ensures collectionIds == if cid in old(collectionIds) then old(collectionIds) else old(collectionIds) + [cid]
      ensures cid in collectionIds && Valid()
      ensures name == old(name) && description == old(description) && variables == old(variables)
    {
      if cid !in collectionIds {
        collectionIds := collectionIds + [cid];
      }
    }

    /**
     * `remove_collection`: true exactly when the id was listed; its first
     * position is deleted and the order of the rest kept. Since no id is
     * listed twice, it is no longer listed.
     */
    method RemoveCollection(cid: nat) returns (r: bool)
      modifies this
      requires Valid()
      ensures r <==> cid in old(collectionIds)
      ensures r ==> var p := Position(old(collectionIds), cid).value;
        collectionIds == old(collectionIds)[..p] + old(collectionIds)[p + 1..]
      ensures !r ==> collectionIds == old(collectionIds)
      ensures cid !in collectionIds && Valid()
      ensures name == old(name) && description == old(description) && variables == old(variables)
    {
      var p := 0;
      while p < |collectionIds| && collectionIds[p] != cid
        invariant 0 <= p <= |collectionIds|
        invariant forall j :: 0 <= j < p ==> collectionIds[j] != cid
        decreases |collectionIds| - p
      {
        p := p + 1;
      }
      if p < |collectionIds| {
        PositionIsFirst(collectionIds, cid, p);
        DeleteKeepsDistinct(collectionIds, p);
        collectionIds := collectionIds[..p] + collectionIds[p + 1..];
        r := true;
      } else {
        r := false;
      }
    }

    /** `set_variable`: the last write for a key wins. */
    method SetVariable(key: string, value: string)
      modifies this
      ensures variables == old(variables)[key := value]
      ensures GetVariable(key) == Some(value)
      ensures forall k :: k != key ==> GetVariable(k) == old(GetVariable(k))
      ensures name == old(name) && collectionIds == old(collectionIds) && description == old(description)
    {
      variables := variables[key := value];
    }

    /** `get_variable` */
    function GetVariable(key: string): (r: Option<string>)
      reads this
      ensures r.Some? <==> key in variables
      ensures r.Some? ==> r.value == variables[key]
    {
      if key in variables then Some(variables[key]) else None
    }
  }

  /** The first position the removal loop finds is the one `Position` names. */
  lemma PositionIsFirst(ids: seq<nat>, x: nat, p: nat)
    requires p < |ids| && ids[p] == x && forall j :: 0 <= j < p ==> ids[j] != x
    ensures Position(ids, x) == Some(p)
  {
    assert ids[p] in ids;
  }
}
