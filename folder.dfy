/**
 * A folder of saved requests and sub-folders. Searches and removals go
 * through a folder's own requests first and then through its sub-folders
 * in order, so they agree with the pre-order listing of the whole tree.
 *
 * Folders are values here; ids are given and timestamps are not modelled.
 */
module Folders {
  import opened Wrappers
  import opened RequestItems
  import Seqs

  datatype Folder = Folder(
    id: nat,
    name: string,
    description: Option<string>,
    requests: seq<RequestItem>,
    folders: seq<Folder>)

  /** `Folder::new`: no description, requests or sub-folders. */
  function NewFolder(id: nat, name: string): (f: Folder)
    ensures f.id == id && f.name == name && f.description.None?
    ensures f.requests == [] && f.folders == [] && TotalRequests(f) == 0
  {
    Folder(id, name, None, [], [])
  }

  /** `with_description` */
  function WithDescription(f: Folder, d: string): (r: Folder)
    ensures r.description == Some(d) && r.(description := f.description) == f
  {
    f.(description := Some(d))
  }

  // ---------------------------------------------------------------------
  // Reference definitions on a flat list of requests

  /** The first request in `rs` with the given id. */
  function FirstWithId(rs: seq<RequestItem>, id: nat): (r: Option<RequestItem>)
    ensures r.None? <==> forall i :: 0 <= i < |rs| ==> rs[i].id != id
    ensures r.Some? ==> r.value.id == id && r.value in rs
  {
    if rs == [] then None
    else if rs[0].id == id then Some(rs[0])
    else FirstWithId(rs[1..], id)
  }

  /** `rs` without its first request with the given id (unchanged when there is none). */
  function RemoveFirstWithId(rs: seq<RequestItem>, id: nat): (r: seq<RequestItem>)
    ensures FirstWithId(rs, id).None? ==> r == rs
    ensures FirstWithId(rs, id).Some? ==> |r| == |rs| - 1
  {
    if rs == [] then []
    else if rs[0].id == id then rs[1..]
    else [rs[0]] + RemoveFirstWithId(rs[1..], id)
  }

  /** Removing the first match deletes exactly one position: the first one holding that id. */
  lemma {:induction false} RemoveFirstIsAtPosition(rs: seq<RequestItem>, id: nat, p: nat)
    requires p < |rs| && rs[p].id == id && forall j :: 0 <= j < p ==> rs[j].id != id
    ensures RemoveFirstWithId(rs, id) == rs[..p] + rs[p + 1..]
    ensures FirstWithId(rs, id) == Some(rs[p])
  {
    if p > 0 {
      RemoveFirstIsAtPosition(rs[1..], id, p - 1);
      assert rs[1..][..p - 1] == rs[1..p];
      assert rs[1..][p..] == rs[p + 1..];
      assert [rs[0]] + rs[1..p] == rs[..p];
      Seqs.AppendAssoc([rs[0]], rs[1..p], rs[p + 1..]);
    }
  }

  /** The position of the first match, when there is one. */
  lemma {:induction false} FirstPosition(rs: seq<RequestItem>, id: nat) returns (p: nat)
    requires FirstWithId(rs, id).Some?
    ensures p < |rs| && rs[p].id == id && forall j :: 0 <= j < p ==> rs[j].id != id
    ensures FirstWithId(rs, id) == Some(rs[p])
  {
    if rs[0].id == id {
      p := 0;
    } else {
      var q := FirstPosition(rs[1..], id);
      p := q + 1;
    }
  }

  /** A search through two lists one after the other. */
  lemma {:induction false} FirstAppend(a: seq<RequestItem>, b: seq<RequestItem>, id: nat)
    ensures FirstWithId(a + b, id) == if FirstWithId(a, id).Some? then FirstWithId(a, id) else FirstWithId(b, id)
  {
    if a != [] {
      assert (a + b)[1..] == a[1..] + b;
      FirstAppend(a[1..], b, id);
    } else {
      assert a + b == b;
    }
  }

  /** A removal from two lists one after the other. */
  lemma {:induction false} RemoveAppend(a: seq<RequestItem>, b: seq<RequestItem>, id: nat)
    ensures RemoveFirstWithId(a + b, id)
      == if FirstWithId(a, id).Some? then RemoveFirstWithId(a, id) + b else a + RemoveFirstWithId(b, id)
  {
    if a == [] {
      assert a + b == b;
    } else if a[0].id == id {
      assert (a + b)[1..] == a[1..] + b;
    } else {
      var ab := a + b;
      assert ab[0] == a[0] && ab[1..] == a[1..] + b;
      assert RemoveFirstWithId(ab, id) == [a[0]] + RemoveFirstWithId(a[1..] + b, id);
      assert FirstWithId(a, id) == FirstWithId(a[1..], id);
      RemoveAppend(a[1..], b, id);
      if FirstWithId(a, id).Some? {
        assert RemoveFirstWithId(a, id) == [a[0]] + RemoveFirstWithId(a[1..], id);
        Seqs.AppendAssoc([a[0]], RemoveFirstWithId(a[1..], id), b);
      } else {
        var rb := RemoveFirstWithId(b, id);
        assert a == [a[0]] + a[1..];
        Seqs.AppendAssoc([a[0]], a[1..], rb);
      }
    }
  }

  // ---------------------------------------------------------------------
  // The tree operations

  /** `list_all_requests`: own requests, then each sub-folder's list in order; as many as `total_requests` counts. */
  function ListAll(f: Folder): (r: seq<RequestItem>)
    ensures |r| == TotalRequests(f)
    decreases f
  {
    f.requests + ListAllIn(f.folders)
  }

  /** The lists of the folders `fs`, one after the other. */
  function ListAllIn(fs: seq<Folder>): (r: seq<RequestItem>)
    ensures |r| == SumTotals(fs)
    decreases fs
  {
    if fs == [] then [] else ListAll(fs[0]) + ListAllIn(fs[1..])
  }

  /** `total_requests`: own requests plus the totals of the sub-folders. */
  function TotalRequests(f: Folder): nat
    decreases f
  {
    |f.requests| + SumTotals(f.folders)
  }

  /** The sum of the totals of the folders `fs`. */
  function SumTotals(fs: seq<Folder>): nat
    decreases fs
  {
    if fs == [] then 0 else TotalRequests(fs[0]) + SumTotals(fs[1..])
  }

  /** `get_request`: the first request with that id in the listing; none exactly when no request in the tree has it. */
  function GetRequest(f: Folder, id: nat): (r: Option<RequestItem>)
    ensures r == FirstWithId(ListAll(f), id)
    ensures r.None? <==> forall q :: q in ListAll(f) ==> q.id != id
    decreases f
  {
    FirstAppend(f.requests, ListAllIn(f.folders), id);
    match FirstWithId(f.requests, id)
    case Some(q) => Some(q)
    case None => GetIn(f.folders, id)
  }

  /** The first match among the folders `fs`, searched in order. */
  function GetIn(fs: seq<Folder>, id: nat): (r: Option<RequestItem>)
    ensures r == FirstWithId(ListAllIn(fs), id)
    decreases fs
  {
    if fs == [] then None
    else
      FirstAppend(ListAll(fs[0]), ListAllIn(fs[1..]), id);
      match GetRequest(fs[0], id)
      case Some(q) => Some(q)
      case None => GetIn(fs[1..], id)
  }

  /**
   * `remove_request`: whether a request with that id was in the tree; the
   * new tree lists exactly the old listing without its first match, so the
   * total drops by one when one was removed, and otherwise nothing changes.
   */
  function RemoveRequest(f: Folder, id: nat): (r: (Folder, bool))
    ensures r.1 <==> FirstWithId(ListAll(f), id).Some?
    ensures ListAll(r.0) == RemoveFirstWithId(ListAll(f), id)
    ensures TotalRequests(r.0) == TotalRequests(f) - (if r.1 then 1 else 0)
    ensures !r.1 ==> r.0 == f
    ensures r.0.id == f.id && r.0.name == f.name && r.0.description == f.description
    decreases f
  {
    FirstAppend(f.requests, ListAllIn(f.folders), id);
    RemoveAppend(f.requests, ListAllIn(f.folders), id);
    if FirstWithId(f.requests, id).Some? then
      (f.(requests := RemoveFirstWithId(f.requests, id)), true)
    else
      var (fs, removed) := RemoveIn(f.folders, id);
      (f.(folders := fs), removed)
  }

  /** Removal from the first of the folders `fs` that holds a match. */
  function RemoveIn(fs: seq<Folder>, id: nat): (r: (seq<Folder>, bool))
    ensures r.1 <==> FirstWithId(ListAllIn(fs), id).Some?
    ensures ListAllIn(r.0) == RemoveFirstWithId(ListAllIn(fs), id)
    ensures !r.1 ==> r.0 == fs
    decreases fs
  {
    if fs == [] then (fs, false)
    else
      FirstAppend(ListAll(fs[0]), ListAllIn(fs[1..]), id);
      RemoveAppend(ListAll(fs[0]), ListAllIn(fs[1..]), id);
      var (g, removed) := RemoveRequest(fs[0], id);
      if removed then
        assert ([g] + fs[1..])[1..] == fs[1..];
        ([g] + fs[1..], true)
      else
        var (rest, removedRest) := RemoveIn(fs[1..], id);
        assert ([fs[0]] + rest)[1..] == rest;
        if removedRest then ([fs[0]] + rest, true)
        else assert [fs[0]] + fs[1..] == fs; (fs, false)
  }

  /** The listing after appending a folder is the old listing followed by the new folder's. */
  lemma {:induction false} ListAllInAppend(fs: seq<Folder>, g: Folder)
    ensures ListAllIn(fs + [g]) == ListAllIn(fs) + ListAll(g)
    decreases fs
  {
    if fs == [] {
      assert [g][1..] == [];
    } else {
      assert (fs + [g])[1..] == fs[1..] + [g];
      ListAllInAppend(fs[1..], g);
    }
  }

  /** `add_request`: appended to the folder's own requests; one more in the tree. */
  function AddRequest(f: Folder, q: RequestItem): (r: Folder)
    ensures r.requests == f.requests + [q] && r.(requests := f.requests) == f
    ensures TotalRequests(r) == TotalRequests(f) + 1
  {
    f.(requests := f.requests + [q])
  }

  /** `add_folder`: appended after the other sub-folders, so its requests come last in the listing. */
  function AddFolder(f: Folder, g: Folder): (r: Folder)
    ensures r.folders == f.folders + [g] && r.(folders := f.folders) == f
    ensures ListAll(r) == ListAll(f) + ListAll(g)
    ensures TotalRequests(r) == TotalRequests(f) + TotalRequests(g)
  {
    ListAllInAppend(f.folders, g);
    f.(folders := f.folders + [g])
  }
}
