/**
 * A collection: its info (name, id, version, description, schema), the
 * requests at its root and its folders. Its searches, removals and counts
 * go through the root requests and then the folders in order, exactly as a
 * folder's do, so they are the folder operations applied to the root.
 */
module Collections {
  import opened Wrappers
  import opened RequestItems
  import opened Folders

  datatype CollectionInfo = CollectionInfo(
    name: string,
    id: nat,
    version: string,
    description: Option<string>,
    schema: string)

  datatype Collection = Collection(info: CollectionInfo, requests: seq<RequestItem>, folders: seq<Folder>)

  /** `Collection::new`: version "1.0.0", schema "bazzounquester-1.0", nothing inside. */
  function NewCollection(id: nat, name: string): (c: Collection)
    ensures c.info.name == name && c.info.id == id && c.info.description.None?
    ensures c.info.version == "1.0.0" && c.info.schema == "bazzounquester-1.0"
    ensures c.requests == [] && c.folders == [] && TotalRequests(c) == 0
  {
    Collection(CollectionInfo(name, id, "1.0.0", None, "bazzounquester-1.0"), [], [])
  }

  /** `with_description` */
  function WithDescription(c: Collection, d: string): (r: Collection)
    ensures r.info.description == Some(d)
    ensures r.requests == c.requests && r.folders == c.folders
    ensures r.info.(description := c.info.description) == c.info
  {
    c.(info := c.info.(description := Some(d)))
  }

  /** The root level seen as a folder (its id, name and description are the collection's). */
  function Root(c: Collection): (f: Folder)
    ensures f.requests == c.requests && f.folders == c.folders
  {
    Folder(c.info.id, c.info.name, c.info.description, c.requests, c.folders)
  }

  /** `list_all_requests`: root requests, then each folder's listing in order; as many as `total_requests` counts. */
  function ListAll(c: Collection): (r: seq<RequestItem>)
    ensures r == c.requests + ListAllIn(c.folders)
    ensures |r| == TotalRequests(c)
  {
    Folders.ListAll(Root(c))
  }

  /** `total_requests`: root requests plus the folders' totals. */
  function TotalRequests(c: Collection): (n: nat)
    ensures n == |c.requests| + SumTotals(c.folders)
  {
    Folders.TotalRequests(Root(c))
  }

  /** `get_request`: the first request with that id, root requests first; none exactly when none has it. */
  function GetRequest(c: Collection, id: nat): (r: Option<RequestItem>)
    ensures r == FirstWithId(ListAll(c), id)
    ensures r.None? <==> forall q :: q in ListAll(c) ==> q.id != id
  {
    Folders.GetRequest(Root(c), id)
  }

  /**
   * `remove_request`: true exactly when some request had the id; the first
   * one in the listing is removed and the total drops by one; otherwise the
   * collection is unchanged. The info never changes.
   */
  function RemoveRequest(c: Collection, id: nat): (r: (Collection, bool))
    ensures r.1 <==> GetRequest(c, id).Some?
    ensures ListAll(r.0) == RemoveFirstWithId(ListAll(c), id)
    ensures TotalRequests(r.0) == TotalRequests(c) - (if r.1 then 1 else 0)
    ensures !r.1 ==> r.0 == c
    ensures r.0.info == c.info
  {
    var (f, removed) := Folders.RemoveRequest(Root(c), id);
    (c.(requests := f.requests, folders := f.folders), removed)
  }

  /** `add_request`: appended to the root requests; one more in the collection. */
  function AddRequest(c: Collection, q: RequestItem): (r: Collection)
    ensures r.requests == c.requests + [q] && r.(requests := c.requests) == c
    ensures TotalRequests(r) == TotalRequests(c) + 1
    ensures GetRequest(r, q.id).Some?
  {
    var r := c.(requests := c.requests + [q]);
    assert q in ListAll(r) by {
      assert ListAll(r)[|c.requests|] == q;
    }
    r
  }

  /** `add_folder`: appended after the other folders, so its requests come last in the listing. */
  function AddFolder(c: Collection, g: Folder): (r: Collection)
    ensures r.folders == c.folders + [g] && r.(folders := c.folders) == c
    ensures ListAll(r) == ListAll(c) + Folders.ListAll(g)
    ensures TotalRequests(r) == TotalRequests(c) + Folders.TotalRequests(g)
  {
    ListAllInAppend(c.folders, g);
    c.(folders := c.folders + [g])
  }

  /** A request that was found is gone after its removal when no other request shares its id. */
  lemma RemoveUniqueGone(c: Collection, id: nat)
    requires forall i, j :: 0 <= i < j < |ListAll(c)| ==> ListAll(c)[i].id != id || ListAll(c)[j].id != id
    ensures GetRequest(RemoveRequest(c, id).0, id).None?
  {
    var rs := ListAll(c);
    if GetRequest(c, id).Some? {
      var p := FirstPosition(rs, id);
      RemoveFirstIsAtPosition(rs, id, p);
      var after := rs[..p] + rs[p + 1..];
      forall k | 0 <= k < |after| ensures after[k].id != id {
        if k < p {
          assert after[k] == rs[k];
        } else {
          assert after[k] == rs[k + 1];
        }
      }
    }
  }
}
