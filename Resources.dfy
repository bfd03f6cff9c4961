/** The read-only `RESOURCES` table: six colour records, listed and looked up by id. */
module Resources {
  import opened Messages
  import opened Pagination

  datatype Resource = Resource(id: int, name: string, year: int, color: string, pantoneValue: string)

  /** The seed records in insertion order. */
  const Seed: seq<Resource> := [
    Resource(1, "resource1", 2000, "#98B2D1", "15-4020"),
    Resource(2, "resource2", 2001, "#C74375", "17-2031"),
    Resource(3, "resource3", 2002, "#BF1932", "19-1664"),
    Resource(4, "resource4", 2003, "#7BC4C4", "14-4811"),
    Resource(5, "resource5", 2004, "#E2583E", "17-1456"),
    Resource(6, "resource6", 2005, "#53B0AE", "15-5217")
  ]

  /** The table: each seed record under its own id. */
  function Table(): map<int, Resource>
  {
    map i | 0 <= i < |Seed| :: Seed[i].id := Seed[i]
  }

  /** `GET /api/unknown/<id>`: the record stored under id, or not-found. */
  function GetResource(id: int): (r: Response<Resource>)
    ensures r.Ok? <==> 1 <= id <= |Seed|
    ensures r.Ok? ==> r.body.id == id && r.body == Seed[id - 1]
    ensures !r.Ok? ==> r == NotFound
  {
    TableHoldsSeed(id);
    if id in Table() then Ok(Table()[id]) else NotFound
  }

  /** The seed records carry the ids 1..6 in order, so the table maps exactly
      those ids, each to its seed record. */
  lemma TableHoldsSeed(id: int)
    ensures id in Table() <==> 1 <= id <= |Seed|
    ensures id in Table() ==> Table()[id] == Seed[id - 1]
  {
    assert forall i :: 0 <= i < |Seed| ==> Seed[i].id == i + 1;
    if 1 <= id <= |Seed| {
      assert Seed[id - 1].id == id;
    }
  }

  /** `GET /api/unknown?page=<page>`. */
  function ListResources(page: int): (r: Page<Resource>)
    ensures r.page == page && r.perPage == PerPage && r.total == |Seed|
    ensures r.totalPages == 1
    ensures page == 1 ==> r.data == Seed
    ensures page != 1 ==> r.data == []
  {
    var r := Paginate(Seed, page, PerPage);
    if page >= 1 then
      PageInRange(Seed, page, PerPage); r
    else if page < 0 then
      NegativePageCountsFromEnd(Seed, page, PerPage);
      MulMonotone(page, -1, PerPage);
      r
    else
      r
  }
}
