/** The records the catalogue API returns (models/rawg.ts). Only the fields the
    sampler looks at are kept. */
module Models {
  import opened Wrappers

  /** One catalogue entry; `id` is its identity. */
  datatype Game = Game(id: int, name: string)

  /** One page of a listing. `count` is None when the field is missing or not a
      number; `results` are the games of that page in the API's order. */
  datatype ListResponse = ListResponse(count: Option<int>, results: seq<Game>)
}
