/** The records and the enumeration shared by the service and the app (types.ts). */
module Types {
  import opened Wrappers

  /** A position fix. The source's numbers are JavaScript doubles; the model
      never computes with them, so any value set stands in for them. */
  datatype Coordinates = Coordinates(latitude: real, longitude: real)

  /** One place found by a scan. `uri`, `rating`, `address` and `distance`
      are optional properties of the record. */
  datatype KebabPlace = KebabPlace(
    id: string,
    name: string,
    description: string,
    uri: Option<string>,
    rating: Option<string>,
    address: Option<string>,
    distance: Option<string>)

  /** The five views of the scan lifecycle. */
  datatype AppState = Idle | Locating | Searching | Results | Error

  /** Web grounding metadata: never consulted by the extractor. */
  datatype WebSource = WebSource(uri: string, title: string)

  /** Map grounding metadata. */
  datatype MapsSource = MapsSource(uri: string, title: string, placeId: Option<string>)

  /** A grounding chunk returned beside the model's text; either part may be absent. */
  datatype GroundingChunk = GroundingChunk(web: Option<WebSource>, maps: Option<MapsSource>)
}
