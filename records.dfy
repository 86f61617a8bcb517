/**
 * The records the pipeline reads (parks and species, as parsed from the two
 * CSV tables) and the graph it produces for the galaxy view.
 */
module Records {
  import opened JsValues

  /** A row of the parks table. Acres, latitude and longitude are not used by the pipeline. */
  datatype Park = Park(code: Field, name: string, state: Field)

  /** A row of the species table; every column may be absent. */
  datatype Species = Species(
    id: Field,
    parkName: Field,
    category: Field,
    order: Field,
    family: Field,
    scientificName: Field,
    commonNames: Field,
    recordStatus: Field,
    occurrence: Field,
    nativeness: Field,
    abundance: Field,
    seasonality: Field,
    conservationStatus: Field)

  /** A node of the galaxy graph: one per species record. */
  datatype Node = Node(
    id: Field,
    name: Field,
    scientificName: Field,
    category: Field,
    family: Field,
    order: Field,
    nativeness: Field,
    abundance: Field,
    seasonality: Field,
    conservationStatus: Field)

  /** An edge of the galaxy graph, naming its endpoints by species id. */
  datatype Link = Link(source: Field, target: Field)

  datatype GraphData = GraphData(nodes: seq<Node>, links: seq<Link>)
}
