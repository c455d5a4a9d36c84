/** The entry point of the API: a resource with no content of its own and one
    link to the change-request collection. */
module Root {
  import opened Common
  import opened LinkBuilder

  /** A representation with links only. */
  datatype RepresentationModel = RepresentationModel(links: seq<Link>)

  /** The root resource under `base`. */
  function RootResource(base: string): (m: RepresentationModel)
    ensures |m.links| == 1
    ensures m.links[0].rel == "change-requests"
    ensures m.links[0].href.query.None? && m.links[0].mediaType.None?
    ensures Location(m.links[0].href) == base + "/change-requests"
  {
    RepresentationModel([LinkTo(base, "change-requests", Collection)])
  }

  /** The root link and the collection's create link point at the same
      URI: both are the bare collection. */
  lemma RootLinkIsCreateTarget(base: string, q: ListQuery)
    ensures RootResource(base).links[0].href == CollectionLinks(base, q)[1].href
  {
  }

  /** Under http://localhost the root link is http://localhost/change-requests. */
  lemma RootUnderLocalhost()
    ensures Location(RootResource("http://localhost").links[0].href) == "http://localhost/change-requests"
  {
  }
}
