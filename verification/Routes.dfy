/** Route definitions: the objects a router declares, names and mounts. */
module Routes {

  type HttpMethod = string

  // routeNameMode: whether the name was given by a caller or by the router itself.
  datatype RouteNameMode = Unspecified | Internal | Public

  /** The part of a route that never changes after it is declared. */
  datatype Endpoint = Endpoint(verb: HttpMethod, path: string)

  /** A named handler or middleware; what it does is opaque. */
  datatype Link = Link(name: string, body: string)

  class RouteDefinition {
    const verb: HttpMethod
    const path: string
    var name: string
    var publicName: string
    var nameMode: RouteNameMode
    var middlewares: seq<Link>
    var handlers: seq<Link>

    constructor (verb: HttpMethod, path: string, middlewares: seq<Link>, handlers: seq<Link>)
      ensures this.verb == verb && this.path == path
      ensures name == "" && publicName == "" && nameMode == Unspecified
      ensures this.middlewares == middlewares && this.handlers == handlers
    {
      this.verb := verb;
      this.path := path;
      this.name := "";
      this.publicName := "";
      this.nameMode := Unspecified;
      this.middlewares := middlewares;
      this.handlers := handlers;
    }

    function AsEndpoint(): Endpoint {
      Endpoint(verb, path)
    }
  }

  function Endpoints(routes: seq<RouteDefinition>): (endpoints: seq<Endpoint>)
    ensures |endpoints| == |routes|
    ensures forall k :: 0 <= k < |routes| ==> endpoints[k] == routes[k].AsEndpoint()
  {
    seq(|routes|, k requires 0 <= k < |routes| => routes[k].AsEndpoint())
  }

  function PathsOf(endpoints: seq<Endpoint>): (paths: seq<string>)
    ensures |paths| == |endpoints| && forall k :: 0 <= k < |paths| ==> paths[k] == endpoints[k].path
  {
    seq(|endpoints|, k requires 0 <= k < |endpoints| => endpoints[k].path)
  }
}
