/**
 * The service interceptor of the HTTP pipeline: it turns a request
 * descriptor naming a logical `service` and a `resource` into one carrying a
 * concrete `uri`, using the service catalog to find the service's base URL.
 */
module ServiceInterceptor {
  import opened JsValues

  /**
   * The request descriptor ("PTO"). The four properties the interceptor
   * reads are explicit (None when the property is absent); every other
   * property of the object is kept, untouched, in `rest`.
   */
  datatype Options = Options(
    uri: Option<string>,
    api: Option<string>,
    service: Option<string>,
    resource: Option<string>,
    rest: map<string, string>)

  /** How `onRequest` fails: a synchronous `throw`, or a rejected promise. */
  datatype Failure = Thrown(message: string) | Rejected(message: string)

  /** The service catalog (`waitForService`): service name to base URL. */
  type Catalog = map<string, string>

  const ResourceRequired := "a `resource` parameter is required"
  const ServiceRequired := "a valid 'service' parameter is required"

  function UnknownService(service: string): string {
    "service-interceptor: '" + service + "' is not a known service"
  }

  /** JavaScript truthiness of a string-valued property. */
  predicate Truthy(p: Option<string>) {
    p.Some? && p.value != ""
  }

  /** True when `s` starts or ends with a slash. */
  predicate HasEndSlash(s: string) {
    |s| > 0 && (s[0] == '/' || s[|s| - 1] == '/')
  }

  /**
   * `s.replace(/(?:^\/)|(?:\/$)/, '')`: the pattern has no `g` flag, so at
   * most one slash goes, the leading one when there is one.
   */
  function StripSlash(s: string): (r: string)
    ensures r == s <==> !HasEndSlash(s)
    ensures r != s ==> |r| + 1 == |s|
    ensures |s| > 0 && s[0] == '/' ==> r == s[1..]
    ensures (|s| == 0 || s[0] != '/') && r != s ==> r == s[..|s| - 1] && s[|s| - 1] == '/'
  {
    if |s| > 0 && s[0] == '/' then s[1..]
    else if |s| > 0 && s[|s| - 1] == '/' then s[..|s| - 1]
    else s
  }

  /** `generateUri(serviceUrl, resource = '')`. */
  function GenerateUri(serviceUrl: string, resource: Option<string>): (r: string)
    ensures r != ""
  {
    StripSlash(serviceUrl) + "/" + StripSlash(resource.OrDefault(""))
  }

  /** `normalizeOptions`: a truthy `api` is folded into `service` and deleted. */
  function Normalize(o: Options): (r: Options)
    ensures !Truthy(o.api) ==> r == o
    ensures Truthy(o.api) ==> r.api == None && Truthy(r.service)
    ensures Truthy(o.api) && Truthy(o.service) ==> r.service == o.service
    ensures Truthy(o.api) && !Truthy(o.service) ==> r.service == o.api
    ensures r.uri == o.uri && r.resource == o.resource && r.rest == o.rest
  {
    if Truthy(o.api) then
      o.(service := if Truthy(o.service) then o.service else o.api, api := None)
    else o
  }

  /** `validateOptions`: None when the descriptor passes, else the error thrown. */
  function Validate(o: Options): (r: Option<Failure>)
    ensures r == None <==> Truthy(o.resource) && Truthy(o.service)
    ensures !Truthy(o.resource) ==> r == Some(Thrown(ResourceRequired))
    ensures Truthy(o.resource) && !Truthy(o.service) ==> r == Some(Thrown(ServiceRequired))
  {
    if !Truthy(o.resource) then Some(Thrown(ResourceRequired))
    else if !Truthy(o.service) then Some(Thrown(ServiceRequired))
    else None
  }

  /** `onRequest`: the descriptor with `uri` filled in, or how the call failed. */
  function OnRequest(o: Options, catalog: Catalog): (r: Result<Options, Failure>)
    ensures r.Ok? <==> Truthy(o.uri)
                       || (Validate(Normalize(o)) == None && Normalize(o).service.value in catalog)
    ensures Truthy(o.uri) ==> r == Ok(o)
    ensures !Truthy(o.uri) && !Truthy(o.resource) ==> r == Err(Thrown(ResourceRequired))
    ensures !Truthy(o.uri) && r.Ok? ==>
              var n := Normalize(o);
              && Validate(n) == None
              && n.service.value in catalog
              && r.value == n.(uri := Some(GenerateUri(catalog[n.service.value], n.resource)))
    ensures r.Err? && r.error.Rejected? ==>
              var n := Normalize(o);
              && Validate(n) == None
              && n.service.value !in catalog
              && r.error.message == UnknownService(n.service.value)
  {
    if Truthy(o.uri) then Ok(o)
    else
      var n := Normalize(o);
      match Validate(n)
      case Some(failure) => Err(failure)
      case None =>
        var service := n.service.value;
        if service in catalog then
          Ok(n.(uri := Some(GenerateUri(catalog[service], n.resource))))
        else
          Err(Rejected(UnknownService(service)))
  }

  /**
   * The caller's descriptor once `onRequest` has settled. The call mutates
   * its argument: normalisation happens in place before validation can
   * throw and before the lookup can reject, so a failed call still leaves
   * the normalised descriptor behind.
   */
  function CallerDescriptor(o: Options, catalog: Catalog): (r: Options)
    ensures Truthy(o.uri) ==> r == o
    ensures !Truthy(o.uri) ==> r.(uri := o.uri) == Normalize(o)
    ensures r.uri == if OnRequest(o, catalog).Ok? then OnRequest(o, catalog).value.uri else o.uri
  {
    match OnRequest(o, catalog)
    case Ok(v) => v
    case Err(_) => Normalize(o)
  }

  /**
   * A call without a `uri` that throws or rejects leaves the caller with the
   * normalised descriptor: a truthy `api` is gone, folded into `service`.
   * A missing `resource` is one such failure.
   */
  lemma FailedCallStillNormalizes(o: Options, catalog: Catalog)
    requires !Truthy(o.uri) && OnRequest(o, catalog).Err?
    ensures CallerDescriptor(o, catalog) == Normalize(o)
    ensures Truthy(o.api) ==> CallerDescriptor(o, catalog).api == None
    ensures Truthy(o.api) ==>
              CallerDescriptor(o, catalog).service == if Truthy(o.service) then o.service else o.api
    ensures !Truthy(o.resource) ==> OnRequest(o, catalog) == Err(Thrown(ResourceRequired))
  {
  }

  /** A descriptor that already has a `uri` passes through untouched. */
  lemma UriShortcut(o: Options, catalog: Catalog)
    requires Truthy(o.uri)
    ensures OnRequest(o, catalog) == Ok(o)
  {
  }

  /**
   * Validation precedes the catalog lookup: for a descriptor without a `uri`
   * that fails validation, the outcome is the thrown error whatever the
   * catalog holds.
   */
  lemma CatalogNotConsultedWhenInvalid(o: Options, c1: Catalog, c2: Catalog)
    requires !Truthy(o.uri) && Validate(Normalize(o)).Some?
    ensures OnRequest(o, c1) == OnRequest(o, c2) == Err(Validate(Normalize(o)).value)
    ensures OnRequest(o, c1).error.Thrown?
  {
  }

  /** A descriptor missing both `resource` and `service` reports `resource`. */
  lemma ResourceCheckedFirst(o: Options, catalog: Catalog)
    requires !Truthy(o.uri) && !Truthy(o.resource) && !Truthy(o.service) && !Truthy(o.api)
    ensures OnRequest(o, catalog) == Err(Thrown(ResourceRequired))
  {
  }

  /**
   * An unknown service name rejects with the interceptor's own message,
   * which quotes the name; the catalog's error is not passed on.
   */
  lemma UnknownServiceRejects(o: Options, catalog: Catalog)
    requires !Truthy(o.uri) && Validate(Normalize(o)) == None
    requires Normalize(o).service.value !in catalog
    ensures var name := Normalize(o).service.value;
            && OnRequest(o, catalog) == Err(Rejected(UnknownService(name)))
            && UnknownService(name)[22..22 + |name|] == name
  {
    var name := Normalize(o).service.value;
    assert UnknownService(name) == "service-interceptor: '" + name + "' is not a known service";
  }

  /**
   * `onRequest` is idempotent: its successful output has a truthy `uri`, so
   * feeding it back in returns it unchanged, whatever the catalog.
   */
  lemma OnRequestIdempotent(o: Options, c1: Catalog, c2: Catalog)
    requires OnRequest(o, c1).Ok?
    ensures OnRequest(OnRequest(o, c1).value, c2) == OnRequest(o, c1)
  {
  }

  /** Without end slashes on either input, the join is plain concatenation. */
  lemma GenerateUriPlain(serviceUrl: string, resource: string)
    requires !HasEndSlash(serviceUrl) && !HasEndSlash(resource)
    ensures GenerateUri(serviceUrl, Some(resource)) == serviceUrl + "/" + resource
  {
  }

  /** A missing resource defaults to the empty string. */
  lemma GenerateUriDefaultResource(serviceUrl: string)
    ensures GenerateUri(serviceUrl, None) == StripSlash(serviceUrl) + "/"
  {
  }

  /** One slash goes from each side of the join: the base's trailing one and the resource's leading one. */
  lemma GenerateUriExample()
    ensures GenerateUri("https://example.com/api/", Some("/widgets/7")) == "https://example.com/api/widgets/7"
  {
    assert StripSlash("https://example.com/api/") == "https://example.com/api";
    assert StripSlash("/widgets/7") == "widgets/7";
  }

  /** Only the leading slash of "/path/" goes: the trailing one survives. */
  lemma GenerateUriKeepsSecondSlash()
    ensures GenerateUri("https://svc.example.com/", Some("/path/")) == "https://svc.example.com/path/"
  {
    assert StripSlash("https://svc.example.com/") == "https://svc.example.com";
    assert StripSlash("/path/") == "path/";
  }

  /** The end-to-end resolution of a catalogued service. */
  lemma ResolveExample()
    ensures var o := Options(None, None, Some("example"), Some("/widgets/7"), map[]);
            var catalog := map["example" := "https://example.com/api/"];
            && OnRequest(o, catalog).Ok?
            && OnRequest(o, catalog).value.uri == Some("https://example.com/api/widgets/7")
  {
    GenerateUriExample();
  }
}
