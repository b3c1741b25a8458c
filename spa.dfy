/**
 * The static-resource resolver of the single-page application (SpaConfiguration.java): existing
 * files are served as they are, and any other path outside the API and the actuator falls back to
 * index.html so that the client-side router can handle it.
 */
module Spa {
  import opened Text

  datatype Resolution = StaticFile(path: string) | IndexHtml | NoResource

  /** Resolves a path relative to the static directory, given the set of paths there that exist and are readable. */
  function GetResource(resourcePath: string, readable: set<string>): (r: Resolution)
    ensures resourcePath in readable ==> r == StaticFile(resourcePath)
    ensures resourcePath !in readable && !StartsWith(resourcePath, "api/") && !StartsWith(resourcePath, "actuator/") ==>
      r == IndexHtml
    ensures resourcePath !in readable && (StartsWith(resourcePath, "api/") || StartsWith(resourcePath, "actuator/")) ==>
      r == NoResource
  {
    if resourcePath in readable then
      StaticFile(resourcePath)
    else if !StartsWith(resourcePath, "api/") && !StartsWith(resourcePath, "actuator/") then
      IndexHtml
    else
      NoResource
  }

  /** A missing API path is never answered with the application page. */
  lemma MissingApiPathNotFound(rest: string, readable: set<string>)
    requires "api/" + rest !in readable
    ensures GetResource("api/" + rest, readable) == NoResource
  {
    assert ("api/" + rest)[..4] == "api/";
  }

  /** The resolver only ever serves a file that exists. */
  lemma ServedFilesExist(resourcePath: string, readable: set<string>)
    ensures GetResource(resourcePath, readable).StaticFile? ==>
      GetResource(resourcePath, readable).path == resourcePath && resourcePath in readable
  {
  }
}
