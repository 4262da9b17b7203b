/** What a route hands back to the web framework, once templates and redirect
    targets are abstracted away. */
module Http {

  datatype Response =
    | Redirect     // the route finished and redirects to the index page
    | BadRequest   // a required form field was missing (a KeyError on request.form)
    | ServerError  // an SQL statement raised and the error reached the request boundary
}
