/** Result values returned by the snippet views. */
module Outcomes {

  datatype Option<T> = None | Some(value: T)

  /** The failures a view reports: a redirect to the login page
      (`Unauthorized`), `Http404` from `get_object_or_404` (`NotFound`)
      and `PermissionDenied` (`Forbidden`). */
  datatype Error = Unauthorized | NotFound | Forbidden

  datatype Result<T> = Ok(value: T) | Err(error: Error)
}
