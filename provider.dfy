/**
 * What a call to the generative model can come back with, as the routes
 * distinguish it: the reply text, a deadline that expired, an error reported
 * by the Google API client, or any other exception.
 */
module Provider {
  datatype Reply =
    | Text(raw: string)
    | DeadlineExceeded(detail: string)
    | ApiError(detail: string)
    | Unexpected(detail: string)
}
