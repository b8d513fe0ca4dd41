/** The request and response records of the `POST /urls` endpoint. */
module Models {

  import opened Wrappers

  /** `CreateUrlRequest`; `None` stands for a JSON null or a missing field. */
  datatype CreateUrlRequest = CreateUrlRequest(originalUrl: Option<string>, customSlug: Option<string>)

  /** `CreateUrlResponse`. */
  datatype CreateUrlResponse = CreateUrlResponse(slug: string, shortUrl: string, targetUrl: string)
}
