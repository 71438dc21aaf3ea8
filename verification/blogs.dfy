/** The data the service handles: the upstream's blog records, the parsed
    response body that the request pipeline attaches as `req.data`, and the
    outcomes of the operations that can fail. */
module Blogs {

  datatype Option<T> = None | Some(value: T)

  /** One upstream record. Only `title` is read; the remaining fields are
      carried along unchanged and returned as they are. */
  datatype Blog = Blog(title: string, other: map<string, string>)

  /** The `blogs` field of the payload: missing (or falsy), present but not
      an array, or an array of records. */
  datatype BlogsField = Missing | NotArray | Array(items: seq<Blog>)

  /** `req.data`: undefined (or falsy), or an object with a `blogs` field. */
  datatype Payload = Undefined | Object(blogs: BlogsField)

  /** The settled promise that `memoizedFetch` returns: the upstream body, or
      the error's message. */
  datatype FetchResult = Fulfilled(payload: Payload) | Rejected(message: string)

  /** How a synchronous JavaScript call ends: with a value, or by throwing. */
  datatype Completion<T> = Returned(value: T) | Threw

  /** The payload has the shape the handlers expect: an object whose `blogs`
      is an array. */
  predicate WellShaped(data: Payload) {
    data.Object? && data.blogs.Array?
  }
}
