/**
 * The records the blog router reads and writes: listings ("blogs"), their
 * comments, the signed-in user, the submitted form and the geocoding reply.
 */
module Models {

  /** Store-assigned identifiers; opaque apart from equality. */
  type BlogId = nat
  type CommentId = nat
  type UserId = nat

  /**
   * A coordinate as returned by the geocoding service. It is a floating-point
   * number there; here it is only ever copied, so its text stands for it.
   */
  datatype Coordinate = Coordinate(text: string)

  /** The signed-in user making the request. */
  datatype User = User(id: UserId, username: string)

  /** The creator snapshot stored with a listing. */
  datatype Author = Author(id: UserId, username: string)

  /** A listing, as stored. */
  datatype Blog = Blog(
    name: string,
    image: string,
    description: string,
    cost: string,
    author: Author,
    location: string,
    lat: Coordinate,
    lng: Coordinate,
    comments: seq<CommentId>)

  /** A comment, stored in its own collection and referenced by id from a listing. */
  datatype Comment = Comment(text: string, author: Author)

  /** The fields of the create and edit forms. */
  datatype Form = Form(name: string, image: string, description: string, cost: string, location: string)

  /** One geocoding match: formatted address and coordinates. */
  datatype Place = Place(formattedAddress: string, lat: Coordinate, lng: Coordinate)

  /** The geocoding callback's arguments: a transport error, or a reply with a status and its matches. */
  datatype Geocode = GeoError | GeoReply(status: string, results: seq<Place>)
}
