/** The rows of the marketplace's tables (the SQLAlchemy models of backend.py)
    and the replies its handlers send back. */
module Schema {

  datatype Option<T> = None | Some(value: T)

  /** Floating-point columns (price, seller and purchaser ratings) are carried
      through unchanged; their rounding is not modelled. */
  type Float = real

  /** The default of both rating columns. */
  const DEFAULT_RATING: Float := 0.0

  /** A row of `career`; `careerName` is unique. */
  datatype Career = Career(id: int, careerName: string)

  /** A row of `category`; the name is not unique. */
  datatype Category = Category(id: int, name: string, description: string, imageUrl: string)

  /** A row of `student`; `id` is supplied by the client, `email` is unique
      and `careerId` refers to a row of `career`. */
  datatype Student = Student(
    id: int,
    email: string,
    name: string,
    level: int,
    phoneNumber: string,
    profileImageUrl: Option<string>,
    sellerRating: Float,
    purchaserRating: Float,
    careerId: int)

  /** The values the handlers write into `post.status`: `'active'` (the
      column default) and `'inProcess'` (set on purchase). */
  datatype Status = Active | InProcess

  /** A row of `post`, together with its rows of the `careers` join table:
      `careerIds` lists, in the order they were attached, the careers the
      post is tagged with. The publish date is not modelled. */
  datatype Post = Post(
    id: int,
    name: string,
    price: Float,
    description: string,
    imageUrl: string,
    status: Status,
    level: int,
    categoryId: int,
    studentId: int,
    careerIds: seq<int>)

  /** The only value any handler gives the three status columns of a
      transaction (their default, `'pending'`). */
  datatype TransactionStatus = Pending

  /** A row of `transaction`: `studentId` is the purchaser. The date is not
      modelled. */
  datatype Transaction = Transaction(
    id: int,
    generalStatus: TransactionStatus,
    sellerStatus: TransactionStatus,
    purchaserStatus: TransactionStatus,
    postId: int,
    studentId: int)

  /** The distinct `{'error': ...}` payloads of the modelled handlers. */
  datatype Failure =
    | StudentNotFound      // no student with the id
    | CareerNotFound       // no career with the name
    | CategoryNotFound     // no category with the name (publish) or id (posts by category)
    | PostUnavailable      // no post with the id whose status is active
    | AlreadyRegistered    // register hit the unique key on id or email
    | IntegrityViolation   // publish hit the composite key of the join table

  /** The reply of a read handler: the rows it found, or an error payload. */
  datatype Reply<T> = Ok(value: T) | Error(failure: Failure)

  /** The reply of a handler that changes the store: its fixed success
      message, or an error payload. */
  datatype Outcome = Done | Fail(failure: Failure)
}
