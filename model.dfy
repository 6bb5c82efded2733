/**
 * Types shared by every component of the shortener: the identifiers of users
 * and links, the Link record the service hands out, and the error values the
 * components return (Go's `error`, where `nil` is `None`).
 */
module Model {

  /** Go's `uint32`. */
  type u32 = x: int | 0 <= x < 0x1_0000_0000

  /** Go's `byte`. */
  type byte = x: int | 0 <= x < 256

  /** One more than the largest `uint32`. */
  const TwoTo32: int := 0x1_0000_0000

  /**
   * model.UserID is a signed Go `int`; registered users get 0, 1, 2, ...
   * and any negative id stands for "no user yet".
   */
  type UserId = int

  /** UserID.IsValid: the id is not negative. */
  predicate IsValid(id: UserId) {
    id >= 0
  }

  /** model.LinkID is a `uint32`. */
  type LinkId = u32

  /**
   * The Go conversion `model.LinkID(idx)` of a slice index: it keeps the low
   * 32 bits, so it is the identity only below 2^32.
   */
  function ToLinkId(idx: nat): (id: LinkId)
    ensures idx < TwoTo32 ==> id == idx
  {
    idx % TwoTo32
  }

  /** model.Link: a short URL and the original URL it stands for. */
  datatype Link = Link(shortURL: string, originalURL: string)

  /** The zero value `model.Link{}`. */
  const EmptyLink: Link := Link("", "")

  datatype Error =
    | ErrInvalidUserID        // model.ErrInvalidUserID
    | ErrUserNotFound         // model.ErrUserNotFound
    | ErrLinkNotFound         // model.ErrLinkNotFound
    | ErrLinkAlreadyExists    // model.ErrLinkAlreadyExists
    | ErrInvalidURL           // model.ErrInvalidURL
    | ErrDecodingShortURL     // model.ErrDecodingShortURL
    | ErrCorruptInput         // the z-base-32 decoder's CorruptInputError, without its offset
    | ErrInvalidStringLength  // errors.New("invalid string length")
    | ErrIdNotFound(id: u32)  // fmt.Errorf("id '%d' not found", id)
    | ErrOS(code: nat)        // any other failure reported by the operating system
    | ErrJSON                 // a snapshot that does not decode

  datatype Option<+T> = None | Some(value: T)

  datatype Result<+T> = Ok(value: T) | Err(error: Error)
}
