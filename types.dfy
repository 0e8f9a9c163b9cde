/** Rows of the ClubHouse FC data store and the outcomes of its procedures. */
module Types {

  /** User ids are opaque strings issued by the authentication provider. */
  type UserId = string
  /** Posts and comments use auto-incremented integer ids, starting at 1. */
  type PostId = nat
  type CommentId = nat
  /** Notification ids are issued by the store; only their uniqueness matters. */
  type NotificationId = nat

  datatype Option<+T> = None | Some(value: T)

  /** The three tags the server writes into a notification row. */
  datatype NotificationType = LikePost | CommentPost | FollowUser

  datatype User = User(
    id: UserId,
    name: string,
    email: string,
    image: Option<string>,
    bio: Option<string>,
    location: Option<string>)

  datatype Post = Post(
    id: PostId,
    author: UserId,
    content: string,
    image: Option<string>,
    createdAt: nat)

  /** `parent` is the id written by the caller, unchecked: it may name no comment at all. */
  datatype Comment = Comment(
    id: CommentId,
    post: PostId,
    author: UserId,
    content: string,
    parent: Option<CommentId>,
    createdAt: nat)

  /** `recipient` is the row's userId column, `actor` its actorId column. */
  datatype Notification = Notification(
    id: NotificationId,
    recipient: UserId,
    actor: UserId,
    kind: NotificationType,
    post: Option<PostId>,
    comment: Option<CommentId>,
    read: bool,
    createdAt: nat)

  /** A zod validation issue: the path of the offending field and what was wrong with it. */
  datatype Issue =
    | TooSmall(path: string, minimum: nat)
    | TooBig(path: string, maximum: nat)
    | Custom(path: string, message: string)

  datatype Error =
    | Thrown(message: string)       // `throw new Error(message)` inside a procedure
    | BadInput(issues: seq<Issue>)  // the procedure's input schema rejected the input
    | RecordNotFound                // a Prisma `update` whose `where` selects no row

  datatype Result<+T> = Ok(value: T) | Err(error: Error)

  const PostNotFound: string := "Post não encontrado"
  const NotAuthorized: string := "Usuário nao autorizado"
}
