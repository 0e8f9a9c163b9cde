/** One row of the notification list: its unread state and type caption (src/app/_components/notifications/notification-item.tsx). */
module NotificationItem {
  import opened Types

  predicate IsUnread(n: Notification) {
    !n.read
  }

  /** The icon is left out; caption and background class are kept. */
  datatype Config = Config(caption: string, color: string)

  const LikeLabel: string := "curtiu seu post"
  const CommentLabel: string := "comentou no seu post"

  /** getNotificationConfig: only likes and comments have a config; follows get none. */
  function NotificationConfig(kind: NotificationType): (r: Option<Config>)
    ensures r.Some? <==> kind != FollowUser
    ensures kind == LikePost ==> r == Some(Config(LikeLabel, "bg-red-500/10"))
    ensures kind == CommentPost ==> r == Some(Config(CommentLabel, "bg-blue-500/10"))
  {
    match kind
    case LikePost => Some(Config(LikeLabel, "bg-red-500/10"))
    case CommentPost => Some(Config(CommentLabel, "bg-blue-500/10"))
    case FollowUser => None
  }

  /** What a row shows: the config, the highlighted background, and the unread dot. */
  datatype ItemView = ItemView(config: Option<Config>, highlighted: bool, dot: bool)

  function Item(n: Notification): (v: ItemView)
    ensures v.dot <==> !n.read
    ensures v.highlighted <==> v.dot
    ensures v.config.None? <==> n.kind == FollowUser
  {
    ItemView(NotificationConfig(n.kind), IsUnread(n), IsUnread(n))
  }

  /** Two kinds with a config never share a caption. */
  lemma LabelsDistinct(a: NotificationType, b: NotificationType)
    requires NotificationConfig(a).Some? && NotificationConfig(b).Some?
    ensures NotificationConfig(a).value.caption == NotificationConfig(b).value.caption <==> a == b
  {
    assert LikeLabel[1] != CommentLabel[1];
  }

  /** Marking a row read hides its dot and highlight and keeps its caption. */
  lemma ReadHidesDot(n: Notification)
    ensures Item(n.(read := true)).dot == false && Item(n.(read := true)).highlighted == false
    ensures Item(n.(read := true)).config == Item(n).config
  {
  }
}
