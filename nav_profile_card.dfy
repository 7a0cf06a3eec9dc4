/**
  The view-model logic of `NavProfileCard` (src/components/nav/partials/NavProfileCard.jsx):
  the rotating avatar, the display-name fallback, the roles shown and how they are
  shown, the status circle's fields and the resume-download guard.

  Translations, window variables and the notification and download services are
  inputs here: a translation is an `Option<string>` (absent when the lookup gives
  its `null` default), and the guard returns the effect it takes instead of
  performing it.
*/
module NavProfileCard {
  import opened Wrappers

  // ---------------------------------------------------------------------------
  // Avatar rotation
  // ---------------------------------------------------------------------------

  /** `profileImages`: the pictures the avatar cycles through. */
  const ProfileImages: seq<string> := ["images/pictures/profile-picture.jpg", "images/pictures/profile-picture-2.jpg.png"]

  /** The interval callback's index update `(prevIndex + 1) % profileImages.length`:
      the next position, wrapping from the last one to the first. */
  function NextIndex(index: nat, count: nat): (r: nat)
    requires index < count
    ensures r < count
    ensures index + 1 < count ==> r == index + 1
    ensures index + 1 == count ==> r == 0
  {
    (index + 1) % count
  }

  /** The avatar index after a number of interval ticks. */
  function IndexAfterTicks(start: nat, ticks: nat, count: nat): (r: nat)
    requires start < count
    ensures r < count
  {
    if ticks == 0 then start else NextIndex(IndexAfterTicks(start, ticks - 1, count), count)
  }

  /** Up to one full round, each tick moves the index one place forward, wrapping
      once past the end. */
  lemma {:induction false} IndexAfterTicksWraps(start: nat, ticks: nat, count: nat)
    requires start < count && ticks <= count
    ensures IndexAfterTicks(start, ticks, count) == if start + ticks < count then start + ticks else start + ticks - count
  {
    if ticks > 0 {
      IndexAfterTicksWraps(start, ticks - 1, count);
    }
  }

  /** After `profileImages.length` ticks the avatar is back where it started. */
  lemma TicksReturnToStart(start: nat, count: nat)
    requires start < count
    ensures IndexAfterTicks(start, count, count) == start
  {
    IndexAfterTicksWraps(start, count, count);
  }

  /** The state the interval updates: `currentImageIndex` and `animationKey`
      (the key that restarts the avatar animation). `ticks` counts the interval
      callbacks so far. */
  class AvatarRotation {
    var currentImageIndex: nat
    var animationKey: nat
    ghost var ticks: nat

    ghost predicate Valid()
      reads this
    {
      currentImageIndex == IndexAfterTicks(0, ticks, |ProfileImages|) && animationKey == ticks
    }

    /** Both `useState(0)`. */
    constructor ()
      ensures Valid() && ticks == 0
      ensures currentImageIndex == 0 && animationKey == 0
    {
      currentImageIndex, animationKey := 0, 0;
      ticks := 0;
    }

    /** One interval callback: the index moves one place forward modulo the number
        of pictures, and the animation key goes up by exactly one. */
    method Tick()
      requires Valid()
      modifies this
      ensures Valid() && ticks == old(ticks) + 1
      ensures currentImageIndex == NextIndex(old(currentImageIndex), |ProfileImages|)
      ensures animationKey == old(animationKey) + 1
    {
      currentImageIndex := (currentImageIndex + 1) % |ProfileImages|;
      animationKey := animationKey + 1;
      ticks := ticks + 1;
    }

    /** The `src` of the avatar: always one of the pictures, since the index stays
        within the list. */
    function CurrentImage(): (src: string)
      reads this
      requires Valid()
      ensures currentImageIndex < |ProfileImages| && src == ProfileImages[currentImageIndex]
    {
      ProfileImages[currentImageIndex]
    }
  }

  // ---------------------------------------------------------------------------
  // Display name
  // ---------------------------------------------------------------------------

  /** JavaScript truthiness of a looked-up string: present and not empty. */
  predicate Truthy(s: Option<string>) {
    s.Some? && s.value != ""
  }

  /** `stylizedName`: the stylized translation if truthy, else the localized name
      if truthy, else `profile.name`. It is empty only when `profile.name` is. */
  function DisplayName(stylized: Option<string>, localized: Option<string>, name: string): (r: string)
    ensures Truthy(stylized) ==> r == stylized.value
    ensures !Truthy(stylized) && Truthy(localized) ==> r == localized.value
    ensures !Truthy(stylized) && !Truthy(localized) ==> r == name
    ensures r == "" ==> name == ""
  {
    if Truthy(stylized) then stylized.value
    else if Truthy(localized) then localized.value
    else name
  }

  // ---------------------------------------------------------------------------
  // Roles
  // ---------------------------------------------------------------------------

  /** `roles` after the suspension rule: with animations suspended, a list of more
      than two roles collapses to its first role; every other list is kept. The
      result is always a prefix of the list, empty only when the list is. */
  function ShownRoles(roles: seq<string>, suspendAnimations: bool): (r: seq<string>)
    ensures r <= roles
    ensures |r| == 0 <==> |roles| == 0
    ensures |roles| <= 2 || !suspendAnimations ==> r == roles
    ensures suspendAnimations && |roles| > 2 ==> r == [roles[0]]
  {
    if suspendAnimations && |roles| > 2 then [roles[0]] else roles
  }

  datatype RoleDisplay = Typer(strings: seq<string>) | StaticRole(role: string) | NoRole

  /** How the roles are shown: a typer over all of them for more than one role,
      the single role as static text for exactly one, nothing for none. */
  function RoleDisplayOf(roles: seq<string>): (d: RoleDisplay)
    ensures d.Typer? <==> |roles| > 1
    ensures d.StaticRole? <==> |roles| == 1
    ensures d.NoRole? <==> |roles| == 0
    ensures d.Typer? ==> d.strings == roles
    ensures d.StaticRole? ==> d.role == roles[0]
  {
    if |roles| > 1 then Typer(roles)
    else if |roles| == 1 then StaticRole(roles[0])
    else NoRole
  }

  /** With animations suspended the typer only ever runs over exactly two roles;
      a longer list is shown as its first role, statically. */
  lemma SuspendedRolesDisplay(roles: seq<string>)
    ensures RoleDisplayOf(ShownRoles(roles, true)).Typer? <==> |roles| == 2
    ensures |roles| > 2 ==> RoleDisplayOf(ShownRoles(roles, true)) == StaticRole(roles[0])
  {
  }

  // ---------------------------------------------------------------------------
  // Status circle
  // ---------------------------------------------------------------------------

  datatype CircleSize = DefaultSize | SmallSize

  datatype StatusCircleView = StatusCircleView(visible: bool, variant: string, hoverMessage: Option<string>, size: CircleSize)

  /** The status circle's fields. `visible` is `Boolean(profile.statusCircleVisible)`
      and `hoverTranslation` the translation of `profile.statusCircleHoverMessage`.
      When the circle is hidden its variant is "" and it has no hover message; its
      size is the default one exactly when the card is expanded. */
  function StatusCircleOf(visible: bool, variant: string, hoverTranslation: Option<string>, expanded: bool): (v: StatusCircleView)
    ensures v.visible == visible
    ensures !visible ==> v.variant == "" && v.hoverMessage == None
    ensures visible ==> v.variant == variant && v.hoverMessage == hoverTranslation
    ensures v.size == DefaultSize <==> expanded
  {
    StatusCircleView(visible,
                     if visible then variant else "",
                     if visible then hoverTranslation else None,
                     if expanded then DefaultSize else SmallSize)
  }

  // ---------------------------------------------------------------------------
  // Resume download
  // ---------------------------------------------------------------------------

  datatype Effect = Notification(title: string, message: string, kind: string) | Download(url: string)

  /** `_onDownloadResume`: a missing or empty `resumePdfUrl` gives exactly one error
      notification and no download; a present one gives exactly one download of that
      URL and no notification. `errorTitle` and `fileNotFoundMessage` are the strings
      `language.getString` returns for "error" and "error_file_not_found". */
  method OnDownloadResume(resumePdfUrl: Option<string>, errorTitle: string, fileNotFoundMessage: string)
    returns (effects: seq<Effect>)
    ensures |effects| == 1
    ensures !Truthy(resumePdfUrl) <==> effects[0].Notification?
    ensures !Truthy(resumePdfUrl) ==> effects[0] == Notification(errorTitle, fileNotFoundMessage, "error")
    ensures Truthy(resumePdfUrl) ==> effects[0] == Download(resumePdfUrl.value)
  {
    if !Truthy(resumePdfUrl) {
      effects := [Notification(errorTitle, fileNotFoundMessage, "error")];
      return;
    }
    effects := [Download(resumePdfUrl.value)];
  }
}
