# Portfolio gallery and profile card — a Dafny model

This project models the behavioural core of two React components of a portfolio
web site.

* **The gallery modal's image-load tracker** (`GalleryModal`). The tracker keeps a map
  from image index to a "loaded or errored" flag (`imageLoadStatusMap`) and a readiness
  flag (`didLoadAllImages`). A change of the image list clears both. Each `onLoad` or
  `onError` of an `<img>` marks that image's index, and a second mark of the same index
  is a no-op. The flag becomes true once the number of marked entries reaches
  `images.length`, and it never does so for an absent or empty list. The same module
  models the pure logic around the tracker:
  * the layout-parameter table, which picks horizontal or vertical from the gallery's
    type tag and the `lg` breakpoint;
  * the choice of exactly one renderer (a swiper or a stacked list);
  * the loading class, the visibility class and the spinner, all gated on readiness;
  * how both renderers report each image's position;
  * `_resolveSrc`, which applies `encodeURI` and then replaces every apostrophe with
    `%27`.
* **The navigation profile card's view model** (`NavProfileCard`):
  * the avatar rotation tick, a modular index plus an animation key;
  * the display-name fallback chain;
  * the rule that truncates the roles while animations are suspended, and how roles
    are displayed;
  * the status circle's fields;
  * the resume-download guard.

Files:

* `wrappers.dfy`: the `Option` type.
* `uri_encoding.dfy`: `encodeURI` as ECMA-262 defines it under "encodeURI ( uri )" among the URI handling functions. It keeps
  uriUnescaped, uriReserved and `#`, and percent-encodes the UTF-8 octets of every other
  character. Reference decoders (`HexValue`, `PercentDecode`, `DecodeUtf8`, `DecodeUri`)
  give back every character from the output. The file also models the apostrophe replacement and proves that the
  resolved URL contains no apostrophe. The partner of the replacement is a restorer that
  gives back exactly the `encodeURI` output.
* `gallery_modal.dfy`: the specification of the tracker as functions over a
  `TrackerState`, which are `Marked`, `ResetPass`, `MarkStep` and `Replay`. The file also
  holds the `Tracker` class that keeps the two state variables, with `Reset`,
  `Recompute` and `MarkComplete` methods proved against those functions. Then come the
  lemmas, the layout, the gating and the renderers.
* `nav_profile_card.dfy`: the `AvatarRotation` class with its `Tick`, and the pure
  selections. `OnDownloadResume` is a method that returns the effect it takes.

The tracker keeps the invariant `Consistent`. Every entry of the map is true, and the
readiness flag equals the readiness rule applied to the current map. `ResetPass` sets up
this invariant, `MarkStep` preserves it, and so every `Replay` satisfies it. The source's
rule compares a count. It does not check each index. `CountReachedIffAllMarked` proves
that the two agree when every mark lands in `[0, N)`, and
`ReadyIffEveryIndexSignalled` applies this to any sequence of signals.

When `images` changes, the reset effect and the readiness effect fire in the same
pass. The model makes the reset and a recomputation over the cleared map one atomic
step (`ResetPass`). The code as written behaves differently, as shown under
"## Findings".

## Model

| member | source | states |
|---|---|---|
| `GalleryModal.Marked` | src/components/modals/GalleryModal.jsx:60-68 | the marked index is present and true; every other key and its value is unchanged and no other key is added; an index already true gives back the same map; the completed count grows by exactly one for a new index and not at all otherwise |
| `GalleryModal.ResetPass` | src/components/modals/GalleryModal.jsx:25-28 | after the image list changes the map is empty and readiness is false, for every list including an absent or empty one, and the state is consistent |
| `GalleryModal.MarkStep` | src/components/modals/GalleryModal.jsx:30-37 | one signal leaves the map updated as `Marked` says; readiness is never cleared; a signal for an index already marked changes nothing; consistency is preserved |
| `GalleryModal.Replay` | src/components/modals/GalleryModal.jsx:25-37 | after a reset and any sequence of signals the state is consistent: all entries true, readiness equal to "count of true entries >= images.length on a non-empty list" |
| `GalleryModal.Tracker.constructor` | src/components/modals/GalleryModal.jsx:19-20 | a mounted tracker starts with an empty map and readiness false |
| `GalleryModal.Tracker.Recompute` | src/components/modals/GalleryModal.jsx:30-37 | the readiness effect sets the flag exactly when the list is present, non-empty and fully counted; it never clears it and changes nothing else |
| `GalleryModal.Tracker.Reset` | src/components/modals/GalleryModal.jsx:25-28 | a new image list replaces the old one, clears the map and leaves readiness false |
| `GalleryModal.Tracker.MarkComplete` | src/components/modals/GalleryModal.jsx:60-68 | `_onImageLoadStatus` moves the state as `MarkStep` says; it reports a change exactly when the map changed, and an unchanged map leaves readiness untouched |
| `GalleryModal.Tracker.IsReady` | src/components/modals/GalleryModal.jsx:34-36 | the stored flag equals the readiness rule on the current map |
| `GalleryModal.CountReachedIffAllMarked` | src/components/modals/GalleryModal.jsx:34-35 | with all keys in [0, N) the count never exceeds N and reaches N iff every index in [0, N) is marked true |
| `GalleryModal.ReplayKeys` | src/components/modals/GalleryModal.jsx:63-66 | the map's keys are exactly the signalled indices |
| `GalleryModal.ReadyIffEveryIndexSignalled` | src/components/modals/GalleryModal.jsx:30-37 | with in-range signals, readiness holds iff the list is non-empty and every index was signalled, in any order |
| `GalleryModal.NoImagesNeverReady` | src/components/modals/GalleryModal.jsx:31-32 | an absent or empty image list is never ready, whatever signals arrive |
| `GalleryModal.ReadyIsMonotone` | src/components/modals/GalleryModal.jsx:34-36 | within one image list, once ready stays ready under any later signals |
| `GalleryModal.MarkIdempotent` | src/components/modals/GalleryModal.jsx:62 | signalling the same index twice gives the same state as signalling it once |
| `GalleryModal.OutOfOrderCompletion` | src/components/modals/GalleryModal.jsx:34-36 | three images signalled 2, 0, 1 are ready after the third signal and not before |
| `GalleryModal.LateSignalIsNotIsolated` | src/components/modals/GalleryModal.jsx:60-68 | a signal is a bare index, so a late signal for index 2 of an earlier three-image list, together with `b0`'s own signal, makes `[b0, b1]` ready although `b1` never fired |
| `GalleryModal.ResetPassAsWritten` | src/components/modals/GalleryModal.jsx:25-37 | the pass as written leaves an empty map and sets readiness iff the previous list's map satisfies the rule for the new list |
| `GalleryModal.StaleReadinessAfterSwitch` | src/components/modals/GalleryModal.jsx:25-37 | from a loaded two-image list straight to a one-image list, the pass as written reports ready with nothing loaded (inconsistent), the atomic reset does not |
| `GalleryModal.FindById` | src/components/modals/GalleryModal.jsx:46-50 | the lookup returns an entry of the table with the requested id, or nothing when no entry has it |
| `GalleryModal.LayoutParameters` | src/components/modals/GalleryModal.jsx:46-50 | `9:16` is portrait and horizontal; `16:9` is landscape and `1:1` default, each vertical iff mobile (not `lg`); any other tag gives exactly what `withId` returns for its fallback; if that is the `1:1` entry, the direction is vertical iff mobile and the tag is not `9:16` |
| `GalleryModal.ShownRenderers` | src/components/modals/GalleryModal.jsx:81-92 | exactly one renderer is shown: the swiper iff horizontal, the stack iff vertical |
| `GalleryModal.LoadingGating` | src/components/modals/GalleryModal.jsx:23-96 | the loading modal class (line 23), the `invisible` class (52-54) and the spinner (94-96) are each present exactly while readiness is false |
| `GalleryModal.RenderedItems` | src/components/modals/GalleryModal.jsx:117-124 | one item per image, keyed by its position, with a source resolved by `_resolveSrc` that contains no apostrophe |
| `GalleryModal.ReportedIndex` | src/components/modals/GalleryModal.jsx:141-148 | both renderers report the item's position on `onLoad` and on `onError` alike |
| `GalleryModal.Signals` | src/components/modals/GalleryModal.jsx:123-124 | the tracker receives one index per image event, equal to the position of the image that fired |
| `GalleryModal.ReadyIffEveryImageFired` | src/components/modals/GalleryModal.jsx:117-148 | with either renderer and any mix of load and error events, the gallery is ready iff it has images and each one fired an event |
| `GalleryModal.FailureEquivalence` | src/components/modals/GalleryModal.jsx:147-148 | all-error events reach exactly the same tracker state as all-success events at the same positions |
| `UriEncoding.HexDigit` | src/components/modals/GalleryModal.jsx:107 | an escape digit is an upper-case hexadecimal digit, and `HexValue` reads back exactly the value written |
| `UriEncoding.EncodeChar` | src/components/modals/GalleryModal.jsx:107 | `encodeURI` keeps a uriUnescaped, uriReserved or `#` character as is and otherwise writes a percent escape with no apostrophe in it |
| `UriEncoding.Utf8` | src/components/modals/GalleryModal.jsx:107 | one to four octets; a single octet exactly for code points below 0x80, equal to the code point; otherwise a leading octet in C2-DF, E0-EF or F0-F4 by length, followed by continuation octets in 80-BF |
| `UriEncoding.Utf8RoundTrip` | src/components/modals/GalleryModal.jsx:107 | decoding the UTF-8 octets written for a character gives back its code point |
| `UriEncoding.PercentDecodeRoundTrip` | src/components/modals/GalleryModal.jsx:107 | reading the `%XY` triples back gives exactly the octets that were escaped |
| `UriEncoding.EscapeCarriesChar` | src/components/modals/GalleryModal.jsx:107 | for every character `encodeURI` does not keep, its escape decodes, octet by octet and then as UTF-8, to exactly that character |
| `UriEncoding.EncodeUri` | src/components/modals/GalleryModal.jsx:107 | the output is at least as long as the input and consists only of characters `encodeURI` keeps and `%` |
| `UriEncoding.EncodeUriAppend` | src/components/modals/GalleryModal.jsx:107 | `encodeURI` of a concatenation is the concatenation of the encodings |
| `UriEncoding.DecodeEncodedChar` | src/components/modals/GalleryModal.jsx:107 | the reference decoder reads exactly one character's encoding off the front of any string |
| `UriEncoding.DecodeAfterEncode` | src/components/modals/GalleryModal.jsx:107 | decoding the `encodeURI` output gives back every code point of the input, in order |
| `UriEncoding.ReplaceApostrophes` | src/components/modals/GalleryModal.jsx:136 | no apostrophe remains; a string without apostrophes is unchanged; no character other than `%`, `2`, `7` is introduced |
| `UriEncoding.ResolveSrc` | src/components/modals/GalleryModal.jsx:105-108 | the resolved URL never contains an apostrophe, and each of its characters is one `encodeURI` keeps or `%` |
| `UriEncoding.RestoreAfterResolve` | src/components/modals/GalleryModal.jsx:134-137 | turning `%27` back into apostrophes recovers the `encodeURI` output exactly, so the replacement loses nothing |
| `UriEncoding.ResolveSrcKeepsPlainPaths` | src/components/modals/GalleryModal.jsx:105-108 | a path of kept characters with no apostrophe and no `%` is used unchanged |
| `UriEncoding.ResolveSrcEscapesApostrophe` | src/components/modals/GalleryModal.jsx:136 | `a'b` resolves to `a%27b` |
| `UriEncoding.ResolveSrcEscapesSpace` | src/components/modals/GalleryModal.jsx:107 | a space resolves to `%20` |
| `NavProfileCard.NextIndex` | src/components/nav/partials/NavProfileCard.jsx:30 | the next avatar index stays within the list, is one more than the last, and wraps from the last position to 0 |
| `NavProfileCard.IndexAfterTicks` | src/components/nav/partials/NavProfileCard.jsx:28-35 | after any number of ticks the avatar index is in [0, profileImages.length) |
| `NavProfileCard.IndexAfterTicksWraps` | src/components/nav/partials/NavProfileCard.jsx:30 | within one round each tick moves one place forward and wraps once past the end |
| `NavProfileCard.TicksReturnToStart` | src/components/nav/partials/NavProfileCard.jsx:23-30 | after profileImages.length ticks the index is back at its start |
| `NavProfileCard.AvatarRotation.constructor` | src/components/nav/partials/NavProfileCard.jsx:21-22 | index and animation key both start at 0 |
| `NavProfileCard.AvatarRotation.Tick` | src/components/nav/partials/NavProfileCard.jsx:29-32 | each tick advances the index by one modulo the list length and the animation key by exactly one, so the index is the tick count's position and the key the tick count |
| `NavProfileCard.AvatarRotation.CurrentImage` | src/components/nav/partials/NavProfileCard.jsx:93 | the avatar source is always one of the profile pictures, the one at the current index |
| `NavProfileCard.DisplayName` | src/components/nav/partials/NavProfileCard.jsx:41-44 | stylized translation if truthy, else localized name if truthy, else `profile.name`; empty only when `profile.name` is |
| `NavProfileCard.ShownRoles` | src/components/nav/partials/NavProfileCard.jsx:46-48 | roles collapse to the first role only when animations are suspended and there are more than two; the result is a prefix, empty iff the list is |
| `NavProfileCard.RoleDisplayOf` | src/components/nav/partials/NavProfileCard.jsx:116-125 | a typer over all roles iff more than one, the single role statically iff exactly one, nothing iff none |
| `NavProfileCard.SuspendedRolesDisplay` | src/components/nav/partials/NavProfileCard.jsx:46-48 | with animations suspended the typer is shown iff there are exactly two roles; longer lists show their first role statically |
| `NavProfileCard.StatusCircleOf` | src/components/nav/partials/NavProfileCard.jsx:52-63 | hidden circle: variant "" and no hover message; visible: the profile's variant and translated message; default size iff expanded, else small |
| `NavProfileCard.OnDownloadResume` | src/components/nav/partials/NavProfileCard.jsx:77-88 | exactly one effect: an error notification iff `resumePdfUrl` is missing or empty, otherwise a download of that URL |

## Findings

| source | as written | input that shows it | evidently intended | confidence | as-written member | corrected member |
|---|---|---|---|---|---|---|
| src/components/modals/GalleryModal.jsx:25-37 | when `images` changes, both effects run in the same commit. The readiness effect reads the map of that render, which is still the previous list's map, and can queue `didLoadAllImages = true` right after the reset queued `false` | the target switches directly from a fully loaded list `[a0, a1]` to `[b0]`: readiness is true with an empty map, so the spinner is hidden and the content visible before `b0` loads | a new image list is not ready until its own images complete | medium, not executed | `GalleryModal.ResetPassAsWritten` (shown by `GalleryModal.StaleReadinessAfterSwitch`) | `GalleryModal.ResetPass` |

A switch that passes through an absent target does not show the issue, because the
readiness effect returns early on an absent list.

## Left out

- Stale-signal isolation: the component keeps no target identity or generation counter, so a late signal from an earlier image list is recorded against the current one. The model follows the code: a signal is a bare index (`MarkStep` takes an `int`), and `LateSignalIsNotIsolated` gives an input where a late signal makes a list ready before all its images fired. A design that guards against it is not modelled.
- Per-index readiness check: readiness is modelled as the code computes it, a count compared with `images.length`. `CountReachedIffAllMarked` relates the count to a per-index check.
- `utils.array.withId` is not part of this model. `LayoutParameters` takes what it returns for a tag with no entry as the parameter `fallback` (`None` when it finds nothing), and states the renderer direction for such a tag only when that result is the `default` (`1:1`) entry. The visible code gives some evidence against this: the fallback argument `"default"` at GalleryModal.jsx:50 is not the `id` of any entry but the `suffix` of the `1:1` entry, so if `withId` looks the fallback up by `id` it finds nothing, and reading `parameters.direction` at lines 72 and 81 would throw.
- `viewport.isBreakpoint("lg")` is an input (`isLargeBreakpoint`).
- `utils.file.resolvePath` is a function input.
- `language.getTranslation`, `language.getString`, `language.parseJsonText` and `utils.storage.getWindowVariable` are inputs. A translation that is missing or `null` is `None`. JavaScript truthiness of strings is modelled as present and non-empty.
- Notifications and downloads are not performed. `OnDownloadResume` returns the effect it would take.
- `setInterval`, `clearInterval` and the 15000 ms period are left out. The rotation is an abstract `Tick`.
- `encodeURI` on UTF-16 surrogates, and the URIError it throws on a lone surrogate, are left out. Dafny characters are Unicode scalar values, so such strings cannot be written.
- RenderedItems: takes the image list as a plain list, so a target that is present but has no `images` cannot be expressed. In the component such a target passes the `!target` guard at GalleryModal.jsx:43 and then makes both renderers throw a TypeError at `images.map` (lines 117 and 141). The tracker's absent-list case (`None`, as in `NoImagesNeverReady`) therefore stands only for an absent target, for which the component renders nothing.
- JSX markup is not modelled, apart from the three gating values and the renderer choice. This covers the `alt` texts, the title, the CSS class strings, `dangerouslySetInnerHTML`, and the `Swiper`, `ModalWrapper`, `Spinner`, `Card`, `StatusCircle`, `TextTyper`, `AudioButton` and `ImageView` components, which are external UI code.
- The `shouldDismiss` flag and `_onClose` are left out. They are modal plumbing with no bearing on loading.
- The following parts of the profile card are not modelled: `expandedClass`, the name-pronunciation button visibility and class, `profilePictureUrl` and `_onStatusBadgeClicked`. Each is a single conditional or a call to a service.
- `RoleDisplayOf` takes the roles as a list. The `roles?.length` guard for a `null` roles value is not modelled, because the lookup's default is an empty list.
- `src/components/widgets/MorphingShapes.jsx` is static markup and is not modelled.
