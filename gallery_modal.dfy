/**
  The image-load tracker of `GalleryModal` (src/components/modals/GalleryModal.jsx)
  and the pure view logic around it: the layout-parameter lookup, the loading
  gating of the modal class, the content visibility and the spinner, and the two
  renderers (`GalleryModalSwiper`, `GalleryModalImageStack`) that report each
  image's completion.

  The tracker state is the pair of React state variables `imageLoadStatusMap`
  (image index -> "loaded or errored") and `didLoadAllImages`. Its operations are
  the reset effect (run when `images` changes), the readiness effect (run when the
  map or `images` changes) and `_onImageLoadStatus(index)`.
*/
module GalleryModal {
  import opened Wrappers
  import UriEncoding

  // ---------------------------------------------------------------------------
  // Tracker state and its specification
  // ---------------------------------------------------------------------------

  /** `imageLoadStatusMap`: image index -> completion flag. */
  type StatusMap = map<int, bool>

  /** The indices whose flag is true. */
  function TrueKeys(m: StatusMap): set<int> {
    set k | k in m && m[k]
  }

  /** `Object.values(imageLoadStatusMap).filter(Boolean).length`. */
  function CompletedCount(m: StatusMap): nat {
    |TrueKeys(m)|
  }

  /** `images.length`, or 0 when `target?.images` is absent. */
  function ImageCount(images: Option<seq<string>>): nat {
    if images.Some? then |images.value| else 0
  }

  /** The condition under which the readiness effect sets `didLoadAllImages`:
      a present, non-empty image list and at least as many completed entries as images. */
  predicate AllLoaded(images: Option<seq<string>>, m: StatusMap) {
    images.Some? && |images.value| != 0 && CompletedCount(m) >= |images.value|
  }

  /** The pair of state variables the tracker keeps. */
  datatype TrackerState = TrackerState(statusMap: StatusMap, ready: bool)

  /** What the tracker keeps true: every entry is `true` (entries are only ever set,
      never cleared one by one), and the readiness flag is exactly the readiness rule
      applied to the current map. */
  predicate Consistent(images: Option<seq<string>>, s: TrackerState) {
    (forall k :: k in s.statusMap ==> s.statusMap[k]) && s.ready == AllLoaded(images, s.statusMap)
  }

  /** The updater `_onImageLoadStatus(index)` hands to `setImageLoadStatusMap`:
      an index already marked leaves the map as it is (the same value, so React
      re-renders nothing); otherwise exactly that key is added as true. */
  function Marked(m: StatusMap, index: int): (r: StatusMap)
    ensures index in r && r[index]
    ensures forall k :: k in m && k != index ==> k in r && r[k] == m[k]
    ensures forall k :: k in r && k != index ==> k in m
    ensures index in m && m[index] ==> r == m
    ensures CompletedCount(r) == CompletedCount(m) + (if index in m && m[index] then 0 else 1)
  {
    if index in m && m[index] then m
    else
      var r := m[index := true];
      assert TrueKeys(r) == TrueKeys(m) + {index};
      r
  }

  /** The state after the image list changed. In the component the reset effect and
      the readiness effect fire in the same pass when `images` changes; here the reset
      and the recomputation over the CLEARED map are one atomic step (the component
      as written recomputes over the previous map: see `ResetPassAsWritten`). */
  function ResetPass(images: Option<seq<string>>): (s: TrackerState)
    ensures s.statusMap == map[] && !s.ready
    ensures Consistent(images, s)
  {
    var cleared: StatusMap := map[];
    assert TrueKeys(cleared) == {};
    TrackerState(cleared, AllLoaded(images, cleared))
  }

  /** One completion signal: the map update of `_onImageLoadStatus(index)`, followed,
      when the map changed, by the readiness effect, which can only set the flag. */
  function MarkStep(images: Option<seq<string>>, s: TrackerState, index: int): (r: TrackerState)
    ensures r.statusMap == Marked(s.statusMap, index)
    ensures s.ready ==> r.ready
    ensures index in s.statusMap && s.statusMap[index] ==> r == s
    ensures Consistent(images, s) ==> Consistent(images, r)
  {
    if index in s.statusMap && s.statusMap[index] then s
    else
      var m := Marked(s.statusMap, index);
      TrackerState(m, s.ready || AllLoaded(images, m))
  }

  /** The state after the image list changed to `images` and the signals for the
      given indices arrived, in that order. */
  function Replay(images: Option<seq<string>>, signals: seq<int>): (s: TrackerState)
    ensures Consistent(images, s)
  {
    if signals == [] then ResetPass(images)
    else MarkStep(images, Replay(images, signals[..|signals| - 1]), signals[|signals| - 1])
  }

  // ---------------------------------------------------------------------------
  // The tracker as the component keeps it
  // ---------------------------------------------------------------------------

  class Tracker {
    var images: Option<seq<string>>
    var imageLoadStatusMap: StatusMap
    var didLoadAllImages: bool

    function State(): TrackerState
      reads this
    {
      TrackerState(imageLoadStatusMap, didLoadAllImages)
    }

    ghost predicate Valid()
      reads this
    {
      Consistent(images, State())
    }

    /** Mounting: both `useState` initial values, then the mount-time effects. */
    constructor (images: Option<seq<string>>)
      ensures Valid() && this.images == images
      ensures State() == ResetPass(images)
    {
      this.images := images;
      imageLoadStatusMap := map[];
      didLoadAllImages := false;
      new;
      Recompute();
    }

    /** The readiness effect: with an absent or empty image list it returns early; otherwise it
        sets the flag once the completed count reaches the number of images. It never
        clears the flag. */
    method Recompute()
      modifies this`didLoadAllImages
      ensures didLoadAllImages == (old(didLoadAllImages) || AllLoaded(images, imageLoadStatusMap))
    {
      if images.None? || |images.value| == 0 {
        return;
      }
      var completed := |set k | k in imageLoadStatusMap && imageLoadStatusMap[k]|;
      if completed >= |images.value| {
        didLoadAllImages := true;
      }
    }

    /** A new image list: the reset effect clears the flag and the map, and the
        readiness effect runs over the cleared map (one atomic step, see `ResetPass`). */
    method Reset(newImages: Option<seq<string>>)
      modifies this
      ensures Valid() && images == newImages
      ensures State() == ResetPass(newImages)
    {
      images := newImages;
      didLoadAllImages := false;
      imageLoadStatusMap := map[];
      Recompute();
    }

    /** `_onImageLoadStatus(index)`: a signal for an index already marked changes
        nothing at all; a new index is recorded and readiness is recomputed. */
    method MarkComplete(index: int) returns (changed: bool)
      requires Valid()
      modifies this
      ensures Valid() && images == old(images)
      ensures State() == MarkStep(images, old(State()), index)
      ensures changed <==> imageLoadStatusMap != old(imageLoadStatusMap)
      ensures !changed ==> didLoadAllImages == old(didLoadAllImages)
    {
      ghost var before := State();
      if index in imageLoadStatusMap && imageLoadStatusMap[index] {
        return false;
      }
      imageLoadStatusMap := imageLoadStatusMap[index := true];
      changed := true;
      Recompute();
      assert State() == MarkStep(images, before, index);
    }

    /** `didLoadAllImages`, which is exactly the readiness rule on the current map. */
    function IsReady(): (r: bool)
      reads this
      requires Valid()
      ensures r <==> AllLoaded(images, imageLoadStatusMap)
    {
      didLoadAllImages
    }
  }

  // ---------------------------------------------------------------------------
  // Properties of the tracker
  // ---------------------------------------------------------------------------

  /** The indices 0 .. n-1, as a set of n elements. */
  function IndexRange(n: nat): (r: set<int>)
    ensures forall i :: i in r <==> 0 <= i < n
    ensures |r| == n
  {
    if n == 0 then {} else IndexRange(n - 1) + {n - 1}
  }

  /** The readiness rule compares a count, not each index. When every key lies in
      [0, n), the count never exceeds n, and it reaches n exactly when every index
      in [0, n) is marked true. */
  lemma CountReachedIffAllMarked(m: StatusMap, n: nat)
    requires forall k :: k in m ==> 0 <= k < n
    ensures CompletedCount(m) <= n
    ensures CompletedCount(m) >= n <==> forall i :: 0 <= i < n ==> i in m && m[i]
  {
    var t, range := TrueKeys(m), IndexRange(n);
    assert t <= range;
    assert range == t + (range - t);
    assert t !! (range - t);
    assert |range| == |t| + |range - t|;
    if |t| >= n {
      assert range - t == {};
      forall i | 0 <= i < n ensures i in m && m[i] {
        assert i in range;
      }
    }
  }

  /** The keys of the map are exactly the signalled indices. */
  lemma {:induction false} ReplayKeys(images: Option<seq<string>>, signals: seq<int>)
    ensures forall k :: k in Replay(images, signals).statusMap <==> k in signals
  {
    if signals != [] {
      var prefix, last := signals[..|signals| - 1], signals[|signals| - 1];
      ReplayKeys(images, prefix);
      assert signals == prefix + [last];
    }
  }

  /** Marks that only land in [0, N): readiness holds exactly when the list is
      non-empty and every index 0 .. N-1 has been signalled, in whatever order. */
  lemma ReadyIffEveryIndexSignalled(images: seq<string>, signals: seq<int>)
    requires forall i :: 0 <= i < |signals| ==> 0 <= signals[i] < |images|
    ensures Replay(Some(images), signals).ready <==> |images| > 0 && forall i :: 0 <= i < |images| ==> i in signals
  {
    var s := Replay(Some(images), signals);
    ReplayKeys(Some(images), signals);
    CountReachedIffAllMarked(s.statusMap, |images|);
  }

  /** An absent or empty image list is never reported ready, whatever signals arrive. */
  lemma NoImagesNeverReady(images: Option<seq<string>>, signals: seq<int>)
    requires ImageCount(images) == 0
    ensures !Replay(images, signals).ready
  {
  }

  /** Within one image list readiness is monotone: later signals never clear it. */
  lemma {:induction false} ReadyIsMonotone(images: Option<seq<string>>, signals: seq<int>, later: seq<int>)
    ensures Replay(images, signals).ready ==> Replay(images, signals + later).ready
  {
    if later == [] {
      assert signals + later == signals;
    } else {
      var prefix := later[..|later| - 1];
      ReadyIsMonotone(images, signals, prefix);
      assert signals + later == (signals + prefix) + [later[|later| - 1]];
      assert (signals + later)[..|signals + later| - 1] == signals + prefix;
    }
  }

  /** A second signal for the same index is a no-op: same map, same readiness. */
  lemma MarkIdempotent(images: Option<seq<string>>, s: TrackerState, index: int)
    ensures MarkStep(images, MarkStep(images, s, index), index) == MarkStep(images, s, index)
  {
  }

  /** Three images completing in the order 2, 0, 1 become ready on the third signal
      and not before. */
  lemma OutOfOrderCompletion()
    ensures !Replay(Some(["a", "b", "c"]), [2]).ready
    ensures !Replay(Some(["a", "b", "c"]), [2, 0]).ready
    ensures Replay(Some(["a", "b", "c"]), [2, 0, 1]).ready
  {
  }

  /** A signal carries only an index (`MarkStep` takes a bare `int`), so the tracker
      cannot tell a late signal of an earlier list from one of the current list. With
      the count rule this makes a list ready early: after a switch from a three-image
      list to `[b0, b1]`, the signal of `b0` and a late signal for index 2 of the old
      list make the new list ready although `b1` never fired (the signals `[0, 2]`
      leave out index 1). */
  lemma LateSignalIsNotIsolated()
    ensures !Replay(Some(["b0", "b1"]), [0]).ready
    ensures Replay(Some(["b0", "b1"]), [0, 2]).ready
  {
  }

  // ---------------------------------------------------------------------------
  // The reset pass as the component writes it
  // ---------------------------------------------------------------------------

  /** The pass in which `images` changes, as written: the reset effect queues
      `false` and `{}`, then the readiness effect, reading the map of that same
      render (the PREVIOUS list's map), may queue `true`; the queued updates apply
      in order. */
  function ResetPassAsWritten(images: Option<seq<string>>, previous: TrackerState): (s: TrackerState)
    ensures s.statusMap == map[]
    ensures s.ready <==> AllLoaded(images, previous.statusMap)
  {
    var afterReset := TrackerState(map[], false);
    if AllLoaded(images, previous.statusMap) then afterReset.(ready := true) else afterReset
  }

  /** Switching directly from a fully loaded two-image list to a one-image list:
      as written the new list is reported ready with none of its images loaded;
      the atomic reset reports it loading. */
  lemma StaleReadinessAfterSwitch()
    ensures Replay(Some(["a0", "a1"]), [0, 1]).ready
    ensures ResetPassAsWritten(Some(["b0"]), Replay(Some(["a0", "a1"]), [0, 1])).ready
    ensures !Consistent(Some(["b0"]), ResetPassAsWritten(Some(["b0"]), Replay(Some(["a0", "a1"]), [0, 1])))
    ensures !ResetPass(Some(["b0"])).ready
  {
  }

  // ---------------------------------------------------------------------------
  // Layout parameters and renderer choice
  // ---------------------------------------------------------------------------

  datatype Direction = Horizontal | Vertical

  datatype Parameters = Parameters(id: string, suffix: string, direction: Direction)

  /** The table handed to `utils.array.withId`. */
  function ParameterTable(isMobile: bool): seq<Parameters> {
    [ Parameters("9:16", "portrait", Horizontal),
      Parameters("16:9", "landscape", if isMobile then Vertical else Horizontal),
      Parameters("1:1", "default", if isMobile then Vertical else Horizontal) ]
  }

  /** The first entry whose `id` is the given tag. */
  function FindById(table: seq<Parameters>, id: Option<string>): (r: Option<Parameters>)
    ensures r.Some? ==> r.value in table && id == Some(r.value.id)
    ensures r.None? ==> forall p :: p in table ==> id != Some(p.id)
  {
    if table == [] then None
    else if id == Some(table[0].id) then Some(table[0])
    else FindById(table[1..], id)
  }

  /** `parameters`, for a gallery `type` tag and the viewport's `lg` breakpoint
      (mobile means not `lg`). `9:16` is always horizontal; `16:9` and `1:1` are
      vertical exactly on mobile. A tag with no entry gives whatever `withId` returns
      for its fallback argument, here the parameter `fallback` (`None` when it finds
      nothing), since `withId` is not part of this model. */
  function LayoutParameters(galleryType: Option<string>, isLargeBreakpoint: bool, fallback: Option<Parameters>): (p: Option<Parameters>)
    ensures galleryType == Some("9:16") ==> p == Some(Parameters("9:16", "portrait", Horizontal))
    ensures galleryType == Some("16:9") ==> p.Some? && p.value.suffix == "landscape" && (p.value.direction == Vertical <==> !isLargeBreakpoint)
    ensures galleryType == Some("1:1") ==> p.Some? && p.value.suffix == "default" && (p.value.direction == Vertical <==> !isLargeBreakpoint)
    ensures galleryType != Some("9:16") && galleryType != Some("16:9") && galleryType != Some("1:1") ==> p == fallback
    ensures fallback == Some(ParameterTable(!isLargeBreakpoint)[2]) ==>
              p.Some? && (p.value.direction == Vertical <==> !isLargeBreakpoint && galleryType != Some("9:16"))
  {
    var isMobile := !isLargeBreakpoint;
    match FindById(ParameterTable(isMobile), galleryType)
    case Some(entry) => Some(entry)
    case None => fallback
  }

  datatype Renderer = Swiper | ImageStack

  /** The renderers in the modal body: the swiper when the direction is
      horizontal, the stack when it is vertical. Exactly one is shown. */
  function ShownRenderers(direction: Direction): (r: set<Renderer>)
    ensures |r| == 1
    ensures Swiper in r <==> direction == Horizontal
    ensures ImageStack in r <==> direction == Vertical
  {
    (if direction == Horizontal then {Swiper} else {}) + (if direction == Vertical then {ImageStack} else {})
  }

  // ---------------------------------------------------------------------------
  // Loading gating
  // ---------------------------------------------------------------------------

  datatype Gating = Gating(modalClass: string, visibilityClass: string, spinnerShown: bool)

  /** `modalCustomClass`, `visibilityClassName` and the spinner condition. The
      loading class, the `invisible` class and the spinner are present together,
      exactly while the images are not all loaded. */
  function LoadingGating(didLoadAllImages: bool): (g: Gating)
    ensures (g.modalClass == "gallery-modal-loading") == !didLoadAllImages
    ensures (g.visibilityClass == "invisible") == !didLoadAllImages
    ensures g.spinnerShown == !didLoadAllImages
    ensures didLoadAllImages ==> g.modalClass == "" && g.visibilityClass == "visible"
  {
    Gating(if !didLoadAllImages then "gallery-modal-loading" else "",
           if didLoadAllImages then "visible" else "invisible",
           !didLoadAllImages)
  }

  // ---------------------------------------------------------------------------
  // Renderers and their completion signals
  // ---------------------------------------------------------------------------

  /** Which event an `<img>` fired: `onLoad` or `onError`. */
  datatype Outcome = Loaded | Failed

  /** One `<img>` of a renderer: its position in `images` and its resolved source. */
  datatype ImageItem = ImageItem(key: nat, src: string)

  /** `images.map((image, key) => ...)`: one item per image, at its own position,
      its source resolved by `_resolveSrc` (no apostrophe in any of them).
      `resolvePath` stands for `utils.file.resolvePath`. */
  function RenderedItems(images: seq<string>, resolvePath: string -> string): (items: seq<ImageItem>)
    ensures |items| == |images|
    ensures forall k :: 0 <= k < |items| ==> items[k].key == k
    ensures forall k :: 0 <= k < |items| ==> items[k].src == UriEncoding.ResolveSrc(resolvePath(images[k]))
    ensures forall k :: 0 <= k < |items| ==> '\'' !in items[k].src
  {
    seq(|images|, k requires 0 <= k < |images| => ImageItem(k, UriEncoding.ResolveSrc(resolvePath(images[k]))))
  }

  /** The index a renderer hands to `onImageLoadStatus` when an item fires: both
      renderers report the item's position, on `onLoad` and on `onError` alike. */
  function ReportedIndex(renderer: Renderer, item: ImageItem, outcome: Outcome): (index: int)
    ensures index == item.key
  {
    match renderer
    case Swiper => (match outcome case Loaded => item.key case Failed => item.key)
    case ImageStack => (match outcome case Loaded => item.key case Failed => item.key)
  }

  /** An `<img>` event: which item (by position) fired, and how. */
  datatype ImageEvent = ImageEvent(position: nat, outcome: Outcome)

  /** The indices the tracker receives for a sequence of image events. */
  function Signals(renderer: Renderer, items: seq<ImageItem>, events: seq<ImageEvent>): (signals: seq<int>)
    requires forall k :: 0 <= k < |items| ==> items[k].key == k
    requires forall i :: 0 <= i < |events| ==> events[i].position < |items|
    ensures |signals| == |events|
    ensures forall i :: 0 <= i < |events| ==> signals[i] == events[i].position
  {
    if events == [] then []
    else [ReportedIndex(renderer, items[events[0].position], events[0].outcome)] + Signals(renderer, items, events[1..])
  }

  /** Some event in the sequence came from the item at this position. */
  predicate Fired(events: seq<ImageEvent>, position: int) {
    exists i :: 0 <= i < |events| && events[i].position == position
  }

  /** Failure counts like success: whatever renderer is shown and whichever of
      `onLoad` or `onError` each image fires, the gallery is ready exactly when every
      image has fired one of them (and there is at least one image). */
  lemma ReadyIffEveryImageFired(renderer: Renderer, images: seq<string>, resolvePath: string -> string, events: seq<ImageEvent>)
    requires forall i :: 0 <= i < |events| ==> events[i].position < |images|
    ensures Replay(Some(images), Signals(renderer, RenderedItems(images, resolvePath), events)).ready
        <==> |images| > 0 && forall k :: 0 <= k < |images| ==> Fired(events, k)
  {
    var signals := Signals(renderer, RenderedItems(images, resolvePath), events);
    ReadyIffEveryIndexSignalled(images, signals);
    forall k | 0 <= k < |images|
      ensures k in signals <==> Fired(events, k)
    {
      if k in signals {
        var i :| 0 <= i < |signals| && signals[i] == k;
        assert events[i].position == k;
      }
    }
  }

  /** All-error signals end in the same tracker state as all-success signals for
      the same images in the same order. */
  lemma FailureEquivalence(renderer: Renderer, items: seq<ImageItem>, failures: seq<ImageEvent>, successes: seq<ImageEvent>, images: Option<seq<string>>)
    requires forall k :: 0 <= k < |items| ==> items[k].key == k
    requires |failures| == |successes|
    requires forall i :: 0 <= i < |failures| ==> failures[i].position < |items| && failures[i].outcome == Failed
    requires forall i :: 0 <= i < |successes| ==> successes[i] == ImageEvent(failures[i].position, Loaded)
    ensures Replay(images, Signals(renderer, items, failures)) == Replay(images, Signals(renderer, items, successes))
  {
    assert Signals(renderer, items, failures) == Signals(renderer, items, successes);
  }
}
