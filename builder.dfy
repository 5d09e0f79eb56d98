/** `build_dynamic_wallpaper` after the manifest is loaded: at least two
    frames, every image present, sizes made uniform according to the resize
    mode, and the `ti`/`ap` metadata dictionary. Decoding, resizing and
    encoding pixels are not part of this model: an image is its size after
    EXIF orientation. */
module Builder {
  import opened Wrappers
  import opened Errors
  import opened TimeParser
  import opened Manifest

  /** Width and height of an image, as `Image.size` after orientation. */
  datatype Size = Size(width: nat, height: nat)

  /** One element of `ti`: a frame's time as a fraction of the day and its
      image index. */
  datatype TimeEntry = TimeEntry(t: real, i: nat)

  /** The `ap` dictionary: its `l` and `d` keys, each possibly absent. */
  datatype AppearanceEntry = AppearanceEntry(l: Option<nat>, d: Option<nat>)

  /** The dictionary serialised into the `apple_desktop:h24` property. */
  datatype Metadata = Metadata(ti: seq<TimeEntry>, ap: Option<AppearanceEntry>)

  /** What is written to the HEIC container: the frames in schedule order,
      the size each image is stored at, and the metadata. */
  datatype Wallpaper = Wallpaper(frames: seq<Frame>, sizes: seq<Size>, metadata: Metadata)

  /** The image files that exist and can be opened, with their oriented
      sizes, keyed by the frame path. */
  type Images = map<string, Size>

  // ---------------------------------------------------------------------
  // Images
  // ---------------------------------------------------------------------

  /** One turn of the image loop, once the first image has fixed
      `target`: the size this frame is stored at, or why the build stops. */
  function Conform(frame: Frame, images: Images, mode: string, target: Size): (r: Result<Size, BuildError>)
    ensures r.Success? ==> r.value == target
    ensures r.Success? <==> frame.path in images && (images[frame.path] == target || mode == "fit")
    ensures frame.path !in images ==> r == Failure(ImageNotFound(frame.path))
    ensures frame.path in images && images[frame.path] != target && mode == "strict" ==>
      r == Failure(SizeMismatch)
    ensures frame.path in images && images[frame.path] != target && mode != "fit" && mode != "strict" ==>
      r == Failure(UnknownResizeMode(mode))
  {
    if frame.path !in images then Failure(ImageNotFound(frame.path))
    else if images[frame.path] == target then Success(target)
    else if mode == "fit" then Success(target)
    else if mode == "strict" then Failure(SizeMismatch)
    else Failure(UnknownResizeMode(mode))
  }

  function ConformStep(images: Images, mode: string, target: Size): Frame -> Result<Size, BuildError>
  {
    f => Conform(f, images, mode, target)
  }

  /** The `ti` list and the `ap` dictionary for a schedule. */
  function MetadataRecord(m: Schedule): (md: Metadata)
    ensures |md.ti| == |m.frames|
    ensures md.ap.Some? <==> m.light.Some? || m.dark.Some?
  {
    var ti := seq(|m.frames|, k requires 0 <= k < |m.frames| => TimeEntry(DayFraction(m.frames[k].seconds), k));
    var ap := if m.light.None? && m.dark.None? then None else Some(AppearanceEntry(m.light, m.dark));
    Metadata(ti, ap)
  }

  /** Where a reader of the metadata finds the first light frame. */
  function LightIndex(md: Metadata): Option<nat>
  {
    if md.ap.Some? then md.ap.value.l else None
  }

  /** Where a reader of the metadata finds the first dark frame. */
  function DarkIndex(md: Metadata): Option<nat>
  {
    if md.ap.Some? then md.ap.value.d else None
  }

  /** The build from a loaded schedule: the frame-count check, then every
      frame's image in order against the first image's size, then the
      metadata. */
  function Assemble(m: Schedule, images: Images, mode: string): (r: Result<Wallpaper, BuildError>)
    ensures |m.frames| < 2 ==> r == Failure(TooFewFrames)
    ensures r.Success? ==> r.value.frames == m.frames && r.value.metadata == MetadataRecord(m)
  {
    if |m.frames| < 2 then Failure(TooFewFrames)
    else if m.frames[0].path !in images then Failure(ImageNotFound(m.frames[0].path))
    else
      match Traverse(m.frames, ConformStep(images, mode, images[m.frames[0].path]))
      case Failure(e) => Failure(e)
      case Success(sizes) => Success(Wallpaper(m.frames, sizes, MetadataRecord(m)))
  }

  /** The build's outcome once loading has an outcome. */
  function AfterLoad(l: Result<Schedule, BuildError>, images: Images, mode: string): Result<Wallpaper, BuildError>
  {
    match l
    case Failure(e) => Failure(e)
    case Success(m) => Assemble(m, images, mode)
  }

  /** What `build_dynamic_wallpaper` promises for a document. */
  ghost predicate Builds(doc: Document, images: Images, mode: string, r: Result<Wallpaper, BuildError>)
  {
    exists l :: Loads(doc, l) && r == AfterLoad(l, images, mode)
  }

  // ---------------------------------------------------------------------
  // Properties
  // ---------------------------------------------------------------------

  /** The metadata decodes back to the schedule: one `ti` entry per frame
      with its own index and its time as a fraction of the day, and the
      first light and dark positions. */
  lemma MetadataRoundTrip(m: Schedule)
    ensures LightIndex(MetadataRecord(m)) == m.light
    ensures DarkIndex(MetadataRecord(m)) == m.dark
    ensures forall k :: 0 <= k < |m.frames| ==>
      MetadataRecord(m).ti[k].i == k && MetadataRecord(m).ti[k].t * 86400.0 == m.frames[k].seconds as real
  {
  }

  /** The `ti` times of a schedule increase strictly, and stay within the
      day. */
  lemma MetadataTimesIncrease(m: Schedule)
    requires StrictlyIncreasing(m.frames)
    ensures forall k :: 0 < k < |m.frames| ==> MetadataRecord(m).ti[k - 1].t < MetadataRecord(m).ti[k].t
    ensures forall k :: 0 <= k < |m.frames| ==> 0.0 <= MetadataRecord(m).ti[k].t <= 1.0
  {
    var md := MetadataRecord(m);
    forall k | 0 < k < |m.frames| ensures md.ti[k - 1].t < md.ti[k].t {
      FractionMonotone(m.frames[k - 1].seconds, m.frames[k].seconds);
    }
  }

  lemma FractionMonotone(a: DaySeconds, b: DaySeconds)
    requires a < b
    ensures DayFraction(a) < DayFraction(b)
  {
  }

  /** Fewer than two frames never build. */
  lemma BuildNeedsTwoFrames(m: Schedule, images: Images, mode: string)
    ensures Assemble(m, images, mode).Success? ==> |m.frames| >= 2
    ensures |m.frames| < 2 ==> Assemble(m, images, mode) == Failure(TooFewFrames)
  {
  }

  /** A built wallpaper stores every frame, in schedule order, with its
      metadata. */
  lemma AssembledWallpaper(m: Schedule, images: Images, mode: string)
    requires Assemble(m, images, mode).Success?
    ensures var w := Assemble(m, images, mode).value;
      && w.frames == m.frames && |w.sizes| == |m.frames|
      && w.metadata == MetadataRecord(m)
      && forall k :: 0 <= k < |m.frames| ==> m.frames[k].path in images
  {
    var target := images[m.frames[0].path];
    TraverseSucceeds(m.frames, ConformStep(images, mode, target));
  }

  /** With `"fit"`, every stored image has the first image's size. */
  lemma FitMakesUniformSizes(m: Schedule, images: Images)
    requires Assemble(m, images, "fit").Success?
    ensures var w := Assemble(m, images, "fit").value;
      forall k :: 0 <= k < |w.sizes| ==> w.sizes[k] == images[m.frames[0].path]
  {
    var target := images[m.frames[0].path];
    TraverseSucceeds(m.frames, ConformStep(images, "fit", target));
  }

  /** With `"fit"`, a build of two or more frames fails only when an image
      is missing, and then names the first missing one. */
  lemma FitFailsOnlyOnMissingImage(m: Schedule, images: Images)
    requires |m.frames| >= 2
    ensures Assemble(m, images, "fit").Success? <==>
      forall k :: 0 <= k < |m.frames| ==> m.frames[k].path in images
    ensures Assemble(m, images, "fit").Failure? ==>
      exists k :: 0 <= k < |m.frames| && m.frames[k].path !in images
        && Assemble(m, images, "fit").error == ImageNotFound(m.frames[k].path)
        && forall j :: 0 <= j < k ==> m.frames[j].path in images
  {
    if m.frames[0].path in images {
      var step := ConformStep(images, "fit", images[m.frames[0].path]);
      TraverseSucceeds(m.frames, step);
      if Traverse(m.frames, step).Failure? {
        var k := TraverseFirstFailure(m.frames, step);
        assert m.frames[k].path !in images;
        assert forall j :: 0 <= j < k ==> step(m.frames[j]).Success?;
      }
    }
  }

  /** With `"strict"`, a build of two or more frames succeeds exactly when
      every image is present and has the first image's size. */
  lemma StrictRequiresEqualSizes(m: Schedule, images: Images)
    requires |m.frames| >= 2
    ensures Assemble(m, images, "strict").Success? <==>
      && (forall k :: 0 <= k < |m.frames| ==> m.frames[k].path in images)
      && (forall k :: 0 <= k < |m.frames| ==> images[m.frames[k].path] == images[m.frames[0].path])
    ensures Assemble(m, images, "strict").Failure? ==>
      exists k :: 0 <= k < |m.frames| && StrictStopsAt(m, images, k, Assemble(m, images, "strict").error)
  {
    if m.frames[0].path in images {
      var step := ConformStep(images, "strict", images[m.frames[0].path]);
      TraverseSucceeds(m.frames, step);
      if Traverse(m.frames, step).Failure? {
        var k := TraverseFirstFailure(m.frames, step);
        assert StrictStopsAt(m, images, k, Assemble(m, images, "strict").error);
      }
    } else {
      assert StrictStopsAt(m, images, 0, Assemble(m, images, "strict").error);
    }
  }

  /** The strict image loop stops at frame `k` with error `e`: every frame
      before it is present at the first image's size, and frame `k` is
      missing (`ImageNotFound`) or of another size (`SizeMismatch`). */
  predicate StrictStopsAt(m: Schedule, images: Images, k: nat, e: BuildError)
    requires k < |m.frames|
  {
    && (forall j :: 0 <= j < k ==> m.frames[j].path in images)
    && (0 < k ==> forall j :: 0 <= j < k ==> images[m.frames[j].path] == images[m.frames[0].path])
    && if m.frames[k].path !in images then e == ImageNotFound(m.frames[k].path)
       else 0 < k && images[m.frames[k].path] != images[m.frames[0].path] && e == SizeMismatch
  }

  /** Any other mode is refused only when a size actually differs: images
      of one size build under any mode name, and the first image whose size
      differs, with all before it present, fails with the mode's name. */
  lemma UnknownModeIsLazy(m: Schedule, images: Images, mode: string, k: nat)
    requires mode != "fit" && mode != "strict"
    requires 0 < k < |m.frames|
    requires forall j :: 0 <= j <= k ==> m.frames[j].path in images
    requires forall j :: 0 <= j < k ==> images[m.frames[j].path] == images[m.frames[0].path]
    ensures images[m.frames[k].path] != images[m.frames[0].path] ==>
      Assemble(m, images, mode) == Failure(UnknownResizeMode(mode))
    ensures k == |m.frames| - 1 && images[m.frames[k].path] == images[m.frames[0].path] ==>
      Assemble(m, images, mode).Success?
  {
    var step := ConformStep(images, mode, images[m.frames[0].path]);
    TraverseSucceeds(m.frames, step);
    if Traverse(m.frames, step).Failure? {
      var p := TraverseFirstFailure(m.frames, step);
      assert p >= k;
      if p > k {
        assert step(m.frames[k]).Success?;
      }
    }
  }

  /** One document, one set of images and one mode have one outcome. */
  lemma BuildDeterministic(doc: Document, images: Images, mode: string,
                           r1: Result<Wallpaper, BuildError>, r2: Result<Wallpaper, BuildError>)
    requires Builds(doc, images, mode, r1) && Builds(doc, images, mode, r2)
    ensures r1 == r2
  {
    var l1 :| Loads(doc, l1) && r1 == AfterLoad(l1, images, mode);
    var l2 :| Loads(doc, l2) && r2 == AfterLoad(l2, images, mode);
    LoadDeterministic(doc, l1, l2);
  }

  /** The 06:00 frame and the 18:00 dark frame give `ti` entries at a
      quarter and three quarters of the day, and `ap` names only the dark
      frame. */
  lemma ExampleMetadata(m: Schedule, morning: string, evening: string)
    requires m == Schedule([Frame(morning, 21600, None), Frame(evening, 64800, Some(Dark))], None, Some(1))
    ensures MetadataRecord(m) ==
      Metadata([TimeEntry(0.25, 0), TimeEntry(0.75, 1)], Some(AppearanceEntry(None, Some(1))))
  {
  }

  // ---------------------------------------------------------------------
  // The builder
  // ---------------------------------------------------------------------

  /** The frame-count check, the image loop and the metadata dictionary of
      `build_dynamic_wallpaper`. */
  method AssembleWallpaper(m: Schedule, images: Images, mode: string) returns (r: Result<Wallpaper, BuildError>)
    ensures r == Assemble(m, images, mode)
  {
    var frames := m.frames;
    if |frames| < 2 {
      return Failure(TooFewFrames);
    }
    var sizes: seq<Size> := [];
    var target: Option<Size> := None;
    var i := 0;
    while i < |frames|
      invariant 0 <= i <= |frames|
      invariant i == 0 <==> target.None?
      invariant i == 0 ==> sizes == []
      invariant i > 0 ==> frames[0].path in images && target == Some(images[frames[0].path])
      invariant i > 0 ==> Traverse(frames[..i], ConformStep(images, mode, target.value)) == Success(sizes)
    {
      var frame := frames[i];
      if frame.path !in images {
        if i > 0 {
          assert frames[..i + 1][..i] == frames[..i];
          TraverseFailureSticks(frames, ConformStep(images, mode, target.value), i + 1);
        }
        return Failure(ImageNotFound(frame.path));
      }
      var size := images[frame.path];
      if target.None? {
        target := Some(size);
      } else if size != target.value {
        assert frames[..i + 1][..i] == frames[..i];
        if mode == "fit" {
          size := target.value;
        } else if mode == "strict" {
          TraverseFailureSticks(frames, ConformStep(images, mode, target.value), i + 1);
          return Failure(SizeMismatch);
        } else {
          TraverseFailureSticks(frames, ConformStep(images, mode, target.value), i + 1);
          return Failure(UnknownResizeMode(mode));
        }
      } else {
        assert frames[..i + 1][..i] == frames[..i];
      }
      sizes := sizes + [size];
      i := i + 1;
    }
    assert frames[..i] == frames;
    return Success(Wallpaper(frames, sizes, MetadataRecord(m)));
  }

  /** `build_dynamic_wallpaper`, from the decoded manifest to what is
      written. */
  method BuildDynamicWallpaper(doc: Document, images: Images, mode: string) returns (r: Result<Wallpaper, BuildError>)
    ensures Builds(doc, images, mode, r)
  {
    var loaded := LoadManifest(doc);
    if loaded.Failure? {
      r := Failure(loaded.error);
    } else {
      r := AssembleWallpaper(loaded.value, images, mode);
    }
    assert Loads(doc, loaded) && r == AfterLoad(loaded, images, mode);
  }
}
