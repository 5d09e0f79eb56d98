/** `_load_manifest`, `_parse_appearance` and `_first_index_with`: from the
    decoded JSON manifest to the time-ordered frame schedule and the light
    and dark indices. Reading the file and decoding JSON are not part of this
    model: a `Document` is what `json.loads` returned, reduced to what the
    loader inspects. */
module Manifest {
  import opened Wrappers
  import opened Errors
  import opened PyText
  import opened TimeParser

  // ---------------------------------------------------------------------
  // The decoded manifest
  // ---------------------------------------------------------------------

  /** A JSON value as the loader tests it: a string, a boolean, or anything
      else, given by its Python truth value and by its `str()` text. */
  datatype Value =
    | Str(s: string)
    | Bool(b: bool)
    | Other(truthy: bool, text: string)

  /** Python's truth value of a decoded JSON value. */
  predicate Truthy(v: Value)
    ensures v.Str? ==> (Truthy(v) <==> |v.s| > 0)
    ensures v.Bool? ==> (Truthy(v) <==> v.b)
  {
    match v
    case Str(s) => s != ""
    case Bool(b) => b
    case Other(truthy, _) => truthy
  }

  /** Python's `str(v)`. */
  function Text(v: Value): (t: string)
    ensures v.Str? ==> t == v.s
    ensures v.Bool? && v.b ==> t == "True"
    ensures v.Bool? && !v.b ==> t == "False"
  {
    match v
    case Str(s) => s
    case Bool(b) => if b then "True" else "False"
    case Other(_, text) => text
  }

  /** A boolean `time` reads as `True` or `False`, which has no colon, so
      the entry is refused with a format error. */
  lemma BooleanTime(b: bool)
    ensures ParseTime(Text(Bool(b))).Failure?
    ensures ParseTime(Text(Bool(b))).error == TimeFormat(Text(Bool(b)))
  {
    if b {
      assert Occurrences("True", ':') == 0;
    } else {
      assert Occurrences("False", ':') == 0;
    }
  }

  /** One frame object. Each field is what `raw.get(key)` returns: `None`
      both when the key is absent and when its value is JSON `null`. */
  datatype Entry = Entry(
    file: Option<Value>,
    image: Option<Value>,
    time: Option<Value>,
    appearance: Option<Value>,
    light: Option<Value>,
    dark: Option<Value>)

  /** An element of the `frames` list. */
  datatype RawFrame = ObjectFrame(entry: Entry) | NonObjectFrame

  /** The value under the `frames` key. */
  datatype FramesField = FrameList(items: seq<RawFrame>) | NonListFrames

  /** The decoded document; `frames == None` when the key is absent. */
  datatype Document = ObjectDocument(frames: Option<FramesField>) | NonObjectDocument

  // ---------------------------------------------------------------------
  // Frames
  // ---------------------------------------------------------------------

  datatype Appearance = Light | Dark

  /** `FrameSpec`: the image's path, the time of day, and the appearance the
      frame is marked for. */
  datatype Frame = Frame(path: string, seconds: DaySeconds, appearance: Option<Appearance>)

  /** The name of an appearance in the manifest and in the builder. */
  function NameOf(a: Appearance): string
  {
    match a
    case Light => "light"
    case Dark => "dark"
  }

  predicate HasText(v: Option<Value>)
  {
    v.Some? && v.value.Str?
  }

  /** A text `appearance` trimmed and lower-cased. */
  function Normalized(s: string): (r: string)
    ensures |r| <= |s|
    ensures (forall k :: 0 <= k < |s| ==> IsSpace(s[k])) ==> r == ""
    ensures forall k :: 0 <= k < |r| ==> !('A' <= r[k] <= 'Z')
  {
    Lower(Strip(s, IsSpace))
  }

  /** `_parse_appearance`: a text `appearance` wins and must name light or
      dark once trimmed and lower-cased; otherwise a `light` flag that is
      exactly `true`, then a `dark` flag that is exactly `true`; otherwise
      none. */
  function ResolveAppearance(e: Entry): (r: Result<Option<Appearance>, BuildError>)
    ensures r.Failure? ==> r.error == InvalidAppearance && HasText(e.appearance)
    ensures HasText(e.appearance) ==>
      (r.Success? <==> Normalized(e.appearance.value.s) in {"light", "dark"})
    ensures HasText(e.appearance) && r.Success? ==>
      r.value.Some? && NameOf(r.value.value) == Normalized(e.appearance.value.s)
    ensures !HasText(e.appearance) && e.light == Some(Bool(true)) ==> r == Success(Some(Light))
    ensures !HasText(e.appearance) && e.light != Some(Bool(true)) && e.dark == Some(Bool(true)) ==>
      r == Success(Some(Dark))
    ensures r == Success(None) <==>
      !HasText(e.appearance) && e.light != Some(Bool(true)) && e.dark != Some(Bool(true))
  {
    if HasText(e.appearance) then
      var name := Normalized(e.appearance.value.s);
      if name == "light" then Success(Some(Light))
      else if name == "dark" then Success(Some(Dark))
      else Failure(InvalidAppearance)
    else if e.light == Some(Bool(true)) then Success(Some(Light))
    else if e.dark == Some(Bool(true)) then Success(Some(Dark))
    else Success(None)
  }

  /** Any spacing around the name and any letter case select that
      appearance, whatever the `light` and `dark` flags say. */
  lemma AppearanceSpelling(e: Entry, a: Appearance, lead: string, word: string, trail: string)
    requires e.appearance == Some(Str(lead + word + trail))
    requires forall k :: 0 <= k < |lead| ==> IsSpace(lead[k])
    requires forall k :: 0 <= k < |trail| ==> IsSpace(trail[k])
    requires Lower(word) == NameOf(a)
    ensures ResolveAppearance(e) == Success(Some(a))
  {
    var n := NameOf(a);
    assert |word| == |n| > 0;
    NameLetters(a);
    assert LowerChar(word[0]) == n[0] && LowerChar(word[|word| - 1]) == n[|n| - 1];
    LetterNotSpace(word[0]);
    LetterNotSpace(word[|word| - 1]);
    StripPadding(lead, word, trail, IsSpace);
    assert Normalized(e.appearance.value.s) == n;
    ResolvesName(e, a);
  }

  /** A text appearance that normalizes to a name selects that appearance. */
  lemma ResolvesName(e: Entry, a: Appearance)
    requires HasText(e.appearance) && Normalized(e.appearance.value.s) == NameOf(a)
    ensures ResolveAppearance(e) == Success(Some(a))
  {
    match a
    case Light =>
    case Dark => assert NameOf(a) != "light";
  }

  lemma NameLetters(a: Appearance)
    ensures |NameOf(a)| > 0 && forall k :: 0 <= k < |NameOf(a)| ==> 'a' <= NameOf(a)[k] <= 'z'
  {
  }

  /** An empty or all-blank text appearance is refused. */
  lemma BlankAppearance(e: Entry, s: string)
    requires e.appearance == Some(Str(s))
    requires forall k :: 0 <= k < |s| ==> IsSpace(s[k])
    ensures ResolveAppearance(e) == Failure(InvalidAppearance)
  {
    StripBlank(s, IsSpace);
  }

  /** `raw.get("file") or raw.get("image")`. */
  function PathValue(e: Entry): (r: Option<Value>)
    ensures r.None? <==> (e.file.None? || !Truthy(e.file.value)) && e.image.None?
    ensures r.Some? ==> r == e.file || r == e.image
    ensures e.file.Some? && Truthy(e.file.value) ==> r == e.file
    ensures !(e.file.Some? && Truthy(e.file.value)) ==> r == e.image
  {
    if e.file.Some? && Truthy(e.file.value) then e.file else e.image
  }

  /** The body of the loader's loop for one element of `frames`. */
  function ParseEntry(raw: RawFrame): (r: Result<Frame, BuildError>)
    ensures raw.NonObjectFrame? ==> r == Failure(FrameNotObject)
    ensures raw.ObjectFrame? && (PathValue(raw.entry).None? || raw.entry.time.None?) ==>
      r == Failure(MissingFileOrTime)
    ensures r.Success? ==> raw.ObjectFrame? && raw.entry.time.Some?
    ensures r.Success? && raw.entry.file.Some? && Truthy(raw.entry.file.value) ==>
      raw.entry.file == Some(Str(r.value.path))
    ensures r.Success? && !(raw.entry.file.Some? && Truthy(raw.entry.file.value)) ==>
      raw.entry.image == Some(Str(r.value.path))
    ensures r.Success? ==> ParseTime(Text(raw.entry.time.value)) == Success(r.value.seconds)
    ensures r.Success? ==> ResolveAppearance(raw.entry) == Success(r.value.appearance)
    ensures raw.ObjectFrame? && PathValue(raw.entry).Some? && raw.entry.time.Some? ==>
      var e := raw.entry;
      var time := ParseTime(Text(e.time.value));
      && (!PathValue(e).value.Str? ==> r == Failure(PathNotText))
      && (PathValue(e).value.Str? && time.Failure? ==> r == Failure(time.error))
      && (PathValue(e).value.Str? && time.Success? && ResolveAppearance(e).Failure? ==>
            r == Failure(InvalidAppearance))
      && (PathValue(e).value.Str? && time.Success? && ResolveAppearance(e).Success? ==> r.Success?)
  {
    match raw
    case NonObjectFrame => Failure(FrameNotObject)
    case ObjectFrame(e) =>
      var pathValue := PathValue(e);
      if pathValue.None? || e.time.None? then Failure(MissingFileOrTime)
      else if !pathValue.value.Str? then Failure(PathNotText)
      else
        match ParseTime(Text(e.time.value))
        case Failure(err) => Failure(err)
        case Success(seconds) =>
          match ResolveAppearance(e)
          case Failure(err) => Failure(err)
          case Success(appearance) => Success(Frame(pathValue.value.s, seconds, appearance))
  }

  /** The elements of `frames`, once the document's shape has been checked. */
  function FrameEntries(doc: Document): (r: Result<seq<RawFrame>, BuildError>)
    ensures r.Success? <==> doc.ObjectDocument? && doc.frames.Some? && doc.frames.value.FrameList? && |doc.frames.value.items| > 0
    ensures r.Success? ==> r.value == doc.frames.value.items
    ensures doc.NonObjectDocument? || doc.frames.None? ==> r == Failure(ManifestNotObject)
    ensures doc.ObjectDocument? && doc.frames.Some? && !r.Success? ==> r == Failure(FramesNotNonEmptyList)
  {
    match doc
    case NonObjectDocument => Failure(ManifestNotObject)
    case ObjectDocument(None) => Failure(ManifestNotObject)
    case ObjectDocument(Some(NonListFrames)) => Failure(FramesNotNonEmptyList)
    case ObjectDocument(Some(FrameList(items))) =>
      if |items| == 0 then Failure(FramesNotNonEmptyList) else Success(items)
  }

  /** The frames the loader's first loop builds, in manifest order. */
  function ParsedFrames(doc: Document): (r: Result<seq<Frame>, BuildError>)
    ensures FrameEntries(doc).Failure? ==> r == Failure(FrameEntries(doc).error)
    ensures r.Success? ==> FrameEntries(doc).Success? && |r.value| == |FrameEntries(doc).value|
  {
    match FrameEntries(doc)
    case Failure(e) => Failure(e)
    case Success(items) => Traverse(items, ParseEntry)
  }

  /** Parsing keeps one frame per entry, in manifest order. */
  lemma ParsedInOrder(doc: Document)
    requires ParsedFrames(doc).Success?
    ensures FrameEntries(doc).Success?
    ensures var items, fs := FrameEntries(doc).value, ParsedFrames(doc).value;
      |fs| == |items| > 0 && forall k :: 0 <= k < |items| ==> ParseEntry(items[k]) == Success(fs[k])
  {
    TraverseSucceeds(FrameEntries(doc).value, ParseEntry);
  }

  /** A failed parse reports the shape error, or the error of the first
      entry that fails, every entry before it having parsed. */
  lemma ParsedFailure(doc: Document) returns (k: nat)
    requires FrameEntries(doc).Success? && ParsedFrames(doc).Failure?
    ensures var items := FrameEntries(doc).value;
      && k < |items| && ParseEntry(items[k]) == Failure(ParsedFrames(doc).error)
      && forall j :: 0 <= j < k ==> ParseEntry(items[j]).Success?
  {
    k := TraverseFirstFailure(FrameEntries(doc).value, ParseEntry);
  }

  /** An entry written the way the manifest format describes it, with a
      text path, a zero-padded clock time and an appearance name, parses to
      that frame. */
  lemma WrittenEntry(path: string, h: nat, m: nat, s: nat, a: Appearance)
    requires path != "" && h < 24 && m < 60 && s < 60
    ensures var e := Entry(Some(Str(path)), None, Some(Str(Clock(h, m, s))), Some(Str(NameOf(a))), None, None);
      ParseEntry(ObjectFrame(e)).Success? && ParseEntry(ObjectFrame(e)).value == Frame(path, h * 3600 + m * 60 + s, Some(a))
  {
    ClockRoundTrip(h, m, s);
    NamedEntry(path, Clock(h, m, s), h * 3600 + m * 60 + s, a);
  }

  lemma NamedEntry(path: string, time: string, seconds: DaySeconds, a: Appearance)
    requires path != "" && ParseTime(time).Success? && ParseTime(time).value == seconds
    ensures var e := Entry(Some(Str(path)), None, Some(Str(time)), Some(Str(NameOf(a))), None, None);
      ParseEntry(ObjectFrame(e)) == Success(Frame(path, seconds, Some(a)))
  {
    var e := Entry(Some(Str(path)), None, Some(Str(time)), Some(Str(NameOf(a))), None, None);
    assert PathValue(e) == Some(Str(path)) && Text(e.time.value) == time;
    NameNormalized(a);
    ResolvesName(e, a);
  }

  lemma NameNormalized(a: Appearance)
    ensures Normalized(NameOf(a)) == NameOf(a)
  {
    match a
    case Light => WordNormalized("light");
    case Dark => WordNormalized("dark");
  }

  /** A word of lower-case ASCII letters is its own normal form. */
  lemma WordNormalized(n: string)
    requires |n| > 0 && forall k :: 0 <= k < |n| ==> 'a' <= n[k] <= 'z'
    ensures Normalized(n) == n
  {
    StripPadding("", n, "", IsSpace);
    assert "" + n + "" == n;
    LowerKeeps(n);
  }

  // ---------------------------------------------------------------------
  // The schedule
  // ---------------------------------------------------------------------

  /** `frames.sort(key=...)`'s promise: times never decrease. */
  predicate SortedByTime(s: seq<Frame>)
  {
    forall i, j :: 0 <= i < j < |s| ==> s[i].seconds <= s[j].seconds
  }

  /** What the loader's second loop checks: each time is later than the one
      before it. */
  predicate StrictlyIncreasing(s: seq<Frame>)
  {
    forall k :: 0 < k < |s| ==> s[k - 1].seconds < s[k].seconds
  }

  /** Two frames share a time. */
  predicate TimeClash(s: seq<Frame>)
  {
    exists i, j :: 0 <= i < j < |s| && s[i].seconds == s[j].seconds
  }

  /** `_first_index_with`'s promise: `r` is the least position whose frame
      has `appearance`, and `None` exactly when no frame has it. */
  predicate IsFirstIndexWith(frames: seq<Frame>, appearance: Appearance, r: Option<nat>)
  {
    match r
    case None => forall k :: 0 <= k < |frames| ==> frames[k].appearance != Some(appearance)
    case Some(i) =>
      && i < |frames| && frames[i].appearance == Some(appearance)
      && forall k :: 0 <= k < i ==> frames[k].appearance != Some(appearance)
  }

  /** What `_load_manifest` returns: the frames, and the first light and the
      first dark position. */
  datatype Schedule = Schedule(frames: seq<Frame>, light: Option<nat>, dark: Option<nat>)

  /** `m` is a schedule of the parsed frames `fs`: the same frames, in
      strictly increasing time, with the first light and dark positions. */
  predicate IsSchedule(fs: seq<Frame>, m: Schedule)
    ensures IsSchedule(fs, m) ==> |m.frames| == |fs|
  {
    assert |multiset(m.frames)| == |m.frames| && |multiset(fs)| == |fs|;
    && multiset(m.frames) == multiset(fs)
    && StrictlyIncreasing(m.frames)
    && IsFirstIndexWith(m.frames, Light, m.light)
    && IsFirstIndexWith(m.frames, Dark, m.dark)
  }

  /** The outcome `_load_manifest` promises for `doc`: the first error of
      the shape checks and the entries; else a failure when two frames share
      a time; else the schedule. */
  predicate Loads(doc: Document, r: Result<Schedule, BuildError>)
    ensures Loads(doc, r) && r.Success? ==>
      FrameEntries(doc).Success? && |r.value.frames| == |FrameEntries(doc).value|
  {
    match ParsedFrames(doc)
    case Failure(e) => r == Failure(e)
    case Success(fs) =>
      ParsedInOrder(doc);
      if TimeClash(fs) then r == Failure(TimesNotIncreasing)
      else r.Success? && IsSchedule(fs, r.value)
  }

  lemma {:induction false} IncreasingPairwise(s: seq<Frame>)
    requires StrictlyIncreasing(s)
    ensures forall i, j :: 0 <= i < j < |s| ==> s[i].seconds < s[j].seconds
    decreases |s|
  {
    if |s| > 1 {
      var init := s[..|s| - 1];
      assert StrictlyIncreasing(init) by {
        forall k | 0 < k < |init| ensures init[k - 1].seconds < init[k].seconds {
          assert init[k - 1] == s[k - 1] && init[k] == s[k];
        }
      }
      IncreasingPairwise(init);
      forall i, j | 0 <= i < j < |s| ensures s[i].seconds < s[j].seconds {
        if j < |s| - 1 {
          assert init[i] == s[i] && init[j] == s[j];
        } else if i < j - 1 {
          assert init[i] == s[i] && init[j - 1] == s[j - 1];
        }
      }
    }
  }

  /** Sorted frames fail the strict check exactly when two share a time. */
  lemma SortedClash(s: seq<Frame>)
    requires SortedByTime(s)
    ensures StrictlyIncreasing(s) <==> !TimeClash(s)
  {
    if StrictlyIncreasing(s) {
      IncreasingNoClash(s);
    } else {
      SortedTie(s);
    }
  }

  /** Strictly increasing frames never share a time. */
  lemma IncreasingNoClash(s: seq<Frame>)
    requires StrictlyIncreasing(s)
    ensures !TimeClash(s)
  {
    IncreasingPairwise(s);
  }

  /** Sorted frames that are not strictly increasing have a shared time. */
  lemma SortedTie(s: seq<Frame>)
    requires SortedByTime(s) && !StrictlyIncreasing(s)
    ensures TimeClash(s)
  {
    var k :| 0 < k < |s| && s[k - 1].seconds >= s[k].seconds;
    assert s[k - 1].seconds <= s[k].seconds;
    assert 0 <= k - 1 < k < |s| && s[k - 1].seconds == s[k].seconds;
  }

  lemma TwiceInMultiset(a: seq<Frame>, i: nat, j: nat)
    requires i < j < |a| && a[i] == a[j]
    ensures multiset(a)[a[i]] >= 2
  {
    assert a == a[..j] + [a[j]] + a[j + 1..];
    assert a[i] in a[..j];
  }

  lemma {:induction false} TwiceInSeq(b: seq<Frame>, x: Frame) returns (p: nat, q: nat)
    requires multiset(b)[x] >= 2
    ensures p < q < |b| && b[p] == x && b[q] == x
    decreases |b|
  {
    assert b == [b[0]] + b[1..];
    if b[0] == x {
      assert x in multiset(b[1..]);
      var k :| 0 <= k < |b[1..]| && b[1..][k] == x;
      p, q := 0, k + 1;
    } else {
      var p', q' := TwiceInSeq(b[1..], x);
      p, q := p' + 1, q' + 1;
    }
  }

  /** Reordering frames neither creates nor removes a shared time. */
  lemma ClashMoves(a: seq<Frame>, b: seq<Frame>)
    requires multiset(a) == multiset(b) && TimeClash(a)
    ensures TimeClash(b)
  {
    var i, j :| 0 <= i < j < |a| && a[i].seconds == a[j].seconds;
    if a[i] == a[j] {
      TwiceInMultiset(a, i, j);
      var p, q := TwiceInSeq(b, a[i]);
    } else {
      assert a[i] in multiset(b) && a[j] in multiset(b);
      var p :| 0 <= p < |b| && b[p] == a[i];
      var q :| 0 <= q < |b| && b[q] == a[j];
      if p < q {
        assert b[p].seconds == b[q].seconds;
      } else {
        assert b[q].seconds == b[p].seconds;
      }
    }
  }

  /** Two arrangements of the same frames that both increase strictly are
      the same sequence: the schedule is determined by its frames. */
  lemma {:induction false} IncreasingArrangementUnique(s1: seq<Frame>, s2: seq<Frame>)
    requires multiset(s1) == multiset(s2)
    requires StrictlyIncreasing(s1) && StrictlyIncreasing(s2)
    ensures s1 == s2
    decreases |s1|
  {
    assert |s1| == |multiset(s1)| == |multiset(s2)| == |s2|;
    if |s1| > 0 {
      EarliestFirst(s1, s2);
      assert multiset(s1) == multiset{s1[0]} + multiset(s1[1..]) by {
        assert s1 == [s1[0]] + s1[1..];
      }
      assert multiset(s2) == multiset{s2[0]} + multiset(s2[1..]) by {
        assert s2 == [s2[0]] + s2[1..];
      }
      assert multiset(s1[1..]) == multiset(s1) - multiset{s1[0]};
      assert multiset(s2[1..]) == multiset(s2) - multiset{s2[0]};
      IncreasingTail(s1);
      IncreasingTail(s2);
      IncreasingArrangementUnique(s1[1..], s2[1..]);
      assert s1 == [s1[0]] + s1[1..] && s2 == [s2[0]] + s2[1..];
    }
  }

  /** Strictly increasing arrangements of the same frames start alike. */
  lemma EarliestFirst(s1: seq<Frame>, s2: seq<Frame>)
    requires multiset(s1) == multiset(s2) && |s1| > 0
    requires StrictlyIncreasing(s1) && StrictlyIncreasing(s2)
    ensures |s2| > 0 && s1[0] == s2[0]
  {
    IncreasingPairwise(s1);
    IncreasingPairwise(s2);
    assert s1[0] in multiset(s2);
    var p :| 0 <= p < |s2| && s2[p] == s1[0];
    assert s2[0] in multiset(s1);
    var q :| 0 <= q < |s1| && s1[q] == s2[0];
    assert s1[0].seconds <= s1[q].seconds;
    assert s2[0].seconds <= s2[p].seconds;
    assert p == 0;
  }

  lemma IncreasingTail(s: seq<Frame>)
    requires StrictlyIncreasing(s) && |s| > 0
    ensures StrictlyIncreasing(s[1..])
  {
    forall k | 0 < k < |s| - 1 ensures s[1..][k - 1].seconds < s[1..][k].seconds {
      assert s[1..][k - 1] == s[k] && s[1..][k] == s[k + 1];
    }
  }

  lemma FirstIndexUnique(frames: seq<Frame>, a: Appearance, r1: Option<nat>, r2: Option<nat>)
    requires IsFirstIndexWith(frames, a, r1) && IsFirstIndexWith(frames, a, r2)
    ensures r1 == r2
  {
  }

  /** At most one schedule fits a list of parsed frames. */
  lemma ScheduleUnique(fs: seq<Frame>, m1: Schedule, m2: Schedule)
    requires IsSchedule(fs, m1) && IsSchedule(fs, m2)
    ensures m1 == m2
  {
    IncreasingArrangementUnique(m1.frames, m2.frames);
    FirstIndexUnique(m1.frames, Light, m1.light, m2.light);
    FirstIndexUnique(m1.frames, Dark, m1.dark, m2.dark);
  }

  /** Loading is deterministic: one document has one outcome. */
  lemma LoadDeterministic(doc: Document, r1: Result<Schedule, BuildError>, r2: Result<Schedule, BuildError>)
    requires Loads(doc, r1) && Loads(doc, r2)
    ensures r1 == r2
  {
    if ParsedFrames(doc).Success? && !TimeClash(ParsedFrames(doc).value) {
      ScheduleUnique(ParsedFrames(doc).value, r1.value, r2.value);
    }
  }

  // ---------------------------------------------------------------------
  // The loader
  // ---------------------------------------------------------------------

  /** Times never decrease among the first `n` frames. */
  predicate SortedPrefix(s: seq<Frame>, n: nat)
    requires n <= |s|
  {
    forall p, q :: 0 <= p < q < n ==> s[p].seconds <= s[q].seconds
  }

  /** The state of the insertion of frame `n` while it sits at `j`: the
      frames up to `n` other than the one at `j` are in order, and the one at
      `j` is earlier than every frame after it. */
  predicate Inserting(s: seq<Frame>, n: nat, j: nat)
    requires j <= n < |s|
  {
    && (forall p, q :: 0 <= p < q <= n && p != j && q != j ==> s[p].seconds <= s[q].seconds)
    && (forall q :: j < q <= n ==> s[j].seconds < s[q].seconds)
  }

  lemma InsertStart(s: seq<Frame>, n: nat)
    requires n < |s| && SortedPrefix(s, n)
    ensures Inserting(s, n, n)
  {
  }

  /** Swapping the inserted frame with a later predecessor moves it one
      place down and keeps the insertion state. */
  lemma InsertStep(s: seq<Frame>, n: nat, j: nat)
    requires 0 < j <= n < |s| && Inserting(s, n, j)
    requires s[j - 1].seconds > s[j].seconds
    ensures Inserting(s[j - 1 := s[j]][j := s[j - 1]], n, j - 1)
  {
    var t := s[j - 1 := s[j]][j := s[j - 1]];
    forall p, q | 0 <= p < q <= n && p != j - 1 && q != j - 1
      ensures t[p].seconds <= t[q].seconds
    {
      if p == j {
        assert t[p] == s[j - 1] && t[q] == s[q];
      } else if q == j {
        assert t[p] == s[p] && t[q] == s[j - 1];
      } else {
        assert t[p] == s[p] && t[q] == s[q];
      }
    }
    forall q | j - 1 < q <= n ensures t[j - 1].seconds < t[q].seconds {
      if q > j {
        assert t[q] == s[q];
      }
    }
  }

  lemma SwapPermutes(s: seq<Frame>, i: nat, j: nat)
    requires i < j < |s|
    ensures multiset(s[i := s[j]][j := s[i]]) == multiset(s)
  {
  }

  /** Once the inserted frame is no earlier than its predecessor, the first
      `n + 1` frames are in order. */
  lemma InsertDone(s: seq<Frame>, n: nat, j: nat)
    requires j <= n < |s| && Inserting(s, n, j)
    requires j == 0 || s[j - 1].seconds <= s[j].seconds
    ensures SortedPrefix(s, n + 1)
  {
    forall p, q | 0 <= p < q < n + 1 ensures s[p].seconds <= s[q].seconds {
      if q == j && p < j - 1 {
        assert s[p].seconds <= s[j - 1].seconds;
      }
    }
  }

  /** Exchanges the frames at `i` and `j`. */
  method Swap(a: array<Frame>, i: nat, j: nat)
    requires i < j < a.Length
    modifies a
    ensures a[..] == old(a[..])[i := old(a[j])][j := old(a[i])]
  {
    a[i], a[j] := a[j], a[i];
  }

  /** `frames.sort(key=lambda f: f.normalized_time)`, in place. The sort is
      an insertion sort; Python's is stable, but the order of frames with
      equal times is never observed, since the load fails on them. */
  method SortByTime(a: array<Frame>)
    modifies a
    ensures SortedByTime(a[..])
    ensures multiset(a[..]) == multiset(old(a[..]))
  {
    var i := 0;
    while i < a.Length
      invariant 0 <= i <= a.Length
      invariant SortedPrefix(a[..], i)
      invariant multiset(a[..]) == multiset(old(a[..]))
    {
      InsertFrame(a, i);
      i := i + 1;
    }
  }

  /** One pass of the insertion sort: the frame at `n` moves down past the
      later frames before it. */
  method InsertFrame(a: array<Frame>, n: nat)
    requires n < a.Length && SortedPrefix(a[..], n)
    modifies a
    ensures SortedPrefix(a[..], n + 1)
    ensures multiset(a[..]) == multiset(old(a[..]))
  {
    InsertStart(a[..], n);
    var j := n;
    while j > 0 && a[j - 1].seconds > a[j].seconds
      invariant 0 <= j <= n
      invariant Inserting(a[..], n, j)
      invariant multiset(a[..]) == multiset(old(a[..]))
    {
      SwapDown(a, n, j);
      j := j - 1;
    }
    InsertDone(a[..], n, j);
  }

  /** One step of the insertion: the inserted frame at `j` changes places
      with its later predecessor. */
  method SwapDown(a: array<Frame>, n: nat, j: nat)
    requires 0 < j <= n < a.Length && Inserting(a[..], n, j)
    requires a[j - 1].seconds > a[j].seconds
    modifies a
    ensures Inserting(a[..], n, j - 1)
    ensures multiset(a[..]) == multiset(old(a[..]))
  {
    ghost var cur := a[..];
    InsertStep(cur, n, j);
    SwapPermutes(cur, j - 1, j);
    Swap(a, j - 1, j);
  }

  /** The loader's check over adjacent pairs of the sorted frames. */
  method TimesIncrease(a: array<Frame>) returns (ok: bool)
    ensures ok <==> StrictlyIncreasing(a[..])
  {
    var k := 1;
    while k < a.Length
      invariant 1 <= k
      invariant forall j :: 0 < j < k && j < a.Length ==> a[j - 1].seconds < a[j].seconds
    {
      if a[k].seconds <= a[k - 1].seconds {
        return false;
      }
      k := k + 1;
    }
    return true;
  }

  /** `_first_index_with`. */
  method FirstIndexWith(frames: seq<Frame>, appearance: Appearance) returns (r: Option<nat>)
    ensures IsFirstIndexWith(frames, appearance, r)
  {
    var k := 0;
    while k < |frames|
      invariant 0 <= k <= |frames|
      invariant forall j :: 0 <= j < k ==> frames[j].appearance != Some(appearance)
    {
      if frames[k].appearance == Some(appearance) {
        return Some(k);
      }
      k := k + 1;
    }
    return None;
  }

  /** The loader's first loop: parse each entry in order, stopping at the
      first that fails. */
  method ParseFrames(items: seq<RawFrame>) returns (r: Result<seq<Frame>, BuildError>)
    ensures r == Traverse(items, ParseEntry)
  {
    var frames: seq<Frame> := [];
    var i := 0;
    while i < |items|
      invariant 0 <= i <= |items|
      invariant Traverse(items[..i], ParseEntry) == Success(frames)
    {
      var frame := ParseEntry(items[i]);
      if frame.Failure? {
        assert items[..i + 1][..i] == items[..i];
        TraverseFailureSticks(items, ParseEntry, i + 1);
        return Failure(frame.error);
      }
      TraverseStep(items, ParseEntry, i, frames);
      frames := frames + [frame.value];
      i := i + 1;
    }
    assert items[..i] == items;
    return Success(frames);
  }

  /** The rest of the loader: sort, refuse shared times, find the first
      light and dark frames. */
  method Arrange(frames: seq<Frame>) returns (r: Result<Schedule, BuildError>)
    ensures TimeClash(frames) ==> r == Failure(TimesNotIncreasing)
    ensures !TimeClash(frames) ==> r.Success? && IsSchedule(frames, r.value)
  {
    var a := new Frame[|frames|](k requires 0 <= k < |frames| => frames[k]);
    assert a[..] == frames;
    SortByTime(a);
    SortedClash(a[..]);
    var ok := TimesIncrease(a);
    if !ok {
      ClashMoves(a[..], frames);
      return Failure(TimesNotIncreasing);
    }
    var sorted := a[..];
    if TimeClash(frames) {
      ClashMoves(frames, sorted);
    }
    var light := FirstIndexWith(sorted, Light);
    var dark := FirstIndexWith(sorted, Dark);
    return Success(Schedule(sorted, light, dark));
  }

  /** `_load_manifest`, from the decoded document on. */
  method LoadManifest(doc: Document) returns (r: Result<Schedule, BuildError>)
    ensures Loads(doc, r)
  {
    var entries := FrameEntries(doc);
    if entries.Failure? {
      return Failure(entries.error);
    }
    var parsed := ParseFrames(entries.value);
    if parsed.Failure? {
      return Failure(parsed.error);
    }
    r := Arrange(parsed.value);
  }
}
