# Dynamic wallpaper builder: manifest, schedule and metadata

A model of the core of `dynamic_wallpaper/builder.py`. The builder turns
a JSON manifest of still images and their times of day into a macOS dynamic
wallpaper. The model covers the whole validation pipeline:

- **Time parsing.** `_parse_time_fraction` parses `HH:MM` and `HH:MM:SS`
  times, including Python's `str.split` and `int()` rules and the `24:00`
  end-of-day sentinel.
- **Appearance.** `_parse_appearance` resolves a frame's appearance. A text
  field wins and is trimmed and lower-cased. Otherwise a `light` flag, then
  a `dark` flag, decides.
- **Loading.** `_load_manifest` checks the document's shape and parses
  every entry in order. It sorts the frames by time, refuses frames that
  share a time, and finds the first light and dark frames
  (`_first_index_with`).
- **Building.** In `build_dynamic_wallpaper`, the model covers the
  two-frame minimum, the image loop with its `fit`/`strict` resize decision,
  and the `ti`/`ap` metadata dictionary.

Files:

- `wrappers.dfy`: `Option`, `Result`, and `Traverse`. `Traverse` is a
  loop that stops at its first failure, with lemmas about where it fails.
- `errors.dfy`: one constructor per `WallpaperBuildError` the core raises.
  `PathNotText` stands for the `TypeError` that `Path()` raises on a
  non-text path.
- `pytext.dfy`: the Python text primitives the parser relies on:
  - `str.split` with one separator character, and its inverse `Join`;
  - `str.strip` over Python's whitespace;
  - `str.lower`, as far as it decides equality with `light`/`dark`.
- `pyint.dfy`: `int()` of a text.
- `decimal_text.dfy`: the decimal texts `str()` writes for whole numbers,
  including the two-digit fields of a clock time.
- `int_reading.dfy`: what `int()` reads back from those texts, and the
  whitespace it ignores.
- `time_parser.dfy`: `_parse_time_fraction`.
- `manifest.dfy`: the decoded document, `_parse_appearance`, the entry loop,
  an in-place sort of an array of frames, the strict-increase check,
  `_first_index_with` and `_load_manifest`.
- `builder.dfy`: the frame-count check, the image loop, the metadata
  dictionary and `build_dynamic_wallpaper` from the decoded document on.

**Times.** A time is kept as whole seconds since midnight, from 0 to 86400.
The source stores `seconds / 86400.0` as a float. Dividing distinct whole
numbers up to 86400 by 86400 keeps them distinct and in the same order, so
the source's sort, its comparisons and the `1.0` of `24:00` come out the
same.

**Behaviour of the code worth noting.**

- An empty or all-blank text `appearance` is refused (`BlankAppearance`).
  The code lower-cases it to `""`, which is not `light` or `dark`.
- A frame at `24:00` (fraction `1.0`) is an ordinary schedule entry.
  It must come strictly after its predecessor like any other.
- A resize mode other than `fit` or `strict` fails only when a size
  actually differs (`UnknownModeIsLazy`).
- A non-text `file`/`image` value fails with `PathNotText`. The code raises
  `TypeError` there, not a build error.

## Model

| member | source | states |
|---|---|---|
| Wrappers.Traverse | dynamic_wallpaper/builder.py:151-168 | the loop over the entries, stopping at the first entry that raises; a completed loop has one result per entry |
| Wrappers.TraverseSucceeds | dynamic_wallpaper/builder.py:151-168 | the entry loop completes exactly when every entry succeeds, and keeps each entry's result in order |
| Wrappers.TraverseFirstFailure | dynamic_wallpaper/builder.py:151-168 | a failed loop reports the error of its first failing entry, and every entry before it succeeded |
| Wrappers.TraverseFailureSticks | dynamic_wallpaper/builder.py:151-168 | once a prefix of the entries has failed, later entries do not change the outcome |
| Wrappers.TraverseStep | dynamic_wallpaper/builder.py:151-168 | one more successful entry appends its result to the results of the entries before it |
| PyText.IsSpace | dynamic_wallpaper/builder.py:210 | `str.isspace()`: space, tab, line feed and carriage return are whitespace; digits, ASCII letters, the colon, the underscore and the signs are not |
| PyText.IsIntSpace | dynamic_wallpaper/builder.py:188-190 | the whitespace `int()` skips is whitespace to `isspace()` too, and the two differ exactly at U+001C..U+001F |
| PyText.TrimStart | dynamic_wallpaper/builder.py:210 | the strip removes a prefix made only of whitespace and leaves a text that does not start with whitespace |
| PyText.TrimEnd | dynamic_wallpaper/builder.py:210 | the strip removes a suffix made only of whitespace and leaves a text that does not end with whitespace |
| PyText.Strip | dynamic_wallpaper/builder.py:210 | `strip()` never lengthens a text, leaves no whitespace at either end, and turns an all-blank text into the empty one |
| PyText.StripPadding | dynamic_wallpaper/builder.py:210 | `strip()` removes exactly the surrounding whitespace and leaves the word itself |
| PyText.StripKeeps | dynamic_wallpaper/builder.py:188-190 | a character that is not whitespace survives the strip at some position `i` of the stripped text, and the stripped text is the slice of the input that starts `i` places before it |
| PyText.LowerChar | dynamic_wallpaper/builder.py:210 | an ASCII capital lowers to the letter 32 code points later and the Kelvin sign to `k`; every other character is kept, and the result is never an ASCII capital |
| PyText.Lower | dynamic_wallpaper/builder.py:210 | `lower()` keeps the length and lowers each character in place, leaving no ASCII capital |
| PyText.LowerKeeps | dynamic_wallpaper/builder.py:210 | a text of lower-case ASCII letters is its own lower case |
| PyText.LowerIdempotent | dynamic_wallpaper/builder.py:210 | lower-casing a lower-cased text changes nothing |
| PyText.LowerCapitals | dynamic_wallpaper/builder.py:210 | any spelling of a lower-case ASCII word with some letters in capitals lowers to the word |
| PyText.LetterNotSpace | dynamic_wallpaper/builder.py:210 | a character whose lower case is a letter is not whitespace, so `strip()` keeps it |
| PyText.Split | dynamic_wallpaper/builder.py:183 | `split(':')` yields one more part than there are colons, and no part contains a colon |
| PyText.JoinSplit | dynamic_wallpaper/builder.py:183 | joining the parts of a split with the separator gives back the text |
| PyText.SplitJoin | dynamic_wallpaper/builder.py:183 | splitting the join of colon-free parts gives back exactly those parts |
| PyText.SplitWithout | dynamic_wallpaper/builder.py:183 | a text without the separator splits into itself alone |
| PyText.SplitAfter | dynamic_wallpaper/builder.py:183 | a colon-free part followed by a colon is split off as the first part |
| DecimalText.DigitChar | dynamic_wallpaper/builder.py:188-190 | each digit value has a decimal digit character with that value |
| DecimalText.DecimalDigits | dynamic_wallpaper/builder.py:188-190 | the decimal text of `n` is all digits, and their value is `n` |
| PyInt.DigitCountAppend | dynamic_wallpaper/builder.py:188-190 | appending a character adds one to the digit count exactly when it is a digit |
| PyInt.ParseInt | dynamic_wallpaper/builder.py:188-190 | `int()` of an empty or all-whitespace text fails |
| PyInt.ParseSigned | dynamic_wallpaper/builder.py:188-190 | an accepted number text starts with a digit or a sign, continues with digits and underscores only, and ends with a digit; after the sign comes a digit run (single underscores between digits) of at most 4300 digits; a leading minus gives a value at most 0, anything else a value at least 0 |
| PyInt.PositiveRun | dynamic_wallpaper/builder.py:188-190 | a digit run after a plus sign reads as its value |
| PyInt.UnderscoreBetweenDigits | dynamic_wallpaper/builder.py:188-190 | in a number text `int()` accepts, every underscore has a digit on each side |
| IntReading.PlainDigits | dynamic_wallpaper/builder.py:188-190 | `int()` of a text of digits (within the 4300-digit limit) is its value, and with a leading minus its negation |
| PyInt.SignedDigits | dynamic_wallpaper/builder.py:188-190 | with no whitespace around it, a run of digits and its minus-signed form read as the digits' value and its negation |
| PyInt.DigitsAreRun | dynamic_wallpaper/builder.py:188-190 | a text of digits only is a valid digit run for `int()` |
| PyInt.UnsignedRun | dynamic_wallpaper/builder.py:188-190 | a digit run, underscores between digits allowed, reads as its value |
| PyInt.NegativeRun | dynamic_wallpaper/builder.py:188-190 | a minus-signed digit run reads as the negated value |
| IntReading.NoPadding | dynamic_wallpaper/builder.py:188-190 | a text without whitespace at its ends is unchanged by `int()`'s strip |
| IntReading.ParseIntPadding | dynamic_wallpaper/builder.py:188-190 | `int()` ignores whitespace around the number, so ` 07 ` reads like `07` |
| IntReading.NonNumericRefused | dynamic_wallpaper/builder.py:188-192 | `int()` refuses any text holding a character that is not a digit, an underscore, a sign or whitespace to it, such as `1.5` or `1a` |
| IntReading.MisplacedUnderscoreRefused | dynamic_wallpaper/builder.py:188-192 | `int()` refuses any text holding an underscore without a digit on each side, such as `1__0`, `-_1`, `_1` or `1_` |
| IntReading.TooManyDigitsRefused | dynamic_wallpaper/builder.py:188-192 | `int()` refuses any text of more than 4300 digits |
| IntReading.StripDigits | dynamic_wallpaper/builder.py:188-190 | stripping the whitespace around a number keeps all its digits |
| IntReading.PlusDigits | dynamic_wallpaper/builder.py:188-190 | `int()` of a plus sign and a digit run (within the 4300-digit limit) is the run's value, so `+05` reads as 5 |
| IntReading.DigitsRead | dynamic_wallpaper/builder.py:188-190 | a run of digits spelling `n` reads as `n`, and with a minus sign as `-n` |
| IntReading.ParseIntDecimal | dynamic_wallpaper/builder.py:188-190 | `int()` reads back the decimal text of every `n` of at most 4300 digits, and of `-n` |
| DecimalText.TwoDigitsValue | dynamic_wallpaper/builder.py:188-190 | the two-digit text of `n` below 100 is two digits that spell `n` |
| DecimalText.TwoDigitsNoColon | dynamic_wallpaper/builder.py:183 | a two-digit field contains no colon, so it survives the split intact |
| IntReading.ParseIntTwoDigits | dynamic_wallpaper/builder.py:188-190 | two-digit clock fields such as `06` read back as their value |
| TimeParser.DayFraction | dynamic_wallpaper/builder.py:202-204 | the fraction of the day lies in [0, 1] and is 1 exactly at 86400 seconds |
| TimeParser.Fields | dynamic_wallpaper/builder.py:183-192 | a text with other than one or two colons fails with the format error; otherwise it succeeds exactly when `int()` accepts the hour, the minute and, when present, the second part, and its values are those numbers, with second 0 for `HH:MM`; the only failures are the format error and the number error |
| TimeParser.ParseTime | dynamic_wallpaper/builder.py:182-204 | a wrong number of colons gives a format error, and any error of the fields (the number error when `int()` refuses the hour, minute or second part) is passed on; the value is 86400 exactly for the fields 24, 0, 0; an hour outside 0..23 gives the hour error, and a minute or second outside 0..59 gives the minute/second error; otherwise the value is `h*3600 + m*60 + s` with every field in range |
| TimeParser.FromFields | dynamic_wallpaper/builder.py:194-202 | succeeds exactly for 24, 0, 0 or fields inside the clock's ranges; 24, 0, 0 gives the end of the day; an hour error comes before a minute/second error; otherwise the value is `h*3600 + m*60 + s` |
| TimeParser.FieldsOfClock | dynamic_wallpaper/builder.py:183-190 | a clock time written with two-digit fields splits and reads back to its hour, minute and second, with the second defaulting to 0 |
| TimeParser.FieldsOfThree | dynamic_wallpaper/builder.py:183-190 | a text that splits into three parts `int()` accepts has those three numbers as its fields |
| TimeParser.FieldsOfTwo | dynamic_wallpaper/builder.py:183-190 | a text that splits into two parts `int()` accepts has those two numbers as its fields and second 0 |
| TimeParser.ClockRoundTrip | dynamic_wallpaper/builder.py:182-204 | every `HH:MM:SS` and `HH:MM` time of the day parses to its seconds since midnight |
| TimeParser.EndOfDay | dynamic_wallpaper/builder.py:194-195 | `24:00` and `24:00:00` parse to the end of the day, fraction exactly 1.0 |
| TimeParser.MissingSecondsAreZero | dynamic_wallpaper/builder.py:190 | `HH:MM` and `HH:MM:00` succeed or fail together and give the same time |
| TimeParser.ClockOfSeconds | dynamic_wallpaper/builder.py:202 | seconds since midnight determine the hour, minute and second they came from, so distinct clock times never share a fraction |
| TimeParser.InRange | dynamic_wallpaper/builder.py:197-202 | fields inside the clock's ranges give `h*3600 + m*60 + s` |
| TimeParser.BadNumbers | dynamic_wallpaper/builder.py:187-192 | a time with two or three parts, one of which `int()` refuses (hour, minute or second), fails with the number error |
| TimeParser.Sentinel | dynamic_wallpaper/builder.py:194-195 | the fields 24, 0, 0 give the end of the day before any range check |
| TimeParser.SameFields | dynamic_wallpaper/builder.py:182-204 | two texts with equal fields parse to the same time |
| Manifest.Truthy | dynamic_wallpaper/builder.py:155 | a text is truthy exactly when it is non-empty, and a boolean exactly when it is `true` |
| Manifest.Normalized | dynamic_wallpaper/builder.py:210 | `strip().lower()` never lengthens the text, turns a blank text into the empty one, and leaves no ASCII capital |
| Manifest.ResolveAppearance | dynamic_wallpaper/builder.py:207-223 | a text appearance wins and succeeds exactly when, trimmed and lower-cased, it names light or dark; otherwise a `light` flag that is exactly `true` gives Light, then a `dark` flag gives Dark, else none; the only error is the invalid appearance |
| Manifest.AppearanceSpelling | dynamic_wallpaper/builder.py:208-212 | any surrounding whitespace and any letter case of `light`/`dark` select that appearance, whatever the flags say |
| Manifest.BlankAppearance | dynamic_wallpaper/builder.py:209-221 | an empty or blank text appearance is refused |
| Manifest.ParseEntry | dynamic_wallpaper/builder.py:151-168 | a non-object entry, then a missing path or time, then a non-text path, then a time error, then an appearance error are refused in that order, each with its own error; an entry passing all of them is accepted; a parsed frame's path is the truthy `file` or else `image`, its time is what the time parser gives for `str(time)`, and its appearance is the resolved one |
| Manifest.PathValue | dynamic_wallpaper/builder.py:155 | the path is missing exactly when `file` is absent or falsy and `image` is absent; a truthy `file` wins, and otherwise `image` is taken, whatever it is |
| Manifest.Text | dynamic_wallpaper/builder.py:164 | `str()` of a text is that text; `str(True)` is `True` and `str(False)` is `False` |
| Manifest.BooleanTime | dynamic_wallpaper/builder.py:164-185 | a boolean `time` becomes `True` or `False`, which has no colon, so the entry fails with the time format error |
| Manifest.WrittenEntry | dynamic_wallpaper/builder.py:151-168 | an entry with a text path, a zero-padded clock time and an appearance name parses to the frame at that time with that appearance |
| Manifest.NamedEntry | dynamic_wallpaper/builder.py:151-168 | an entry with a text path, a time that parses, and an appearance name parses to that frame |
| Manifest.ResolvesName | dynamic_wallpaper/builder.py:208-223 | a text appearance whose normal form is `light` or `dark` selects that appearance |
| Manifest.NameNormalized | dynamic_wallpaper/builder.py:210 | the names `light` and `dark` are their own trimmed, lower-cased form |
| Manifest.WordNormalized | dynamic_wallpaper/builder.py:210 | a word of lower-case ASCII letters is its own trimmed, lower-cased form |
| Manifest.FrameEntries | dynamic_wallpaper/builder.py:141-146 | the entries are available exactly when the document is an object with a non-empty `frames` list, and they are that list; a non-object document or a missing `frames` key fails with the object error, a non-list or empty `frames` with the list error |
| Manifest.ParsedFrames | dynamic_wallpaper/builder.py:141-168 | a shape error is passed on unchanged, and a completed parse has one frame per entry of `frames` |
| Manifest.ParsedInOrder | dynamic_wallpaper/builder.py:151-168 | parsing keeps one frame per entry, in manifest order |
| Manifest.ParsedFailure | dynamic_wallpaper/builder.py:151-168 | a failed parse of the entries reports the error of the first entry that fails, every entry before it having parsed |
| Manifest.IncreasingPairwise | dynamic_wallpaper/builder.py:172-174 | adjacent strictly increasing times increase between every pair |
| Manifest.SortedClash | dynamic_wallpaper/builder.py:170-174 | sorted frames pass the adjacent check exactly when no two frames share a time |
| Manifest.IncreasingNoClash | dynamic_wallpaper/builder.py:172-174 | frames that pass the check never share a time |
| Manifest.SortedTie | dynamic_wallpaper/builder.py:170-174 | sorted frames that fail the check have two frames sharing a time |
| Manifest.ClashMoves | dynamic_wallpaper/builder.py:170 | reordering the frames neither creates nor removes a shared time |
| Manifest.TwiceInMultiset | dynamic_wallpaper/builder.py:170 | a frame at two positions occurs at least twice among the frames |
| Manifest.TwiceInSeq | dynamic_wallpaper/builder.py:170 | a frame occurring twice is found at two distinct positions |
| Manifest.IncreasingArrangementUnique | dynamic_wallpaper/builder.py:170-174 | two strictly increasing arrangements of the same frames are identical |
| Manifest.EarliestFirst | dynamic_wallpaper/builder.py:170-174 | two strictly increasing arrangements of the same frames start with the same frame |
| Manifest.IncreasingTail | dynamic_wallpaper/builder.py:172-174 | dropping the first frame keeps the times strictly increasing |
| Manifest.IsSchedule | dynamic_wallpaper/builder.py:170-179 | a schedule of the parsed frames has exactly one frame per parsed frame |
| Manifest.Loads | dynamic_wallpaper/builder.py:133-179 | a loaded schedule has exactly one frame per entry of the document's `frames` list |
| Manifest.ScheduleUnique | dynamic_wallpaper/builder.py:170-179 | at most one schedule (frames and both first indices) fits the parsed frames |
| Manifest.LoadDeterministic | dynamic_wallpaper/builder.py:133-179 | one document has exactly one loading outcome |
| Manifest.InsertStart | dynamic_wallpaper/builder.py:170 | a sorted prefix puts the next frame in the insertion state |
| Manifest.InsertStep | dynamic_wallpaper/builder.py:170 | swapping the inserted frame past a later predecessor keeps the insertion order invariant |
| Manifest.InsertDone | dynamic_wallpaper/builder.py:170 | once the inserted frame is not earlier than its predecessor, the sorted prefix grows by one |
| Manifest.SwapPermutes | dynamic_wallpaper/builder.py:170 | exchanging two frames keeps the same frames |
| Manifest.Swap | dynamic_wallpaper/builder.py:170 | exchanges two frames of the array and changes nothing else |
| Manifest.InsertFrame | dynamic_wallpaper/builder.py:170 | one insertion pass extends the sorted prefix by one frame and keeps the same frames |
| Manifest.SwapDown | dynamic_wallpaper/builder.py:170 | one step of the pass moves the inserted frame down one place, keeping the insertion state and the same frames |
| Manifest.SortByTime | dynamic_wallpaper/builder.py:170 | the frames end sorted by time and are a permutation of the original frames |
| Manifest.TimesIncrease | dynamic_wallpaper/builder.py:172-174 | the check passes exactly when each time is later than the one before it |
| Manifest.FirstIndexWith | dynamic_wallpaper/builder.py:226-230 | the result is the least position whose frame has the appearance, and none exactly when no frame has it |
| Manifest.ParseFrames | dynamic_wallpaper/builder.py:151-168 | the entry loop gives the frames in order or the error of the first failing entry |
| Manifest.Arrange | dynamic_wallpaper/builder.py:170-179 | shared times fail with the ordering error; otherwise the result is the frames' strictly increasing permutation with the first light and dark positions |
| Manifest.LoadManifest | dynamic_wallpaper/builder.py:141-179 | the outcome is the first shape or entry error, else the ordering error when two frames share a time, else the schedule |
| Builder.Conform | dynamic_wallpaper/builder.py:72-91 | a missing image fails naming its path; a frame is kept exactly when its size matches the first image's or the mode is `fit`, and is then stored at that size; a differing size fails with the size error under `strict` and with the unknown-mode error naming the mode under any other mode |
| Builder.Assemble | dynamic_wallpaper/builder.py:61-106 | fewer than two frames fail with the frame-count error; a built wallpaper holds the schedule's frames and its metadata |
| Builder.MetadataRecord | dynamic_wallpaper/builder.py:95-106 | one `ti` entry per frame, and an `ap` dictionary exactly when there is a light or a dark index |
| Builder.MetadataRoundTrip | dynamic_wallpaper/builder.py:95-106 | the metadata decodes back to each frame's index and time and to the first light and dark positions |
| Builder.MetadataTimesIncrease | dynamic_wallpaper/builder.py:95-100 | the `ti` times of a loaded schedule increase strictly and lie within [0, 1] |
| Builder.FractionMonotone | dynamic_wallpaper/builder.py:202-204 | a later time of day has a larger fraction |
| Builder.BuildNeedsTwoFrames | dynamic_wallpaper/builder.py:61-62 | fewer than two frames always fail with the frame-count error, and a build needs two frames |
| Builder.AssembledWallpaper | dynamic_wallpaper/builder.py:72-130 | a built wallpaper stores every frame in schedule order with the schedule's metadata, and every image was present |
| Builder.FitMakesUniformSizes | dynamic_wallpaper/builder.py:81-84 | under `fit`, every stored image has the first image's size |
| Builder.FitFailsOnlyOnMissingImage | dynamic_wallpaper/builder.py:72-84 | under `fit`, a build of two or more frames succeeds exactly when every image is present, and otherwise names the first missing one |
| Builder.StrictRequiresEqualSizes | dynamic_wallpaper/builder.py:72-89 | under `strict`, a build succeeds exactly when every image is present and has the first image's size; a failed build stops at a frame all of whose predecessors are present at the first size, and reports that frame's missing image or the size error |
| Builder.UnknownModeIsLazy | dynamic_wallpaper/builder.py:81-91 | another mode name is refused only at the first size that differs, and images of one size build under it |
| Builder.BuildDeterministic | dynamic_wallpaper/builder.py:33-130 | one document, set of images and mode have exactly one build outcome |
| Builder.ExampleMetadata | dynamic_wallpaper/builder.py:95-106 | frames at 06:00 and at 18:00 (dark) give `ti` at 0.25 and 0.75 and an `ap` with only `d: 1` |
| Builder.AssembleWallpaper | dynamic_wallpaper/builder.py:61-106 | the frame-count check, the image loop and the metadata give the outcome the build function specifies |
| Builder.BuildDynamicWallpaper | dynamic_wallpaper/builder.py:33-130 | the outcome is the load error, or the build of the one schedule the document loads to |

## Left out

- Reading the manifest file and decoding its JSON are left out. `ManifestNotFound` and JSON syntax errors are not modelled. A `Document` is the decoded value, reduced to what the loader inspects.
- Resolving relative paths against the manifest's folder is left out. A frame keeps the manifest's path text, and the image map is keyed by that text.
- Image I/O is left out: opening, EXIF transposition, RGB conversion and resizing. An image is the size it has after orientation. Files that exist but cannot be decoded are not modelled.
- Creating the output folder and encoding the HEIC container are left out.
- The binary plist, base64 and XMP serialisation are left out. The model stops at the dictionary that is serialised.
- The encoder quality setting is left out, and so is `register_heif_opener`.
- The command-line wrapper in `dynamic_wallpaper/cli.py` is not part of this model.
- Builder.MetadataRecord: stores the exact fraction `seconds / 86400`, not `round(t, 6)` of a float. Rounding to six places keeps distinct times of whole seconds distinct and ordered, since they are at least 1/86400 apart.
- PyInt.ParseInt: does not accept non-ASCII decimal digits (such as Arabic-Indic digits), which Python's `int()` also accepts.
- PyText.LowerChar: only lowers characters whose lower case is an ASCII letter (A-Z and the Kelvin sign). Other characters cannot lower to text equal to `light` or `dark`, so the outcome of the appearance check is unchanged.
- The 4300-digit limit of `int()` is CPython's default from 3.11 and from the 3.10.7 security release; 3.10.0 to 3.10.6 have no limit, and the model does not cover them.
