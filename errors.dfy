/** Why a build stops. */
module Errors {

  /** One constructor per message the builder raises `WallpaperBuildError`
      with, plus `PathNotText` for the `TypeError` that `Path()` raises when a
      frame's path is not a string. */
  datatype BuildError =
    | ManifestNotObject                   // no JSON object, or no 'frames' key
    | FramesNotNonEmptyList               // 'frames' is not a non-empty list
    | FrameNotObject                      // a frame entry is not an object
    | MissingFileOrTime                   // no usable 'file'/'image', or no 'time'
    | PathNotText                         // the path value is not a string
    | TimeFormat(text: string)            // not HH:MM or HH:MM:SS
    | TimeNumbers(text: string)           // a field `int()` refuses
    | HourOutOfRange(text: string)
    | MinuteSecondOutOfRange(text: string)
    | InvalidAppearance                   // a text appearance other than light/dark
    | TimesNotIncreasing                  // two frames share a time
    | TooFewFrames                        // fewer than two frames
    | ImageNotFound(path: string)
    | SizeMismatch                        // sizes differ under "strict"
    | UnknownResizeMode(mode: string)     // sizes differ under any other mode
}
