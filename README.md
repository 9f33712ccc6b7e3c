# JavaFX-Blur: the `Blur` enum, modelled in Dafny

JavaFX-Blur gives a JavaFX stage on Windows a translucent "blur behind" or
"acrylic" background. The JavaFX stage exposes no native window handle, so
`Blur.applyBlur` works around that. It renames the stage to a marker title
(`"_JFX"` followed by the wall clock's milliseconds modulo 1000). It then
calls a native function that finds the window by that title and sets its
accent state. Last, it restores the old title. `Blur.loadBlurLibrary` picks
how the native DLL is loaded: it is extracted from the jar when the class
came from a jar, and otherwise loaded from a file path rebuilt from the
resource URL.

The model has four modules:

- `JavaFxBlur` (`blur.dfy`) holds the enum and its operations:
  - the table of accent states (`Blur`, `AccentState`);
  - the marker title (`MarkerTitle`);
  - `IsJar`, the development path rewrite (`DevLibraryPath`) and the loader's decision (`LoadBlurLibrary`);
  - the protocol itself. `Stage` is a class with a mutable `title` and a `showing` flag. `NativeBlur` is the native binding, with a `linked` flag and a ghost log of the calls it receives. `ApplyBlur` is a method on both. It returns a ghost trace of what it did: warnings, title writes, the native call and the logged link error. The function `ProtocolTrace` specifies that trace, and the `Protocol*` lemmas prove the promised properties about it.
- `JavaStrings` (`javastrings.dfy`) holds the two `java.lang.String` operations the enum calls: `startsWith`, and `replace`, which replaces every occurrence of a non-empty target, left to right, without overlaps. It also defines `indexOf`, which the enum does not call. It is an independent reference definition, used to specify `replace`.
- `Decimal` (`decimal.dfy`) renders a non-negative `long` the way Java's string concatenation does.
- `Wrappers` (`wrappers.dfy`) provides `Option`. It stands for a Java reference that may be null.

Things outside the model become parameters:

- The wall clock is the `millis: nat` parameter of `ApplyBlur`. It is non-negative, so Java's truncating `%` and Dafny's Euclidean `%` agree on it.
- Whether the native entry point is linked is the `linked` field of `NativeBlur`. A call returns `Ok` when it is linked. Otherwise it raises `LinkError` (Java's `UnsatisfiedLinkError`), which `ApplyBlur` catches and logs.
- The URLs of the class resource and of the DLL resource are arguments of `LoadBlurLibrary`.
- SLF4J logging is represented by the `Warned` and `LinkErrorLogged` events of the trace.

## Model

| member | source | states |
|---|---|---|
| `JavaFxBlur.AccentStateTable` | src/main/java/com/kieferlam/javafxblur/Blur.java:17 | NONE has accent state 0, BLUR_BEHIND has 3, ACRYLIC has 4 |
| `JavaFxBlur.AccentState` | src/main/java/com/kieferlam/javafxblur/Blur.java:25-29 | the code each effect carries is one the decoder maps back to that same effect |
| `JavaFxBlur.AccentStatesDistinct` | src/main/java/com/kieferlam/javafxblur/Blur.java:17 | two effects have the same accent state exactly when they are the same effect |
| `JavaFxBlur.AccentStateRoundTrip` | src/main/java/com/kieferlam/javafxblur/Blur.java:25-29 | the accent state identifies the effect: decoding a code gives exactly the effect whose field holds that code |
| `Decimal.NatToDecimal` | src/main/java/com/kieferlam/javafxblur/Blur.java:88 | the rendering of the clock suffix is a non-empty digit string, which starts with '0' only for zero |
| `Decimal.DecimalRoundTrip` | src/main/java/com/kieferlam/javafxblur/Blur.java:88 | reading the rendered digits back gives the number |
| `Decimal.NatToDecimalInjective` | src/main/java/com/kieferlam/javafxblur/Blur.java:88 | two numbers render alike exactly when they are equal |
| `Decimal.DecimalLengthBound` | src/main/java/com/kieferlam/javafxblur/Blur.java:88 | a number needs at most k digits exactly when it is below 10^k |
| `JavaFxBlur.MarkerTitle` | src/main/java/com/kieferlam/javafxblur/Blur.java:88 | the marker starts with "_JFX", is 5 to 7 characters long, and ends in digits only |
| `JavaFxBlur.MarkerTitleFormat` | src/main/java/com/kieferlam/javafxblur/Blur.java:88 | the marker is "_JFX" followed by 1 to 3 digits without a leading zero, with value millis mod 1000, which is below 1000 |
| `JavaFxBlur.MarkerTitleCollision` | src/main/java/com/kieferlam/javafxblur/Blur.java:88 | two clock readings give the same marker exactly when they agree modulo 1000, so only 1000 markers exist |
| `JavaStrings.StartsWith` | src/main/java/com/kieferlam/javafxblur/Blur.java:72 | `startsWith(p)` holds exactly when the string is p followed by something |
| `JavaFxBlur.IsJar` | src/main/java/com/kieferlam/javafxblur/Blur.java:71-73 | `isJar` is true exactly when the class resource URL is "jar:" followed by anything |
| `JavaStrings.IndexOf` | src/main/java/com/kieferlam/javafxblur/Blur.java:55 | the result is -1 when the pattern does not occur; otherwise the pattern occurs at the result and at no earlier index |
| `JavaStrings.ReplaceAll` | src/main/java/com/kieferlam/javafxblur/Blur.java:55 | `replace` does not lengthen the string when the replacement is no longer than the target, and does not shorten it when the replacement is no shorter |
| `JavaStrings.ReplaceAllByIndexOf` | src/main/java/com/kieferlam/javafxblur/Blur.java:55 | `replace` copies up to the first occurrence, emits the replacement and continues after the occurrence; with no occurrence the string is unchanged |
| `JavaStrings.ReplaceAllWithoutOccurrence` | src/main/java/com/kieferlam/javafxblur/Blur.java:55 | a string without the target is returned unchanged |
| `JavaStrings.ReplaceAllRemovesEveryOccurrence` | src/main/java/com/kieferlam/javafxblur/Blur.java:55 | a non-empty replacement that shares no character with the target leaves no occurrence of the target |
| `JavaFxBlur.DevLibraryPath` | src/main/java/com/kieferlam/javafxblur/Blur.java:55 | the rewritten development path (every "file:/" removed, then every "%20" made a space) contains no "%20" and is no longer than the URL |
| `JavaFxBlur.DevLibraryPathOfFileUrl` | src/main/java/com/kieferlam/javafxblur/Blur.java:54-55 | for "file:/" followed by a path that does not repeat the scheme, the result is that path with "%20" decoded, and the path itself when it has no "%20" |
| `JavaFxBlur.SchemeRemovalIsSinglePass` | src/main/java/com/kieferlam/javafxblur/Blur.java:55 | removing "file:/" is one pass: on "filfile:/e:/" the result still contains "file:/" |
| `JavaFxBlur.LoadBlurLibrary` | src/main/java/com/kieferlam/javafxblur/Blur.java:40-61 | the library is extracted from the jar exactly when `isJar` holds; otherwise a missing DLL resource is the logged failure, and a present one is loaded from the rewritten path, which has no "%20" |
| `JavaFxBlur.Stage.SetTitle` | src/main/java/com/kieferlam/javafxblur/Blur.java:89 | the stage's title becomes the argument, and the write is recorded |
| `JavaFxBlur.Stage.Show` | src/test/java/com/kieferlam/javafxblur/PrimaryStageBlurTest.java:133 | after `show` the stage is showing; it keeps its title |
| `JavaFxBlur.NativeBlur.ExtApplyBlur` | src/main/java/com/kieferlam/javafxblur/Blur.java:31-33 | the native call returns normally exactly when its entry point is linked, and raises the link error otherwise; its log gains exactly one record: the target, the accent state, the window passed and that window's title at that moment |
| `JavaFxBlur.ProtocolTrace` | src/main/java/com/kieferlam/javafxblur/Blur.java:83-96 | the specified protocol takes 3 to 5 steps, and its last step always writes the saved title back |
| `JavaFxBlur.ApplyBlur` | src/main/java/com/kieferlam/javafxblur/Blur.java:83-96 | the ghost trace it returns is `ProtocolTrace` of the stage's state, and the native call recorded in it is the callee's own log entry; the native binding receives exactly one call, for this stage, with the marker as target, the effect's accent state, and the marker as the stage's title at that moment; the title ends as it began, `showing` is untouched, and the title is written twice: the marker, then the original |
| `JavaFxBlur.ProtocolWritesTitleTwice` | src/main/java/com/kieferlam/javafxblur/Blur.java:87-95 | the protocol writes the title exactly twice: first the marker, then the saved title |
| `JavaFxBlur.ProtocolRestoresTitle` | src/main/java/com/kieferlam/javafxblur/Blur.java:87-95 | the stage ends with its starting title, both when the native call succeeds and when it fails to link |
| `JavaFxBlur.ProtocolCallsNativeOnce` | src/main/java/com/kieferlam/javafxblur/Blur.java:88-91 | the native function is called exactly once, with the marker and the effect's accent state verbatim |
| `JavaFxBlur.ProtocolTitleDuringNativeCall` | src/main/java/com/kieferlam/javafxblur/Blur.java:88-91 | the native call is made for the given window, whose title at that moment is the marker, which is also the target passed; the accent state is the chosen effect's |
| `JavaFxBlur.ProtocolWarnsIffHidden` | src/main/java/com/kieferlam/javafxblur/Blur.java:84-86 | the warning is logged exactly when the stage is hidden, and before any other step; the rest of the protocol runs either way |
| `JavaFxBlur.ProtocolLogsIffUnlinked` | src/main/java/com/kieferlam/javafxblur/Blur.java:90-94 | the link error is caught and logged exactly when the native binding is not linked |
| `JavaFxBlur.StartDemoStage` | src/test/java/com/kieferlam/javafxblur/PrimaryStageBlurTest.java:130-135 | the demo stage titled "JavaFX", shown and given ACRYLIC keeps "JavaFX"; the native binding receives one call, for that stage, with the marker and code 4, while the stage is titled the marker |
| `JavaFxBlur.DemoScenario` | src/test/java/com/kieferlam/javafxblur/PrimaryStageBlurTest.java:130-135 | on the demo's inputs the native call gets code 4 and a "_JFX" target of 5 to 7 characters ending in digits, and the title is "JavaFX" afterwards |

## Left out

- The native function `NativeBlur._extApplyBlur`: its window lookup by title and its compositor calls are foreign code. Only what it receives, the title it sees and whether it links are modelled.
- Exceptions other than `UnsatisfiedLinkError` from the native call: the source does not catch them, and the restore on line 95 is not in a `finally`. The model has only the two outcomes `Ok` and `LinkError`.
- Library loading I/O: `NativeUtils.loadLibraryFromJar`, `System.load`, `File.getAbsolutePath`, and the `IOException` raised while extracting. `LoadBlurLibrary` returns the decision those calls act on.
- LoadBlurLibrary: a null `Blur.class` resource in `isJar` is not modelled; the class URL is always a string. In the source this would be an uncaught `NullPointerException`.
- Logging content, and the logger itself. Logging appears only as trace events.
- The system clock, which is the `millis` parameter.
- A null stage title: titles are strings.
- ReplaceAll, IndexOf: an empty target is not modelled; Java's `indexOf("")` is 0 and `replace("", r)` inserts `r` between characters, but the loader passes only "file:/" and "%20".
- ApplyBlur: a null `stage` or `blur` argument is not modelled, since `Stage` is a non-null reference and `Blur` a datatype. In the source a null `stage` throws a NullPointerException at line 84 before anything changes. A null `blur` throws one at line 91, after the marker has been set; it is not caught, line 95 never runs, and the stage keeps the marker title. The title is restored only on the two outcomes modelled.
- The demo test's UI construction (title bar, buttons, hover handlers, dragging). Only its start-up sequence is modelled.
- Threading and the UI-thread affinity of `Stage.setTitle`: that concurrency belongs to the toolkit.
- What the native side does when several windows share the marker title. `MarkerTitleCollision` states when two calls produce the same marker.
