# xpresser core, modelled in Dafny

This project models three pieces of the Xpresser GUI-automation library and
proves properties of them.

- **The image finder** (`xpresser/opencvfinder.py`, module `OpenCVFinder`):
  - The duplicate-suppression pass `_filter_nearby_positions`, as a method with nested loops over a kill set. Two recursive functions (`Inner`, `Outer`) follow those loops step by step, and the method is proved equal to them.
  - The per-image decode cache `_load_image`, as an `Image` class whose `cache` map the method updates.
  - The first-or-`None` wrapper `find`.
  - The properties of the suppression pass are in `SuppressionProperties`.
- **The `Xpresser` front end** (`xpresser/xp.py`, module `Xp`):
  - `_compute_focus_point`.
  - The deadline-bounded polling loop `find`, run over an abstract clock: the `time.time()` readings the call would take if it ran until the deadline. A call that returns early reads only a prefix of them.
  - `wait`.
  - The properties of these are in `XpProperties`.
- **Keyboard input** (`xpresser/xutils.py`, module `XUtils`):
  - `type` and `__type_standard`, as methods that build the trace of keyboard events they would inject: `Sym(keyval)`, `Press(keycode)` and `Release(keycode)`.
  - The special-key table `specialkeys`, with its 25 entries.
  - The properties of the trace are in `XUtilsProperties`.

Foreign calls are parameters of the operations:
- the file reader `cv2.imread`;
- the best-match search `_find(…, best_match=True)`, which may raise;
- the directory lookup `ImageDir.get`;
- `xutils.take_screenshot`;
- `Gdk.unicode_to_keyval`.

Candidates are identified by their index in the input sequence. This is Python's `is` test in `match2 is match1`. The surviving candidates are returned as a set of indices.

For two neighbouring candidates with equal similarity, the code kills the one it processes first (index 0) and keeps the second. `SuppressionProperties.TwoNeighbours` states this outcome. Survivors are pairwise non-neighbours even when similarities tie (`SuppressionProperties.SurvivorsAreSeparated`).

## Model

| member | source | states |
|---|---|---|
| OpenCVFinder.Inner | xpresser/opencvfinder.py:115-137 | the inner loop over `match2` only adds to the kill set; each index it adds besides `match1` is a later neighbour of `match1` that scores strictly lower |
| OpenCVFinder.Outer | xpresser/opencvfinder.py:111-137 | the outer loop only adds to the kill set, and only indices of the input |
| OpenCVFinder.Neighbours | xpresser/opencvfinder.py:124-125 | defines the neighbour test: close on EITHER axis, `abs(dx) < x_margin` or `abs(dy) < y_margin` (no contract of its own; its properties are `SuppressionProperties.NeighboursSymmetric` and the rows below) |
| OpenCVFinder.Killed | xpresser/opencvfinder.py:110-137 | the kill set the whole pass builds from an empty `kill = set()`; it holds only indices of the input |
| OpenCVFinder.Survivors | xpresser/opencvfinder.py:139 | `set(matches) - kill`: the input's candidates that the pass did not kill, a subset of the input |
| OpenCVFinder.FilterNearbyPositions | xpresser/opencvfinder.py:101-139 | the nested loops, with `continue` on a killed `match1` and `break` once it is killed, compute exactly the candidates the pass keeps; every survivor is a candidate of the input |
| SuppressionProperties.NeighboursSymmetric | xpresser/opencvfinder.py:124-125 | the neighbour test (`abs(dx) < x_margin` or `abs(dy) < y_margin`) does not depend on which candidate comes first |
| SuppressionProperties.InnerJustified | xpresser/opencvfinder.py:115-137 | the inner loop kills only candidates that have a neighbour scoring at least as high |
| SuppressionProperties.OuterJustified | xpresser/opencvfinder.py:110-137 | the whole pass kills only candidates that have a neighbour scoring at least as high |
| SuppressionProperties.KilledAreDominated | xpresser/opencvfinder.py:126-137 | every removed candidate has another candidate within the margins whose similarity is greater than or equal to its own |
| SuppressionProperties.IsolatedSurvives | xpresser/opencvfinder.py:124-125 | a candidate with no neighbour on either axis is never removed |
| SuppressionProperties.FarApartKeepsAll | xpresser/opencvfinder.py:124-139 | when no two candidates are neighbours, the output is the whole input |
| SuppressionProperties.StrictBestSurvives | xpresser/opencvfinder.py:126-137 | a candidate that scores strictly higher than all others survives |
| SuppressionProperties.InnerBestAlive | xpresser/opencvfinder.py:126-137 | if some top-scoring candidate is still alive before the inner loop, one is still alive after it |
| SuppressionProperties.OuterBestAlive | xpresser/opencvfinder.py:111-137 | the whole pass never kills every top-scoring candidate |
| SuppressionProperties.SomeBestSurvives | xpresser/opencvfinder.py:101-139 | "taking the best one": a non-empty input keeps a top-scoring candidate, so the output is never empty |
| SuppressionProperties.InnerSettles | xpresser/opencvfinder.py:115-137 | after the inner loop, either `match1` is killed or every neighbour of `match1` is |
| SuppressionProperties.OuterSettles | xpresser/opencvfinder.py:111-137 | after the pass, every neighbour of a surviving candidate has been killed |
| SuppressionProperties.SurvivorsAreSeparated | xpresser/opencvfinder.py:124-139 | no two survivors are within the margins of each other, even when their similarities tie |
| SuppressionProperties.EmptyGivesEmpty | xpresser/opencvfinder.py:110-139 | no candidates give no survivors |
| SuppressionProperties.SingleIsKept | xpresser/opencvfinder.py:110-139 | a single candidate is always kept |
| SuppressionProperties.TwoNeighbours | xpresser/opencvfinder.py:124-137 | of two neighbours, the strictly better first one alone survives; otherwise the second alone survives, including on a tie |
| OpenCVFinder.Find | xpresser/opencvfinder.py:30-34 | `find` raises exactly when the search raises, with the same exception; it is `None` exactly when the search reports no match, and otherwise it is the first match reported |
| OpenCVFinder.Image.constructor | xpresser/opencvfinder.py:40-47 | an image holds its `filename`, its `array` (here `buffer`), its size and a cache that starts empty |
| OpenCVFinder.LoadStep | xpresser/opencvfinder.py:39-50 | a cached buffer is returned with the cache untouched; otherwise the file is read in preference to the in-memory array; an error is raised exactly when nothing is cached and neither source is set, and then the cache is unchanged; on success the buffer is stored under `"opencv_image"` and no other entry changes |
| OpenCVFinder.LoadImage | xpresser/opencvfinder.py:39-50 | the method on an `Image` object returns and leaves in `image.cache` what `LoadStep` describes, and changes no other field |
| OpenCVFinder.LoadIsMemoised | xpresser/opencvfinder.py:39-50 | after a successful load, loading again returns the same buffer and leaves the cache as it was, whatever the file would now read as and even if `filename` or `array` has changed since |
| OpenCVFinder.LoadTwice | xpresser/opencvfinder.py:39-50 | two loads of one image in a row give the same result; after a success the cache holds that buffer, and after a failure it is unchanged |
| Xp.Resolve | xpresser/xp.py:107-108 | a string is looked up in the image directory, giving the image found or the lookup's error; any other value is searched for as it is |
| Xp.Attempt | xpresser/xp.py:111-112 | one attempt captures a fresh screenshot and runs the finder's `find` on it: it finds nothing exactly when the search of that screenshot reports nothing, and raises exactly when the search raises |
| Xp.Poll | xpresser/xp.py:109-115 | the loop from one clock reading on; it raises only `ImageNotFound` of the image searched for, or an exception of the search |
| Xp.FindSpec | xpresser/xp.py:101-115 | what `find` returns or raises: `ImageNotFound` only of the looked-up image, and the lookup error only for a string the directory does not hold |
| Xp.Find | xpresser/xp.py:101-115 | the polling loop, with the name lookup before it, returns or raises exactly what `FindSpec` describes (default timeout 10) |
| Xp.Wait | xpresser/xp.py:117-123 | `wait` (default timeout 30) succeeds exactly when `find` with the same timeout does, raises the same error otherwise, and returns no value |
| Xp.ComputeFocusPoint | xpresser/xp.py:46-56 | an error comes only from the `find` of a single argument that is not a match, and is that error; the result is `None` exactly when the arguments are neither two ints nor one value |
| XpProperties.PollSucceeds | xpresser/xp.py:109-114 | from a given clock reading, the loop returns match `m` exactly when `m` is the first hit, found by an attempt begun before the deadline after attempts that all came back empty |
| XpProperties.PollGivesUp | xpresser/xp.py:109-115 | from a given clock reading, the loop raises `ImageNotFound(image)` exactly when a reading at or after the deadline comes before any hit or exception |
| XpProperties.PollRaises | xpresser/xp.py:110-112 | from a given clock reading, the loop passes on an exception of the search exactly when the first attempt that does not come back empty raised it; it is not retried |
| XpProperties.PollOutcome | xpresser/xp.py:109-115 | the three outcomes of the loop together: first hit, deadline first, or first exception, each in both directions |
| XpProperties.FindReturnsFirstMatch | xpresser/xp.py:109-114 | `find` returns `m` exactly when the image resolves and `m` is what the first successful attempt found, every attempt having begun strictly before `start + timeout` |
| XpProperties.FindRaisesAfterDeadline | xpresser/xp.py:109-115 | `find` raises `ImageNotFound(image)` exactly when the clock reaches `start + timeout` before any attempt succeeds |
| XpProperties.FindPassesSearchError | xpresser/xp.py:110-112 | `find` raises an exception of the search exactly when an attempt begun before `start + timeout` raised it, every earlier attempt having found nothing |
| XpProperties.FindUnknownName | xpresser/xp.py:107-108 | the lookup error is raised exactly for a name the directory does not hold |
| XpProperties.FindResolvesNameFirst | xpresser/xp.py:107-108 | finding a name is finding the image the directory gives for it |
| XpProperties.NoAttemptWithoutTime | xpresser/xp.py:109-115 | with `timeout <= 0` and a clock that does not run backwards, no attempt is made and `ImageNotFound` is raised |
| XpProperties.PollLonger | xpresser/xp.py:109-114 | a polling that succeeds by one deadline gives the same match for any later deadline |
| XpProperties.LongerTimeoutFindsTheSame | xpresser/xp.py:101-115 | what `find` finds with a timeout it finds with any longer one, on the same clock and screens |
| XpProperties.FocusPointWithoutSearch | xpresser/xp.py:47-53 | two ints give themselves as the point and one match gives its focus point, with no use of the screen, the clock or the directory |
| XpProperties.FocusPointOfFoundMatch | xpresser/xp.py:51-56 | any other single argument gives the focus point of the match `find` returns, and `find`'s error propagates |
| XUtils.SymEvents | xpresser/xutils.py:71-74 | one `Sym` event per character, in order, each of the key symbol of that character's code point |
| XUtils.PartEvents | xpresser/xutils.py:58-62 | a special-key part is one press of exactly its table code; any other part is typed, one `Sym` per character |
| XUtils.PartsEvents | xpresser/xutils.py:57-62 | the events of the parts in list order; none of them is a release |
| XUtils.TypeTrace | xpresser/xutils.py:54-69 | defines the whole trace of `type`: for a list, the parts' events and then one release per pressed code in reverse order; for anything else, the symbols of its characters (no contract of its own; its properties are the `XUtilsProperties` rows) |
| XUtils.PressedKeys | xpresser/xutils.py:57-59 | at most one key code is remembered per part |
| XUtils.Reverse | xpresser/xutils.py:63 | `keys_to_press.reverse()`: same length, element `i` is element `n-1-i` of the original |
| XUtils.Releases | xpresser/xutils.py:66-67 | one `Release` per key code, in the order given |
| XUtils.TypeStandard | xpresser/xutils.py:71-74 | the character loop emits exactly `SymEvents` of the string |
| XUtils.PressAndTypeParts | xpresser/xutils.py:56-62 | the loop over parts emits the parts' events in order and remembers exactly the table codes of the special-key parts, in order |
| XUtils.ReleaseKeys | xpresser/xutils.py:66-67 | the release loop appends one `Release` per remembered code, in order |
| XUtils.Type | xpresser/xutils.py:54-69 | `type` emits exactly `TypeTrace`: for a list, the parts' events and then the releases of the reversed pressed codes; for a string, its symbols |
| XUtilsProperties.CodesOfSyms | xpresser/xutils.py:71-74 | typing a string emits the key symbols of its characters and no press or release |
| XUtilsProperties.CodesOfReleases | xpresser/xutils.py:66-67 | the release events carry exactly the given codes, and nothing is pressed or typed |
| XUtilsProperties.CodesOfParts | xpresser/xutils.py:57-62 | the parts loop presses exactly the special keys' codes, releases nothing, and types the symbols of the other parts' characters run together |
| XUtilsProperties.TextIsTypedAsSymbols | xpresser/xutils.py:68-74 | a non-list input gives one `Sym` per character, in order, with no press or release |
| XUtilsProperties.PartsPressSpecialKeys | xpresser/xutils.py:57-62 | for a list, the pressed codes are the table codes of its special-key parts in list order, and the typed symbols are those of the other parts in list order |
| XUtilsProperties.ReleasesMirrorPresses | xpresser/xutils.py:63-67 | the released codes are the pressed codes in reverse order, as many releases as presses |
| XUtilsProperties.ReleasesComeLast | xpresser/xutils.py:57-67 | no `Press` or `Sym` follows a `Release` in a list-input trace |
| XUtilsProperties.PartsEventsAppend | xpresser/xutils.py:57-62 | the events of a list of parts are those of its first half followed by those of its second half |
| XUtilsProperties.PartsEmitInPlace | xpresser/xutils.py:57-62 | each part emits its own events in its place, between the events of the parts before it and those after it |
| XUtilsProperties.SpecialKeyNames | xpresser/xutils.py:34-39 | every name in the table is bracketed `<...>`, so a part that is not (a single character, say) is typed as text; `<Meta>` and `<Super>` share code 133 |
| XUtilsProperties.CtrlC | xpresser/xutils.py:34-39 | `["<Ctrl>", "c"]` gives press 37, the symbol of `c`, release 37 |

## Left out

- `OpenCVFinder._find` and `find_all` (template matching, thresholding, drawing, `print`, `imwrite`): OpenCV and numpy code, so the best-match search is a parameter of `find`.
- OpenCVFinder.Find: the search parameter stands for the commented-out pipeline (build the matches, filter nearby positions, sort by similarity), not for the live `return loc`. The live `_find` returns the `numpy.where` tuple, which is never empty, so as written `find` never returns `None` and `_filter_nearby_positions` is never called.
- An exception raised inside the search is an opaque `Failure` message. Which exception it was (`_load_image`'s `RuntimeError` for an image with neither a file nor an array, an `AttributeError` for a target that is not an image, an OpenCV error) is not modelled, and the search's own loading of the screenshot and the target is not composed from `LoadStep`.
- The margin computation from `FILTER_MARGIN` is commented out in the source, so the margins are a parameter.
- Similarities are floats compared with `cmp`; the model compares them as integers, since they are only ever compared.
- Xp.Find: the clock readings and the timeout are exact reals. The floating-point rounding of `time.time() + timeout` and of the comparisons with it is not modelled.
- XUtils.SymEvents: a Dafny `string` stands for the sequence of items Python's `for char in string` yields, and `char as int` for `ord(char)`. Under Python 2 a `str` yields bytes, so a UTF-8 "é" is two items (0xC3, 0xA9) and gives two `Sym` events; the model's string is then that byte sequence. A narrow-build `unicode` string can yield surrogate halves, which a Dafny `char` cannot hold; such strings are not modelled.
- `list(set(matches) - kill)` returns the survivors in an unspecified order, and equal match objects would collapse in the set. The model returns a set of input indices, so every candidate is a distinct object.
- `_load_image` also assigns `image.width = image.width` and `image.height = image.height`. These assignments change nothing and are not modelled.
- The internals of `Image`, `ImageDir` and `ImageMatch` (`xpresser/image.py`, `xpresser/imagedir.py`, `xpresser/imagematch.py`) are not part of this model. `ImageDir.get` is a function that may fail, and a match is an identifier with an opaque focus point.
- The screen capture `take_screenshot` is a function from attempt number to image. The mouse wrappers `click`, `right_click`, `double_click` and `hover` are one-line foreign calls and are not modelled.
- Xp.Find: requires that the clock readings of one call eventually reach `start + timeout` (`ClockPasses`), and so do `Xp.Wait` and `Xp.ComputeFocusPoint`. An endless search on a clock that never reaches the deadline is not modelled.
- Python's `isinstance(…, (int, long))` also accepts `bool`; the model's `IntValue` stands for every such value.
- `Xpresser.type` only delegates to `xutils.type` and is not modelled separately.
- `Xpresser.load_images`, `get_image` and the constructor are directory plumbing and are not modelled.
- `time.sleep(hold)` between pressing and releasing is not modelled; the trace has no time in it.
- `__press_key` and `__release_key` are single calls to `generateKeyboardEvent`; each appears as one `Press` or `Release` appended to the trace.
- `setup.py` is packaging metadata and is not modelled.
