# Gym equipment detection, modelled in Dafny

The Cloud Function `detectGymEquipment` of `functions/index.js` takes a gym
location and analyses every photo of it with a vision model. It turns each
reply into a list of equipment names (`parseEquipment`), canonicalises the
names and collects them across all photos in an insertion-ordered set. It
then merges a non-empty set into the location's stored `equipment` array with
Firestore's `arrayUnion` and stamps the scan time.

The project has five modules, one file each:

- `Wrappers` (`wrappers.dfy`): `Option`.
- `JsBuiltins` (`js_builtins.dfy`): the JavaScript built-ins that the core relies on.
  - `String.prototype.trim`, with JavaScript's white-space set (also the set `\s` matches).
  - `toLowerCase`.
  - `split` on one character, and its inverse `join`.
  - `Array.prototype.map` and `filter`.
- `InsertionOrder` (`insertion_order.dfy`): "append when absent". A JavaScript
  `Set` filled with `add` and an array extended with `arrayUnion` behave the
  same way, so one function models both.
- `EquipmentParser` (`equipment_parser.dfy`): `parseEquipment`. The outcome of
  `JSON.parse` is an input: an array of elements, a value of another shape, or
  a thrown parse error.
- `EquipmentDetection` (`equipment_detection.dfy`): the aggregation loop and the
  merge.
  - The stored location is a class, `Location`, whose fields the scan updates.
  - The outcome of downloading each photo and calling the model is an input,
    a `PhotoResult`.

Each operation is specified by a function on values, and the methods that do
the work in place are proved against those functions. The properties proved are:

- the fallback's names are lower-case and trimmed, and are read line by line;
- the detected set has no repetitions, and holds exactly the canonical names
  that appear in the replies, in first-seen order;
- the photos' order changes what is detected only in order;
- a scan that throws detects nothing and writes nothing;
- merging only appends, never repeats a name, and is idempotent.

Three behaviours of the code are worth stating outright:

- A reply that parses as JSON but is not an array (a number, an object, a
  string) yields no names. It does not fall back to the line reader
  (`functions/index.js:24-27`, `37`).
- `parseEquipment` does not remove repeated names. Repetitions are removed
  only by the set in `detectGymEquipment` (`functions/index.js:73`, `105`).
- The bullet class at `functions/index.js:33` is spelled in the file as the
  three characters `â`, `€`, `¢`. These are the UTF-8 bytes of `•` mis-read as
  Windows-1252. So the class strips `-`, `*` and those three characters, but a
  line starting with `•` keeps its glyph (`EquipmentParser.UnstrippedGlyph`).

## Model

| member | source | states |
|---|---|---|
| `JsBuiltins.Trim` | functions/index.js:31 | `trim` leaves no white space at either end, and gives the empty string exactly when the line is all white space |
| `JsBuiltins.TrimIdempotent` | functions/index.js:31 | a trimmed string is unchanged by `trim`, so trimming twice equals trimming once |
| `JsBuiltins.TrimOfPadded` | functions/index.js:31 | `trim` removes exactly the white-space padding around a trimmed core |
| `JsBuiltins.Lower` | functions/index.js:34 | `toLowerCase` keeps the length, leaves no upper-case letter, keeps white space where it was, and fixes an already lower-case string |
| `JsBuiltins.LowerTrimCommute` | functions/index.js:105 | lower-casing then trimming equals trimming then lower-casing |
| `JsBuiltins.Split` | functions/index.js:30 | `split('\n')` yields at least one piece, and no piece contains the separator |
| `JsBuiltins.SplitConcat` | functions/index.js:30 | splitting two texts joined by a separator yields the pieces of each, in order |
| `JsBuiltins.JoinSplit` | functions/index.js:30 | joining the pieces of a split with the separator gives back the text |
| `JsBuiltins.SplitJoin` | functions/index.js:30 | splitting the join of separator-free pieces gives back the pieces |
| `JsBuiltins.Filter` | functions/index.js:32 | `filter` keeps exactly the elements satisfying the test, and never lengthens the array |
| `JsBuiltins.FilterConcat` | functions/index.js:32 | filtering distributes over concatenation, so order is kept |
| `EquipmentParser.StripBullet` | functions/index.js:33 | the regular expression removes a prefix that is white space only, or one bullet and white space; a leading bullet is always removed; the rest starts with no white space and stays trimmed |
| `EquipmentParser.StripBulletSpaced` | functions/index.js:33 | a bullet, a gap of white space, then a name leaves exactly the name |
| `EquipmentParser.ParseEquipment` | functions/index.js:21-38 | a JSON array is returned as it is; other JSON yields nothing; text that is not JSON yields the fallback's names as strings |
| `EquipmentParser.ExampleNonArrayJson` | functions/index.js:24-37 | the reply `42` yields nothing because it is JSON, but it would yield `"42"` if it were not |
| `EquipmentParser.FallbackNamesAreCanonical` | functions/index.js:30-35 | every name from the fallback is lower-case and has no white space at either end |
| `EquipmentParser.FallbackOfLine` | functions/index.js:30-35 | one line gives nothing if blank, and otherwise its trimmed, bullet-stripped, lower-cased text |
| `EquipmentParser.FallbackOfLines` | functions/index.js:30-35 | lines are read independently and their names kept in order |
| `EquipmentParser.BulletedLine` | functions/index.js:30-35 | a line `<bullet> <name>` reads as the lower-cased name |
| `EquipmentParser.BulletedList` | functions/index.js:30-35 | a three-line bulleted list reads as its three lower-cased names in order |
| `EquipmentParser.PlainLine` | functions/index.js:30-35 | a trimmed line without a bullet reads as itself lower-cased |
| `EquipmentParser.UnstrippedGlyph` | functions/index.js:33 | a line starting with `•` keeps the glyph, because `•` is not in the class as written |
| `EquipmentParser.ExampleLoneBullet` | functions/index.js:32-33 | a line holding only a bullet passes the length filter first and then yields the empty name |
| `EquipmentParser.LowerCapitalised` | functions/index.js:34 | lower-casing a capitalised word changes only its initial |
| `EquipmentParser.ExampleLowerTreadmill` | functions/index.js:34 | `Treadmill` lower-cases to `treadmill` |
| `InsertionOrder.AppendAll` | functions/index.js:113 | adding a batch keeps what was there as a prefix; the result holds exactly the old and the new elements; appended elements were absent before and are not repeated; a repetition-free array stays repetition-free |
| `InsertionOrder.AppendAllConcat` | functions/index.js:104-106 | adding two batches one after the other equals adding them as one |
| `InsertionOrder.AppendAllPresent` | functions/index.js:113 | adding only elements already present changes nothing |
| `InsertionOrder.AppendAllIdempotent` | functions/index.js:113 | adding the same batch twice equals adding it once |
| `InsertionOrder.AppendAllFirstSeenOrder` | functions/index.js:110 | `Array.from` of a set lists each element once, in the order of its first addition |
| `EquipmentDetection.Canonical` | functions/index.js:105 | `item.toLowerCase().trim()` is lower-case and trimmed, and equals trimming before lower-casing |
| `EquipmentDetection.CanonicalFixedPoint` | functions/index.js:105 | a lower-case, trimmed name is its own canonical form |
| `EquipmentDetection.CanonicalIdempotent` | functions/index.js:105 | canonicalising twice equals canonicalising once |
| `EquipmentDetection.ElementNamesCases` | functions/index.js:104-106 | an element throws exactly when it is a truthy non-string; otherwise it adds the canonical form of a non-empty string and nothing else |
| `EquipmentDetection.AddReplyNames` | functions/index.js:104-106 | the `forEach` loop adds the reply's names to the set in order, or throws when the reply has a truthy non-string element |
| `EquipmentDetection.ReplyNamesNone` | functions/index.js:104-106 | a reply's callback throws exactly when the reply holds a truthy non-string |
| `EquipmentDetection.ReplyNamesMembers` | functions/index.js:104-106 | a reply adds exactly the canonical forms of its non-empty strings |
| `EquipmentDetection.CanonicalTexts` | functions/index.js:104-106 | strings that are already canonical pass the callback unchanged; only empty ones are dropped |
| `EquipmentDetection.FallbackReplyNames` | functions/index.js:103-106 | for a reply that is not JSON, the names added are exactly the fallback's non-empty names, in order |
| `EquipmentDetection.ExampleBlankString` | functions/index.js:105 | a blank string in a JSON array passes the truthiness test and adds the empty name |
| `EquipmentDetection.CollectEquipment` | functions/index.js:73-110 | the loop over the photos returns the insertion-ordered set of all canonical names, or fails as soon as one photo throws |
| `EquipmentDetection.ScanNamesNone` | functions/index.js:75-107 | the loop throws exactly when some photo's download, model call or callback throws |
| `EquipmentDetection.ScanNamesMembers` | functions/index.js:75-107 | the names collected are exactly those some photo's reply mentions |
| `EquipmentDetection.DetectedEquipment` | functions/index.js:73-110 | the detected list is absent exactly when some photo throws; otherwise it has no repetitions, holds exactly the mentioned names, and follows first-seen order |
| `EquipmentDetection.DetectedOrderIndependent` | functions/index.js:75-107 | reordering the photos changes neither whether the scan throws nor which names it detects |
| `EquipmentDetection.SameEquipmentTwice` | functions/index.js:104-110 | two replies naming the same equipment with different case or padding give one detected name |
| `EquipmentDetection.DetectedSameTwice` | functions/index.js:104-110 | two photos giving the same single name detect that name once |
| `EquipmentDetection.SingleText` | functions/index.js:104-106 | an array holding one non-empty string adds its canonical form |
| `EquipmentDetection.Location.DetectGymEquipment` | functions/index.js:66-121 | with no photos, the response is "no photos to analyze" and nothing changes; if a photo throws, an internal error and nothing changes; otherwise success with the detected list. Equipment and scan time are updated exactly when that list is non-empty |
| `EquipmentDetection.Location.Merge` | functions/index.js:111-116 | the update appends the detected names absent from `equipment` and sets the scan time |
| `EquipmentDetection.ScanAppends` | functions/index.js:111-116 | a scan keeps the stored equipment as a prefix; it appends only detected names that were absent, introduces no repetition, and writes nothing when it detects nothing or throws |
| `EquipmentDetection.ScanThrowsKeepsStored` | functions/index.js:75-126 | if any photo throws, the response is an internal error and the stored equipment is unchanged |
| `EquipmentDetection.ScanIdempotent` | functions/index.js:111-116 | scanning the same photos a second time leaves the stored equipment as the first scan left it |

## Left out

- Authentication, the `locationId` check and reading the location document (`functions/index.js:47-65`) are left out. They are Firebase I/O and precede the core. The model starts from the stored `equipment` array and the photos.
- A truthy `photoUrls` that is not an array (`functions/index.js:66`) is left out. A missing or falsy one is the empty photo sequence.
- Downloading a photo (`getImageAsBase64`) and the call to the vision model are left out. Each photo's outcome is given as a `PhotoResult`: the reply text, or a thrown failure.
- The reply text itself is arbitrary input.
- A `null` message content is treated as a reply that decodes to a non-array value.
- `JSON.parse` is not defined in the model. Its outcome is given with the reply as a `JsonParse`.
- A JSON array element is classified only as a string, a falsy value or a truthy non-string. Calling `toLowerCase` on a truthy non-string throws.
- `serverTimestamp()` is replaced by the `now` parameter of `DetectGymEquipment`.
- A failure of the Firestore `update` call itself is not modelled.
- Mapping every failure to `HttpsError('internal', …)` is modelled as the `InternalError` response. Logging is left out.
- JsBuiltins.Lower: `toLowerCase` is modelled only for the ASCII and Latin-1 upper-case letters. It leaves every other character unchanged, whereas JavaScript also maps Greek, Cyrillic and the other Unicode letters. Context-sensitive and length-changing mappings are not modelled either.
- Strings are sequences of Unicode scalar values, not UTF-16 code units. Surrogate pairs are not modelled.
- `Array.from` of a JavaScript `Set` and Firestore's `arrayUnion` are both modelled as "append when absent". Firestore's own storage order beyond that is not modelled.
- Concurrent scans of the same location are not modelled.
