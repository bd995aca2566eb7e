# Audio classifier front end: layer partitioning and upload encoding

This project models, in Dafny, the logic at the core of the web front end of
an audio classifier (ESC-50 classes). The front end posts a sound file to an
inference API and shows what comes back: the top predictions and the CNN
feature maps, layer by layer.

The model covers:

- **Layer partitioning** (`Layers`). `splitLayers` sorts the API's flat
  mapping from layer name to feature map into two outputs:
  - the *main* layers, whose names have no `.`;
  - the *internal* groups. Each child layer with a `.` in its name joins the
    group of its parent, which is the text before its first `.`.

  It is a `method` with the page's `for` loop, proved against its
  specification functions `Pick` and `ParentsOf`. The lemmas prove:
  - the outputs partition the input;
  - every entry lands in exactly one place;
  - input order is kept;
  - groups are never empty;
  - a child's name starts with its parent and a `.`.
- **Display helpers** (`Display`):
  - the emoji lookup keyed by class label, with its fallback;
  - `slice(0, 3)` of the predictions;
  - `replaceAll("_", " ")` on a label;
  - the first-occurrence `replace` that titles a child feature map.
- **Binary strings** (`BinaryString`): bytes, `String.fromCharCode`, and
  strings whose every character is below 256.
- **`btoa`** (`Base64`): a browser builtin, not code of this repository. It
  is written out as the base 64 encoding of section 4 of RFC 4648, with the
  standard alphabet and `=` padding. A decoder is included only as its
  partner, with a proved round trip. `btoa` fails with
  `InvalidCharacterError` exactly on a string that is not a binary string.
- **The file-upload path** (`FileUpload`): the `reduce` fold that turns the
  file's bytes into a binary string, then `btoa`.
- **The sample path** (`SampleUpload`): `arrayBufferToBase64`, a loop over
  the buffer in chunks of 0x8000 bytes, written as a `method` over an
  `array`. It is proved to build the same string as the fold, so both upload
  paths send the same payload for the same bytes. A ghost result lists the
  ranges the loop visits; lemmas show that these ranges tile the buffer.

`split` always yields at least one piece, even for `""`, so the
`parent === undefined` skip (frontend/src/app/page.tsx:109) never fires. A
name that starts with `.` goes into the group of the empty parent `""`.
`Layers.LeadingDotHasEmptyParent` states this, and the `SplitLayers` loop
has no skip branch.

## Model

| member | source | states |
|---|---|---|
| Layers.SplitOnDot | frontend/src/app/page.tsx:108 | `split(".")` gives at least one piece, no piece holds a `.`, and joining the pieces with `.` gives the name back |
| Layers.SplitJoin | frontend/src/app/page.tsx:108 | splitting a join of dot-free pieces gives those pieces back, so the split is the unique such decomposition |
| Layers.SplitUndotted | frontend/src/app/page.tsx:105-108 | a name without `.` splits into itself alone |
| Layers.SplitDotFreePrefix | frontend/src/app/page.tsx:108 | a dot-free head followed by `.` becomes the first piece, and the rest splits as before |
| Layers.ParentIsTextBeforeFirstDot | frontend/src/app/page.tsx:108 | for a name with a `.`, the parent is dot-free, the name has a `.` right after it, and the name starts with it: it is the text before the first `.` |
| Layers.LeadingDotHasEmptyParent | frontend/src/app/page.tsx:108-109 | a name starting with `.` gets the empty parent, which is not skipped |
| Layers.SplitLayers | frontend/src/app/page.tsx:100-117 | `main` is the undotted entries in input order; the keys of `internals` are exactly the parents of the dotted names; each group is the entries with that parent, in input order |
| Layers.MainStep | frontend/src/app/page.tsx:105-106 | pushing an undotted entry onto `main` keeps the outputs equal to the partition of the entries seen so far |
| Layers.ChildStep | frontend/src/app/page.tsx:107-112 | creating the group if it is missing and then pushing onto it keeps the outputs equal to the partition of the entries seen so far |
| Layers.PickStep | frontend/src/app/page.tsx:104-113 | one more entry extends exactly the output its name selects, and adds its parent to the keys only when the name is dotted |
| Layers.GroupExistsIffParent | frontend/src/app/page.tsx:111-112 | a parent is a key of `internals` if and only if its group is non-empty |
| Layers.GroupsAreNonEmpty | frontend/src/app/page.tsx:111-112 | every group that exists holds at least one child |
| Layers.PickAppend | frontend/src/app/page.tsx:104-113 | partitioning a concatenation concatenates the outputs, so order is kept |
| Layers.PickCount | frontend/src/app/page.tsx:104-113 | an output holds an entry as often as the input does if the output selects it, and never otherwise |
| Layers.PickedAreSelected | frontend/src/app/page.tsx:105-112 | every entry of an output comes from the input, and its name belongs there: no main name has a `.`, and every child has that parent |
| Layers.Partition | frontend/src/app/page.tsx:104-113 | multiset counts: an undotted entry is in `main` as often as in the input and in no group; a dotted entry is in its parent's group as often as in the input, and in `main` and every other group zero times |
| Layers.DistinctOccursOnce | frontend/src/app/page.tsx:104 | with distinct names (object keys), each entry occurs once in `Object.entries` |
| Layers.ExactlyOnce | frontend/src/app/page.tsx:104-113 | with distinct names, each entry is exactly once in its output, and a dotted entry's parent is a key of `internals` |
| Layers.PickPosition | frontend/src/app/page.tsx:104-112 | a selected input entry sits in its output at the number of selected entries before it |
| Layers.KeepsInputOrder | frontend/src/app/page.tsx:104-112 | two selected entries keep their relative input order in the output |
| Layers.ChildrenStartWithParent | frontend/src/app/page.tsx:108-112 | every name in the group of `p` starts with `p + "."` |
| Layers.MainChildMain | frontend/src/app/page.tsx:100-117 | for a main layer, its child, then another main layer: `main` holds both main layers in order and the one group holds the child |
| Layers.ConvExample | frontend/src/app/page.tsx:100-117 | `{conv1, conv1.relu, conv2}` gives `main = [conv1, conv2]` and `internals = {conv1: [conv1.relu]}` |
| Display.TableGlyphsAreTruthy | frontend/src/app/page.tsx:43-94 | no entry of the 50-label table is falsy, and none is the fallback glyph |
| Display.EmojiLookup | frontend/src/app/page.tsx:96-98 | the lookup with its `\|\|` fallback gives the table's entry for a label in the table, the speaker exactly for a label not in it, and never the empty string |
| Display.TopPredictions | frontend/src/app/page.tsx:269 | at most three predictions are shown (all of them when fewer than three), and they are the first ones in API order |
| Display.TopAreMostConfident | frontend/src/app/page.tsx:269 | when the API lists predictions by decreasing confidence, no hidden prediction is more confident than a shown one |
| Display.UnderscoresToSpaces | frontend/src/app/page.tsx:274 | same length; each `_` becomes a space and every other character stays |
| Display.UnderscoresGone | frontend/src/app/page.tsx:274 | no `_` is left, replacing again changes nothing, and a label without `_` is unchanged |
| Display.IndexOfFrom | frontend/src/app/page.tsx:349 | the result is the first index at or after `from` where the pattern occurs, or none when it does not occur |
| Display.ReplaceFirst | frontend/src/app/page.tsx:349 | with no occurrence the string is unchanged; otherwise only the first occurrence is replaced and the text around it is kept |
| Display.ChildTitleDropsPrefix | frontend/src/app/page.tsx:349 | for a name that starts with `mainName + "."`, the title is the name with exactly that prefix removed |
| Display.ChildTitlesOfGroup | frontend/src/app/page.tsx:343-349 | every child listed under `mainName` is titled by the text after its first `.`, and prefixing `mainName + "."` gives the name back |
| BinaryString.CodeUnit | frontend/src/app/page.tsx:157 | `String.fromCharCode(byte)` is the character whose code is the byte |
| BinaryString.FromCharCodesRoundTrip | frontend/src/app/SamplesButton.tsx:27 | the characters built from bytes form a binary string whose codes are those bytes |
| BinaryString.CharCodesRoundTrip | frontend/src/app/SamplesButton.tsx:27-29 | every binary string is built from its own character codes |
| BinaryString.FromCharCodesAppend | frontend/src/app/SamplesButton.tsx:25-28 | converting two byte runs and joining the strings is converting their concatenation |
| Base64.SextetRoundTrip | frontend/src/app/SamplesButton.tsx:29 | each alphabet character decodes to the sextet it encodes and is never the pad character |
| Base64.Encode | frontend/src/app/SamplesButton.tsx:29 | the encoding is a whole number of four-character groups, with three bytes per group except for a padded last group of one or two bytes |
| Base64.DecodeOneByte | frontend/src/app/SamplesButton.tsx:29 | a last group of one byte, padded with `==`, decodes to that byte |
| Base64.DecodeTwoBytes | frontend/src/app/SamplesButton.tsx:29 | a last group of two bytes, padded with `=`, decodes to those bytes |
| Base64.DecodeStep | frontend/src/app/SamplesButton.tsx:29 | four alphabet characters in front of a rest decode to their three bytes in front of the rest's bytes, or fail when the rest fails |
| Base64.DecodeGroup | frontend/src/app/SamplesButton.tsx:29 | the group of three bytes in front of a decodable rest decodes to those bytes in front of the rest's bytes |
| Base64.DecodeEncode | frontend/src/app/SamplesButton.tsx:29 | decoding the encoding of any byte sequence gives that sequence back |
| Base64.EncodeAlphabet | frontend/src/app/SamplesButton.tsx:29 | every encoding uses only alphabet characters, with `=` only in its last two places |
| Base64.Btoa | frontend/src/app/SamplesButton.tsx:29 | `btoa` succeeds if and only if every character is below 256, and its output then decodes back to the string's character codes |
| FileUpload.ReduceToBinary | frontend/src/app/page.tsx:156-159 | the fold yields one character per byte, and character `k` has code `bytes[k]` |
| FileUpload.ReduceIsFromCharCodes | frontend/src/app/page.tsx:156-159 | the fold builds the same string as `String.fromCharCode` over all the bytes |
| FileUpload.UploadPayload | frontend/src/app/page.tsx:155-160 | `btoa` of the fold cannot throw, and the `audio_data` payload decodes back to the file's bytes |
| FileUpload.EmptyFilePayload | frontend/src/app/page.tsx:155-160 | an empty file is sent as the empty string |
| SampleUpload.ArrayBufferToBase64 | frontend/src/app/SamplesButton.tsx:21-30 | the chunked loop builds the same binary string as the per-byte fold; the ranges visited are `[i, min(i + 0x8000, n))` for `i = 0, 0x8000, …` below `n`; the result is the same payload as for an uploaded file with these bytes |
| SampleUpload.ChunkStep | frontend/src/app/SamplesButton.tsx:25-28 | one turn of the loop: the chunk's characters extend the converted prefix up to `min(i + 0x8000, n)`, and its range extends the visited ones |
| SampleUpload.BinaryIsPayload | frontend/src/app/SamplesButton.tsx:24-29 | the whole converted buffer equals the fold, `btoa` accepts it, and it gives the upload payload |
| SampleUpload.ChunksTile | frontend/src/app/SamplesButton.tsx:24-27 | the `j`-th chunk starts at `j * 0x8000` and ends where the next one starts or at the buffer's end; it is never empty, and only the last chunk may be short |
| SampleUpload.ChunkCount | frontend/src/app/SamplesButton.tsx:25 | the loop runs once for each started block of 0x8000 bytes, so not at all for an empty buffer |

## Left out

- React rendering, the hooks and `useState` flags, toasts, styling, and the
  whole of `frontend/src/app/layout.tsx`: these are presentation only.
- `fetch`, `FileReader`, `response.json()` and the error-message plumbing:
  - this is network and file I/O against an external endpoint;
  - the bytes a file or sample yields are a parameter of the model instead.
- Races between overlapping sample or upload requests: this is concurrency,
  not modelled.
- The `localeCompare` sort of a group's children before display: it is
  locale-dependent. Titles are stated per child, whatever the order.
- Confidence and duration formatting (`toFixed`) and the progress-bar
  values: these are floating point. A confidence is taken as a `real`,
  only to state the order of the top predictions.
- The emoji glyphs themselves: the model keeps the lookup keys and the
  fallback, not the glyph bytes.
- Prototype-property collisions on the page's plain objects:
  - on the `{}` used for `internals`, `constructor.x` finds
    `Object.prototype.constructor`;
  - on `ESC50_EMOJI_MAP`, in `Display.EmojiForClass`, a label such as
    `constructor`, `toString` or `__proto__` gives an inherited member, not
    the speaker.

  Both are ordinary maps here, so Display.EmojiLookup's speaker fallback
  holds for every label outside the table, these included.
- Strings are sequences of Unicode scalar values, not UTF-16 code units, so
  lone surrogates cannot be represented. `includes`, `split`, `replace`,
  `replaceAll` and `fromCharCode` of a byte do not behave differently
  because of this.
- The iteration order of `Object.entries`, such as integer-like keys coming
  first: the entries are taken as the given sequence.
- The engine's limit on the number of arguments of `String.fromCharCode(...chunk)`:
  - chunks of 0x8000 bytes stay far below it;
  - a call is modelled as one character per argument.
- Base64.Decode: a partner to `Encode` only, not the browser's `atob`. It
  accepts non-zero bits under the padding and no whitespace, which is
  enough for the round trip.
- Display.TopAreMostConfident: assumes the API lists predictions by
  decreasing confidence. The page itself does not sort them.
- SampleUpload.ArrayBufferToBase64: models `bytes.subarray` as a copy of the
  range, not as a view sharing the buffer. Nothing writes to the buffer, so
  the difference cannot be observed.
