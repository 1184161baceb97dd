# Text fragment editor: the hash codec

The URL Hash Text Fragment Editor takes a URL and shows the four parts of its
`#:~:text=[prefix-,]textStart[,textEnd][,-suffix]` directive. The user edits the
parts and the editor writes a new URL. This project models the codec at the
centre of the editor, at the level of the hash string:

- **Decoder** (`FragmentCodec.Parse`, `FragmentCodec.Decode`). The anchored
  pattern of `src/App.tsx` is written as a hand-written parser. The parser cuts
  the body after `#:~:text=` at its commas. It then tries the eight shapes of
  optional groups in the pattern's backtracking order. Every optional group is
  greedy, so a shape with the prefix is tried before one without it, then the
  textEnd group, then the suffix group. Each captured token is percent-decoded
  (`PercentCoding.PercentDecode`). A failed decode empties only that part. A hash
  that does not match gives four empty parts.
- **Specification of the pattern**. `Reads(hash, m)` says that `m` is one way to
  match `hash`: its tokens are one or more characters of
  `[!%'()*\-.0-9A-Z_a-z~]`, and its spelling is `hash`. `Preferred` says that no
  reading comes earlier in the backtracking order. The parser is proved to
  return the preferred reading, and exactly when some reading exists.
- **Encoder** (`FragmentCodec.EncodeToken`, `Fmt`, `NewHash`).
  `EncodeToken` is encodeURIComponent followed by `.split('-').join('%2D')`.
  `Fmt` drops an empty part and wraps a non-empty one in its separators.
  `NewHash` joins the pieces when `textStart` is set. Otherwise it clears a
  text-fragment hash and keeps any other hash.
- **Editor state** (`TextFragmentEditor.Editor`). This class holds the URL's
  hash and the parts. It has methods for loading a hash, `upsertParts`,
  "Remove text fragment" and the displayed output. Its constant `reading`
  picks the pattern it decodes with. `AsWritten` is the program's own
  pattern. `Corrected` is the repaired one (see "## Findings").

Each part is held as the UTF-8 bytes of its text (`seq<byte>`). Percent-coding
works on those octets, as in ECMA-262 (section 2.1 of RFC 3986). The
encoder's unreserved set is the unreserved set of section 2.3 of RFC 2396. The
decoder's character class is that set plus `%` (`ValidCharIsUnreservedOrPercent`).

The central result is `FragmentRoundTrip.RoundTrip`. When `textStart` is
non-empty, decoding the hash that the editor writes gives back the same four
parts. The dash escaping makes this possible: an encoded token never holds a
raw `-`, so `-,` and `,-` always mark a prefix and a suffix. Without it the
decoder could not tell them apart. The round trip needs one correction to the
pattern (see "## Findings"). Two lemmas give the exact domain on which the
pattern as written round-trips. `RoundTripAsWritten` proves the round trip when
there is a textEnd or no suffix. `SuffixBecomesTextEnd` proves that in every
other case the suffix comes back as a textEnd that starts with `-`.

## Model

| member | source | states |
|---|---|---|
| Text.Split | src/App.tsx:17 | `split` gives at least one piece; no piece contains the separator; every character of a piece comes from the input |
| Text.JoinSplit | src/App.tsx:17 | `.split(c).join(r)` replaces every `c` of the string by `r` |
| Text.SplitJoin | src/App.tsx:45-53 | joining separator-free pieces with `,` and splitting at `,` again gives back the same pieces |
| Text.JoinLength | src/App.tsx:17 | `join` gives a string as long as its pieces plus one separator between each pair of neighbours |
| Text.DropEmpty | src/App.tsx:90 | `filter(Boolean)` leaves no empty string and never lengthens the list |
| Text.DropEmptyMembers | src/App.tsx:90 | `filter(Boolean)` keeps exactly the non-empty strings |
| Text.DropEmptyAppend | src/App.tsx:90 | filtering a concatenation filters each part and keeps their order |
| Text.JoinDropEmpty | src/App.tsx:90-91 | `.filter(Boolean).join('')` gives the same string as concatenating all the pieces |
| PercentCoding.PercentEncode | src/App.tsx:16-17 | the encoding is empty exactly when the input is; each character is `%` or unreserved, and never a raw `-` when dashes are escaped |
| PercentCoding.PercentDecode | src/App.tsx:60-64 | a successful decode is no longer than its input, and a non-empty input decodes to a non-empty value |
| PercentCoding.DecodeSucceedsIff | src/App.tsx:60-64 | the model's decodeURIComponent fails (URIError) exactly when some `%` is not followed by two hexadecimal digits; the UTF-8 check of the real function is not modelled |
| PercentCoding.DecodePlain | src/App.tsx:61 | text without `%` decodes to its own character codes |
| PercentCoding.DecodeEncode | src/App.tsx:16-17 | decoding undoes percent-encoding, whether or not `-` is escaped |
| FragmentCodec.UpperHex | src/App.tsx:14 | `toString(16).toUpperCase()` gives upper-case hexadecimal digits whose value is the number, with no leading zero |
| FragmentCodec.PadStart2 | src/App.tsx:14 | `padStart(2, '0')` puts `0`s in front of the string until it has two characters, and changes nothing else |
| FragmentCodec.PaddedHexIsEscape | src/App.tsx:13-14 | `'%'` followed by the padded upper-case hex of an octet is the escape encodeURIComponent writes for that octet |
| FragmentCodec.EncodedDashIsEscapeOfDash | src/App.tsx:13-14 | `encodedDash` is `%2D`, the escape of U+002D |
| FragmentCodec.EncodeToken | src/App.tsx:16-17 | the wrapper equals percent-encoding with `-` removed from the unreserved set |
| FragmentCodec.Fmt | src/App.tsx:19-20 | a formatted part is empty exactly when the part is empty, so an empty part adds no separator |
| FragmentCodec.NewHash | src/App.tsx:81-94 | the new hash starts with `#:~:text=` exactly when `textStart` is set; otherwise it is empty or the old hash |
| FragmentCodec.ShapeOfRank | src/App.tsx:48-51 | the shape tried at each step of the backtracking order has that rank |
| FragmentCodec.Parse | src/App.tsx:45-53 | every match the parser returns is a reading of the hash: valid tokens that spell the hash exactly |
| FragmentCodec.DecodePart | src/App.tsx:57-65 | a group decodes to a non-empty part exactly when it was captured and every `%` in it begins an escape; an absent group or a URIError gives `''` |
| FragmentCodec.Decode | src/App.tsx:42-56 | a hash without the exact `#:~:text=` lead, or with any body character outside the valid class and `,`, decodes to four empty parts |
| FragmentCodec.SpellingSegments | src/App.tsx:44-53 | a match is spelled as the lead followed by its comma-separated pieces |
| FragmentCodec.CarveSound | src/App.tsx:48-51 | pieces read in a shape give a match of that shape with the same pieces, and it is well formed when the pieces hold valid characters |
| FragmentCodec.CarveComplete | src/App.tsx:48-51 | every well-formed match is read back from its own pieces in its own shape |
| FragmentCodec.SearchBest | src/App.tsx:48-51 | when some shape fits, the search finds a match that ranks no lower than it |
| FragmentCodec.ParseBest | src/App.tsx:45-53 | whenever the hash has a reading, the parser matches it, no later in the backtracking order than that reading |
| FragmentCodec.BodyOfReading | src/App.tsx:44-53 | a hash with a reading starts with `#:~:text=`, its body holds only valid characters and `,`, and the body splits at `,` into the reading's pieces |
| FragmentCodec.SameSegments | src/App.tsx:45-53 | two readings of one hash cut it into the same pieces |
| FragmentCodec.ShapeDetermines | src/App.tsx:45-53 | two readings of one hash with the same groups present are identical |
| FragmentCodec.ParseIsPreferred | src/App.tsx:45-56 | the parser matches exactly when a reading exists, and then returns the reading the backtracking order prefers |
| FragmentCodec.PreferredUnique | src/App.tsx:45-53 | the preferred reading is unique |
| FragmentRoundTrip.ValidCharIsUnreservedOrPercent | src/App.tsx:42 | the decoder's class is the encoder's unreserved set plus `%` |
| FragmentRoundTrip.EncodeTokenFacts | src/App.tsx:16-17 | an encoded token is non-empty for a non-empty part, holds no raw `-`, uses only valid characters, and decodes back to the part |
| FragmentRoundTrip.NewHashSpelling | src/App.tsx:81-91 | with `textStart` set, the new hash is `#:~:text=`, then `prefix-,`, `textStart`, `,textEnd`, `,-suffix` in that order, each present exactly when its part is non-empty |
| FragmentRoundTrip.NewHashWithoutStart | src/App.tsx:92-94 | with `textStart` empty, a hash starting with `#:~:text=` becomes empty and any other hash is kept unchanged |
| FragmentRoundTrip.EncodedMatchWellFormed | src/App.tsx:16-20 | the groups the encoder writes are valid, dash-free tokens |
| FragmentRoundTrip.SegmentDashes | src/App.tsx:48-51 | the first piece ends with `-` exactly for a prefix and the last starts with `-` exactly for a suffix, when the tokens are dash-free |
| FragmentRoundTrip.NoEarlierReading | src/App.tsx:48-51 | no reading of the encoder's hash comes earlier in the backtracking order than the one it was written from, except under the pattern as written when there is a suffix but no textEnd |
| FragmentRoundTrip.RoundTrip | src/App.tsx:45-91 | with `textStart` set, decoding the new hash with the corrected pattern gives back the four parts |
| FragmentRoundTrip.RoundTripAsWritten | src/App.tsx:45-91 | the pattern as written also gives the parts back when there is a textEnd or no suffix |
| FragmentRoundTrip.NoReadingAboveTextEnd | src/App.tsx:48-51 | under the pattern as written, no reading of a dash-free match with a suffix and no textEnd ranks above the shape that has a textEnd instead of the suffix |
| FragmentRoundTrip.TextEndTakesSuffix | src/App.tsx:50-51 | under the pattern as written, a dash-free match with a suffix and no textEnd is parsed with `-suffix` as its textEnd and no suffix |
| FragmentRoundTrip.SuffixBecomesTextEnd | src/App.tsx:45-91 | under the pattern as written, parts with a suffix and no textEnd come back with textEnd `-` followed by the suffix, and an empty suffix |
| FragmentRoundTrip.DecodeNewHash | src/App.tsx:81-94 | loading the output hash gives four empty parts when `textStart` is empty; when it is set, the corrected pattern gives the parts back, and the pattern as written does so except that a suffix without a textEnd comes back as the textEnd `-suffix` |
| DecodeCases.DecodeHello | src/App.tsx:55-65 | `#:~:text=hello` decodes to textStart `hello` and three empty parts |
| DecodeCases.DecodeAllFour | src/App.tsx:55-65 | `#:~:text=foo-,hello,world,-bar` decodes to prefix `foo`, textStart `hello`, textEnd `world` and suffix `bar` |
| DecodeCases.BadCharDecodesEmpty | src/App.tsx:42-56 | one body character outside the valid class and `,` makes the whole hash decode to four empty parts |
| DecodeCases.DecodeInvalidChar | src/App.tsx:42-56 | `#:~:text=hi there` decodes to four empty parts |
| DecodeCases.DecodeBareLead | src/App.tsx:49 | `#:~:text=` with no textStart decodes to four empty parts |
| DecodeCases.DecodeMalformedEscape | src/App.tsx:60-64 | in `#:~:text=%ZZ,world` only textStart is emptied, and textEnd is still `world` |
| DecodeCases.LetterSuffixHash | src/App.tsx:81-91 | for a one-letter textStart and a one-letter suffix, the editor writes `#:~:text=` followed by the textStart, `,-` and the suffix |
| DecodeCases.SuffixReadAsTextEnd | src/App.tsx:50-51 | the editor writes `#:~:text=a,-b` for textStart `a` and suffix `b`, and the pattern as written reads it as textEnd `-b` with no suffix |
| DecodeCases.SuffixOnlyCorrected | src/App.tsx:50-51 | the corrected pattern reads `#:~:text=a,-b` back as textStart `a` and suffix `b` |
| TextFragmentEditor.Merge | src/App.tsx:27-29 | `{...parts, ...partial}` takes each field given in the update from it and keeps every other field |
| TextFragmentEditor.MergeIdempotent | src/App.tsx:27-29 | applying the same update twice is the same as applying it once |
| TextFragmentEditor.Editor.constructor | src/App.tsx:23-25 | the editor starts with an empty hash and `emptyParts`, and decodes with the reading it is given |
| TextFragmentEditor.Editor.Load | src/App.tsx:41-73 | a new hash replaces the parts with the parts decoded from it by the editor's reading (`AsWritten` for the program) |
| TextFragmentEditor.Editor.Upsert | src/App.tsx:27-29 | the parts become the old parts merged with the update |
| TextFragmentEditor.Editor.RemoveTextFragment | src/App.tsx:196 | the parts become `emptyParts` |
| TextFragmentEditor.Editor.Output | src/App.tsx:75-100 | the displayed hash is the new hash for the current parts. Loading it gives empty parts when `textStart` is empty. Otherwise it gives the parts back, except that under the pattern as written a suffix without a textEnd comes back as the textEnd `-suffix` |

## Findings

| source | as written | input that shows it | evidently intended | confidence | as-written member | corrected member |
|---|---|---|---|---|---|---|
| src/App.tsx:50-51 | the optional textEnd group `(?:,(V+))?` is greedy, is tried before the suffix group, and its class contains `-`, so it can take `,-suffix` | parts with textStart `a` and suffix `b`: the editor writes `#:~:text=a,-b`, which decodes to textStart `a`, textEnd `-b` and an empty suffix | `,-b` is the suffix. A textEnd never starts with `-`, as the Text Fragments syntax says, so the editor's output round-trips | high; not executed | DecodeCases.SuffixReadAsTextEnd | FragmentRoundTrip.RoundTrip |

The corrected reading (`Reading.Corrected`) bars textEnd from starting with `-`.
The pattern as written (`Reading.AsWritten`) is modelled beside it, and an
`Editor` decodes with either one. `RoundTripAsWritten` and
`SuffixBecomesTextEnd` together prove that the two readings differ on the
editor's output exactly for parts that have a suffix but no textEnd. The
correction also rejects hashes such as `#:~:text=a,-b,-c`, which the program
reads as textEnd `-b` and suffix `c`. The editor never writes such a hash,
because its tokens hold no raw `-`.

## Left out

- React rendering, the form inputs and the `useEffect`/`useMemo` scheduling: these are presentation. `Editor.Load` is what the decoding effect does when the hash changes.
- URL parsing and serialisation (`new URL`, the `url.hash` setter, `String(url)`) belong to the browser's URL library, which is not part of this model. The editor holds only the URL's hash. An invalid URL shows up only as an empty hash, and the URL-level output and its empty result for an invalid URL are not modelled.
- The conversion between the form's UTF-16 text and UTF-8 bytes is not modelled. Each part is held as its UTF-8 bytes. decodeURIComponent's URIError on a malformed UTF-8 sequence (for example a lone `%C3`) and encodeURIComponent's URIError on a lone surrogate are not modelled either.
- DropEmpty: its own contract says only that no empty string is left and that the list gets no longer. That it keeps every non-empty string in order is stated by `DropEmptyMembers` and `DropEmptyAppend`. Those facts are kept off the function because hashes given as literals then cost the verifier far more to evaluate.
- Join: carries no contract of its own for the same reason. Its length is `JoinLength`, and its meaning together with `Split` is `JoinSplit` and `SplitJoin`.
- PercentCoding.PercentDecode: requires an ASCII argument. Its only caller passes captured tokens, and every character of the token class is ASCII. decodeURIComponent on non-ASCII text is not modelled.
- The `fancy-regex` library itself: the pattern is modelled by a parser together with its specification (`Reads`, `Preferred`).
- Trimming of the URL input and the "Please enter a valid URL" message are presentation only.
- A `Partial` update whose field is explicitly `undefined` is not modelled. An update field is either given (`Some`) or absent (`None`).
