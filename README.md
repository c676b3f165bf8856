# Comma-list field codec

A Dafny model of the comma-list field codec of `serde-snippets`
(`src/separator.rs`). The codec is attached to a single record field and
changes how that field is written and read:

- `separate_by_comma` writes a list of strings as one string with its
  elements joined by `,`, and reads a string back by splitting it on every
  `,`, keeping every segment (empty leading, interior and trailing ones
  included, so `""` reads as `[""]`). There is no escaping: an element that
  holds `,` cannot be told apart from two elements.
- `option_separate_by_comma` does the same for an optional list: an absent
  (null) field stays absent in both directions, a present one goes through
  the required codec.

The model is made of pure functions, as the source is:

- `wrappers.dfy` — `Option` (absent or present) and `Result` (the host
  framework's extraction result: a value or the host's own error).
- `separate_by_comma.dfy` — module `SeparateByComma`: `Join` (serialize),
  `Split` (deserialize, by recursion over the characters of the string),
  `Deserialize` (deserialize with the host's extraction error passed through
  unchanged), and the lemmas about them.
- `option_separate_by_comma.dfy` — module `OptionSeparateByComma`:
  `OptJoin`, `OptSplit`, `Deserialize`, and the lemmas that tie them to the
  required codec.

Strings are `seq<char>`; non-ASCII characters such as `い` are ordinary
characters, and `,` is the only one the codec treats specially.

## Model

| member | source | states |
|---|---|---|
| `SeparateByComma.Split` | src/separator.rs:16-19 | a string with n commas splits into exactly n + 1 segments, so the result is never empty |
| `SeparateByComma.SplitCommaFree` | src/separator.rs:16-19 | no segment produced by splitting contains `,` |
| `SeparateByComma.JoinSplit` | src/separator.rs:4-20 | splitting any string and joining the segments again gives back that string |
| `SeparateByComma.SplitJoin` | src/separator.rs:4-20 | joining a non-empty list whose elements contain no `,` and splitting the result gives back the list |
| `SeparateByComma.SplitCharacterized` | src/separator.rs:16-19 | the split of s is the one and only list that is non-empty, has comma-free elements and joins back to s |
| `SeparateByComma.JoinCommaCount` | src/separator.rs:8 | joining n ≥ 1 elements adds exactly n − 1 commas to those the elements already hold |
| `SeparateByComma.EmptyListDoesNotRoundTrip` | src/separator.rs:4-20 | the empty list joins to `""`, which splits to `[""]`, not back to the empty list |
| `SeparateByComma.EmbeddedCommaDoesNotRoundTrip` | src/separator.rs:4-20 | the one-element list `["a,b"]` joins and splits to `["a", "b"]` |
| `SeparateByComma.JoinExamples` | src/separator.rs:8 | `[]` joins to `""`, `["a","b"]` to `"a,b"`, `["aa","いい","uu"]` to `"aa,いい,uu"` |
| `SeparateByComma.SplitExamples` | src/separator.rs:16-19 | `""` splits to `[""]`, `"a,,b"` to `["a","","b"]`, `"aa,いい,uu"` to `["aa","いい","uu"]` |
| `SeparateByComma.Deserialize` | src/separator.rs:11-20 | a host extraction error is returned unchanged; an extracted string decodes to a non-empty list of comma-free segments that joins back to it |
| `SeparateByComma.DeserializeExample` | src/separator.rs:61-73 | the field value `"aa,いい,uu"` decodes to `["aa","いい","uu"]` |
| `OptionSeparateByComma.OptJoin` | src/separator.rs:26-31 | the result is absent exactly when the list is absent; a present non-empty comma-free list is joined into a string that splits back to it |
| `OptionSeparateByComma.OptSplit` | src/separator.rs:37-43 | the result is absent exactly when the string is absent; a present string decodes to a non-empty list of comma-free segments that joins back to it |
| `OptionSeparateByComma.Deserialize` | src/separator.rs:33-44 | a host extraction error is returned unchanged; otherwise absent decodes to absent and a present string to a non-empty list of comma-free segments that joins back to it |
| `OptionSeparateByComma.AgreesWithRequired` | src/separator.rs:26-44 | on a present value the optional codec equals `Some` of the required codec, in both directions |
| `OptionSeparateByComma.AbsenceKept` | src/separator.rs:26-44 | absent maps to absent in both directions, while `Some("")` decodes to `Some([""])` and `Some([])` encodes to `Some("")` |
| `OptionSeparateByComma.JoinSplitOpt` | src/separator.rs:26-44 | decoding then encoding gives back every optional string |
| `OptionSeparateByComma.SplitJoinOpt` | src/separator.rs:26-44 | encoding then decoding gives back an absent list and every present non-empty list whose elements contain no `,` |
| `OptionSeparateByComma.DeserializeExamples` | src/separator.rs:90-120 | the field value `"aa,いい,uu"` decodes to `Some(["aa","いい","uu"])` and `null` decodes to absent |

## Left out

- The host serialization framework (`Serializer`, `Deserializer`,
  `serialize_str`, the `Option` serialize dispatch, `String::deserialize`):
  the model works on the values that cross that boundary. The host's
  extraction error on the reading side is a type parameter passed through
  unchanged; errors the host's serializer may raise on the writing side are
  the host's own and are not modelled, so both serialize functions are
  modelled as `Join` and `OptJoin`.
- Attaching the codec to a field with `#[serde(with = ...)]` and the JSON
  documents used by the tests (`serde_json`, `anyhow`): only their concrete
  field values appear, as example lemmas.
- `src/wide2ascii.rs`: it only hands the string to the external
  `kana::wide2ascii` function, whose character table is not part of this
  model.
- Memory ownership of `Vec<String>` and `&str` (copies versus borrows): the
  model works on values.
