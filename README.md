# insta and cargo-insta, modelled in Dafny

insta is a snapshot-testing library for Rust. A test asserts that a value matches a stored snapshot. The snapshot is either a `.snap` file next to the test or an inline string literal in the test's source, after an `@`. When the value differs, insta writes a pending snapshot: a `.snap.new` file, or one line of a `.pending-snap` batch for inline snapshots. cargo-insta is the command-line tool that finds those pending snapshots and lets the user accept, reject or skip each one. Accepting one writes it into the `.snap` file or back into the test's source.

The repository holds two generations of this code, and this project models both, in separate modules:
- the current one, under `insta/` plus `cargo-insta/src/container.rs` and `cargo-insta/src/walk.rs`;
- an older one, under top-level `src/` plus `cargo-insta/src/cargo.rs` and `cargo-insta/src/inline.rs`.

Each module follows one source file:

| module | source | what it holds |
|---|---|---|
| `Wrappers`, `Strs`, `Paths`, `Sorting` | Rust's std | `Option`/`Result`, the parts of `str`, `Path` and the sorts the code relies on |
| `Contents`, `ContentKeys` | insta/src/content/mod.rs, serialization.rs | the `Content` value tree, its accessors and checked integer conversions, map-key ordering, `sort_maps`, the builders |
| `LegacyContent`, `ContentUtils` | src/content.rs, src/content/utils.rs | the older accessors and `pop_*` field readers |
| `Json`, `LegacyJson` | insta/src/content/json.rs, src/content/json.rs | the JSON serializers, as classes appending to a buffer, proved to write `Render` of the value |
| `YamlFormat`, `OrderedHashMaps`, `LegacyYaml`, `LegacyParse` | insta/src/content/yaml, src/content/yaml.rs, formats.rs, src/parse | conversions between YAML nodes and `Content`, the insertion-ordered map, the older untyped value |
| `Snapshot`, `RustStrings`, `LegacyInline`, `SnapshotMeta` | insta/src/snapshot.rs | normalisation and equality, the inline literal and reading it back, the `⋮` format, metadata, names, the pending batch filter |
| `LegacySnapshot`, `LegacyMetaData`, `Loader` | src/snapshot.rs, src/loader.rs | the older literal, equality, dedent, metadata and `.snap` file reading |
| `Output` | insta/src/output.rs | newline detection and invisible-character rendering |
| `Env`, `LegacyEnv` | insta/src/env.rs, src/env.rs | the tool configuration, its value tables and the update decision |
| `Runtime`, `LegacyRuntime`, `Comparator` | insta/src/runtime.rs, src/runtime.rs, insta/src/comparator.rs | snapshot naming, file layout, duplicate detection and the decision after comparing |
| `Redaction`, `LegacyRedaction` | insta/src/redaction.rs, src/redaction.rs | selectors, their matching and the redaction of a value tree |
| `Glob` | insta/src/glob.rs | the `glob!` driver: traversal check, filter, suffix choice, failure accounting |
| `InlinePatcher` | cargo-insta/src/inline.rs | the `FilePatcher` that writes accepted inline snapshots into a source file |
| `Container`, `CargoContainer` | cargo-insta/src/container.rs, cargo.rs | loading, reviewing and committing the pending snapshots of one file |
| `Walk`, `Cargo` | cargo-insta/src/walk.rs, cargo.rs | classifying walked files, walk roots and package selection |

How the code is modelled:
- Code that updates state in place is a class whose methods are proved against a specification function. This covers the JSON serializers, the content builders, the redactor's path stack, the ordered map, the file patcher, the runtime's registries, the glob stack, the file system seen by a container, and the loops of `load` and `commit`.
- Pure code is functions and lemmas.
- A panic is an error value.
- The file system is a map from path to what the file holds.
- Names, clocks and the environment are parameters.
- A method proved against a function states the whole new state in its `ensures`. The properties the source promises are lemmas about that function.

## Model

| member | source | states |
|---|---|---|
| Contents.ResolveInner | insta/src/content/mod.rs:186-194 | the result is never a `Some`/newtype wrapper, is the value itself when that is not a wrapper, and is otherwise a proper sub-tree of it |
| Contents.AsStr | insta/src/content/mod.rs:206-212 | a string exactly when the unwrapped value is a `String`, and then that string |
| Contents.AsBytes | insta/src/content/mod.rs:214-220 | bytes exactly when the unwrapped value is `Bytes`, and then its payload |
| Contents.AsSlice | insta/src/content/mod.rs:222-230 | the elements exactly when the unwrapped value is a sequence, tuple or tuple variant (not a tuple struct) |
| Contents.IsNil | insta/src/content/mod.rs:232-235 | true exactly when the unwrapped value is `None` or unit |
| Contents.AsBool | insta/src/content/mod.rs:237-243 | a boolean exactly when the unwrapped value is `Bool`, and then that boolean |
| Contents.AsU64 | insta/src/content/mod.rs:245-274 | a value exactly when the unwrapped integer lies in the `u64` range, and then the integer itself |
| Contents.AsI64AsWrittenWrapsU64 | insta/src/content/mod.rs:285-322 | as written, `U64(2^64-1).as_i64()` is `Some(-1)` although that integer is outside the `i64` range |
| Contents.AsI64 | insta/src/content/mod.rs:285-322 | corrected: a value exactly when the unwrapped integer lies in the `i64` range, and then the integer itself |
| Contents.AsI64Agrees | insta/src/content/mod.rs:285-322 | where the corrected reading gives a value the written one gives the same, and where the written one gives a value that is not negative the corrected one gives it too, so the two differ only where a large unsigned value wraps negative |
| Contents.AsU128 | insta/src/content/mod.rs:276-283 | a value exactly when the unwrapped integer lies in the `u128` range, and then the integer itself |
| Contents.AsI128AsWrittenWrapsU128 | insta/src/content/mod.rs:323-337 | as written, `U128(2^128-1).as_i128()` is `Some(-1)` although that integer is outside the `i128` range |
| Contents.AsI128 | insta/src/content/mod.rs:323-337 | corrected: a value exactly when the unwrapped integer lies in the `i128` range, and then the integer itself |
| Contents.WalkMapNode | insta/src/content/mod.rs:368-373 | on a map node whose visitor descends, `walk` visits each key and then its value, entry by entry |
| Contents.WalkObserverOrder | insta/src/content/mod.rs:350-403 | a visitor that only observes and always descends leaves the tree unchanged and sees every node in pre-order (node, then children left to right) |
| Contents.WalkSeqObserverOrder | insta/src/content/mod.rs:364-367 | the same for the elements of a sequence-like node: unchanged, visited in order |
| Contents.WalkEntriesObserverOrder | insta/src/content/mod.rs:368-373 | the same for map entries: key before value, entries in order |
| Contents.WalkFieldsObserverOrder | insta/src/content/mod.rs:374-383 | the same for struct fields: only the values are visited, in field order |
| ContentKeys.Discriminant | insta/src/content/serialization.rs:22-35 | the rank of every key kind lies between 1 (`Bool`) and 9 (`Other`) |
| ContentKeys.KeyCmp | insta/src/content/serialization.rs:40-59 | keys of different kinds are ordered by their kind's rank alone |
| ContentKeys.KeyCmpEqual | insta/src/content/serialization.rs:40-59 | two keys compare equal exactly when they are the same key, or both floats (the float payload comparison is left out), or both `Other` |
| ContentKeys.KeyCmpReverse | insta/src/content/serialization.rs:40-59 | the comparison is antisymmetric: swapping the keys reverses the result |
| ContentKeys.KeyCmpTransitive | insta/src/content/serialization.rs:40-59 | the comparison is transitive, so `sort_by` with it sorts |
| ContentKeys.AsKey | insta/src/content/serialization.rs:77-95 | an integer key carries the integer value of the unwrapped content; the key is `Other` exactly when the unwrapped content has no key of its own |
| ContentKeys.SortBySize | insta/src/content/serialization.rs:97-113 | sorting the entries of a map never changes the size of the tree, which lets `walk` go on into the sorted entries |
| ContentKeys.SortVisitorNonGrowing | insta/src/content/serialization.rs:97-113 | the visitor of `sort_maps` never makes a node larger |
| ContentKeys.SortMapsByNode | insta/src/content/serialization.rs:97-113 | `sort_maps` keeps the shape of the tree: every node keeps its kind, names and children in order, except that a map's entries are first sorted by the entry comparison and then each key and value is sorted in turn; leaves are unchanged (src/content.rs:170-177 is the same walk) |
| ContentKeys.SortItemsNode | insta/src/content/serialization.rs:97-113 | a sequence or tuple node of any kind keeps its kind and has each element sorted in turn |
| ContentKeys.SortFieldsNode | insta/src/content/serialization.rs:97-113 | a struct node keeps its kind and field names and has each field value sorted in turn |
| ContentKeys.SortOtherNode | insta/src/content/serialization.rs:97-113 | a leaf is unchanged and a wrapper keeps its kind with its one child sorted |
| ContentKeys.SortMapOfMap | insta/src/content/serialization.rs:97-113 | a map node has its entries sorted by the entry comparison first, and then each key and value sorted in turn |
| ContentKeys.SortMapsPermutes | insta/src/content/serialization.rs:97-113 | a sorted map holds exactly its own entries, each with key and value sorted, as a multiset |
| ContentKeys.SortedEntriesPermute | insta/src/content/serialization.rs:103-105 | sorting every key and value of the reordered entries gives the same multiset as sorting them in the original order |
| ContentKeys.SortEntriesPermutes | insta/src/content/serialization.rs:97-113 | sorting the keys and values of two permutations of the same entries gives two permutations of the same entries |
| ContentKeys.SortMapsBySortedDeep | insta/src/content/serialization.rs:97-113 | when the comparison is a total preorder on the keys at hand and sorting a key never changes how it compares, every map at every depth of the result is sorted |
| ContentKeys.ScalarKeyKept | insta/src/content/serialization.rs:77-113 | sorting leaves a key that has a key of its own (after its wrappers) as it was, so its `as_key` is unchanged |
| ContentKeys.ScalarKeysTotal | insta/src/content/serialization.rs:101-108 | on entries whose keys all have a key of their own the entry comparison is a total preorder |
| ContentKeys.SortMapsSortedDeep | insta/src/content/serialization.rs:97-113 | when every map key in the tree has a key of its own, every map at every depth of the `sort_maps` result is sorted by the entry comparison |
| ContentKeys.SortByKeyedEntries | insta/src/content/serialization.rs:101-108 | entries whose keys all have a key of their own are left as a permutation of themselves, sorted by `Key::cmp` |
| ContentKeys.MapBuilder.SerializeKey | insta/src/content/serialization.rs:546-553 | the key is kept waiting for its value (a second key replaces it); no entry is added; src/content.rs:662-669 is the same |
| ContentKeys.MapBuilder.SerializeValue | insta/src/content/serialization.rs:555-566 | succeeds exactly when a key is waiting, then appends the pair and clears the key; without a key (the source's `expect` panic) nothing changes |
| ContentKeys.MapBuilder.SerializeEntry | insta/src/content/serialization.rs:572-583 | appends the pair and leaves a waiting key alone |
| ContentKeys.MapBuilder.End | insta/src/content/serialization.rs:568-570 | a map holding the entries in call order |
| ContentKeys.SeqBuilder.SerializeElement | insta/src/content/serialization.rs:432-439 | appends the element (tuples, tuple structs and tuple variants share this builder) |
| ContentKeys.SeqBuilder.End | insta/src/content/serialization.rs:441-443 | a sequence-like node of the builder's kind holding the elements in call order |
| ContentKeys.StructBuilder.SerializeField | insta/src/content/serialization.rs:597-604 | appends the named field |
| ContentKeys.StructBuilder.End | insta/src/content/serialization.rs:606-608 | a struct, or a struct variant when the builder has a variant, with its name and the fields in call order |
| ContentKeys.MapBuilder.constructor | insta/src/content/serialization.rs:387-393 | a map builder starts with no entries and no pending key |
| ContentKeys.SeqBuilder.constructor | insta/src/content/serialization.rs:345-357 | a sequence builder of the given kind starts without elements |
| ContentKeys.StructBuilder.constructor | insta/src/content/serialization.rs:359-419 | a struct builder holds its name and variant and starts without fields |
| LegacyContent.LegacyAsStr | src/content.rs:129-134 | a string exactly when the value itself is a `String` (no wrapper is looked through), and then that string |
| LegacyContent.LegacyAsKey | src/content.rs:136-153 | never a 128-bit key; `Other` exactly when the value, after its `Some` layers, has no key of its own; an integer key carries the integer's value |
| LegacyContent.LegacyKeyOfNewtype | src/content.rs:136-153 | a newtype around a string is `Other` in the older code, where the current `as_key` (insta/src/content/serialization.rs:77-95) gives the string key |
| LegacyContent.LegacyKeyCmp | src/content.rs:64-82 | the derived order on the older keys: equal exactly when the keys are equal, or both floats, or both `Other` |
| LegacyContent.LegacyAsU64 | src/content.rs:156-168 | a value exactly for an unsigned integer or a non-negative signed one (no unwrapping), and then the integer itself |
| LegacyContent.LegacyEntryCmpTotal | src/content.rs:170-177 | the entry order of the older `sort_maps` is a total preorder on any entries, so the sort sorts |
| LegacyContent.LegacyKeyKept | src/content.rs:136-177 | sorting a key leaves its older `as_key` unchanged |
| LegacyContent.LegacySortMapsSortedDeep | src/content.rs:170-177 | every map at every depth of the older `sort_maps` result is sorted by key; with `ContentKeys.SortMapsByNode` and `ContentKeys.SortMapsPermutes` (applied to `LegacyEntryCmp`), the tree keeps its shape and each map its entries |
| ContentUtils.StructFields | src/content/utils.rs:5-17 | succeeds exactly when every key is a string; on failure the error carries the first key that is not; on success the map's names are exactly the string keys |
| ContentUtils.StructFieldsLast | src/content/utils.rs:5-17 | a field holds the value of the last entry with its name (collecting into a map keeps the later of two) |
| ContentUtils.FieldMap.Remove | src/content/utils.rs:28 | `BTreeMap::remove`: returns the field's value when present and leaves the map without that key |
| ContentUtils.NullableStr | src/content/utils.rs:27-41 | succeeds exactly when the field is missing, nil, or a string behind any wrappers; a present string is returned as is; every failure is `UnexpectedDataType` |
| ContentUtils.StrAccepts | src/content/utils.rs:19-25 | `pop_str` succeeds exactly when the field is present and a string behind any wrappers, and returns that string; a missing or nil field is `UnexpectedDataType` |
| ContentUtils.AsU32 | src/content/utils.rs:58 | read through `as_i64` as written: a value exactly when the integer itself lies in `u32`'s range, and then that value, since a large unsigned value that `as_i64` wraps negative is refused by `u32::try_from` |
| ContentUtils.NullableU32 | src/content/utils.rs:51-65 | succeeds exactly when the field is missing, nil, or an integer in `u32`'s range; every failure is `UnexpectedDataType` |
| ContentUtils.U32Accepts | src/content/utils.rs:43-49 | `pop_u32` succeeds exactly when the field is present with an integer in `u32`'s range, and returns that integer; every failure, a missing field included, is `UnexpectedDataType` |
| ContentUtils.PopNullableStr | src/content/utils.rs:27-41 | removes the key from the map and returns what `NullableStr` makes of the removed value |
| ContentUtils.PopStr | src/content/utils.rs:19-25 | removes the key and returns what `pop_str` makes of the removed value |
| ContentUtils.PopNullableU32 | src/content/utils.rs:51-65 | removes the key and returns what `NullableU32` makes of the removed value |
| ContentUtils.PopU32 | src/content/utils.rs:43-49 | removes the key and returns what `pop_u32` makes of the removed value |
| Json.EscapeTable | insta/src/content/json.rs:261-291 | the table marks exactly the characters that need an escape: the quote, the backslash and the control characters below 0x20 |
| Json.EscapeChar | insta/src/content/json.rs:217-259 | a character that needs no escape is copied; every other one becomes a backslash sequence of at least two characters |
| Json.EscapeBodyAppend | insta/src/content/json.rs:217-259 | escaping works character by character: the escape of a concatenation is the concatenation of the escapes |
| Json.EscapeBodyPlain | insta/src/content/json.rs:217-259 | a string with nothing to escape is written unchanged |
| Json.EscapeBodyHasNoControl | insta/src/content/json.rs:217-259 | no character below 0x20 is left unescaped in a string literal, as section 7 of RFC 8259 demands |
| Json.UnescapeEscapeBody | insta/src/content/json.rs:217-259 | reading an escaped body back by the unescaping of section 7 of RFC 8259 gives the original string |
| Json.Indent | insta/src/content/json.rs:45-49 | two spaces per nesting level in the pretty layout, nothing in the others |
| Json.FormatFloat | insta/src/content/json.rs:9-15 | a float's text always holds a dot |
| Json.MapKey | insta/src/content/json.rs:180-189 | a key is written when it is a string or an integer behind any wrappers, and is otherwise refused (the source panics); an integer key is read through `as_i64` as written, then `as_i128` as written |
| Json.MapKeyOfInteger | insta/src/content/json.rs:183-186 | every integer key is written between quotes as the value `as_i64` or `as_i128` as written gives: a `u64` of at least 2^63 as itself minus 2^64, a `u128` of at least 2^127 as itself minus 2^128, any other integer as itself |
| Json.MapKeyAsWrittenNegative | insta/src/content/json.rs:183-184 | the largest `u64` key is printed as "-1" and the `u128` key 2^127 as -2^127 |
| Json.Serializer.constructor | insta/src/content/json.rs:33-39 | an empty buffer at depth 0 in the chosen layout |
| Json.Serializer.WriteIndentation | insta/src/content/json.rs:45-49 | appends the indentation of the current depth, depth unchanged |
| Json.Serializer.StartContainer | insta/src/content/json.rs:51-54 | appends the opening bracket and goes one level deeper |
| Json.Serializer.EndContainer | insta/src/content/json.rs:56-63 | goes one level up and appends the closing bracket, on its own indented line in the pretty layout unless the container is empty |
| Json.Serializer.WriteComma | insta/src/content/json.rs:65-86 | appends the separator before an element for the layout: none before the first in the condensed one, a new indented line in the pretty one, a space after the comma in the single-line one |
| Json.Serializer.WriteColon | insta/src/content/json.rs:88-93 | appends `:`, followed by a space except in the condensed layout |
| Json.Serializer.WriteEscapedStr | insta/src/content/json.rs:217-259 | appends the quoted, escaped string |
| Json.Serializer.SerializeArray | insta/src/content/json.rs:95-102 | succeeds exactly when every element can be written, and then appends the array's text and keeps the depth |
| Json.Serializer.SerializeObject | insta/src/content/json.rs:104-113 | succeeds exactly when every field value can be written, and then appends the object's text and keeps the depth |
| Json.Serializer.SerializeBytes | insta/src/content/json.rs:145-152 | appends the bytes as an array of decimals |
| Json.Serializer.Serialize | insta/src/content/json.rs:115-207 | succeeds exactly when the value can be written, and then appends `Render` of it and leaves the depth where it was |
| Json.Serializer.SerializeNewtypeVariant | insta/src/content/json.rs:157-164 | a newtype variant is an object with the variant name as its one key |
| Json.Serializer.SerializeTupleVariant | insta/src/content/json.rs:168-175 | a tuple variant is an object mapping the variant name to the array of its fields |
| Json.Serializer.SerializeStructVariant | insta/src/content/json.rs:198-205 | a struct variant is an object mapping the variant name to the object of its fields |
| Json.Serializer.SerializeNewtypeVariantOf | insta/src/content/json.rs:157-164 | succeeds exactly when the inner value can be written, and then appends `Render` of the newtype variant and keeps the depth |
| Json.Serializer.SerializeTupleVariantOf | insta/src/content/json.rs:168-175 | succeeds exactly when every field can be written, and then appends `Render` of the tuple variant and keeps the depth |
| Json.Serializer.SerializeStructVariantOf | insta/src/content/json.rs:198-205 | succeeds exactly when every field value can be written, and then appends `Render` of the struct variant and keeps the depth |
| Json.RenderNewtypeVariant | insta/src/content/json.rs:157-164 | a newtype variant renders as the one-key object of its name and its inner value, one level deeper |
| Json.RenderTupleVariant | insta/src/content/json.rs:168-175 | a tuple variant renders as the one-key object of its name and the array of its fields, one level deeper |
| Json.RenderStructVariant | insta/src/content/json.rs:198-205 | a struct variant renders as the one-key object of its name and the object of its fields, one level deeper |
| Json.Serializer.SerializeMap | insta/src/content/json.rs:176-194 | succeeds exactly when every key is a string or an integer and every value can be written |
| Json.Serializer.SerializeInteger | insta/src/content/json.rs:119-128 | every integer, whatever its width, is written as its decimal value |
| Json.AppendEscaped | insta/src/content/json.rs:217-259 | the run-copying loop appends exactly the quoted escape of the string |
| Json.RenderSomeIff | insta/src/content/json.rs:187-188 | the writer fails exactly on the values holding a map key that is neither a string nor an integer, whatever the layout and the depth |
| Json.EmptyArrays | insta/src/content/json.rs:56-63 | an empty sequence or byte array is `[]` in every layout |
| Json.EmptyObjects | insta/src/content/json.rs:56-63 | an empty map or struct is `{}` in every layout |
| Json.ToString | insta/src/content/json.rs:294-298 | the condensed text, given exactly for the values that can be written |
| Json.ToStringPretty | insta/src/content/json.rs:319-325 | the pretty text, given exactly for the values that can be written |
| Json.ToStringCompact | insta/src/content/json.rs:302-316 | the single-line text when it has at most 120 characters, else the pretty text |
| LegacyJson.Wrap | src/content/json.rs:61-134 | a container's text exists exactly when its body's does, and is the body between the opening and the closing |
| LegacyJson.RenderSomeIff | src/content/json.rs:92-107 | the writer fails exactly on the values holding a map key that is not a plain string (the source panics there) |
| LegacyJson.WrappedKeyRefused | src/content/json.rs:97-104 | a string key behind a newtype wrapper is refused, where the current writer looks through the wrapper |
| LegacyJson.AgreesWithCondensed | src/content/json.rs:18-135 | on the values both generations write alike, the older text is the current writer's condensed text (insta/src/content/json.rs:115-207), at any depth |
| LegacyJson.BytesUnclosed | src/content/json.rs:48-56 | as written, the text of a byte array never holds a closing bracket |
| LegacyJson.ClosedBytes | src/content/json.rs:48-56 | the byte array as evidently intended: closed, exactly as the current writer writes it |
| LegacyJson.ClosedBytesAgree | src/content/json.rs:48-56 | the byte list itself is the current writer's condensed byte list |
| LegacyJson.StructVariantUnbraced | src/content/json.rs:120-134 | as written, the variant `V` with the field `a: 1` is written `{"V":"a":1}`, which is not JSON |
| LegacyJson.NestedStructVariant | src/content/json.rs:120-134 | the struct variant as evidently intended: the fields as an object under the variant's key, as the current writer writes it |
| LegacyJson.Serializer.constructor | src/content/json.rs:10-12 | an empty buffer |
| LegacyJson.Serializer.WriteEscapedStr | src/content/json.rs:145-187 | appends the quoted escape of the string, by the same loop as the current writer (`Json.AppendEscaped`) |
| LegacyJson.Serializer.Serialize | src/content/json.rs:18-135 | succeeds exactly when the value can be written, and then appends `Render` of it |
| LegacyJson.Serializer.SerializeByteArray | src/content/json.rs:48-56 | appends `[` and the bytes, and no closing bracket |
| LegacyJson.Serializer.SerializeNewtypeVariant | src/content/json.rs:61-67 | a newtype variant is an object with the variant name as its one key |
| LegacyJson.Serializer.SerializeTupleVariant | src/content/json.rs:78-91 | a tuple variant is an object mapping the variant name to the array of its fields |
| LegacyJson.Serializer.SerializeMap | src/content/json.rs:92-107 | succeeds exactly when every key is a `String` and every value can be written |
| LegacyJson.Serializer.SerializeStruct | src/content/json.rs:108-119 | a struct is the object of its fields |
| LegacyJson.Serializer.SerializeStructVariant | src/content/json.rs:120-134 | the fields follow the variant's colon directly, as written |
| LegacyJson.Serializer.SerializeInteger | src/content/json.rs:20-31 | every integer is written as its decimal value |
| LegacyJson.Serializer.SerializeAtom | src/content/json.rs:20-59 | booleans, floats, characters, strings and data-less variants; a character is written as the quoted decimal of its code point |
| LegacyJson.Serializer.SerializeArray | src/content/json.rs:68-77 | succeeds exactly when every element can be written, and then appends the bracketed, comma-separated elements |
| LegacyJson.Serializer.SerializeEntry | src/content/json.rs:93-105 | one entry: its comma, the escaped key, a colon and the value, refused unless the key is a `String` |
| LegacyJson.Serializer.SerializeField | src/content/json.rs:110-117 | one field: its comma, its escaped name, a colon and the value |
| LegacyJson.ToString | src/content/json.rs:222-226 | `to_string` gives a text exactly for the values that can be written, and it is `Render` of the value |
| Output.TrailingNewline | insta/src/output.rs:359-369 | the result ends the text, and is "\r\n", "\r", "\n" or "" exactly as the text ends with each (a "\n" only when not part of "\r\n"); the older src/output.rs:150-160 is the same |
| Output.DetectNewlines | insta/src/output.rs:371-395 | the one-pass scan with `Option::take` reports a lone '\r' (one not followed by '\n', a final one included), a "\r\n" pair, and a '\n' not preceded by '\r', each exactly when the text holds one |
| Output.NewlinesMatter | insta/src/output.rs:397-409 | true exactly when the texts end differently or use more than one line-ending style between them |
| Output.RenderInvisible | insta/src/output.rs:411-425 | the text unchanged unless newlines matter or it holds ESC, BEL, BS or DEL; otherwise the one-pass visible rendering |
| Output.VisiblePlain | insta/src/output.rs:411-425 | a text with no line ending and none of the four control characters renders as itself |
| Output.ReplaceCharAppend | insta/src/output.rs:413-419 | replacing one character distributes over concatenation |
| Output.ReplaceSkip | insta/src/output.rs:415 | `replace` leaves alone a prefix in which the pattern never starts |
| Output.MarkControlsLines | insta/src/output.rs:416-419 | the four control-picture replacements turn the marked lines into the visible rendering |
| Output.RenderChainIsVisible | insta/src/output.rs:413-419 | the seven replacements in sequence equal the one-pass rendering: a "\r\n" is marked as one unit ("␍␊\r\n"), and nothing one replacement inserts is matched again by a later one |
| Env.FindEntry | insta/src/env.rs:455-458 | the index of the first map entry whose key is the string segment, or past the end when there is none |
| Env.FindField | insta/src/env.rs:459-461 | the index of the first struct field with the segment's name, or past the end when there is none |
| Env.ResolveAppend | insta/src/env.rs:452-464 | the fold over the path: resolving `p + q` is resolving `q` from where `p` led, and nothing once `p` led nowhere |
| Env.ResolveNested | insta/src/env.rs:452-464 | in a configuration `outer: {inner: v}` the path `outer.inner` resolves to `v` and every other two-step path to nothing |
| Env.ResolveEmpty | insta/src/env.rs:130-144 | the empty configuration used when no file exists resolves no path except the empty one |
| Env.Setting | insta/src/env.rs:184-188 | an unset and an empty variable are alike: a value read from the environment is never empty |
| Env.BoolFieldTable | insta/src/env.rs:159-181 | "0" and "1" decide a boolean setting whatever the file says; any other non-empty value is an error naming the variable; an unset variable falls back to the file, default false |
| Env.ParseOutput | insta/src/env.rs:190-197 | accepts exactly "diff", "summary", "minimal" and "none", each giving the behaviour of that name |
| Env.OutputNameParses | insta/src/env.rs:190-197 | every output behaviour's name parses back to it |
| Env.ParseUpdate | insta/src/env.rs:206-214 | accepts exactly "auto", "always", "1", "new", "unseen" and "no"; "1" means "always" |
| Env.UpdateNameParses | insta/src/env.rs:206-214 | every update mode's name parses back to it |
| Env.ParseTestRunner | insta/src/env.rs:410-421 | accepts exactly "auto", "cargo-test" and "nextest" |
| Env.RunnerNameParses | insta/src/env.rs:410-421 | every test runner's name parses back to it |
| Env.ParseUnreferenced | insta/src/env.rs:424-437 | accepts exactly "auto", "reject", "error", "delete", "warn" and "ignore"; "error" means "reject" |
| Env.UnreferencedNameParses | insta/src/env.rs:424-437 | every unreferenced-snapshot policy's name parses back to it |
| Env.LoadConfig | insta/src/env.rs:130-144 | the loop over `.config/insta.yaml`, `insta.yaml`, `.insta.yaml` stops at the first file that exists; an unparsable one is a deserialize error; none gives the empty map |
| Env.ConfigFromChoices | insta/src/env.rs:130-144 | a file at `.config/insta.yaml` shadows the other two, and without any file the configuration is empty |
| Env.ConfigSecondChoice | insta/src/env.rs:130-144 | without `.config/insta.yaml`, a parsed `insta.yaml` is the configuration |
| Env.EffectiveEnv | insta/src/env.rs:151-156 | the deprecated `INSTA_FORCE_UPDATE_SNAPSHOTS=1` is used only when `INSTA_FORCE_UPDATE` is unset; a set `INSTA_FORCE_UPDATE` leaves the environment alone |
| Env.FromWorkspaceDefaults | insta/src/env.rs:129-267 | with no variable and no file every setting takes its default: output "diff", update "auto", runner "auto", unreferenced "ignore", `warn_undiscovered` true, the rest false |
| Env.InvalidConfiguredUpdate | insta/src/env.rs:199-214 | an invalid update mode is reported against `INSTA_UPDATE` even when it came from the file |
| Env.SettingsStopsAtUpdate | insta/src/env.rs:158-214 | the settings before it being valid, an invalid update mode is the error `from_workspace` returns |
| Env.UpdateBehavior | insta/src/env.rs:346-367 | a mismatch is left alone exactly for "no" and for "auto" under CI, and written in place exactly for "always" and for "unseen" on a snapshot seen before |
| Env.MemoStable | insta/src/env.rs:369-408 | the workspace cache: once a key is stored every later lookup returns the first value and changes nothing; no other key changes |
| Env.Caches.constructor | insta/src/env.rs:369-372 | both caches start empty |
| Env.Caches.GetCargoWorkspace | insta/src/env.rs:369-408 | a cached workspace is returned as is; otherwise `INSTA_WORKSPACE_ROOT`, else the metadata's workspace root, is stored and returned; the tool-config cache is untouched (src/env.rs has the same cache) |
| Env.Caches.GetToolConfig | insta/src/env.rs:15-24 | a cached configuration is returned unchanged; otherwise it is loaded from the manifest's workspace and cached only when it loads |
| LegacyEnv.Flag | src/env.rs:39-55 | unset, empty and "0" are false and "1" is true; any other value is the error naming the variable, where the source panics |
| LegacyEnv.FlagAgrees | src/env.rs:39-55 | without a configuration file the current generation's boolean settings (insta/src/env.rs:159-181) read their variables exactly as this table does |
| LegacyEnv.OutputBehavior | src/env.rs:57-66 | unset, empty and "diff" give `Diff`; the other names give their behaviour; anything else is the error naming `INSTA_OUTPUT` |
| LegacyEnv.OutputAgrees | src/env.rs:57-66 | the current generation reads `INSTA_OUTPUT` the same way when no file sets `behavior.output` |
| LegacyEnv.SnapshotUpdateBehavior | src/env.rs:68-90 | fails exactly on a value outside the `INSTA_UPDATE` table, naming the variable |
| LegacyEnv.UpdateAgrees | src/env.rs:68-90 | the older table is the current `INSTA_UPDATE` setting followed by `snapshot_update_behavior` (insta/src/env.rs:346-367), when no file is involved |
| Snapshot.RequiredHashesAt | insta/src/snapshot.rs:783-790 | one step of the fold: the fence is the larger of the hash run after the first quote plus one and the fence of the rest |
| Snapshot.RequiredHashesSuffix | insta/src/snapshot.rs:783-790 | the split-based `required_hashes` of a suffix equals an independent reference fence defined quote by quote |
| Snapshot.FenceFromBound | insta/src/snapshot.rs:783-790 | every quote is followed by fewer hashes than the reference fence |
| Snapshot.FenceFromAttained | insta/src/snapshot.rs:783-790 | a positive fence is one more than the hash run after some quote |
| Snapshot.RequiredHashesBound | insta/src/snapshot.rs:783-790 | the fence is wide enough: no quote is followed by as many hashes as the fence, some quote is followed by one fewer, and a text without quotes needs none |
| Snapshot.ShortestIsFirstShortest | insta/src/snapshot.rs:823-826 | `min_by` on length: nothing only for no candidates, otherwise a shortest candidate, the first among equals |
| Snapshot.MinIndentationSpec | insta/src/snapshot.rs:813-827 | "" for a text of at most one line (after trimming its end) or without non-empty lines; otherwise the first shortest leading whitespace of the non-empty lines |
| Snapshot.DropEach | insta/src/snapshot.rs:829-836 | every line loses exactly the common indentation's length, and a line shorter than that becomes empty |
| Snapshot.Normalize | insta/src/snapshot.rs:671-681 | the normal form never starts with a line break and never ends with whitespace |
| Snapshot.NormalizeFileFixed | insta/src/snapshot.rs:671-681 | a file snapshot already in normal form is its own normal form |
| Snapshot.NormalizeNotIdempotent | insta/src/snapshot.rs:671-681 | normalising is not idempotent: "a\r\r\nb" becomes "a\r\nb", which a second pass turns into "a\nb" |
| Snapshot.NormalizeInlineOneLine | insta/src/snapshot.rs:671-681 | a one-line text in normal form is its own normal form as an inline snapshot |
| Snapshot.ToInline | insta/src/snapshot.rs:685-742 | appends the prefix `r` when raw, the fence, then the escaped or quoted body, then the fence: the literal as written |
| Snapshot.PushMiddle | insta/src/snapshot.rs:706-739 | the part between the fences: the `Debug` escape when there are control characters, else the quoted text or block |
| Snapshot.PushBlock | insta/src/snapshot.rs:713-734 | each line on its own line, indented unless empty, and a final line of indentation |
| Snapshot.FencedSlice | insta/src/snapshot.rs:783-790 | a piece of fenced text stays fenced |
| Snapshot.FencedLines | insta/src/snapshot.rs:713-734 | every line of fenced text stays fenced |
| Snapshot.FencedBlock | insta/src/snapshot.rs:713-734 | the block form of fenced lines is fenced and starts with a line break |
| Snapshot.FencedBody | insta/src/snapshot.rs:706-739 | the quoted body of fenced text is fenced, so the closing quote and fence end the literal |
| Snapshot.InlineLiteralReadsBack | insta/src/snapshot.rs:685-742 | the literal with the fence placed as intended reads back, as a Rust string literal, as the text when it has control characters and as the quoted body otherwise; it is raw exactly when there is no control character and a backslash, quote or line break |
| Snapshot.EscapedLiteralReadsBack | insta/src/snapshot.rs:705-707 | with control characters the literal is the `Debug` escape, which reads back as the text |
| Snapshot.RawLiteralReadsBack | insta/src/snapshot.rs:698-739 | a raw literal is `r`, the fence, the quoted body and the fence, and reads back as the quoted body |
| Snapshot.PlainLiteralReadsBack | insta/src/snapshot.rs:708-739 | a text with nothing to escape is written between plain quotes and reads back as itself |
| Snapshot.InlineLiteralAsWrittenUnreadable | insta/src/snapshot.rs:700-742 | as written, text with a control character and a quote gets a literal that starts with `#`, which no Rust string-literal reader accepts |
| Snapshot.FenceAroundEscapedExample | insta/src/snapshot.rs:700-742 | the snapshot `a\r"` is its own normal form and has a control character and a quote, so as written it is given the unreadable `#"a\r\""#` |
| Snapshot.LegacyHeaderMatches | insta/src/snapshot.rs:650-669 | a file snapshot stored with an older "---" header line does not match the same text by the latest rule, matches it by the legacy rule, and so is equal to it |
| Snapshot.InlineOneLineRoundTrip | insta/src/snapshot.rs:685-742 | a one-line snapshot written back as an inline literal reads back as a value that matches it |
| Snapshot.OneLineReadsBack | insta/src/snapshot.rs:685-742 | the literal of a one-line text reads back as the text |
| Snapshot.TextNeverBinary | insta/src/snapshot.rs:753-770 | binary contents never equal text contents, in either order |
| Snapshot.ContentsEqSymmetric | insta/src/snapshot.rs:753-770 | content equality is reflexive and symmetric |
| Snapshot.Tidy | insta/src/snapshot.rs:676-680 | the end of `normalize` for both kinds: the result never starts with a line break and never ends with whitespace |
| Snapshot.NormalizeUnindented | insta/src/snapshot.rs:671-681 | text of several lines whose first line starts without whitespace and whose end is not whitespace is its own normal form as an inline snapshot: `normalize_inline_snapshot` (insta/src/snapshot.rs:829-836) finds no indentation to take off |
| Snapshot.NormalizeBlockBody | insta/src/snapshot.rs:713-734 | the block form `to_inline` writes for such text, indentation and all, normalises back to the text |
| Snapshot.InlineMultiLineRoundTrip | insta/src/snapshot.rs:685-742 | text of several lines in normal form written as an inline literal reads back as a value that normalises to the text again; without control characters that literal is the one `to_inline` writes as it stands |
| RustStrings.LowerHex | insta/src/snapshot.rs:705-707 | the `{:x}` digits of a `\u{..}` escape: at least one, at most two below 256, never a closing brace |
| RustStrings.HexValueOfLowerHex | insta/src/snapshot.rs:705-707 | the hexadecimal digits read back give the code point |
| RustStrings.DebugStr | insta/src/snapshot.rs:705-707 | `format!("{contents:?}")` is the escaped text between double quotes |
| RustStrings.UnescapeEscape | insta/src/snapshot.rs:705-707 | reading the escaped text back by Rust's string-literal escapes gives the text |
| RustStrings.EscapeHasNoControl | insta/src/snapshot.rs:705-707 | the escaped text holds no control character, so it fits a single-line literal |
| RustStrings.LowerHexDigits | insta/src/snapshot.rs:705-707 | the escape digits are lower-case hexadecimal |
| RustStrings.Hashes | insta/src/snapshot.rs:701 | `"#".repeat(n)` is `n` hashes |
| RustStrings.CloseFrom | insta/src/snapshot.rs:701-742 | where a raw literal fenced by `n` hashes ends: the first quote followed by at least `n` hashes |
| RustStrings.ReadRawFenced | insta/src/snapshot.rs:698-742 | a body in which no quote is followed by `n` hashes reads back from its raw literal `r#..#"body"#..#` unchanged |
| RustStrings.UnescapePlain | insta/src/snapshot.rs:708-739 | text without backslashes and quotes is its own escaped form |
| LegacySnapshot.FromTextCrlfOnly | src/snapshot.rs:499-511 | the conversion to Unix line endings leaves no carriage return when every one stood before a line feed |
| LegacySnapshot.FromTextLeavesCrCrlf | src/snapshot.rs:499-511 | a carriage return doubled before a line feed is not removed: "a\r\r\nb" keeps one "\r\n" |
| LegacySnapshot.EqIgnoresTrailingWhitespace | src/snapshot.rs:519-523 | trailing whitespace never makes two contents differ |
| LegacySnapshot.EqKeepsLeadingWhitespace | src/snapshot.rs:519-523 | leading whitespace does: text that is not blank differs from itself after any non-empty indentation |
| LegacySnapshot.ToInline | src/snapshot.rs:455-487 | appends `r###"` or `"`, the text or its block form, and the matching close: the literal as written |
| LegacySnapshot.PushLines | src/snapshot.rs:462-479 | each line after a line break and, unless it is empty, the indentation's spaces |
| LegacySnapshot.InlineLiteralReadsBack | src/snapshot.rs:455-487 | the literal with a fence wide enough reads back as the body for text that needs a raw literal and as the text otherwise |
| LegacySnapshot.AsWrittenIsIntended | src/snapshot.rs:455-487 | when no quote of the body is followed by three hashes, the fixed `###` fence is the wide-enough one |
| LegacySnapshot.AsWrittenReadsBackIff | src/snapshot.rs:455-487 | the literal as written reads back as its body exactly when no quote of the body is followed by three hashes |
| LegacySnapshot.RawClosesEarly | src/snapshot.rs:458-484 | a raw literal whose body has a quote followed by as many hashes as the fence ends at that quote |
| LegacySnapshot.FixedFenceExample | src/snapshot.rs:458-484 | the text `a"###` gets `r###"a"###"###`, which reads as `a` and stray characters, while the wide-enough fence reads back as the text |
| LegacySnapshot.CountLeadingSpaces | src/snapshot.rs:525-527 | the number of leading whitespace characters |
| LegacySnapshot.CountsOfNonEmpty | src/snapshot.rs:537-541 | the counts of the non-empty lines, in order, are the widths of their leading whitespace |
| LegacySnapshot.MinIndentationCount | src/snapshot.rs:529-543 | the older count is the width of the current generation's `min_indentation` (insta/src/snapshot.rs:813-827) |
| LegacySnapshot.SkipEmpty | src/snapshot.rs:551 | `skip_while(is_empty)` drops exactly the leading empty lines and keeps the rest in order |
| LegacySnapshot.InlineSnapshotValue | src/snapshot.rs:563-608 | the `⋮` format read line by line when the trimmed text starts with `⋮`, the dedent otherwise |
| LegacySnapshot.InlineValueOfNewline | src/snapshot.rs:563-608 | a lone line break reads as the empty snapshot |
| Snapshot.BlockOfLines | src/snapshot.rs:462-479 | the block form is a line break followed by the indented lines joined by line breaks |
| Snapshot.DropIndented | src/snapshot.rs:546-554 | cutting the indentation off the indented lines gives the lines back |
| Snapshot.MinIndentationOfBlock | src/snapshot.rs:529-543 | the dedent measures exactly the indentation `to_inline` added |
| LegacySnapshot.NormalizeBlock | src/snapshot.rs:546-554 | the dedent of the block form gives the joined lines back |
| Snapshot.BodyStart | src/snapshot.rs:563-566 | the block form never starts the `⋮` format |
| LegacySnapshot.InlineRoundTrip | src/snapshot.rs:451-487 | reading back the literal with a wide enough fence around what `to_inline` writes for text of several lines gives the text, when its first line starts with neither whitespace nor `⋮`, its last ends without whitespace, and it has no carriage return |
| LegacySnapshot.FileNamesOfComponents | src/snapshot.rs:301-324 | the file name `{module}__{name}.{ext}` gives its module and snapshot names back, when the module name has no `.` or `__` and the snapshot name no `.` |
| LegacySnapshot.FileNamesSplit | src/snapshot.rs:301-324 | the names exist exactly when the path has a file name; the module name is a prefix without `__`; a snapshot name has no `.` and follows a `__` in the file name |
| LegacySnapshot.SavedMetaData | src/snapshot.rs:427-443 | `save` drops the assertion line, `save_new` keeps it, and nothing else of the metadata changes |
| LegacyInline.FirstNonBlank | insta/src/snapshot.rs:894-903 | the index of the first line whose `trim_start` is not empty, every line before it being blank |
| LegacyInline.LegacyFirstLineMarked | insta/src/snapshot.rs:887-901 | when the frozen value starts with `⋮` after whitespace, its first non-blank line does, so the `[3..]` cut drops exactly that character |
| LegacyInline.LegacyInlineNormalize | insta/src/snapshot.rs:886-926 | `legacy_inline_normalize` as two loops over the lines: the first sets the indentation, the second collects the marked lines or gives up with "" (src/snapshot.rs:567-604 is the same code) |
| LegacyInline.LegacyRest | insta/src/snapshot.rs:906-924 | the second loop from a given line: the fold of the line steps, "" when one refuses, the buffer trimmed at the end otherwise |
| LegacyInline.LegacyLine | insta/src/snapshot.rs:907-921 | one line: refused when text precedes the indentation or follows it without `⋮`; a marked line adds its text and a line break; a blank remainder is skipped |
| LegacyInline.Marked | insta/src/snapshot.rs:886-926 | the lines as older versions wrote them: each behind the indentation and a `⋮` |
| LegacyInline.LegacyFoldMarked | insta/src/snapshot.rs:906-923 | the second loop over marked lines and the closing indentation line collects every line's text with a line break |
| LegacyInline.StepMarked | insta/src/snapshot.rs:913-915 | a marked line contributes its text and a line break |
| LegacyInline.StepClosing | insta/src/snapshot.rs:916-917 | the closing line of only indentation is skipped |
| LegacyInline.LegacyInlineRoundTrip | insta/src/snapshot.rs:886-926 | an older inline snapshot reads back as its marked lines' text, joined and trimmed at the end |
| SnapshotMeta.MetaDataFromContent | insta/src/snapshot.rs:212-266 | the loop over the map's entries, a later key overriding an earlier one and a value of the wrong type reading as unset, computes exactly the reference reading `FromContent` |
| SnapshotMeta.StructAsMap | insta/src/snapshot.rs:268-300 | the fields `as_content` builds, handed to `from_content` as a map without any reload: string keys, the values untouched, the same order |
| SnapshotMeta.ReadFields | insta/src/snapshot.rs:212-300 | reading back the fields `as_content` wrote collects exactly the metadata's own values |
| SnapshotMeta.FromContentAsContent | insta/src/snapshot.rs:212-300 | metadata survives `as_content` then `from_content` on its fields as a map with the values untouched, provided a present `info` is not nil (which `from_content` skips) |
| SnapshotMeta.YamlHeaderRoundTrip | insta/src/snapshot.rs:212-300 | metadata written as a snapshot file's YAML header (`as_content`, then the YAML dump) and reloaded reads back as itself through `from_content`, the `u32` line coming back as an `i64` of the same value, provided a present `info` is built only of the variants YAML keeps unchanged (booleans, `i64`, `f64`, strings, `None`, sequences and maps) and is not nil |
| SnapshotMeta.FromContentNotMap | insta/src/snapshot.rs:212-266 | any content that is not a map is rejected as an unexpected data type |
| SnapshotMeta.FromContentNeedsExtension | insta/src/snapshot.rs:243-258 | a binary snapshot kind without an extension is a missing field |
| SnapshotMeta.TrimForPersistence | insta/src/snapshot.rs:302-318 | the persisted metadata has no assertion line and otherwise equals the original |
| SnapshotMeta.TrimForPersistenceIdempotent | insta/src/snapshot.rs:302-318 | trimming twice is trimming once, and the persisted fields never include `assertion_line` |
| SnapshotMeta.MatchesFullyMatches | insta/src/snapshot.rs:511-548 | except for an inline snapshot compared by text, a full match is a match |
| SnapshotMeta.InlineFullMatchIgnoresKind | insta/src/snapshot.rs:538-544 | an inline snapshot's full match ignores the metadata, snapshot kind included, so it need not be a match |
| SnapshotMeta.MatchesFullyIgnoresAssertionLine | insta/src/snapshot.rs:520-548 | the line a snapshot was asserted on never decides a full match |
| SnapshotMeta.NamesOfPathSplit | insta/src/snapshot.rs:839-856 | names exist exactly when the path has a stem; either the stem has no `__` and is the snapshot name with an empty module, or it is module, `__` and a snapshot name after the last `__` |
| SnapshotMeta.KeepRunMembers | insta/src/snapshot.rs:59-61 | `retain` by run id keeps exactly the entries of that run |
| SnapshotMeta.KeepRunRunIds | insta/src/snapshot.rs:59-61 | every entry kept belongs to the run |
| SnapshotMeta.LastRunSpec | insta/src/snapshot.rs:59-61 | the last entry stays last, every kept entry belongs to its run, every entry of that run is kept, and filtering again changes nothing |
| SnapshotMeta.RetainRun | insta/src/snapshot.rs:60 | `Vec::retain` as an in-place compaction: the array's first `len` cells become the kept entries in order |
| SnapshotMeta.LoadBatchFilter | insta/src/snapshot.rs:58-61 | the filter of `load_batch`: the first `len` cells become the last run's entries (nothing for an empty batch) |
| LegacyMetaData.AsContent | src/snapshot.rs:212-236 | a struct `MetaData` listing only the fields that are set, in the order source, expression, assertion line, description, info, input file |
| LegacyMetaData.FromContent | src/snapshot.rs:188-210 | only a map is accepted, and a map with a key that is not a string is an invalid struct field |
| LegacyMetaData.MetaDataFromContent | src/snapshot.rs:188-210 | the `pop_*` calls in order compute exactly `FromContent` |
| LegacyMetaData.PopAll | src/snapshot.rs:192-197 | the six field reads one after the other, the first failing one being the error |
| LegacyMetaData.PopRest | src/snapshot.rs:194-197 | the reads after the assertion line: description, expression, info and input file |
| LegacyMetaData.LookupOther | src/snapshot.rs:192-197 | taking one field out leaves every other field's lookup as it was, so the order of the `pop_*` calls does not matter |
| LegacyMetaData.FromMapReads | src/snapshot.rs:192-206 | a field map holding a value's fields rebuilds that value |
| LegacyMetaData.ReadLine | src/snapshot.rs:193 | the assertion line reads back as itself, though YAML turns it into a signed integer |
| LegacyMetaData.ReadBack | src/snapshot.rs:188-236 | the field map of a metadata value's set fields rebuilds the value |
| LegacyMetaData.MetaDataRoundTrip | src/snapshot.rs:188-236 | a metadata value survives `as_content`, a YAML dump and reload, and `from_content`, provided its info is content YAML keeps as it is |
| Runtime.LastSegment | insta/src/runtime.rs:103 | `rsplit("::").next()`: a suffix of the name holding no `::`, either the whole name or what follows its last `::` |
| Runtime.StripTestPrefix | insta/src/runtime.rs:104-108 | one leading `test_` removed, flagged exactly when it was there; prefix and rest give the name back |
| Runtime.SuffixRecoverable | insta/src/runtime.rs:155-162 | a name without `@` and its settings suffix can be told apart again, as what precedes and what follows the first `@` |
| Runtime.NumberedNameInjective | insta/src/runtime.rs:140-146 | different counter values give different names (`name`, `name-2`, `name-3`, ...) |
| Runtime.Register | insta/src/runtime.rs:114-149 | the clash check fails exactly when the key was first seen with the other `test_` prefixing, and then changes nothing; otherwise the flag is stored and, unless duplicates are allowed, the key's counter grows by one and numbers the name |
| Runtime.DetectName | insta/src/runtime.rs:89-152 | a doctest without an explicit name is an error (the source panics) and leaves the registries alone |
| Runtime.RegisterRunNumbers | insta/src/runtime.rs:138-149 | the `k`-th of repeated requests for one snapshot is named `name` for k = 1 and `name-k` afterwards, and the counter ends at the number of requests |
| Runtime.DetectRunNumbers | insta/src/runtime.rs:89-152 | a test function's `k`-th unnamed snapshot is named after the function, numbered likewise |
| Runtime.RegisterDistinct | insta/src/runtime.rs:138-149 | two successful requests in a row for the same snapshot never get the same name |
| Runtime.PrefixedTwinsClash | insta/src/runtime.rs:114-130 | a `test_`-prefixed function and its unprefixed twin in one module clash, whichever asserts first |
| Runtime.ClashExample | insta/src/runtime.rs:114-130 | `tests::test_foo` then `tests::foo` in module `tests` is the clash error for `foo` |
| Runtime.ReplaceSeparators | insta/src/runtime.rs:196-199 | no `/` or `\` is left in the snapshot name, and a name without them is unchanged |
| Runtime.SnapshotFileName | insta/src/runtime.rs:179-202 | the file name ends in the separator-free snapshot name and `.snap`; with the module prefix it is `module__name.snap`; it fails exactly for a doctest prefix when the assertion file has no file name |
| Runtime.SnapshotPath | insta/src/runtime.rs:164-205 | `workspace/parent(base)/snapshot_path/<file name>`, failing exactly when `base` has no parent or the file name fails |
| Runtime.SnapshotPathNames | insta/src/runtime.rs:164-205 | the layout and `names_of_path` (insta/src/snapshot.rs:839-856) are inverse: the file laid out with the module prefix gives the snapshot and module names back, for names holding no `/`, `\` or `__` and not starting with `_` |
| Runtime.InlineKeyLines | insta/src/runtime.rs:449 | assertions of one function and file on different lines have different keys |
| Runtime.InlineStep | insta/src/runtime.rs:448-460 | fails exactly when the key was registered before; the key is registered either way |
| Runtime.InlineRunSpec | insta/src/runtime.rs:448-460 | a run of inline assertions gets through exactly when no key repeats and none was registered before, and then registers all of them |
| Runtime.InlineLoopFails | insta/src/runtime.rs:448-460 | an inline assertion inside a loop fails on its second iteration |
| Runtime.RecordDuplicate | insta/src/runtime.rs:570-599 | fails exactly when the key holds a snapshot with different contents; a first visit is stored, a matching one changes nothing |
| Runtime.RecordRunSpec | insta/src/runtime.rs:570-599 | every later visit must match the first one, not merely its predecessor, and then the first is what stays recorded |
| Runtime.RecordRunStored | insta/src/runtime.rs:570-599 | with a snapshot already recorded, every visit must match it and nothing changes |
| Runtime.RecordSameTwice | insta/src/runtime.rs:570-599 | repeating the same snapshot is accepted and changes nothing |
| Runtime.UpdateActionFor | insta/src/runtime.rs:362-446 | no write for `NoUpdate`; in-place and `.snap.new` writes only for named snapshots; a pending inline entry only for a non-doctest inline assertion under `NewFile` whose contents changed |
| Runtime.AssertOutcome | insta/src/runtime.rs:627-694 | a pass needs a stored snapshot and writes only under force-update; on a failure an action is always chosen, possibly the one that writes nothing; the test fails exactly when it did not pass, force-pass is off and the update was not in place (insta/src/runtime.rs:527-567) |
| Runtime.SameSnapshotPasses | insta/src/runtime.rs:668-678 | asserting exactly the stored snapshot passes, whichever match rule is on |
| Runtime.UnseenWritesNewSnapshots | insta/src/runtime.rs:362-372 | with `INSTA_UPDATE=unseen` a named snapshot without a file is written in place and passes, and a mismatch with a stored file goes to `.snap.new` and fails |
| Runtime.UnseenMessageInverted | insta/src/runtime.rs:366-384 | as written, every in-place save under "unseen" creates a file that did not exist, yet prints "updated snapshot" |
| Runtime.InPlaceMessage | insta/src/runtime.rs:378-384 | the message evidently intended: "created previously unseen snapshot" exactly for a file that did not exist before |
| Runtime.Session.constructor | insta/src/runtime.rs:20-31 | all registries empty and no allow-duplicates block open |
| Runtime.Session.EnterAllowDuplicates | insta/src/runtime.rs:607-618 | entering a block pushes an empty record map and changes nothing else |
| Runtime.Session.LeaveAllowDuplicates | insta/src/runtime.rs:607-618 | leaving pops the block's map and changes nothing else |
| Runtime.Session.DetectSnapshotName | insta/src/runtime.rs:89-152 | `DetectName` on the registries, duplicates allowed exactly inside a block (insta/src/runtime.rs:602-604); inline keys and records untouched |
| Runtime.Session.PreventInlineDuplicate | insta/src/runtime.rs:448-460 | fails exactly when the key was registered before, and registers it |
| Runtime.Session.RecordSnapshotDuplicate | insta/src/runtime.rs:659-666 | outside any block nothing is recorded; inside, the innermost block's map takes the `RecordDuplicate` step and fails with it |
| LegacyRuntime.UpdateSnapshotBehavior | src/runtime.rs:90-104 | `INSTA_UPDATE` is rejected (the source panics) exactly for a value outside `""`, `auto`, `always`, `1`, `new`, `no`, and the error names the variable |
| LegacyRuntime.UpdateTableAgrees | src/runtime.rs:90-104 | this table agrees with `get_snapshot_update_behavior` of src/env.rs except on `unseen`, which only the latter accepts |
| LegacyRuntime.ShouldFailIsNotForcePass | src/runtime.rs:106-116 | a test fails exactly when force-pass is off, and both reject the same values |
| LegacyRuntime.NumberedRunCounters | src/runtime.rs:404-414 | after `n` steps on a key its counter has grown by `n` and no other counter changed |
| LegacyRuntime.RunNamesSnoc | src/runtime.rs:404-414 | the names of one more step are the earlier names followed by the name one past them |
| LegacyRuntime.NumberedRunIsNames | src/runtime.rs:404-414 | `n` steps on a key give exactly the names numbered one, two and on past its counter, in order |
| LegacyRuntime.NumberedRunNumbers | src/runtime.rs:404-414 | the `k`-th step on a key numbers the name one past the counter |
| LegacyRuntime.GenerateRunNumbers | src/runtime.rs:396-416 | the `k`-th assertion of a test gets the stripped name numbered `c + k + 1`, so the first of a fresh key the plain name, and the counter ends at `c + n` |
| LegacyRuntime.GenerateDistinct | src/runtime.rs:396-416 | two assertions of the same test get different names |
| LegacyRuntime.TwinsShareName | src/runtime.rs:401-414 | `test_foo` and `foo` in one module count under different keys, so the first assertion of each is named `foo` and both write the same snapshot file |
| LegacyRuntime.NameCounters.constructor | src/runtime.rs:27-29 | the counters start empty |
| LegacyRuntime.NameCounters.GenerateSnapshotNameForThread | src/runtime.rs:396-416 | an unnamed thread is an error (the source panics) and changes nothing; a named one gets the `Generate` name and counters |
| LegacyRuntime.GetSnapshotFilename | src/runtime.rs:257-268 | `workspace/parent(base)/snapshots/module__name.snap`, absent exactly when `base` has no parent (the source panics) |
| LegacyRuntime.FilenameNames | src/runtime.rs:257-268 | reading the file name back (`Snapshot::from_file`, src/snapshot.rs:301-324) gives the module and snapshot names, for a module name without `.` or `__` and a snapshot name without `.` |
| LegacyRuntime.InlineSnapshotValue | src/runtime.rs:422-463 | a literal not in the `⋮` format is its own longest prefix with only whitespace after it |
| LegacyRuntime.GetInlineSnapshotValue | src/runtime.rs:422-463 | the two loops read the `⋮` format: skip to the first marked line, take its indentation, keep every marked line, skip blank ones and give up with `""` on anything else |
| LegacyRuntime.InlineValueOfNewline | src/runtime.rs:465-469 | a lone line break reads as the empty snapshot |
| LegacyRuntime.CountsOf | src/runtime.rs:481-485 | one count per line, the length of its leading whitespace (the match of `^\s*`) |
| LegacyRuntime.MinFromIsMin | src/runtime.rs:484-485 | the fold of `min` is at most every element and is one of them |
| LegacyRuntime.MinOfCounts | src/runtime.rs:481-485 | over some lines, the minimum is at most every line's indentation and is the indentation of one of them |
| LegacyRuntime.MinIndentationOfLines | src/runtime.rs:471-486 | 0 for at most one line; otherwise the smallest indentation over the lines after the leading empty ones, attained by one of them |
| LegacyRuntime.Dedent | src/runtime.rs:551 | every line keeps what follows its first `n` characters |
| LegacyRuntime.CutIsWhitespace | src/runtime.rs:542-555 | a bound on every line's indentation is within each line and cuts off only whitespace |
| LegacyRuntime.WithoutIndentationOfLines | src/runtime.rs:542-555 | the slice `l[indentation..]` is never out of bounds and cuts off only whitespace; the result is the dedented lines joined with `\n` |
| LegacyRuntime.CountsOfAllNonEmpty | src/runtime.rs:481-485 | on non-empty lines the counts are those of the src/snapshot.rs dedent (src/snapshot.rs:525-527) |
| LegacyRuntime.CountsSkipEmpty | src/runtime.rs:481-485 | leading empty lines contribute no count |
| LegacyRuntime.MinimaAgree | src/runtime.rs:471-486 | without empty lines after the leading ones, this minimum is the one of src/snapshot.rs:529-543 |
| LegacyRuntime.DedentIsDropEach | src/runtime.rs:551 | on lines long enough, the slice is the dedent of insta/src/snapshot.rs:829-836 |
| LegacyRuntime.DedentsAgree | src/runtime.rs:542-555 | without empty lines after the leading ones, the two dedents of the same lines agree |
| LegacyRuntime.MinIndentationCountLines | src/runtime.rs:471-486 | the src/snapshot.rs minimum is the one taken over the lines of the end-trimmed text |
| LegacyRuntime.WithoutIndentationAgrees | src/runtime.rs:542-555 | when no line after the leading empty ones is empty, this dedent is `normalize_inline_snapshot` of src/snapshot.rs:546-554 |
| LegacyRuntime.BlockLines | src/runtime.rs:471-486 | the block form of a literal (a line break, the indented lines, a line break and the closing indentation) splits into an empty line and the indented lines, with the indentation as its minimum |
| LegacyRuntime.WithoutIndentationOfBlock | src/runtime.rs:542-555 | the block form of a literal without empty lines loses exactly its indentation |
| LegacyRuntime.NonEmptyLinesOfText | src/runtime.rs:542-555 | text whose lines after the first empty one are all non-empty is dedented as `normalize_inline_snapshot` does |
| LegacyRuntime.EmptyLineMinimum | src/runtime.rs:471-486 | an empty line after the leading empty ones makes the minimum 0, and then nothing is cut off |
| LegacyRuntime.EmptyLineKeepsIndentation | src/runtime.rs:471-486 | an empty line inside an indented block makes the minimum 0, so nothing is dedented, although the src/snapshot.rs minimum is the indentation |
| LegacyRuntime.EmptyLineOfText | src/runtime.rs:542-555 | an empty line among the lines after the first makes the minimum 0 and leaves the lines as they are |
| LegacyRuntime.AssertSnapshot | src/runtime.rs:645-778 | a pass when old and new agree after `trim_end`; otherwise an action is chosen, possibly no write; in place only for a named snapshot, which then does not fail; a pending entry only for an inline one; a failure exactly when not saved in place and force-pass is off; an invalid variable is an error naming it |
| LegacyRuntime.InlineLiteralPasses | src/runtime.rs:704-708 | a plain inline literal that agrees with the new value after `trim_end` passes, whatever the environment says |
| Comparator.IdenticalSnapshotsMatch | insta/src/comparator.rs:31-63 | a snapshot matches itself both by default and under `require_full_match` (insta/src/comparator.rs:89-104) |
| Comparator.DescriptionDecidesFullMatchOnly | insta/src/comparator.rs:49-55 | the same one-line text as a file and as an inline snapshot with different descriptions matches by default but not under `require_full_match`, where the file snapshot's persisted metadata must agree (insta/src/comparator.rs:107-130) |
| Comparator.FullMatchIsStricter | insta/src/comparator.rs:22-63 | unless the reference is an inline text snapshot, a full match implies a default match |
| Redaction.ItemAsStr | insta/src/redaction.rs:211-218 | a field is its name and a sequence position is never a string |
| Redaction.ItemAsU64 | insta/src/redaction.rs:220-226 | a sequence position is its index and a field is never a number |
| Redaction.DisplayPush | insta/src/redaction.rs:29-47 | pushing an item onto the path appends `.` and the item's text to the display, which then starts with `.` |
| Redaction.RangeCheck | insta/src/redaction.rs:228-249 | only sequence items are in a range, and an unbounded range holds them all |
| Redaction.RangeCheckIsSlice | insta/src/redaction.rs:228-249 | a range holds exactly the items of the Python-style slice with the same bounds: negative bounds count from the end and clamp at 0, the start is inclusive, the end exclusive (insta/src/redaction.rs:537-560) |
| Redaction.FirstDeep | insta/src/redaction.rs:387 | the position of the first `**`: absent exactly when there is none, and no `**` before it |
| Redaction.SelectorWithoutDeep | insta/src/redaction.rs:408-418 | without `**` an alternative matches exactly the paths of its own length that it matches item by item, as written and as corrected |
| Redaction.SelectorWithDeep | insta/src/redaction.rs:386-407 | with its first `**` at `i`, the corrected rule matches exactly the paths longer than `i` and at least as long as the other segments, whose first `i` items the segments before `**` match and whose last items the segments after it match |
| Redaction.ShortPathMatchesAsWritten | insta/src/redaction.rs:386-407 | as written, `.**.b.c` matches the one-item path `.c`, since the backward zip stops at the shorter side; the corrected rule does not |
| Redaction.IsMatch | insta/src/redaction.rs:421-428 | a path matches a selector exactly when some alternative matches it |
| Redaction.UnescapeEscaped | insta/src/redaction.rs:304-327 | unescaping undoes escaping every `\` and `"`: every text is the unescaping of some subscript |
| Redaction.UnescapedNoBackslash | insta/src/redaction.rs:308-326 | text without a backslash is kept as it is (the borrowed branch) |
| Redaction.UnescapedFromRest | insta/src/redaction.rs:310-322 | the loop's output from any position is the unescaping of the rest, after the backslash it may still hold |
| Redaction.Unescape | insta/src/redaction.rs:304-327 | the `filter_map` with `was_backslash` computes the unescaping: a backslash drops and the next character is kept whatever it is |
| Redaction.SegmentOf | insta/src/redaction.rs:282-347 | the identity rule adds no segment and every other rule one; only the `**` rule yields a deep wildcard |
| Redaction.SegmentsOfDeep | insta/src/redaction.rs:279-298 | a parsed alternative holds one `**` per `**` rule and at most one; the "deep wildcard used twice" error needs two |
| Redaction.ErrStays | insta/src/redaction.rs:286-295 | the first error of an alternative is the result of the whole alternative |
| Redaction.Parse | insta/src/redaction.rs:266-353 | on success one segment list per alternative, each the parse of its rules; an error is the error of some alternative |
| Redaction.ParseAlternative | insta/src/redaction.rs:279-350 | the inner loop computes the alternative's segments, stopping at the first error |
| Redaction.RedactUnmatched | insta/src/redaction.rs:468-532 | a value below which no path matches comes back unchanged |
| Redaction.StaticRedactionIdempotent | insta/src/redaction.rs:430-532 | a static redaction applied twice is applied once, when no alternative reaches into map keys |
| Redaction.Redactor.constructor | insta/src/redaction.rs:430-432 | the path stack starts empty |
| Redaction.Redactor.Redact | insta/src/redaction.rs:430-432 | `redact` is the redaction of the value from the empty path, and leaves the stack empty |
| Redaction.Redactor.RedactImpl | insta/src/redaction.rs:468-532 | a matching path replaces the node whole; otherwise maps, sequences, structs and wrappers are walked; every push is popped again |
| Redaction.Redactor.RedactItemsNode | insta/src/redaction.rs:492-503 | the sequence, tuple, tuple-struct and tuple-variant cases rebuild the node around its redacted items, under the same path |
| Redaction.Redactor.RedactRest | insta/src/redaction.rs:504-530 | the struct, struct-variant, newtype and `Some` cases walk their children under the same path |
| Redaction.Redactor.RedactSeq | insta/src/redaction.rs:434-450 | each item is redacted under `Index(i, len)` and the stack is restored |
| Redaction.Redactor.RedactStruct | insta/src/redaction.rs:452-466 | each field is redacted under its name and the stack is restored |
| Redaction.Redactor.RedactMap | insta/src/redaction.rs:478-491 | each key is redacted under `$key` and its value under the original key, and the stack is restored |
| LegacyRedaction.AsStr | src/redaction.rs:120 | a YAML value is a string for `as_str` exactly when it is a string |
| LegacyRedaction.AsI64 | src/redaction.rs:121 | only integer numbers that fit in 64 signed bits have an `as_i64` |
| LegacyRedaction.SegmentOf | src/redaction.rs:55-105 | a quoted subscript is the unescaped key; an integer subscript parses exactly when it fits in 32 bits; a rule the grammar of this generation does not produce is `unreachable!` |
| LegacyRedaction.SegmentMatch | src/redaction.rs:118-123 | matching a range segment is the `unreachable!` panic, and every other segment decides |
| LegacyRedaction.AlternativeMatchHolds | src/redaction.rs:116-128 | an alternative without ranges, as long as the path, matches exactly when every segment holds for its element |
| LegacyRedaction.IsMatchAsWrittenAll | src/redaction.rs:114-132 | as written, the selector matches only the paths that every alternative matches |
| LegacyRedaction.IsMatchAny | src/redaction.rs:114-132 | corrected, the selector matches the paths that some alternative matches |
| LegacyRedaction.DistinctKeysNeverMatchAsWritten | src/redaction.rs:114-132 | as written, a selector with alternatives `.x` and `.y` matches no path at all, while corrected it matches the path `x` |
| LegacyRedaction.RedactedEntries | src/redaction.rs:143-152 | every mapping entry keeps its key |
| LegacyRedaction.WellFormedNeverFails | src/redaction.rs:134-167 | a selector without ranges and with 32-bit indices never makes redaction panic |
| LegacyRedaction.EntriesErrStays | src/redaction.rs:143-152 | the first panic among the entries is the result |
| LegacyRedaction.Redactor.constructor | src/redaction.rs:134-136 | the path stack starts empty |
| LegacyRedaction.Redactor.Redact | src/redaction.rs:134-136 | `redact` is the redaction from the empty path, and leaves the stack empty |
| LegacyRedaction.Redactor.RedactImpl | src/redaction.rs:138-167 | a matching path gives the redaction value; mappings and sequences are walked; every push is popped |
| LegacyRedaction.Redactor.RedactMapping | src/redaction.rs:143-152 | each value is redacted under its key and the stack is restored |
| LegacyRedaction.Redactor.RedactSequence | src/redaction.rs:154-164 | each item is redacted under its index as a number and the stack is restored |
| Glob.PathCmpTotal | insta/src/glob.rs:93-94 | the component-wise path order `sort` uses is a total preorder on every list |
| Glob.PathCmpReverse | insta/src/glob.rs:93-94 | comparing two paths the other way round gives the reversed answer |
| Glob.PathCmpTransitive | insta/src/glob.rs:93-94 | the path order is transitive |
| Glob.SortPathsSorted | insta/src/glob.rs:93-94 | `sort` leaves the paths in path order and is a permutation of them |
| Glob.ProperPrefixLess | insta/src/glob.rs:93-94 | a directory sorts before every path below it |
| Glob.SharedLen | insta/src/glob.rs:148-152 | the count is the longest run of equal leading components of the two paths |
| Glob.FindCommonPrefixAsWritten | insta/src/glob.rs:145-163 | absent exactly for an empty list or when first and last path share no leading component; otherwise the longest non-empty leading part they share |
| Glob.FindCommonPrefix | insta/src/glob.rs:145-163 | corrected: at most the prefix as written, never the whole first path, and absent only where the as-written one is or the first path is one component |
| Glob.CommonPrefixOfSorted | insta/src/glob.rs:145-163 | every path of a sorted list starts with the common prefix of its first and last path |
| Glob.CorrectedPrefixIsProper | insta/src/glob.rs:107-111 | every path of a sorted list starts with the corrected prefix and is longer than it, so the `strip_prefix(..).unwrap()` never fails and never leaves an empty path |
| Glob.SuffixOf | insta/src/glob.rs:107-111 | the suffix is the path with the prefix stripped, shown with `/`, or else the file name; a prefix the path lacks is the panic |
| Glob.DisplayInjective | insta/src/glob.rs:108 | the components of a path joined by `/` determine the components |
| Glob.SuffixesDistinct | insta/src/glob.rs:103-106 | two different files below the corrected prefix get two different, non-empty suffixes (`a/file.txt` and `b/file.txt`) |
| Glob.SingleMatchLosesSuffix | insta/src/glob.rs:145-163 | as written, a glob matching one file strips its whole path and the suffix is empty; corrected, it is the file name |
| Glob.TraversalPatternCases | insta/src/glob.rs:40-42 | a pattern starting with `..` is refused and one without `.` is not |
| Glob.KeptPieces | insta/src/glob.rs:27-34 | only non-empty pieces that compile are kept, in order |
| Glob.JoinSplit | insta/src/glob.rs:26 | joining the pieces of `split(';')` with `;` gives the variable back |
| Glob.GlobFilter | insta/src/glob.rs:23-36 | every filter is a non-empty, `;`-free pattern that compiles |
| Glob.GlobFilterKeepsAll | insta/src/glob.rs:23-36 | when every piece is a non-empty pattern that compiles, the filters joined again give the variable back |
| Glob.Matching | insta/src/glob.rs:72-81 | the collected files are exactly the walked paths the glob matches after the base is stripped |
| Glob.Passing | insta/src/glob.rs:83-89 | the filtered files are exactly the matches that some filter lets through, and all matches when there is no filter |
| Glob.AnyFilter | insta/src/glob.rs:84 | a path passes when there are no filters or some filter matches it |
| Glob.Collect | insta/src/glob.rs:69-90 | one pass over the walker collects all matching files and those the filter lets through |
| Glob.FilteredFilesExtendPrefix | insta/src/glob.rs:96-111 | every filtered file starts with the prefix taken over all matches and is longer than it, so filtering does not change a file's suffix |
| Glob.Counted | insta/src/runtime.rs:543-550 | a failing assertion inside a glob adds one failure and keeps the fail-fast flag |
| Glob.Absorb | insta/src/runtime.rs:543-558 | without fail-fast every failing assertion is counted and the hint shows when any asks for it; under fail-fast the first one counts and panics |
| Glob.RunsFollowFiles | insta/src/glob.rs:100-117 | the runs are the files in order, each with its suffix, and only a panic ends the loop early |
| Glob.CountsEveryFailure | insta/src/glob.rs:100-117 | without fail-fast the count is the number of failing assertions of all runs and the loop never stops on a failure |
| Glob.FailFastStopsAtFirstFailure | insta/src/glob.rs:100-117 | under fail-fast at most one failure is counted, and the loop stops exactly there |
| Glob.StopStays | insta/src/glob.rs:100-117 | once the loop has stopped the remaining files change nothing |
| Glob.Verdict | insta/src/glob.rs:119-142 | the glob passes exactly when it matched something or an empty glob is allowed, and nothing failed; failures are reported with their count |
| Glob.FailureMessage | insta/src/glob.rs:137-141 | the message says "failures" for every count but one |
| Glob.Hints | insta/src/glob.rs:124-136 | no hint without failures; the review hint exactly when an assertion wrote a new file; the fail-fast hint exactly after more than one failure |
| Glob.PlannedRuns | insta/src/glob.rs:38-143 | with the prefix as written or corrected, and without fail-fast, every filtered file runs in sorted order and the count is the number of failing assertions, when the matches share a leading component |
| Glob.PlannedSuffixesDistinct | insta/src/glob.rs:103-111 | with the corrected prefix, every run has a non-empty suffix and two runs of different files have different suffixes |
| Glob.PlannedSingleMatch | insta/src/glob.rs:97-111 | as written, a glob whose only match passes the filters runs its body once, with the empty suffix |
| Glob.SuffixNonEmpty | insta/src/glob.rs:107-108 | a well-formed path longer than the prefix keeps a non-empty suffix |
| Glob.NeverUnavailable | insta/src/glob.rs:100-117 | with every file below the prefix and fail-fast off the loop runs to the end |
| Glob.GlobStack.constructor | insta/src/glob.rs:21 | the glob stack starts empty |
| Glob.GlobStack.FailFast | insta/src/runtime.rs:501-514 | the innermost glob's fail-fast flag, and true outside any glob |
| Glob.GlobStack.RecordFailure | insta/src/runtime.rs:527-567 | inside a glob the innermost collector counts the failure and the assertion panics only under fail-fast; outside any glob it panics |
| Glob.GlobStack.RunBody | insta/src/glob.rs:114-116 | the body's failing assertions are recorded one by one until one panics |
| Glob.GlobStack.RunFiles | insta/src/glob.rs:100-117 | the loop binds each file and suffix, runs the body, and ends as the reference run does |
| Glob.GlobStack.GlobExec | insta/src/glob.rs:38-143 | a traversal pattern is refused; an allowed empty glob over a missing base passes; otherwise the runs are the ones planned with the prefix as written, and the collector is popped and judged unless a panic left it on the stack |
| OrderedHashMaps.EntriesOf | insta/src/content/yaml/vendored/hashmap.rs:118-127 | one entry per listed key, pairing it with its value, in the order of the list |
| OrderedHashMaps.OrderOf | insta/src/content/yaml/vendored/hashmap.rs:20-29 | the keys of a list of pairs, each once, exactly those that occur |
| OrderedHashMaps.MapOf | insta/src/content/yaml/vendored/hashmap.rs:20-29 | the map holds exactly the keys that occur |
| OrderedHashMaps.MapOfLast | insta/src/content/yaml/vendored/hashmap.rs:22 | a key maps to the value of its last occurrence |
| OrderedHashMaps.OrderOfFirst | insta/src/content/yaml/vendored/hashmap.rs:23-26 | a key is placed at its first occurrence, after exactly the keys that occur before it |
| OrderedHashMaps.OrderOfGrows | insta/src/content/yaml/vendored/hashmap.rs:75-83 | inserting more pairs only extends the order |
| OrderedHashMaps.EqualityIgnoresOrder | insta/src/content/yaml/vendored/hashmap.rs:47-65 | the same two entries inserted in the two orders give equal maps that `cmp` does not call equal: `eq` looks at the map, `cmp` at the insertion order |
| OrderedHashMaps.OrderedHashMap.constructor | insta/src/content/yaml/vendored/hashmap.rs:13-18 | no entries and no keys in the order |
| OrderedHashMaps.OrderedHashMap.Insert | insta/src/content/yaml/vendored/hashmap.rs:20-29 | a new key goes to the end of the order and gives `None`; an existing key keeps its place, takes the new value and gives the old one; the order keeps listing every key once |
| OrderedHashMaps.OrderedHashMap.Get | insta/src/content/yaml/vendored/hashmap.rs:31-33 | the value of a key of the map, and `None` for any other |
| OrderedHashMaps.OrderedHashMap.IsEmpty | insta/src/content/yaml/vendored/hashmap.rs:42-44 | the map is empty exactly when its order lists no key |
| OrderedHashMaps.OrderedHashMap.Entries | insta/src/content/yaml/vendored/hashmap.rs:35-40 | the entries in insertion order, each key with its value |
| OrderedHashMaps.FromIter | insta/src/content/yaml/vendored/hashmap.rs:75-83 | one `insert` per pair: every key at its first occurrence, with its last value |
| OrderedHashMaps.IntoIter.constructor | insta/src/content/yaml/vendored/hashmap.rs:89-94 | the iterator holds the map and its order |
| OrderedHashMaps.IntoIter.Next | insta/src/content/yaml/vendored/hashmap.rs:105-110 | the first remaining key with its value, removed from the map; the `unwrap` of the removal never fails; the rest is what remains |
| OrderedHashMaps.DropFirst | insta/src/content/yaml/vendored/hashmap.rs:105-110 | removing the first key keeps the map and the order listing each other |
| OrderedHashMaps.EntriesAgree | insta/src/content/yaml/vendored/hashmap.rs:105-110 | two maps that agree on the listed keys give the same entries |
| OrderedHashMaps.Iter.constructor | insta/src/content/yaml/vendored/hashmap.rs:35-40 | the iterator borrows the map and its order |
| OrderedHashMaps.Iter.Next | insta/src/content/yaml/vendored/hashmap.rs:121-126 | the first remaining key with its value; the lookup's `unwrap` never fails |
| OrderedHashMaps.Drain | insta/src/content/yaml/vendored/hashmap.rs:85-111 | draining `into_iter` yields the entries in insertion order |
| YamlFormat.SingleDocument | insta/src/content/yaml/mod.rs:13-16 | `(blobs.pop(), blobs.pop())` is `(Some(blob), None)` exactly for a load of exactly one document, which it returns |
| YamlFormat.FromYamlBlob | insta/src/content/yaml/mod.rs:19-45 | the conversion fails exactly when the tree holds a `BadValue` somewhere |
| YamlFormat.FromItems | insta/src/content/yaml/mod.rs:29-35 | a sequence converts exactly when each item does, item for item |
| YamlFormat.FromPairs | insta/src/content/yaml/mod.rs:36-42 | a hash converts exactly when each key and value does, pair for pair |
| YamlFormat.ParseStr | insta/src/content/yaml/mod.rs:9-17 | success exactly when the text loads as one document that converts, and then its conversion; every failure is `FailedParsingYaml` with the file name |
| YamlFormat.ToYamlValue | insta/src/content/yaml/mod.rs:60-126 | every dumped tree is loadable back: it never holds a `BadValue` |
| YamlFormat.ByteItems | insta/src/content/yaml/mod.rs:90-96 | one integer item per byte |
| YamlFormat.ToItems | insta/src/content/yaml/mod.rs:61-64 | one loadable item per element |
| YamlFormat.ToEntries | insta/src/content/yaml/mod.rs:112-119 | one loadable pair per map entry |
| YamlFormat.ToFields | insta/src/content/yaml/mod.rs:66-72 | one loadable pair per field, keyed by the field name as a string |
| YamlFormat.ToString | insta/src/content/yaml/mod.rs:47-58 | the emitter's text followed by a newline exactly when it does not already end in one, so the result always ends in a newline |
| YamlFormat.YamlRoundTrip | insta/src/content/yaml/mod.rs:19-126 | converting a loadable tree without reals to `Content` and dumping it again gives the same tree |
| YamlFormat.ReloadIsStable | insta/src/content/yaml/mod.rs:19-126 | for content without floats or integers beyond `i64`, what a dump reloads as dumps to the same tree again: such a snapshot written, read and written once more is unchanged |
| YamlFormat.NativeRoundTrip | insta/src/content/yaml/mod.rs:19-126 | content built only from what the loader produces (`None`, booleans, `i64`, `f64`, strings, sequences, maps) survives a dump and reload unchanged |
| YamlFormat.WideIntegerReloadsAsFloat | insta/src/content/yaml/mod.rs:79 | a `u64` is dumped as a `Real` of its decimal text and reloads as an `f64`, not as itself |
| LegacyYaml.ParseStr | src/content/yaml.rs:5-41 | exactly one document that converts, or `FailedParsingYaml`; on the same loaded documents it accepts exactly what the current `parse_str` (insta/src/content/yaml/mod.rs:9-17) accepts and gives the same content (src/content/formats.rs:16-52 is the same code) |
| LegacyYaml.AliasRefused | src/content/yaml.rs:39 | an `Alias` node is refused wherever it sits in a sequence |
| LegacyYaml.KeysOf | src/content/yaml.rs:113-119 | the keys of the pairs, in order |
| LegacyYaml.Collect | src/content/yaml.rs:113-119 | collecting the converted pairs of a map into a `Hash` keeps at most as many pairs, each one of the given pairs |
| LegacyYaml.CollectKeys | src/content/yaml.rs:113-119 | the collected `Hash` has exactly the keys of the pairs |
| LegacyYaml.CollectDistinctKeys | src/content/yaml.rs:113-119 | and holds each key once |
| LegacyYaml.CollectKeepsLast | src/content/yaml.rs:113-119 | the last pair with a given key is the one kept |
| LegacyYaml.CollectDistinct | src/content/yaml.rs:113-119 | pairs with distinct keys are kept as they are, which is what the current dump writes (insta/src/content/yaml/mod.rs:112-118) |
| LegacyYaml.CollectMergesEqualKeys | src/content/yaml.rs:113-119 | the pairs `a: 1` and `a: 2` are collected as the one pair `a: 2` |
| LegacyYaml.CurrentKeepsEqualKeys | insta/src/content/yaml/mod.rs:112-118 | the current dump writes both pairs of `Content::Map([("a", 1), ("a", 2)])` |
| LegacyYaml.AsYaml | src/content/formats.rs:54-63 | `as_yaml` is the emitter's text followed by one newline, always |
| LegacyYaml.AsYamlVersusToString | src/content/formats.rs:54-63 | `as_yaml` and `to_string` (src/content/yaml.rs:43-54) differ exactly when the emitter's text already ends in a newline, and `as_yaml` then ends in an empty line |
| LegacyParse.FromYaml | src/parse/mod.rs:145-180 | success exactly on trees without `BadValue` or `Alias` whose hashes are keyed by strings; without those nodes the only failure is `YamlIsInvalidJson`, with string keys the only failure is `FailedParsingYaml` |
| LegacyParse.ItemsFromYaml | src/parse/mod.rs:158-161 | a sequence converts exactly when each item does, and fails with the first failure |
| LegacyParse.PairsFromYaml | src/parse/mod.rs:162-176 | a hash converts exactly when every key is a string and every value converts |
| LegacyParse.ToYaml | src/parse/mod.rs:182-200 | what a value becomes can be converted back: no `BadValue`, no `Alias`, string keys only |
| LegacyParse.ItemsToYaml | src/parse/mod.rs:190 | one convertible node per item |
| LegacyParse.FieldsToYaml | src/parse/mod.rs:191-197 | one convertible pair per field, keyed by a string |
| LegacyParse.ValueRoundTrip | src/parse/mod.rs:145-200 | every value survives the trip to YAML and back |
| LegacyParse.YamlRoundTrip | src/parse/mod.rs:145-200 | a tree without reals that converts is the YAML form of the value it converts to |
| LegacyParse.FromYamlDocuments | src/parse/mod.rs:67-75 | exactly one document, converted; any other number of documents is `FailedParsingYaml` |
| LegacyParse.AsYaml | src/parse/mod.rs:77-86 | the emitter's text followed by one newline |
| LegacyParse.ObjFields.constructor | src/parse/mod.rs:8 | an object holds the fields given, a later field of a name replacing an earlier one |
| LegacyParse.ObjFields.Remove | src/parse/mod.rs:27 | `remove` gives the field's value if there is one and leaves the object without it |
| LegacyParse.Lookup | src/parse/mod.rs:27 | the value of a key of the object, and nothing for any other |
| LegacyParse.NullableStr | src/parse/mod.rs:26-32 | an absent or `Null` field is `None`, a string is itself, and anything else is `UnexpectedDataType` |
| LegacyParse.Str | src/parse/mod.rs:34-40 | a string is itself; an absent field is `MissingField` and any other value `UnexpectedDataType` |
| LegacyParse.U32Of | src/parse/mod.rs:46 | `u32::try_from` accepts exactly the integers in `0 .. 2^32` and keeps them; the rest are `NumberIsInvalidU32` |
| LegacyParse.U32Classification | src/parse/mod.rs:42-64 | both numeric helpers accept exactly the integers of `u32`'s range; any other number is `NumberIsInvalidU32`; any other value `UnexpectedDataType`, except that an absent field is `MissingField` for `pop_u32`, and an absent or `Null` field `None` for `pop_nullable_u32` |
| LegacyParse.RequiredVersusNullable | src/parse/mod.rs:26-40 | the required helper accepts exactly what the nullable one accepts as `Some`, and refuses `Null` |
| LegacyParse.PopNullableStr | src/parse/mod.rs:26-32 | the field is removed and judged as `NullableStr` judges it |
| LegacyParse.PopStr | src/parse/mod.rs:34-40 | the field is removed and judged as `Str` judges it |
| LegacyParse.PopNullableU32 | src/parse/mod.rs:42-52 | the field is removed and judged as the nullable numeric rule judges it |
| LegacyParse.PopU32 | src/parse/mod.rs:54-64 | the field is removed and judged as the required numeric rule judges it |
| Loader.NextLine | src/loader.rs:27 | `read_line` takes up to and including the first line break, or all that is left; the part read and the rest give the input back, and nothing is read only at the end |
| Loader.LinesByLine | src/loader.rs:68-74 | reading line by line and stripping each line break gives `str::lines` |
| Loader.Reader.constructor | src/loader.rs:24 | the reader starts at the beginning of the text |
| Loader.Reader.ReadLine | src/loader.rs:27 | the next line with its line break, and the input advances past it |
| Loader.YamlHeaderOfLines | src/loader.rs:30-40 | header lines none of which trims to `---`, closed by a `---` line, are the header, and reading resumes after that line |
| Loader.YamlHeaderUnclosed | src/loader.rs:31-35 | without a closing line the header is everything that is left |
| Loader.ReadYamlHeader | src/loader.rs:30-40 | the loop appends each line and takes the closing `---` line off again, leaving the input after it |
| Loader.LegacyHeaderEndsAtBlank | src/loader.rs:45-51 | a blank line ends the legacy header, and the text after it is the body |
| Loader.LegacyKeyIgnoresCase | src/loader.rs:52-60 | keys are matched without regard to case, the value is trimmed, and any other key changes nothing |
| Loader.LegacyLineWithoutColon | src/loader.rs:52-54 | a header line without `:` is ignored |
| Loader.LegacyHeaderFields | src/loader.rs:43-65 | a legacy header sets nothing but the expression and the source, and those only to trimmed text |
| Loader.ReadLegacyHeader | src/loader.rs:43-65 | the loop reads the legacy header up to and including its blank line |
| Loader.ReadBody | src/loader.rs:67-74 | the remaining lines, stripped of their line breaks and joined with `\n`, consuming the input |
| Loader.BodyOfTerminated | src/loader.rs:67-74 | a text followed by one line break reads back as that text, when it holds no carriage return |
| Loader.Deserialize | src/loader.rs:24-100 | `deserialize` computes the reference reading: a YAML or a legacy header, the body, and the module and snapshot names from the file name |
| Loader.FromFile | src/snapshot.rs:248-324 | `from_file` is the same reading with the names from the path's file name and the header through `Content::from_yaml` and `MetaData::from_content` |
| Loader.Serialized | src/loader.rs:16-22 | the serialized file always ends in a line break |
| Loader.SavedTextIsSerialized | src/snapshot.rs:407-425 | `save_with_metadata` lays the file out as `serialize` does |
| Loader.SerializedHeader | src/loader.rs:16-41 | the header read back from a serialized snapshot is the emitted YAML, and its contents follow, when the emitter writes `---` and then lines none of which trims to `---` |
| Loader.SerializedReadsBack | src/loader.rs:16-100 | a serialized snapshot reads back as the names from its file name, the metadata the YAML parses to, and its contents, when they hold no carriage return |
| Loader.SavedHeaderReadsBack | src/snapshot.rs:266-267 | the header `save_with_metadata` writes reads back as the metadata, when the scanner reads the emitted text back as the emitted node |
| Loader.SavedFileReadsBack | src/snapshot.rs:248-324 | a metadata value and contents saved by `save_with_metadata` come back from `from_file` as they were, under the same conditions |
| InlinePatcher.Qualifying | cargo-insta/src/inline.rs:100-139 | a macro qualifies exactly when it covers the line, has a path, and its last two tokens are `@` and a literal; the literal's span (lines from 0) and the macro's column are then recorded |
| InlinePatcher.LastQualifyingSpec | cargo-insta/src/inline.rs:96-146 | a macro is found exactly when one qualifies, and then it is the last qualifying one in visiting order |
| InlinePatcher.FindSnapshotMacro | cargo-insta/src/inline.rs:96-146 | the visitor keeps the last qualifying macro |
| InlinePatcher.DetectNewlineSpec | cargo-insta/src/inline.rs:32-40 | corrected: the detection answers `\r\n` exactly when the first line break follows a carriage return |
| InlinePatcher.DetectNewlineAsWrittenMissesCrlf | cargo-insta/src/inline.rs:33-37 | as written the byte after the first line is the `\n` of a `\r\n`, so a file with Windows line breaks is detected as `\n` |
| InlinePatcher.DetectNewlineExample | cargo-insta/src/inline.rs:33-37 | `a\r\nb` is detected as `\n` as written and as `\r\n` corrected |
| InlinePatcher.FilePatcher.Open | cargo-insta/src/inline.rs:28-49 | the patcher holds the file's lines, the newline as written detects it, the macros, and no snapshots yet |
| InlinePatcher.FilePatcher.Save | cargo-insta/src/inline.rs:51-57 | the text written back is every line followed by `\n` |
| InlinePatcher.FilePatcher.AddSnapshotMacro | cargo-insta/src/inline.rs:59-70 | the macro for the line is recorded when one is found and the last recorded snapshot ends no later than the line; otherwise the panic (`NoSnapshotMacro`, `OutOfOrder`) and nothing is recorded |
| InlinePatcher.FilePatcher.GetNewLine | cargo-insta/src/inline.rs:72-74 | the 1-based line the snapshot's literal starts on |
| InlinePatcher.FilePatcher.SetNewContent | cargo-insta/src/inline.rs:76-94 | as written: the lines stay as they are and the entries from `id` on move by the unsigned line-count difference, which fails when the literal shrinks |
| InlinePatcher.FilePatcher.ShiftFrom | cargo-insta/src/inline.rs:90-93 | every entry from `id` on moves down by the difference and nothing else changes |
| InlinePatcher.FilePatcher.SpliceNewContent | cargo-insta/src/inline.rs:76-94 | corrected: the literal's lines are replaced by the lines of prefix, new literal and suffix, and the entries after `id` move by the signed change in line count; a span outside the lines is an error that changes nothing |
| InlinePatcher.FilePatcher.ShiftByFrom | cargo-insta/src/inline.rs:90-93 | every entry from `id` on moves by the signed difference |
| InlinePatcher.Shifted | cargo-insta/src/inline.rs:91-92 | a shift moves both line numbers and nothing else |
| InlinePatcher.ShiftAll | cargo-insta/src/inline.rs:90-93 | every entry shifted, in order |
| InlinePatcher.ShrinkOverflows | cargo-insta/src/inline.rs:88-89 | a three-line literal replaced by a one-line one makes the `usize` subtraction underflow |
| InlinePatcher.ShiftedByKeepsLaterLines | cargo-insta/src/inline.rs:87-93 | corrected, an entry after the replaced lines points, in the spliced file, at the very lines it pointed at before, whether the snapshot grew or shrank |
| InlinePatcher.SpliceCheck | cargo-insta/src/inline.rs:76-94 | the corrected patch succeeds only for an entry whose span lies in the lines and is not backwards, and whose later entries can all be shifted |
| InlinePatcher.OrderedSpliceSucceeds | cargo-insta/src/inline.rs:59-94 | for entries recorded in order, as `add_snapshot_macro` keeps them, the corrected patch never fails |
| InlinePatcher.ShiftedStaysPlaced | cargo-insta/src/inline.rs:87-93 | a later entry shifted by the corrected patch still lies in the new lines |
| InlinePatcher.SpliceKeepsPlaced | cargo-insta/src/inline.rs:59-94 | the corrected patch of one entry leaves the later ones placed in order, so the next one can be patched as well |
| InlinePatcher.SplicedKeepsEarlierLines | cargo-insta/src/inline.rs:80-85 | the lines before the literal stay where they are and the replacement's lines follow them |
| InlinePatcher.AcceptedLiteralNotWritten | cargo-insta/src/inline.rs:76-94 | as written, accepting `"b"` for the literal `@"a"` leaves the lines, and so the file `save` writes, unchanged, while the intended splice holds `@"b"` |
| InlinePatcher.SplicedOneLine | cargo-insta/src/inline.rs:80-85 | replacing the literal of a one-line file with a one-line text gives exactly that line |
| InlinePatcher.ExampleReplacement | cargo-insta/src/inline.rs:80-85 | the replacement of `@"a"` by `b` at indentation 0 is `@"b"` |
| Container.Summary | cargo-insta/src/container.rs:34-47 | the summary is the text of `SummaryText` on the new snapshot's source, the entry's line and the snapshot name |
| Container.SummaryShape | cargo-insta/src/container.rs:34-47 | the summary starts with the source, ends with ` (name)` when there is a name, and is empty exactly when there is no line, no name and no or an empty source |
| Container.SummaryLineInjective | cargo-insta/src/container.rs:40-42 | two summaries of the same source and name are equal only when their lines are |
| Container.ReadSnapshot | insta/src/snapshot.rs:337-340 | reading a snapshot succeeds exactly when the path holds a snapshot file |
| Container.LoadBatch | insta/src/snapshot.rs:46-64 | reading a pending batch succeeds exactly when the path holds a pending file |
| Container.ReadSource | cargo-insta/src/inline.rs:28-31 | reading the source succeeds exactly when the path holds a source file |
| Container.Removed | cargo-insta/src/container.rs:116 | removing a file fails exactly when it is not there, and otherwise only that path is gone |
| Container.Renamed | cargo-insta/src/cargo.rs:223 | a rename fails exactly when the source path is missing; otherwise the target holds the moved file and the source is gone unless it is the target |
| Container.Disk.constructor | cargo-insta/src/container.rs:1-3 | the disk holds the given files |
| Container.Disk.Write | insta/src/snapshot.rs:565-580 | writing changes the one path to the new file and nothing else |
| Container.Disk.RemoveFile | cargo-insta/src/container.rs:116 | the result and the new files are those of `Removed` |
| Container.Disk.Rename | cargo-insta/src/cargo.rs:223 | the result and the new files are those of `Renamed`, and a failed rename changes nothing |
| Container.Disk.SaveBatch | insta/src/snapshot.rs:67-73 | the old pending file is dropped and the batch is written, leaving no file for an empty batch |
| Container.AdmitAligned | cargo-insta/src/container.rs:89-105 | a successful load keeps exactly the entries that have a new snapshot and a macro at their line, in batch order; each kept entry carries its batch place, old and new snapshot, line and Skip, and the patcher's entry at the same index is that line's macro |
| Container.AdmissibleIdsIncrease | cargo-insta/src/container.rs:90 | the kept entries' batch places strictly increase |
| Container.KeptSortedByLine | cargo-insta/src/container.rs:89 | after sorting by line the kept entries' lines never decrease |
| Container.SnapshotContainer.constructor | cargo-insta/src/container.rs:123-129 | the container holds the given paths, kind, snapshots and patcher |
| Container.SnapshotContainer.SnapshotFile | cargo-insta/src/container.rs:136-141 | there is a `.snap` file exactly for an External container, and it is the target path |
| Container.SnapshotContainer.SetOp | cargo-insta/src/container.rs:147-149 | only the chosen snapshot's operation changes |
| Container.LoadExternal | cargo-insta/src/container.rs:67-82 | the load fails exactly when the target exists but is no snapshot, or the `.snap.new` is unreadable; otherwise one Skip entry without line holds the new snapshot, and an old one exactly when the target exists |
| Container.AdmitAll | cargo-insta/src/container.rs:89-105 | the loop keeps what `Admit` keeps and the patcher records its macros, without changing its lines |
| Container.LoadInline | cargo-insta/src/container.rs:83-120 | the result follows `InlineLoad`: a missing source gives no patcher; a patcher holds the source's lines; the pending file is deleted exactly when nothing is kept; an error changes no file |
| Container.Load | cargo-insta/src/container.rs:60-130 | the container has the asked kind; an External load changes no file and has one entry; an Inline load keeps what `InlineLoad` keeps |
| Container.CommitEntry | cargo-insta/src/container.rs:158-172 | one turn of the loop on the patcher gives `CommitStep` under the chosen accept rule (the corrected splice here), and the patcher holds the new lines and entries |
| Container.AsWrittenKeepsLines | cargo-insta/src/inline.rs:76-94 | under `set_new_content` as written, the commit loop never changes the patcher's lines, whatever it accepts |
| Container.CommitWrites | cargo-insta/src/container.rs:175-182 | the files after the loop are those of `CommitFiles`: the source rewritten when something was accepted, the pending file rewritten when something was skipped and removed otherwise |
| Container.CommitLoop | cargo-insta/src/container.rs:157-173 | the loop's result is `CommitUpTo` over all snapshots, and the patcher holds its lines and entries |
| Container.CommitInline | cargo-insta/src/container.rs:152-182 | the new files and the result are those of `InlineCommit` |
| Container.Persisted | insta/src/snapshot.rs:302-317 | the saved snapshot has no assertion line and differs from the original in its metadata only |
| Container.ExternalEntry | cargo-insta/src/container.rs:186-196 | Accept reads, saves and removes the `.snap.new`, Reject removes it, Skip leaves it; a failure changes nothing |
| Container.CommitExternal | cargo-insta/src/container.rs:185-197 | the new files and result are those of `ExternalUpTo`, which stops at the first error |
| Container.Commit | cargo-insta/src/container.rs:151-200 | a container without a patcher commits as External, one with a patcher as Inline |
| Container.CommitRecords | cargo-insta/src/container.rs:157-173 | a commit loop that gets through queues every skipped snapshot once in order under the current run, and sets the skip and accept flags exactly when a snapshot was skipped or accepted |
| Container.AllRejectedKeepsState | cargo-insta/src/container.rs:163 | rejecting every snapshot leaves the loop state as it was |
| Container.InlineCommitOutcome | cargo-insta/src/container.rs:151-182 | after a successful inline commit the pending file reads back exactly the skipped snapshots, or is gone when none was skipped; the source is rewritten exactly when one was accepted; no other file changes |
| Container.CommitFilesOutcome | cargo-insta/src/container.rs:175-182 | the writes after a loop that recorded its skips and accepts leave that outcome |
| Container.PlacedCommitSucceeds | cargo-insta/src/container.rs:157-173 | with the entries placed in the source and text for every Accept, the corrected loop never fails and the entries not yet visited stay placed |
| Container.ExternalCommitOutcome | cargo-insta/src/container.rs:185-197 | an External commit touches only the two files; the `.snap.new` survives exactly when every operation is Skip; an accepted snapshot is saved to the `.snap` without its assertion line |
| CargoContainer.Summary | cargo-insta/src/cargo.rs:72-85 | the older summary is the same text as the current one's `SummaryText` |
| CargoContainer.AdmitAgrees | cargo-insta/src/cargo.rs:126-138 | the older load succeeds exactly when every entry with a new snapshot has a macro at its line and the current load succeeds, and then both keep the same entries |
| CargoContainer.AdmitKeepsAllNew | cargo-insta/src/cargo.rs:126-138 | a successful older load keeps every entry that has a new snapshot, in batch order, each aligned with the patcher's entry at its index |
| CargoContainer.AdmitAll | cargo-insta/src/cargo.rs:126-138 | the loop keeps what the older `Admit` keeps and the patcher records its macros, without changing its lines |
| CargoContainer.LoadInline | cargo-insta/src/cargo.rs:120-155 | the result follows the older `InlineLoad`: no patcher without a source file; a patcher holds the source's lines and macros; the pending file is deleted exactly when nothing is kept; an error changes no file |
| CargoContainer.Load | cargo-insta/src/cargo.rs:98-165 | the container has the asked kind; an External load changes no file and has one entry; an Inline load keeps what the older `InlineLoad` keeps |
| CargoContainer.RenameEntry | cargo-insta/src/cargo.rs:219-229 | Accept renames the `.snap.new` over the `.snap`, Reject removes it, Skip leaves it; a failure changes nothing |
| CargoContainer.CommitExternal | cargo-insta/src/cargo.rs:218-230 | the new files and result are those of `RenameUpTo`, which stops at the first error |
| CargoContainer.Commit | cargo-insta/src/cargo.rs:186-233 | with a patcher the commit is the inline one over always-text contents, accepting through `set_new_content` as written; without one it renames |
| CargoContainer.RenameCommitOutcome | cargo-insta/src/cargo.rs:218-230 | the commit touches only the two files; the `.snap.new` survives exactly when every operation is Skip; an accepted `.snap` holds the `.snap.new` as it was, assertion line included |
| CargoContainer.PlacedCommitSucceeds | cargo-insta/src/cargo.rs:187-213 | with the corrected patch and the patcher's entries placed in the source, the older inline commit always succeeds |
| CargoContainer.AcceptedLiteralsNeverWritten | cargo-insta/src/cargo.rs:186-213 | as written, a commit that accepts and succeeds writes the source back with the lines it was loaded with |
| Cargo.IsHidden | cargo-insta/src/cargo.rs:236-242 | a name is hidden exactly when it starts with a dot |
| Cargo.SecondLastDotComponent | cargo-insta/src/cargo.rs:267-268 | the component taken before `.new` holds no dot, and is empty for a name without dots |
| Cargo.PendingTargetAsWritten | cargo-insta/src/cargo.rs:278-280 | as written the target slice fails exactly on the bare name `.pending-snap` |
| Cargo.PendingTarget | cargo-insta/src/cargo.rs:278-280 | corrected: there is no target exactly for the bare name, and otherwise the name is `.` + target + `.pending-snap` |
| Cargo.PendingNameParts | cargo-insta/src/cargo.rs:278-280 | a pending name is thirteen characters long exactly when it is the bare suffix, and a longer one splits into the dot, the target and the suffix |
| Cargo.BarePendingPanics | cargo-insta/src/cargo.rs:278-280 | as written the classification panics exactly on `.pending-snap`, agrees with the corrected one on every other name, and the corrected one passes that name over |
| Cargo.PendingNamesRoundTrip | cargo-insta/src/cargo.rs:278-285 | `.X.pending-snap` is loaded as an Inline container whose target is `X` next to it |
| Cargo.LastDotOf | cargo-insta/src/cargo.rs:267-268 | the last dot of `a.b`, with no dot in `b`, is the one right after `a` |
| Cargo.SecondLastDotOfNew | cargo-insta/src/cargo.rs:267-272 | for `X.E.new` with no dot in `E` the component checked is `E` and the name without its extension is `X.E` |
| Cargo.NewNamesRoundTrip | cargo-insta/src/cargo.rs:267-277 | `X.E.new` is an External container with target `X.E` exactly when `E` is an allowed extension, and is passed over otherwise |
| Cargo.CollectRoots | cargo-insta/src/cargo.rs:310-330 | the roots are those of `Roots`: the manifest's directory and each non-build target's directory, failing when a target path has no parent |
| Cargo.ReduceRoots | cargo-insta/src/cargo.rs:337-343 | the loop keeps what `Reduced` keeps |
| Cargo.ReducedFromRoots | cargo-insta/src/cargo.rs:338-343 | every kept root is one of the roots |
| Cargo.ReducedCovers | cargo-insta/src/cargo.rs:338-343 | every root lies at or below a kept root |
| Cargo.ReducedIndependent | cargo-insta/src/cargo.rs:338-343 | no kept root lies below a root kept before it |
| Cargo.ReducedSortedByLen | cargo-insta/src/cargo.rs:337-343 | reducing roots sorted by length leaves them sorted by length |
| Cargo.PrefixShorter | cargo-insta/src/cargo.rs:337 | a proper non-empty path prefix has a shorter display text, so sorting by length puts a directory before what lies below it |
| Cargo.ReducedIsAntichain | cargo-insta/src/cargo.rs:332-343 | with the roots sorted by length and none empty, no kept root lies below another, so no directory is walked twice |
| Cargo.ReduceSnapshotRoots | cargo-insta/src/cargo.rs:305-348 | the walked roots are those of `SnapshotRoots`: collected, sorted by length and reduced |
| Cargo.SortByLenSpec | cargo-insta/src/cargo.rs:337 | sorting by length sorts and keeps the same roots |
| Cargo.SortedCoversAll | cargo-insta/src/cargo.rs:337-343 | reducing any reordering of the roots still covers all of them |
| Cargo.SortedKeptFromRoots | cargo-insta/src/cargo.rs:337-343 | reducing any reordering of the roots keeps only roots |
| Cargo.SortedAntichain | cargo-insta/src/cargo.rs:337-343 | reducing a length-sorted reordering of non-empty roots gives no root below another |
| Cargo.SnapshotRootsSpec | cargo-insta/src/cargo.rs:305-348 | the walked roots reach the manifest's directory and every non-build target's directory, come from those, and, none being empty, none lies below another |
| Cargo.Members | cargo-insta/src/cargo.rs:399-411 | the workspace members are drawn from the packages, never more of them |
| Cargo.MembersSpec | cargo-insta/src/cargo.rs:399-411 | a package is selected exactly when its id is a workspace member |
| Cargo.SelectPackages | cargo-insta/src/cargo.rs:413-437 | the selection loop gives `FindPackages`: all members with `--all`, an error without a located or canonicalizable manifest, and otherwise the matching packages or, when none match, all members |
| Cargo.MatchingSpec | cargo-insta/src/cargo.rs:424-429 | the matching succeeds exactly when every manifest canonicalizes, and then keeps exactly the packages whose canonical manifest is the default one |
| Cargo.FindPackagesFallback | cargo-insta/src/cargo.rs:413-437 | without `--all` and with every manifest canonicalizable the selection succeeds, giving the packages of the default manifest when there are any and the workspace members otherwise |
| Walk.BarePendingPanics | cargo-insta/src/walk.rs:45-47 | as written the classification panics exactly on `.pending-snap`, agrees with the corrected one on every other name, and the corrected one passes that name over |
| Walk.NewNamesRoundTrip | cargo-insta/src/walk.rs:36-44 | every `Y.new` is an External container whose target drops the `.new`, the bare `.new` being its own target |
| Walk.PendingNamesRoundTrip | cargo-insta/src/walk.rs:45-52 | `.X.pending-snap` is an Inline container whose target is `X` next to it |
| Walk.GenerationsAgree | cargo-insta/src/walk.rs:36-55 | the current classification equals the older one except on a `.new` file whose extension is not allowed, which only the older one passes over |
| Walk.Descends | cargo-insta/src/walk.rs:63-67 | without `--include-hidden` the walker looks at every file and enters a directory exactly when its name does not start with a dot |
| Walk.PackageRootsSpec | cargo-insta/src/walk.rs:92-104 | the roots fail exactly when a selected package's manifest has no parent, and otherwise are exactly the canonical directories of the selected packages that canonicalize |
| Walk.SelectionNarrowsRoots | cargo-insta/src/walk.rs:96-101 | selecting one package by name still gives roots, and only some of those of all packages |
| Walk.Enters | cargo-insta/src/walk.rs:110-142 | files are always entered; the filter panics exactly on a `target` directory whose canonical path has no parent; a `target` right below a root is not entered; any other directory is refused exactly when it is not a root and holds a `Cargo.toml` |

## Left out

- File and process I/O: reading and writing files, `cargo metadata`, `cargo locate-project`, `canonicalize`, and the `ignore` walkers. The file system is an abstract map, and what the walkers and cargo return is an input.
- Parsing Rust source with syn: the macro invocations a file holds are an input to `FilePatcher`. The pest grammar of redaction selectors is replaced by the rule sequence it yields, and the checks the code adds on top of it are kept.
- The YAML scanner, parser and emitter (yaml-rust) are outside the model. Conversions start from YAML nodes, and a `Real` keeps its text; the panic of `parse().unwrap()` on malformed real text is not modelled.
- LegacyYaml.AsYaml: dumps through the current generation's conversion, which writes every pair of a map. The older glue collects a map's pairs, and a struct's fields, into a `yaml_rust` `Hash` (`LegacyYaml.Collect`), so a map that repeats a key is dumped with one pair for that key. The two agree wherever keys differ (`LegacyYaml.CollectDistinct`). The older whole-tree dump has no member of its own, and the older metadata reload lemmas go through the current conversion for the same reason.
- Contents.Walk: requires a visitor that never makes a node larger (`NonGrowing`). `walk` (insta/src/content/mod.rs:350-403) recurses into whatever the visitor returns, so in the source a visitor that grows its node makes it recurse without end. The one visitor of the core, the one `sort_maps` passes (insta/src/content/serialization.rs:98), keeps every node's size (`ContentKeys.SortVisitorNonGrowing`).
- Floating point: a float is its `Display` text, standing for its value. f64 key payloads compare as Equal, because `f64::total_cmp` is not modelled. The source reloads a YAML `Real` through Rust's `f64` parser and dumps it again with `to_string`; the model keeps the `Real`'s text. A `Real` whose text that parser refuses (`.inf`, `.nan`) panics in the source and converts in the model.
- Hashing: the `Hash` impls and the bucket order of the underlying `HashMap` are not modelled. `cmp` takes the key and value comparisons as parameters, and `partial_cmp` is not modelled apart from it.
- Concurrency: the process-wide mutexes and thread-locals (name counters, `GLOB_STACK`, duplicate records) are fields of the objects that hold them. Interleavings are not modelled.
- Thread names, run ids and environment variables are parameters.
- Text is ASCII: `string` is `seq<char>` with one char per byte, and `⋮` is a single char. Non-UTF-8 input and Unicode case folding are out: `to_lowercase` is ASCII.
- `Debug` string escaping prints every character above U+009F as itself, because the Unicode printability tables are not part of this model.
- Integer widths: `as u32` is modelled as `% 2^32`, and the `as` casts inside the `as_*` conversions wrap as two's complement. `usize` arithmetic is unbounded, except the one subtraction in `set_new_content`.
- Binary snapshots: their sidecar file and its path are not modelled. A binary snapshot takes part in matching and in commits only as a value.
- YamlFormat.YamlRoundTrip: holds only for trees without a `Real`, because the model does not define the text `to_string` gives a reparsed float.
- YamlFormat.ReloadIsStable: holds only for content without floats or `u64`, `u128` and `i128` values, which are dumped as a `Real`.
- LegacyParse.YamlRoundTrip: holds only for trees without a `Real`, for the same reason.
- ContentKeys.SortMapsSortedDeep: holds only when every map key has a key of its own. A key that is itself a map or sequence is ordered by the derived order of `Content` (a parameter here) before its own maps are sorted, so that map need not come out sorted.
- Redaction callbacks (dynamic redactions) are total functions. `sorted_redaction` and `rounded_redaction` are out.
- Redaction.IsMatch: matches paths with the corrected `selector_is_match` (`SelectorIsMatch`), so it does not redact the short paths that `ShortPathMatchesAsWritten` shows the code as written would also redact.
- Redaction.Redactor.RedactImpl: redacts by the corrected `selector_is_match`, as `Redaction.IsMatch` above.
- Redaction.Redactor.RedactRest: redacts by the corrected `selector_is_match`, as `Redaction.IsMatch` above.
- Redaction.Redactor.RedactItemsNode: redacts by the corrected `selector_is_match`, as `Redaction.IsMatch` above.
- Redaction.Redactor.RedactSeq: redacts by the corrected `selector_is_match`, as `Redaction.IsMatch` above.
- Redaction.Redactor.RedactStruct: redacts by the corrected `selector_is_match`, as `Redaction.IsMatch` above.
- Redaction.Redactor.RedactMap: redacts by the corrected `selector_is_match`, as `Redaction.IsMatch` above.
- Redaction.Redactor.Redact: redacts by the corrected `selector_is_match`, as `Redaction.IsMatch` above.
- Redaction.RedactUnmatched: redacts by the corrected `selector_is_match`, as `Redaction.IsMatch` above.
- Redaction.StaticRedactionIdempotent: redacts by the corrected `selector_is_match`, as `Redaction.IsMatch` above.
- LegacyRedaction.RedactedEntries: matches paths with the corrected `is_match` (`IsMatch`, any alternative), so a selector with several alternatives redacts here where the code as written redacts nothing (`DistinctKeysNeverMatchAsWritten`).
- LegacyRedaction.Redactor.RedactImpl: redacts by the corrected `is_match`, as `LegacyRedaction.RedactedEntries` above.
- LegacyRedaction.Redactor.RedactMapping: redacts by the corrected `is_match`, as `LegacyRedaction.RedactedEntries` above.
- LegacyRedaction.Redactor.RedactSequence: redacts by the corrected `is_match`, as `LegacyRedaction.RedactedEntries` above.
- LegacyRedaction.WellFormedNeverFails: redacts by the corrected `is_match`, as `LegacyRedaction.RedactedEntries` above.
- LegacyRedaction.EntriesErrStays: redacts by the corrected `is_match`, as `LegacyRedaction.RedactedEntries` above.
- LegacyRedaction.Redactor.Redact: redacts by the corrected `is_match`, as `LegacyRedaction.RedactedEntries` above.
- `memoize_snapshot_file`, hint and diff printing, and the terminal output are out.
- The current `container.rs` calls a newer `FilePatcher` API than the one in `cargo-insta/src/inline.rs`. The model uses the `inline.rs` patcher: an `add_snapshot_macro` that finds no macro drops the entry, and the patcher's ordering assertion is a load error (`OutOfOrder`).
- Container.CommitEntry: accepts through the corrected `SpliceNewContent`, standing for the newer `FilePatcher` API, whose source is not part of this model; only the older `CargoContainer.Commit` runs `set_new_content` as written.
- In the older `cargo.rs`, `SnapshotContainer::load` fails when no macro is found for an entry. The code is followed here, because in `inline.rs` that case aborts.
- A `.new` file with no extension before `.new` is its own target, as `set_extension("")` leaves it.
- A target's `kind` is a set of strings.
- `as_json` (src/content/formats.rs:6-8) only calls the older JSON `to_string`. It is modelled as `LegacyJson.ToString` and has no member of its own.
- `Value::from_json` and `as_json` of src/parse/mod.rs are not part of this model.
- Path ordering compares components as strings, so `..` is an ordinary component.
- Cargo.MembersSpec: states which packages `find_all_packages` keeps, but not that they keep their order, which holds because the function is a filter.

## Findings

| source | as written | input that shows it | evidently intended | confidence | as-written member | corrected member |
|---|---|---|---|---|---|---|
| insta/src/snapshot.rs:703-712 | `to_inline` writes the `#` fence around the `Debug`-escaped literal as well, which has no `r` in front | the text `a\r"` becomes `#"a\r\""#`, which is not a Rust string literal | the fence goes only around a raw literal, so that every literal reads back | not executed | Snapshot.InlineLiteralAsWritten, Snapshot.InlineLiteralAsWrittenUnreadable, Snapshot.FenceAroundEscapedExample | Snapshot.InlineLiteral, Snapshot.InlineLiteralReadsBack |
| insta/src/content/mod.rs:290-305 | `as_i64` casts a `U64` or `U128` to `i64` and checks the round trip in the unsigned direction, which every `u64` passes | `U64(2^64 - 1).as_i64()` is `Some(-1)` | `None` for any value above `i64::MAX` | not executed | Contents.AsI64AsWritten, Contents.AsI64AsWrittenWrapsU64, Json.MapKey, Json.MapKeyAsWrittenNegative | Contents.AsI64, Contents.AsI64Agrees |
| insta/src/content/mod.rs:325-334 | `as_i128` checks the `U128` cast the same way | `U128(2^128 - 1).as_i128()` is `Some(-1)` | `None` for any value above `i128::MAX` | not executed | Contents.AsI128AsWritten, Contents.AsI128AsWrittenWrapsU128 | Contents.AsI128 |
| src/content/json.rs:48-56 | `Bytes` writes `[` and the numbers but never `]` | bytes `[1, 2]` are written `[1,2` | `[1,2]` | not executed | LegacyJson.BytesUnclosed | LegacyJson.ClosedBytes |
| src/content/json.rs:120-134 | a struct variant's fields follow the variant's colon without braces of their own | variant `V` with field `a: 1` is written `{"V":"a":1}` | `{"V":{"a":1}}` | not executed | LegacyJson.StructVariantUnbraced | LegacyJson.NestedStructVariant |
| src/snapshot.rs:455-484 | the raw-literal fence is always `###` | the text `a"###` becomes `r###"a"###"###`, which Rust reads as `a` followed by stray characters | a fence longer than any run of `#` after a quote | not executed | LegacySnapshot.InlineLiteralAsWritten, LegacySnapshot.AsWrittenReadsBackIff, LegacySnapshot.FixedFenceExample | LegacySnapshot.InlineLiteral, LegacySnapshot.InlineLiteralReadsBack |
| cargo-insta/src/inline.rs:33-37 | the newline detection looks at the byte one past the first line's end | `a\r\nb` is detected as `\n`: `lines()` drops the `\r`, so the byte looked at is the `\n` | `\r\n` when the first line break is `\r\n` | not executed | InlinePatcher.DetectNewlineAsWritten, InlinePatcher.DetectNewlineAsWrittenMissesCrlf, InlinePatcher.DetectNewlineExample | InlinePatcher.DetectNewline, InlinePatcher.DetectNewlineSpec |
| cargo-insta/src/inline.rs:88-89 | the line-count difference is a `usize` subtraction | a three-line literal replaced by a one-line one: `1 - 3` underflows | a signed shift that moves later snapshots up or down | not executed | InlinePatcher.LineShift, InlinePatcher.ShrinkOverflows | InlinePatcher.LineDelta, InlinePatcher.ShiftedBy, InlinePatcher.ShiftedByKeepsLaterLines, InlinePatcher.OrderedSpliceSucceeds |
| cargo-insta/src/inline.rs:76-94 | `set_new_content` builds the replacement line and drops it: `self.lines` never changes | accepting `"b"` for the line `@"a"` leaves the file as `@"a"` | the new line replaces the literal's lines | not executed | InlinePatcher.FilePatcher.SetNewContent, InlinePatcher.AcceptedLiteralNotWritten, CargoContainer.Commit, Container.AsWrittenKeepsLines, CargoContainer.AcceptedLiteralsNeverWritten | InlinePatcher.FilePatcher.SpliceNewContent, InlinePatcher.SplicedKeepsEarlierLines, InlinePatcher.SpliceKeepsPlaced, Container.PlacedCommitSucceeds, Container.Commit |
| insta/src/runtime.rs:366-384 | `unseen` holds when the snapshot file exists, so the two messages are swapped | under `INSTA_UPDATE=unseen` a new file is saved with the message "updated snapshot" | "created previously unseen snapshot" exactly for a file that did not exist | not executed | Runtime.InPlaceMessageAsWritten, Runtime.UnseenMessageInverted | Runtime.InPlaceMessage |
| src/runtime.rs:396-416 | the counter key includes the `test_` prefix, but the name drops it | tests `test_foo` and `foo` in one module both name their first snapshot `foo` | distinct names, or a reported clash, as the current generation gives | not executed | LegacyRuntime.Generate, LegacyRuntime.TwinsShareName | Runtime.DetectName, Runtime.PrefixedTwinsClash |
| insta/src/redaction.rs:386-407 | after `**` the segments are zipped with the path from the back, and the zip stops at the shorter one | `.**.b.c` matches the one-item path `.c` | the path holds every segment after `**` | not executed | Redaction.SelectorIsMatchAsWritten, Redaction.ShortPathMatchesAsWritten | Redaction.SelectorIsMatch, Redaction.SelectorWithDeep |
| src/redaction.rs:113-131 | `is_match` returns false as soon as one alternative fails, so every alternative must match | the selector `.a, .b` matches neither `.a` nor `.b` | a match when any alternative matches | not executed | LegacyRedaction.IsMatchAsWritten, LegacyRedaction.DistinctKeysNeverMatchAsWritten | LegacyRedaction.IsMatch, LegacyRedaction.IsMatchAny |
| insta/src/glob.rs:145-163 | for a single match the common prefix is the whole path | a glob matching only `dir/a.txt` runs its body with the suffix `""`, which counts as no suffix | the file name as suffix, since the prefix is the matched file's directory | not executed | Glob.FindCommonPrefixAsWritten, Glob.SingleMatchLosesSuffix, Glob.PlannedSingleMatch, Glob.GlobStack.GlobExec | Glob.FindCommonPrefix, Glob.CorrectedPrefixIsProper, Glob.SuffixesDistinct, Glob.PlannedSuffixesDistinct |
| cargo-insta/src/cargo.rs:278-280 | `fname[1..fname.len() - 13]` slices `[1..0]` for a file named exactly `.pending-snap` | the classifier panics on the name `.pending-snap` if it ever sees it; the walker's override `**/.*.pending-snap` (cargo-insta/src/cargo.rs:250-262) does not admit that name, so a walk is not shown to reach it | the name is passed over | not executed; latent | Cargo.ClassifyAsWritten, Cargo.BarePendingPanics | Cargo.Classify, Cargo.PendingNamesRoundTrip |
| cargo-insta/src/walk.rs:45-47 | the same slice in the current walker | the classifier panics on the name `.pending-snap` if it ever sees it; the overrides `.*.pending-snap`, `*.snap.new` and `*.{ext}.new` (cargo-insta/src/walk.rs:69-78) do not admit that name, so a walk is not shown to reach it | the name is passed over | not executed; latent | Walk.ClassifyAsWritten, Walk.BarePendingPanics | Walk.Classify, Walk.PendingNamesRoundTrip |
