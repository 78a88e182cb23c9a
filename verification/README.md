# ZLUDA kernel caches and progress-pipe encoding, in Dafny

This project models two small cores of ZLUDA and proves properties of them.

**The on-disk kernel caches.**
- `hip_common`'s `KernelRepository` joins five fields with `:` and hashes them with SHA-256. It stores a compiled binary at `<cache path>/<first two hex chars>/<64 hex chars>`.
- `zluda`'s compute `KernelCache` keys entries by the BLAKE3 hash of the PTX modules and a one-byte compilation mode.
- `zluda_rt`'s ray-tracing `KernelCache` keys entries by the SHA-512 hash of the PTX. Its auxiliary key bytes are `<program name>:<attribute JSON>:<HIPRT version>`. The attribute JSON is the attribute map collected into a `BTreeMap` and written by `serde_json`.

The hash algorithms are parameters: any total functions with the right output lengths. The filesystem is an abstract map of files and a set of directories. A set of "denied" paths is the oracle for every I/O fault other than a missing file.

**The comm_manager pipe protocol.**
- The 7-bit varint (`encode_7bit`) and the length-prefixed string (`encode_7bit_string`).
- The five little-endian progress-command frames.
- The progress-bar lifecycle: a bar's id is used by every call, and dropping the bar sends its removal.
- The `acquire` handshake on the switch pipe.

Each encoder has a decoder partner, and a round-trip lemma connects the two.

Modules follow the source:

| Module | Models |
|---|---|
| `Repository` | `hip_common/src/cache/cache_file.rs` |
| `ComputeCache` | `zluda/src/impl/cache/cache_file.rs` |
| `RayTracingCache` | the `zluda_rt` wrapper and cache |
| `Attributes` | `serialize_input_attributes` and the `serialize` module |
| `SevenBit` | `util.rs` |
| `ProgressFrames`, `ProgressBars` | `progressbar_manager.rs` |
| `Switch` | `switch.rs` |

Supporting modules:
- `Bytes`: integer widths and little-endian layout.
- `Results`: `Option`, `Result` and I/O error kinds.
- `Hex`: lower-case hex.
- `Digests`: the hash suite and an incremental hasher.
- `FileSystem`.
- `Json`: numbers and escaped strings.
- `Utf8`.
- `LexOrder`: the `CString` ordering.

## Model

| member | source | states |
|---|---|---|
| Repository.New | hip_common/src/cache/cache_file.rs:18-22 | The repository remembers the cache path it was given. |
| Repository.DigestInput | hip_common/src/cache/cache_file.rs:34-43 | The SHA-256 input is hash, compiler version, git hash, device bytes (no NUL) and additional parameters, joined by single colons. Its length is the sum of the field lengths plus 4. |
| Repository.EntryPath | hip_common/src/cache/cache_file.rs:44-48 | The entry path is the cache path plus two components. The last is the 64-character lower-hex SHA-256 of the digest input. The directory component is its first two characters. |
| Repository.SaveProgram | hip_common/src/cache/cache_file.rs:24-54 | The save succeeds exactly when every ancestor directory can be created or already exists and the target is neither denied nor a directory. On success the file map gains exactly the entry. On failure the files are unchanged, though directories created before the failure remain. Every directory created is a proper, non-empty prefix of the entry path. |
| Repository.TryLoadProgram | hip_common/src/cache/cache_file.rs:56-86 | `Ok(None)` exactly when nothing is at the path. `Ok(Some(b))` exactly when a readable file is there, and `b` is its content. Any other read error is returned unchanged and is never NotFound. |
| Repository.SaveThenLoad | hip_common/src/cache/cache_file.rs:24-86 | After a successful save, a load with the same key returns the binary. Saving again overwrites it. |
| Repository.SaveLeavesOtherEntries | hip_common/src/cache/cache_file.rs:47-51 | A save does not change what a load at any other entry path observes. |
| Repository.DigestInputRecovery | hip_common/src/cache/cache_file.rs:34-43 | When the first four fields hold no colon, splitting the digest input at its first four colons returns the five fields. |
| Repository.DigestInputInjective | hip_common/src/cache/cache_file.rs:34-43 | Under the same colon-free condition, equal digest inputs mean equal keys. |
| Repository.FieldShiftAliases | hip_common/src/cache/cache_file.rs:36-40 | Fields are not length-framed. Compiler version "a:b" with git hash "c", and "a" with "b:c", are different keys with the same entry path. |
| FileSystem.CreateDirAll | hip_common/src/cache/cache_file.rs:50 | Directory creation succeeds exactly when every prefix of the path is creatable. Files and the fault oracle are unchanged. On success the directories are the old ones plus all prefixes. The error is never NotFound. |
| FileSystem.Write | hip_common/src/cache/cache_file.rs:51 | Writing to a denied path, a directory or a path without its parent directory fails. Otherwise the file map is updated at that path. |
| FileSystem.Read | hip_common/src/cache/cache_file.rs:81-85 | A read returns the content exactly for a readable file, and NotFound exactly when nothing is at the path. |
| Hex.HexLower | hip_common/src/cache/cache_file.rs:44 | The output has twice as many characters, all lower-case hex digits; the first pair encodes the first byte. |
| Hex.HexRoundTrip | hip_common/src/cache/cache_file.rs:44 | Decoding the lower-hex text returns the bytes. |
| Hex.HexInjective | hip_common/src/cache/cache_file.rs:44 | Different digests give different hex names. |
| ComputeCache.New | zluda/src/impl/cache/cache_file.rs:18-21 | `new` always returns `Some`, over the given directory. |
| ComputeCache.HashModules | zluda/src/impl/cache/cache_file.rs:31-35 | Streaming the modules into one hasher equals BLAKE3 of their in-order concatenation. The result is 64 hex characters. |
| ComputeCache.SaveProgram | zluda/src/impl/cache/cache_file.rs:23-47 | No failure is reported. The files hold the binary at the key's path when that path is writable, and are unchanged otherwise. |
| ComputeCache.TryLoadProgram | zluda/src/impl/cache/cache_file.rs:49-74 | The load gives `Some(b)` exactly when the repository returns `Ok(Some(b))`. Both `Ok(None)` and `Err` become `None`. It is `Some` exactly when a readable file is at the path. |
| ComputeCache.SaveThenLoad | zluda/src/impl/cache/cache_file.rs:23-74 | Save then load with the same arguments returns the saved binary when the path is writable. |
| ComputeCache.ModuleBoundariesIgnored | zluda/src/impl/cache/cache_file.rs:31-34 | Splitting a module in two at any point leaves the content hash unchanged. |
| ComputeCache.ModuleOrderMatters | zluda/src/impl/cache/cache_file.rs:31-34 | When BLAKE3 separates "ab" from "ba", swapping two modules changes the content hash. |
| ComputeCache.OtherModeMisses | zluda/src/impl/cache/cache_file.rs:37-72 | The compilation-mode byte is part of the key. A binary saved under one mode is not found under another when SHA-256 separates the two inputs. |
| RayTracingCache.NewRepository | zluda_rt/src/cache/cache_file.rs:17-21 | The wrapper's `new` always returns `Ok`. |
| RayTracingCache.New | zluda_rt/src/cache/cache_file.rs:99-102 | The cache's `new` always returns `Some`, over the given directory. |
| RayTracingCache.AuxData | zluda_rt/src/cache/cache_file.rs:40-51 | The auxiliary bytes are program name, `:`, attribute text, `:`, HIPRT version, located by offset. The length is the sum plus 2. |
| RayTracingCache.SaveToRepository | zluda_rt/src/cache/cache_file.rs:28-61 | The wrapper's save stores the binary under the key whose auxiliary field is the aux data, with the repository's success condition. |
| RayTracingCache.LoadFromRepository | zluda_rt/src/cache/cache_file.rs:63-93 | The wrapper's load builds the same aux data and key as its save, and reports hit or miss from the same path. |
| RayTracingCache.AuxDataInjective | zluda_rt/src/cache/cache_file.rs:44-51 | With a colon-free program name and version, the aux data determines all three fields, whatever colons the attribute JSON holds. |
| RayTracingCache.VersionColonAliases | zluda_rt/src/cache/cache_file.rs:47-51 | A colon in the version makes the layout ambiguous: a piece of the attributes can move into the version without changing the bytes. |
| RayTracingCache.ContentHash | zluda_rt/src/cache/cache_file.rs:114-117 | The content hash is the 128-character lower-hex SHA-512 of the PTX, with no colon. |
| RayTracingCache.SaveProgram | zluda_rt/src/cache/cache_file.rs:104-134 | No repository error is reported. The files hold the binary at the key's path when it is writable, and are unchanged otherwise. |
| RayTracingCache.TryLoadProgram | zluda_rt/src/cache/cache_file.rs:136-165 | A readable entry is handed to the program loader. A miss or an I/O error gives `None`. |
| RayTracingCache.SaveThenLoad | zluda_rt/src/cache/cache_file.rs:104-165 | A saved program loads back through the loader when the path was writable. |
| RayTracingCache.AttributeOrderIrrelevant | zluda_rt/src/cache/cache_file.rs:167-174 | A program saved with one iteration order of an attribute map is found with any other order of the same entries. |
| RayTracingCache.DifferentAttributesDifferentInput | zluda_rt/src/cache/cache_file.rs:40-51 | Attribute maps with different entries give different SHA-256 inputs when the unframed fields are colon-free. |
| Attributes.Insert | zluda_rt/src/cache/cache_file.rs:170 | Inserting a new name into ordered entries keeps them ascending. It adds exactly that entry. |
| Attributes.Collect | zluda_rt/src/cache/cache_file.rs:170 | Collecting into a `BTreeMap` gives ascending names with exactly the map's entries, each once. |
| Attributes.AscendingUnique | zluda_rt/src/cache/cache_file.rs:170 | Two ascending entry lists with the same entries are equal. |
| Attributes.SerializeInputAttributes | zluda_rt/src/cache/cache_file.rs:167-174 | The JSON text parses back to the map's entries in ascending name order, each name mapped to its size, offset and default value. |
| Attributes.SerializationIsCanonical | zluda_rt/src/cache/cache_file.rs:170-173 | Two maps serialise to the same text exactly when they hold the same entries, whatever the iteration order. |
| Attributes.ParseObjectOfRendered | zluda_rt/src/cache/cache_file.rs:186-189 | The rendered object parses back to the ordered entries. |
| Attributes.ParseMemberOfRendered | zluda_rt/src/cache/cache_file.rs:193-199 | A rendered `"name":{...}` member parses back to its name and variable. |
| Attributes.ParseVariableOfRendered | zluda_rt/src/cache/cache_file.rs:202-208 | A rendered `{"size":..,"offset":..,"default_value":[..]}` parses back to the variable. |
| Json.ParseEscaped | zluda_rt/src/cache/cache_file.rs:198 | serde_json's escaping of a name is undone by the string reader. |
| Json.ParseNatOfDecimal | zluda_rt/src/cache/cache_file.rs:205-207 | A decimal number reads back as its value. |
| LexOrder.LessTransitive | zluda_rt/src/cache/cache_file.rs:170 | The `CString` key order is transitive. |
| LexOrder.LessConnected | zluda_rt/src/cache/cache_file.rs:170 | Any two different names are ordered one way or the other. |
| SevenBit.Encode7Bit | comm_manager/src/util.rs:1-9 | The output is never empty. Values below 0x80 encode as the single byte `[n]`, so 0 encodes as `[0]`. |
| SevenBit.Encode7BitLoop | comm_manager/src/util.rs:1-9 | The loop as written computes the recursive encoding. |
| SevenBit.Encode7BitContinuation | comm_manager/src/util.rs:3-7 | Every byte but the last has bit 0x80 set; the last is below 0x80. |
| SevenBit.Encode7BitWeight | comm_manager/src/util.rs:3-7 | The sum over i of `(b_i & 0x7F) * 128^i` is the encoded value. |
| SevenBit.Encode7BitLengthBounds | comm_manager/src/util.rs:3-7 | k bytes are used only for values of at least 128^(k-1). A value below 128^k takes at most k bytes. |
| SevenBit.Encode7BitLength | comm_manager/src/util.rs:1-9 | A `u32` encodes in 1 to 5 bytes. |
| SevenBit.ReadEncoded | comm_manager/src/util.rs:1-9 | The varint reader returns the value and leaves what follows untouched. |
| SevenBit.Encode7BitInjective | comm_manager/src/util.rs:1-9 | Different values have different encodings. |
| SevenBit.Encode7BitString | comm_manager/src/util.rs:11-20 | `None` encodes as `[0]`. `Some(s)` ends with the bytes of `s`, after a prefix whose weight is the length modulo 2^32. |
| SevenBit.EmptyStringIsAbsent | comm_manager/src/util.rs:11-20 | `Some("")` and `None` encode identically, as `[0]`. |
| SevenBit.LongStringLengthWraps | comm_manager/src/util.rs:14 | From 2^32 bytes on, the length prefix announces less than the real length. |
| SevenBit.ReadEncodedString | comm_manager/src/util.rs:11-20 | A string below 4 GiB reads back. An absent string reads back as empty. |
| ProgressFrames.Header | comm_manager/src/instances/progressbar_manager.rs:104-105 | The 10-byte header decodes to the opcode (2 bytes) and the id (8 bytes), both little-endian. |
| ProgressFrames.EncodeFrame | comm_manager/src/instances/progressbar_manager.rs:100-141 | A frame is the command's opcode (2 bytes) and id (8 bytes), both little-endian, followed by the command's payload. |
| ProgressFrames.FrameLayout | comm_manager/src/instances/progressbar_manager.rs:100-141 | Per command: SetProgress has a flag byte (0 or 1) at offset 10, the max's 8 bytes at 11-18 and the name string after them. Remove is 10 bytes. The text frames carry the text string after the header. SetProgressValue is 18 bytes ending in the value. |
| ProgressFrames.DecodePayloadOf | comm_manager/src/instances/progressbar_manager.rs:100-141 | Once the header is read, the payload bytes decode to the command, up to absent/empty text, and leave the rest of the stream. |
| ProgressFrames.EncodeNormalized | comm_manager/src/instances/progressbar_manager.rs:109 | An absent text and an empty text give the same frame. |
| ProgressFrames.DecodeEncoded | comm_manager/src/instances/progressbar_manager.rs:100-141 | Each frame decodes to its command, up to absent/empty text, leaving the rest of the stream. |
| ProgressFrames.DecodeEncodedStream | comm_manager/src/instances/progressbar_manager.rs:98-143 | The written byte stream decodes to the sequence of commands sent. |
| ProgressBars.ManagerSetProgress | comm_manager/src/instances/progressbar_manager.rs:76-78 | The appended SetProgress carries the id and name. An absent flag becomes false and an absent max becomes 0.0. Earlier commands are kept. |
| ProgressBars.ManagerRemoveProgress | comm_manager/src/instances/progressbar_manager.rs:80-82 | Appends one RemoveProgress for the id; earlier commands are kept. |
| ProgressBars.ManagerSetLeftText | comm_manager/src/instances/progressbar_manager.rs:84-86 | Appends one SetLeftText for the id and text; earlier commands are kept. |
| ProgressBars.ManagerSetRightText | comm_manager/src/instances/progressbar_manager.rs:88-90 | Appends one SetRightText for the id and text; earlier commands are kept. |
| ProgressBars.ManagerSetProgressValue | comm_manager/src/instances/progressbar_manager.rs:92-94 | Appends one SetProgressValue for the id and value; earlier commands are kept. |
| ProgressBars.Call | comm_manager/src/instances/progressbar_manager.rs:22-40 | Every bar method sends exactly one command, and it carries the bar's id. |
| ProgressBars.CallAll | comm_manager/src/instances/progressbar_manager.rs:22-40 | Any series of bar calls sends one command per call, all with the bar's id, after what was sent before. |
| ProgressBars.Drop | comm_manager/src/instances/progressbar_manager.rs:43-47 | Dropping a bar sends `RemoveProgress` for its id. |
| ProgressBars.CreateProgress | comm_manager/src/instances/progressbar_manager.rs:69-74 | The bar's id is the requested one, or else the random draw. Its first command is a SetProgress for that id. |
| ProgressBars.LifetimeCommands | comm_manager/src/instances/progressbar_manager.rs:17-74 | Over a bar's life (create, calls, drop), every command sent carries its id. The life starts with SetProgress and ends with RemoveProgress. |
| ProgressBars.LifetimeOnTheWire | comm_manager/src/instances/progressbar_manager.rs:96-145 | The frames written for a bar's life decode to commands that all carry its id, the last being its removal. |
| Switch.HandleAt | comm_manager/src/switch.rs:58-68 | A handle is the 8-byte little-endian value read as a signed 64-bit integer. |
| Switch.Acquire | comm_manager/src/switch.rs:40-71 | A non-16-byte identifier gives InvalidInput and nothing is written. Otherwise the identifier is written first. A non-zero little-endian status gives Other. A response shorter than 4 bytes, or one with status 0 that is shorter than 20 bytes (either handle missing), gives UnexpectedEof, and this is the only other failure. Success returns the read and write handles in that order. |
| Switch.AcquireOfEncoded | comm_manager/src/switch.rs:48-70 | A well-formed response reads back exactly; bytes after the 20th are ignored. A non-zero status fails whatever the handles. |
| Switch.FromSwitch | comm_manager/src/instances/progressbar_manager.rs:64-67 | The progress-bar identifier is 16 bytes and is written as is, so the identifier length check never fails. InvalidInput can come back only when the pipe write itself reports it. `from_switch` succeeds exactly when the handshake does, with a manager that has sent nothing. |

## Left out

- Hash algorithms: SHA-256, SHA-512 and BLAKE3 are arbitrary functions with fixed output lengths. Lemmas that need two inputs to hash apart say so in their `requires`.
- The filesystem's real semantics are replaced by a map, a directory set and a fault oracle. Partial writes, concurrent writers, races between `create_dir_all` and `write`, and timestamps are not modelled.
- `FileSystem.CreateDirAll`: it creates the directories outermost first and stops at the first failure. It does not model a directory that another process creates concurrently.
- `ProgramData::try_from_binary` (the ray-tracing program loader) is a parameter `fromBinary` of `RayTracingCache.TryLoadProgram`.
- The build identity `VERGEN_GIT_SHA` is a parameter.
- The `CompilationMode` enum is not part of this model. The compute cache takes its `as u8` value as a byte.
- `serde_json` is modelled only for this object shape: a compact object, `itoa` decimal numbers, and serde_json's string escaping. The reader partner accepts only what this writer produces, e.g. lower-case `\u00xx` for control bytes.
- The attribute map is modelled as its iteration sequence with distinct names; the hash-map ordering is arbitrary.
- `Attributes.SerializeInputAttributes`: a name that is not UTF-8 panics in `to_str().unwrap()`. This is a precondition, not an error result. For this shape, with valid names, serde_json cannot fail. So the "serialisation failed" branches of the ray-tracing `save_program` and `try_load_program` are unreachable and not modelled separately.
- `SevenBit.ReadEncodedString` and `ProgressFrames.DecodeEncoded`: the round trip is stated for strings below 2^32 bytes only. Longer strings wrap in `len() as u32` (see `SevenBit.LongStringLengthWraps`).
- The progress manager's worker thread, its mpsc channel and `rand::random` are not modelled. The channel becomes the ordered list of sent commands, and the random id becomes a parameter. Send failures, which the source ignores, are not modelled.
- Pipe write failures in the worker are ignored by the source (`let _ =`), so the model assumes every frame reaches the pipe whole.
- `f64` values are carried as their 8-byte bit pattern; `0.0` is the all-zero pattern. No float arithmetic is modelled.
- `Switch.Acquire`: a read fails only by running out of response bytes (UnexpectedEof). Other read errors, interrupted writes being retried, and the content of a partially filled buffer are not modelled.
- `CommManagerSwitch::new` (environment variable and `CreateFileW`), `CommManagerInstance` (`instance.rs`), `lib.rs` and the commented-out SQLite tests are not part of this model.
