# tsgolint headless driver — Dafny model

This project models `cmd/tsgolint/headless.go`, the headless lint driver of
tsgolint. A parent process (an editor or build tool) starts it with
`--tsconfig` and `--cwd` and writes a JSON document to its stdin. The
document lists, per file path, the rule names to run. The driver binds each
path to a source file of the compiled TypeScript program and orders the files
longest first. It then runs the linter over them. While linting, the linter
asks the driver for each file's rules through a callback, which resolves the
configured rule names against the rule registry. Each rule diagnostic is
streamed back on stdout as a binary frame.

The model covers:

- **Framing** (`Bytes`, `Framing`). `writeMessage` writes a 4-byte
  little-endian payload length, a 1-byte message kind (Error = 0,
  Diagnostic = 1), then the payload bytes. The JSON payload is an opaque byte
  sequence produced by a `marshal` parameter. A decoder that reads the 5-byte
  header and then exactly `length` bytes is the partner definition. The
  round trip is proved in both directions.
- **Diagnostic conversion** (`RuleTypes`, `Wire`). The consumer loop turns
  each `rule.RuleDiagnostic` into a `headlessDiagnostic`. Note the quirk at
  line 191: every suggestion on the wire carries the *diagnostic's* message,
  not the suggestion's own. `Wire.ToHeadlessKeepsExactly` states exactly which
  information reaches the wire.
- **Setup and outcome** (`SizeOrder`, `Headless`). This covers the flag
  checks (`--tsconfig` is checked before `--cwd`) and the early-exit error
  paths. Binding is all-or-nothing, and a later entry for the same file wins.
  The comparator `len(b.Text()) - len(a.Text())` sorts longest first. Rule
  names are resolved against the registry. The exit status and stdout messages
  are a pure function of the inputs. The program host, the JSON decoder, the
  registry and the linter are inputs: function values and maps in `Host`, plus
  a `Linter` function.

Two behaviours of the code are easy to miss:

- An unknown rule name makes the resolver callback `panic` (line 219). It
  does not write an Error frame or return status 1. `Headless.Outcome` has a
  `Panic` case for it.
- On a linter error (lines 236-240), the Error frame is written straight to
  `os.Stdout`. This happens while the buffered consumer may still be
  draining, and `runHeadless` returns without waiting for it.

## Model

| member | source | states |
|---|---|---|
| `Bytes.LittleEndian32` | cmd/tsgolint/headless.go:91 | The four bytes `PutUint32` stores for a length below 2^32 read back, little-endian, as that length |
| `Bytes.LittleEndian32OfDecoded` | cmd/tsgolint/headless.go:91 | Every 4-byte group is the encoding of the number it denotes, so the length field is a bijection on uint32 |
| `Framing.KindByte` | cmd/tsgolint/headless.go:74-79 | Error is written as byte 0 and Diagnostic as byte 1, and a reader maps each byte back to its kind |
| `Framing.KindFromByte` | cmd/tsgolint/headless.go:74-79 | Only bytes 0 and 1 name a message kind |
| `Framing.KindByteOfKindFromByte` | cmd/tsgolint/headless.go:92 | A byte that names a kind is that kind's byte |
| `Framing.EncodeFrame` | cmd/tsgolint/headless.go:90-94 | A frame is exactly 5 + len(payload) bytes: bytes 0-3 are the little-endian length, byte 4 is the kind, and the rest is the payload unchanged |
| `Framing.DecodeFrame` | cmd/tsgolint/headless.go:90-94 | Whatever a reader accepts as one frame is exactly an encoded frame followed by the remaining bytes |
| `Framing.DecodeFrames` | cmd/tsgolint/headless.go:90-94 | A stream that decodes completely is the concatenation of the encodings of the frames read from it, so nothing is lost or invented |
| `Framing.DecodeEncodeFrame` | cmd/tsgolint/headless.go:90-94 | Reading an encoded frame returns that frame and leaves the following bytes untouched |
| `Framing.DecodeEncodeFrames` | cmd/tsgolint/headless.go:90-94 | Decoding concatenated frames returns the same frames, in the same count and order (payloads below 2^32 bytes) |
| `Framing.WriteMessage` | cmd/tsgolint/headless.go:85-96 | If serialisation fails, the error is returned and no byte is written. Otherwise the error is nil, earlier bytes are kept, and one frame is appended with the length field, kind byte and payload in place |
| `Framing.WriteMessageAppends` | cmd/tsgolint/headless.go:90-94 | A successful call appends exactly the encoding of one frame |
| `Framing.WriteMessageDecodes` | cmd/tsgolint/headless.go:85-96 | A reader of the appended bytes finds exactly one frame, with the given kind and the serialised payload |
| `Wire.HeadlessRangeFromRange` | cmd/tsgolint/headless.go:38-43 | Both offsets travel unchanged: the wire range reads back as the source range |
| `Wire.HeadlessRuleMessageFromRuleMessage` | cmd/tsgolint/headless.go:50-55 | Id and description travel unchanged: the wire message reads back as the source message |
| `Wire.HeadlessSuggestionFrom` | cmd/tsgolint/headless.go:189-199 | A wire suggestion carries the enclosing diagnostic's message, not its own, and its fixes match the suggestion's fixes element-wise and read back to them |
| `Wire.FixesRoundTrip` | cmd/tsgolint/headless.go:183-188 | Fix conversion keeps count, order, text and both offsets, and reading the wire fixes back yields the source fixes |
| `Wire.ToHeadless` | cmd/tsgolint/headless.go:175-200 | Range, rule name, message id and description, and file name are copied. Fixes and suggestions keep their count and match element-wise, and each suggestion's message is the diagnostic's message |
| `Wire.ToHeadlessKeepsExactly` | cmd/tsgolint/headless.go:175-200 | Two diagnostics convert to the same record exactly when they agree on everything but the suggestions' own messages and the file text |
| `SizeOrder.Insert` | cmd/tsgolint/headless.go:161-163 | Inserting into a longest-first list with the comparator keeps it longest first, and adds exactly that file |
| `SizeOrder.SortBySize` | cmd/tsgolint/headless.go:161-163 | The sorted files are a permutation of the bound files with non-increasing text length |
| `Headless.Fatal` | cmd/tsgolint/headless.go:98-102 | `writeErrorMessage(text); return 1` leaves status 1, nothing on stderr, and exactly one stdout message: an Error carrying `text` |
| `Headless.ProgramFromNormalisedFlags` | cmd/tsgolint/headless.go:123-130 | The program is created from the normalised `--cwd` and `--tsconfig`: flags that normalise alike create the same program |
| `Headless.Bind` | cmd/tsgolint/headless.go:149-159 | Binding succeeds exactly when every configured path resolves. Otherwise it fails with the message naming the first unresolved path. On success `files[i]` is the file of `config.Files[i]`, the map keys are the bound files, and each file maps to its last entry |
| `Headless.BindStep` | cmd/tsgolint/headless.go:151-159 | One loop iteration keeps the binding invariant |
| `Headless.LastEntryWins` | cmd/tsgolint/headless.go:158 | Overwriting the new file's map entry keeps every other file's last-entry config |
| `Headless.NewKeyIsBound` | cmd/tsgolint/headless.go:157-158 | After the new map entry, every key of `fileConfigs` is still a bound file |
| `Headless.ConfigFor` | cmd/tsgolint/headless.go:213 | `fileConfigs[sourceFile]` is the stored config for a bound file and Go's zero value (empty path, no rules) otherwise |
| `Headless.ResolveRules` | cmd/tsgolint/headless.go:214-227 | Resolution succeeds exactly when every name is registered. Entry i then carries the registry's name and rule for `Rules[i]`, with the same length and order. Otherwise it panics on the first unknown name and returns no partial list |
| `Headless.ResolveAll` | cmd/tsgolint/headless.go:212-230 | Every file the linter gets has its rules resolved from its own config, or resolution stops at the first file whose resolver panics |
| `Headless.Setup` | cmd/tsgolint/headless.go:104-230 | Setup stops with a usage error, one Error frame or a panic, never a Diagnostic frame. A missing `--tsconfig` wins over a missing `--cwd`. On success the linter gets a longest-first permutation of the bound files, each with its resolved rules |
| `Headless.Streamed` | cmd/tsgolint/headless.go:174-201 | One Diagnostic message per reported diagnostic, in report order, each the converted record |
| `Headless.Lint` | cmd/tsgolint/headless.go:208-244 | Status is 0 exactly when the linter returns no error. Stdout begins with the converted diagnostics, and an error adds one final Error frame `error running linter: <err>` and status 1 |
| `Headless.RunHeadless` | cmd/tsgolint/headless.go:104-245 | The linter is consulted only after setup succeeds. Status is 0 or 1. Status 0 leaves only Diagnostic frames. Status 1 leaves either a stderr message and no frame, or one final Error frame after Diagnostic frames |
| `Headless.RunFromNormalisedFlags` | cmd/tsgolint/headless.go:114-130 | Once both flags are given, two runs whose flags normalise alike and that read the same stdin produce the same outcome |
| `Headless.SetupFailuresEmitOneErrorFrame` | cmd/tsgolint/headless.go:130-147 | A program-creation, stdin-read or config-parse failure each give exactly one Error frame with its message, and status 1 |
| `Headless.BindingAllOrNothing` | cmd/tsgolint/headless.go:149-156 | One unresolved path gives exactly one Error frame naming the first such path, and status 1. The outcome is the same for every linter |
| `Headless.ResolveAllFailsOnUnknownRule` | cmd/tsgolint/headless.go:216-220 | For any ordering of the bound files, resolution fails exactly when some file's config names an unregistered rule, and the panic names such a rule |
| `Headless.SetupAfterBinding` | cmd/tsgolint/headless.go:161-230 | Once binding succeeds, setup can stop only through the resolver's panic |
| `Headless.UnknownRuleIsFatal` | cmd/tsgolint/headless.go:212-220 | The run panics exactly when the config a bound file ends up with names an unregistered rule. An overridden earlier entry is never consulted |
| `Headless.DuplicateEntriesShareLaterConfig` | cmd/tsgolint/headless.go:149-159 | Two entries for the same file bind it twice, and both copies get the later entry's config and rules |
| `Headless.Render` | cmd/tsgolint/headless.go:201 | Successive `writeMessage` calls on one writer (line 201, and the `writeErrorMessage` calls at 132, 138, 145, 154 and 238) never alter bytes already written |
| `Headless.RenderDropsUnserialisable` | cmd/tsgolint/headless.go:86-89 | A message whose payload cannot be serialised adds no bytes, because the callers ignore the returned error |
| `Headless.RenderEncodesFrames` | cmd/tsgolint/headless.go:201 | Writing the messages one after another produces the concatenated frames |
| `Headless.RenderDecodes` | cmd/tsgolint/headless.go:98-102 | A parent reading stdout frame by frame gets one frame per message, in order, with the message's kind and payload |
| `Headless.StatusShapeOnWire` | cmd/tsgolint/headless.go:236-244 | The frames of a status-shaped stdout are all Diagnostic for status 0, and end in the single Error frame for status 1 |
| `Headless.WireShowsExitStatus` | cmd/tsgolint/headless.go:130-244 | On the wire, status 0 means only Diagnostic frames. Status 1 with any frame means the last frame is the only Error frame |
| `Headless.SingleFileScenario` | cmd/tsgolint/headless.go:104-245 | Concrete run: one file `/a.ts` with rule `no-foo` reaches the linter with exactly that rule, then one Diagnostic with range 3-6, empty fixes and suggestions, and status 0 |

## Left out

- Concurrency: the consumer goroutine, the 4096-slot channel, `sync.WaitGroup`
  and the close/wait ordering (lines 165-174, 206, 232, 236-242). The model
  takes the diagnostics in the order the linter hands them to the sink.
- Headless.Lint: on a linter error the model places the Error frame after
  every Diagnostic frame. In the code it goes straight to `os.Stdout` while the
  buffered consumer may still be draining, and the function returns without
  `wg.Wait()`. So diagnostics can be lost or interleaved; this race is not
  modelled.
- `bufio` buffering and the flush when `Available() < 4096` (lines 172-173,
  202-204): these change when bytes reach stdout, not which bytes, except on
  the linter-error path (see Headless.Lint), where the consumer's deferred
  `w.Flush()` may never run.
- `encoding/json` marshalling and unmarshalling: they are the `marshal` and
  `Host.parseConfig` parameters. Payload bytes are opaque.
- `flag` parsing (lines 110-112): the model starts from the parsed
  `--tsconfig` and `--cwd` values, with "" when a flag is absent.
- `tspath.NormalizePath`, the bundled/cached OS file system,
  `utils.CreateCompilerHost` and `utils.CreateProgram`: they are the
  `Host.normalizePath` and `Host.createProgram` parameters.
- `program.GetSourceFile` is a lookup in a map from path to file. Any path
  handling inside it is not part of this model.
- `linter.RunLinter` is the `Linter` parameter. The model assumes that it
  asks the resolver for every file it is given, and resolves them in file
  order. Unlike the code, the model resolves every file's rules before the
  linter runs (`Headless.Setup`), so a panic never depends on the linter. In
  the code the callback (lines 212-230) runs during linting, and Diagnostic
  frames for earlier files can reach stdout before the `panic` at line 219. The first failing file in that order names the panic. With
  concurrent workers, which unknown rule is reported first is unspecified.
- Headless.RunHeadless: a panic is modelled as `Panic(message)`. The Go
  runtime's exit status, and whatever stdout bytes were already flushed, are
  not modelled.
- Rule implementations (`r.Run`) and the contents of `allRulesByName`: the
  registry is an arbitrary map from name to `Rule`.
- SizeOrder.SortBySize: `slices.SortFunc` is not stable, so Go may order
  equal-length files differently. The model fixes one order (an insertion
  sort with the same comparator). The proved properties are permutation and
  non-increasing length, which hold for any correct sort.
- Errors from `w.Write` are ignored by the code and not modelled. The error
  `writeMessage` returns is dropped by the consumer loop (line 201). The
  error `writeErrorMessage` passes on (line 99) is dropped by its callers at
  lines 132, 138, 145, 154 and 238. `Render` therefore drops a message whose
  payload cannot be serialised.
- `*ast.SourceFile` is modelled by its value (file name, text). Reference
  identity, which keys `fileConfigs` (lines 149, 158, 213), therefore becomes
  value equality. This is sound because file names are unique within one program:
  two distinct source files never share a name, so they never compare equal
  in the model.
- Payloads of 2^32 bytes or more, which `uint32(len(...))` would truncate,
  are excluded by the `PayloadFits` precondition of `Framing.WriteMessage`.
- `RuleDiagnostic.Fixes()` and `GetSuggestions()` read fields that
  may be nil. They are modelled as plain sequences, where nil is the empty
  sequence.
