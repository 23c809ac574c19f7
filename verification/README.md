# mageconfig, modelled in Dafny

mageconfig fills a Go configuration struct for a Mage build target. Each
field of the struct is filled from up to four sources. The sources are read
in a fixed order, and each later one overwrites the earlier ones:

1. the field's `default` tag;
2. a `key: value` configuration file, where the `file` tag names the key;
3. the environment variable named by the `env` tag;
4. the command-line argument named by the `arg` tag, or by the lower-cased
   field name.

A raw string is converted according to the field's type:

- a scalar: bool, int, uint, float64, string, `time.Duration` or `time.Time`;
- a comma-separated slice of scalars;
- a `key:value,...` map of scalars.

After the passes, `Load` checks the `required` and `depends` tags. Once the
four passes of a call have succeeded, a package-level `isLoaded` flag, set
through a `sync.Once`, makes every later call return at once. A help request
is the exception: it is handled before the flag is read.

The project models this core as pure functions over immutable values:

- `Errors`: the error values and Go's `Error()` text for them.
- `GoStrings`: the parts of Go's `strings` package the core uses. These are
  `TrimSpace`, `TrimLeft` of `-`, `Index`, `Split`, `SplitN(…, 2)` (as
  `Cut`) and `ToLower`.
- `StrConv`: `strconv.ParseBool`, plus `ParseInt` and `ParseUint` in base 10
  with 64 bits, with their error values.
- `Fields`: field types, values, tags and `getTagOrDefault`.
- `Parser`: `parseStringToType`, `setFieldByKind` and `setFields` (the
  in-order field iteration).
- `Sources`: the configuration-file line format, with its quote stripping;
  `getArgValue`; `contains`; the host-tool command scan; the help flag.
- `Loader`:
  - the `isSet` map;
  - the four passes;
  - `checkRequiredAndDepends`;
  - `Load`, with its early exits and the `isLoaded`/`sync.Once` latch.
- `LoaderProperties`: the laws of a pass. These are what a pass changes and
  leaves alone, its failure behaviour, its monotonicity and its type safety.
  Also the precedence of the four sources and the latch behaviour of `Load`.
- `Scenarios`: the concrete cases the repository's tests exercise.

The inputs a Go call reads from the process become parameters:

- the file system is a function from path to `FileRead`;
- the environment is a map;
- `os.Args` is a sequence whose element 0 is the program name;
- the package state is a `Globals` value that `Load` takes and returns.

A struct is its list of field declarations (name, type, tags) together with
a map from field name to current value.

## Model

| member | source | states |
|---|---|---|
| Fields.TagOrDefault | parser.go:13-20 | A non-empty tag is returned unchanged. An empty or absent tag yields the field name with every ASCII capital lowered, at the same length, and no capital remaining. |
| GoStrings.TrimSpace | mageconfig.go:200-201 | The result is no longer than the input. It neither starts nor ends with a Unicode space character. |
| GoStrings.TrimLeftSpace | mageconfig.go:200-201 | The result is a suffix of the input. Everything removed is white space. The result does not start with a space. |
| GoStrings.TrimRightSpace | mageconfig.go:200-201 | The result is a prefix of the input. Everything removed is white space. The result does not end with a space. |
| GoStrings.TrimSpaceInfix | mageconfig.go:200-201 | The trimmed string is a contiguous slice of the input with only white space outside it. |
| GoStrings.TrimSpaceUnchanged | parser.go:55 | A string with no white space at either end is its own trim. |
| GoStrings.TrimLeftDashes | mageconfig.go:284 | The result is a suffix of the argument. Only `-` characters were removed. The result does not start with `-`. |
| GoStrings.IndexOf | mageconfig.go:285 | The result is -1 exactly when the character is absent. Otherwise it is the position of the first occurrence. |
| GoStrings.Cut | parser.go:70-73 | The result is `None` exactly when the separator is absent. Otherwise the input is the part before, the separator, and the part after, and the part before contains no separator. |
| GoStrings.CutAtFirst | mageconfig.go:196 | Cutting `before + sep + after` with a separator-free `before` splits at that first separator. |
| GoStrings.Split | parser.go:51 | There is one piece more than there are separators, and no piece contains the separator. |
| GoStrings.JoinSplit | parser.go:51 | Joining the pieces of a split with the separator gives back the original string. |
| GoStrings.JoinPrepend | parser.go:51 | Prepending a character to the first piece prepends it to the joined string. |
| GoStrings.SplitJoin | parser.go:51 | Splitting a join of separator-free pieces gives back the pieces. |
| GoStrings.SplitNoSeparator | parser.go:51 | A string without the separator splits into itself alone. |
| GoStrings.SplitAfterFreePrefix | parser.go:51 | A separator-free first piece followed by the separator splits off as the first element. |
| GoStrings.LowerAscii | parser.go:16 | A capital A-Z becomes the small letter at the same place in the alphabet (32 code points up). Every other character is unchanged. The result is never a capital. |
| GoStrings.ToLower | parser.go:16 | The length is kept and no capital remains. Each character is lowered in place: a capital becomes its small letter and anything else is kept. |
| GoStrings.ToLowerIdempotent | parser.go:16 | Lowering a lowered string changes nothing. |
| GoStrings.ToLowerFixed | parser.go:16 | A string is its own lower case exactly when it contains no capital. |
| StrConv.DigitValue | parser.go:113 | A digit's value is below 10. |
| StrConv.DigitChar | parser.go:113 | The character produced for a value below 10 is a digit with that value. |
| StrConv.DigitValueChar | parser.go:113 | Writing out the value of a digit gives back that digit, so `DigitValue` and `DigitChar` are inverse. |
| StrConv.ParseBool | parser.go:110-111 | The result is `true` exactly for the six true spellings and `false` exactly for the six false spellings. Any other input is an error, `strconv.ParseBool: parsing "<s>": invalid syntax`. |
| StrConv.DecimalValueSnoc | parser.go:116 | Appending a digit multiplies the value by ten and adds the digit. |
| StrConv.DecimalValuePrefix | parser.go:116 | A prefix of a digit string is a digit string with a value no larger. |
| StrConv.ScanDigitsCorrect | parser.go:116 | The scan accepts exactly the digit strings whose value fits in 64 bits, yields that value, and reports out-of-range for larger ones. |
| StrConv.ScanDigitsCause | parser.go:116 | The digit loop stops with a range error exactly when some digit-only prefix of the input exceeds 2^64-1, that is, when it overflows before the first non-digit. Any other stop is a syntax error. |
| StrConv.ScanUnsigned | parser.go:116 | An unsigned scan succeeds exactly for a non-empty digit string within 64 bits and yields its decimal value. It stops out of range exactly when a digit-only prefix overflows. |
| StrConv.ParseUint | parser.go:116-117 | The parse succeeds exactly for a non-empty digit string of value at most 2^64-1 and yields that value. An error is a `ParseUint` number error on the whole input. Its cause is out of range exactly when some digit-only prefix of the input exceeds 2^64-1, even if a non-digit follows; otherwise it is invalid syntax. |
| StrConv.OverflowBeforeNonDigit | parser.go:116-117 | Digits too large for 64 bits followed by anything, digits or not, give the `ParseUint` range error. |
| StrConv.ParseInt | parser.go:113-114 | The parse succeeds exactly for an optionally signed decimal within [-2^63, 2^63-1] and yields its signed value. An error is a `ParseInt` number error on the whole input. Its cause is out of range exactly when the magnitude overflows before its first non-digit, or the input is a well-formed signed decimal outside the signed range; otherwise it is invalid syntax. |
| StrConv.FormatUint | parser.go:116 | The result is a non-empty digit string whose decimal value is the number. |
| StrConv.ParseUintFormatUint | parser.go:116-117 | Parsing a formatted 64-bit unsigned number returns it. |
| StrConv.ParseIntFormatInt | parser.go:113-114 | Parsing a formatted 64-bit signed number returns it. |
| StrConv.ParseBoolFormats | parser.go:110-111 | `true` and `false` parse back to their booleans. |
| Parser.ParseStringToType | parser.go:98-126 | A successful conversion yields a scalar of the requested type. |
| Parser.ParseStringToTypeRules | parser.go:98-126 | The rule for each type, in both directions. A string is kept as it is. A type without a rule is `unsupported type`. Bool, int and uint accept exactly what `strconv` accepts and yield its value. Float, duration and time agree with their parsers. A failing int, uint, float, duration or time conversion returns that parser's own error unchanged. |
| Parser.ConvertElem | parser.go:55 | A converted slice element has the element type. |
| Parser.ConvertElems | parser.go:53-60 | The conversion succeeds exactly when every piece converts. The result then has one element per piece, each the conversion of its piece. Otherwise the error is that of the first failing piece. |
| Parser.ConvertPair | parser.go:70-73 | A piece without `:` fails with `invalid map default value: <piece>`, untrimmed. |
| Parser.ConvertPairAtFirstColon | parser.go:70-79 | A pair is cut at its first `:`. The rest, colons and all, is converted, and the trimmed key carries the value. |
| Parser.ConvertPairs | parser.go:69-80 | The map loop succeeds exactly when every piece converts as a pair. Otherwise the error is that of the first failing piece. |
| Parser.Pairs | parser.go:69-80 | There is one pair per piece, each the converted pair of its piece. |
| Parser.ConvertPairsInserts | parser.go:69-80 | A successful map loop inserts the converted pairs in order. |
| Parser.InsertKeys | parser.go:79 | After inserting the pairs, the keys are the old keys plus the pairs' keys. |
| Parser.InsertLastPair | parser.go:79 | A key maps to the value of the last pair that carries it. |
| Parser.InsertUntouched | parser.go:79 | A key no pair carries keeps its old value. |
| Parser.InsertValuesFrom | parser.go:79 | Every value of the result is an old value or the value of some pair with that key. |
| Parser.InsertLastWins | parser.go:79 | Map insertion as a whole, the form the map typing proof `ConvertPairsTyped` uses: keys in both directions, last pair wins, untouched keys kept, and no value from nowhere. |
| Parser.ElemConverterTyped | parser.go:55 | The element conversion only yields values of the element type. |
| Parser.ConvertPairTyped | parser.go:75 | A converted map value has the element type. |
| Parser.ConvertSlice | parser.go:48-61 | Every element of a converted slice has the element type. |
| Parser.ConvertMap | parser.go:63-81 | Every value of a converted map has the element type. |
| Parser.SetFieldByKind | parser.go:46-93 | A result value always has the field's declared type. A scalar field succeeds exactly when its untrimmed string converts, gets that value, and wraps a failure in `parse field: …`. |
| Parser.SliceField | parser.go:48-61 | A slice field succeeds exactly when every comma-separated piece converts after trimming. It then has one element more than there are commas, element i being piece i converted. Otherwise the first failing piece's error is returned unwrapped. |
| Parser.MapField | parser.go:63-81 | A map field meets `Parser.MapConversion` for its comma-separated pieces. It succeeds exactly when every piece has a `:` and a convertible value. Its keys are then exactly the trimmed keys, each mapped to the value of the last piece with that key. Otherwise the first failing piece decides the error, `invalid map default value` for a piece without `:`. |
| Parser.ConvertPairsEntries | parser.go:69-80 | A successful map loop from an empty map has exactly the pairs' keys, each with the value of the last pair carrying it. |
| Parser.ConvertPairsTyped | parser.go:75-79 | Every value of a successful map loop has the element type. |
| Parser.VisitPrefixFailureSticks | parser.go:33-39 | Once a field's visit has failed, later fields change neither the state nor the error. |
| Parser.VisitPrefixOfPrefix | parser.go:33-39 | Visiting the first k fields of a longer struct is the same as visiting the first k fields of a shorter one. |
| Parser.SetFieldsStopsAtFirstError | parser.go:33-41 | If field k is the first to fail, `setFields` (`Parser.SetFields`) returns exactly that visit's result. The fields after it are never visited. |
| Parser.SetFieldsErrorIsFirst | parser.go:33-41 | Every error `setFields` returns is the result of the first failing visit, after all earlier visits passed. |
| Sources.StripQuotesAsWritten | mageconfig.go:204-208 | The stripping as written. It fails (Go panics) exactly on a lone quote character. Otherwise it removes one matching pair of quotes, or leaves the value unchanged when it is not quoted. |
| Sources.LoneQuotePanics | mageconfig.go:204-207 | The values `"` and `'` make the as-written stripping fail. |
| Sources.StripQuotes | mageconfig.go:204-208 | A value wrapped in one pair of matching quotes loses exactly those quotes; any other value is unchanged. |
| Sources.StripQuotesAgrees | mageconfig.go:204-208 | Wherever the as-written stripping does not panic, the corrected stripping agrees with it. |
| Sources.StripQuotesUnwraps | mageconfig.go:204-208 | Quoting any text with `"` or `'` and stripping gives the text back. |
| Sources.ParseLine | mageconfig.go:195-201 | A line yields no entry exactly when it has no `:`. |
| Sources.ParseLineAtFirstColon | mageconfig.go:196-208 | A line `key:rest` with a colon-free key yields the trimmed key and the trimmed, quote-stripped rest. |
| Sources.UpdatesLastWins | mageconfig.go:210 | For the map `Sources.Updates` builds, the keys are exactly the keys of the parsed lines. Each key maps to the value of the last line carrying it. |
| Sources.FileContentLastWins | mageconfig.go:192-211 | For the map `Sources.FileContent` builds from the raw lines, lines without `:` are skipped. The keys are exactly those of well-formed lines, and the last such line for a key gives its value. |
| Sources.FirstAnswer | mageconfig.go:283-302 | The answer is the first argument's decision that gives a value, or `""` when none does. |
| Sources.GetArgValue | mageconfig.go:282-303 | Arguments from index 1 on are scanned. The answer is the first argument that decides, or `""` when none does. |
| Sources.TrimDashesPrefix | mageconfig.go:284 | Trimming removes exactly a leading run of dashes. |
| Sources.DecideAssigned | mageconfig.go:287-292 | What `Sources.Decide` makes of one argument: `-name=value` (any number of dashes) answers `value`. |
| Sources.DecideBare | mageconfig.go:293-298 | A bare `-name` answers the next argument when that one exists and has no leading dash. Otherwise a boolean answers `true` and any other field gets no answer from it. |
| Sources.DecideOther | mageconfig.go:284-299 | An argument whose dash-trimmed text is neither the name nor the name followed by `=` answers nothing: the name must match exactly. |
| Sources.Contains | mageconfig.go:139-146 | The result is true exactly when the string is an element of the list. |
| Sources.MageCommandGivenIff | mageconfig.go:69-77 | The host-tool command scan `Sources.MageCommandGiven` fires exactly when `-l` or `-h` is among the arguments. |
| Loader.InitializeIsSet | mageconfig.go:149-157 | Every field name gets an entry, no entry counts as set, and there is no entry for a name that is not a field. |
| Loader.Lookup | mageconfig.go:162-165 | A default or an argument value is only supplied when it is non-empty. The rule for each source is stated in terms of tags by the pass lemmas `DefaultPassReads`, `FilePassReads`, `EnvPassReads` and `ArgsPassReads`. |
| Loader.FieldSetterTyped | parser.go:46-93 | The converter `Load` uses only yields values of the field's type. |
| Loader.LoadFromFile | mageconfig.go:177-236 | An empty path or a missing file passes and changes nothing. An open or scan failure returns a file error with that failure's reason and changes nothing. A readable file runs the field pass over its line map. |
| Loader.FirstUnset | mageconfig.go:323-329 | There is no error exactly when every dependency is set. Otherwise the error names the first unset dependency. |
| Loader.FieldViolation | mageconfig.go:315-330 | A field has no violation exactly when its requirements hold. A required, unset field is reported by its own name first. Otherwise the violation is the first unset dependency of its `depends` list. |
| Loader.CheckFrom | mageconfig.go:312-333 | The check from field k on passes exactly when all later fields are satisfied. Otherwise it reports the first unsatisfied field's violation. |
| Loader.CheckRequiredAndDepends | mageconfig.go:309-334 | The check passes exactly when every field's requirements hold. An error is the violation of the first field that fails. |
| Loader.Latch | mageconfig.go:110-112 | The first firing sets `isLoaded` and marks the `Once` done. Later firings change nothing. |
| Loader.Load | mageconfig.go:55-116 | A help request exits when the target's element type is a struct: a pointer to a struct, or a slice, array, map or channel of structs. On a struct value, nil, or a pointer to a non-struct it panics (`printUsage` takes the element type and counts its fields). Neither happens without a help request. Otherwise a loaded package state, or a `-l`/`-h` argument, returns no error and changes nothing. Any target other than a pointer to a struct gets `config must be a pointer to a struct`. The struct keeps its field declarations. |
| LoaderProperties.AssignEffect | mageconfig.go:161-173 | What `Loader.Assign` does for one field, one of three things. Without a raw string it changes nothing. With one that converts, only that field's value and set flag change. With one that fails, nothing changes and the conversion error is returned. |
| LoaderProperties.VisitIsAssign | parser.go:33-39 | Each step of a pass is the assignment of that field. |
| LoaderProperties.AppliedThenUntouched | parser.go:33-39 | A field's assignment survives later steps that leave the field alone. |
| LoaderProperties.UntouchedThenApplied | parser.go:33-39 | Steps that leave a field alone before its assignment do not change the assignment's effect. |
| LoaderProperties.PassStepApplied | parser.go:33-39 | Adding one step keeps every earlier field's assignment in force. |
| LoaderProperties.PassStepUntouched | parser.go:33-39 | Adding one step still leaves every field not yet visited alone. |
| LoaderProperties.PassPrefix | parser.go:33-39 | With unique field names, a passing prefix of a pass has applied each visited field's raw string and left every other name alone. |
| LoaderProperties.PassSucceeds | mageconfig.go:160-174 | A successful pass (`Loader.RunPass`) applies, for every field, that source's raw string, and touches no name that is not a field. |
| LoaderProperties.VisitsFail | parser.go:33-41 | A failing iteration fails at some field k with that field's conversion error. Every earlier field is applied, and field k and every later name are untouched. |
| LoaderProperties.PassFails | mageconfig.go:160-174 | A failing pass fails at the first field whose string does not convert. Earlier fields keep their new values, and that field and all later ones are left as they were. |
| LoaderProperties.NotSuppliedUntouched | mageconfig.go:160-174 | A field its source supplies nothing for is left alone by the pass, whether the pass succeeds or fails. |
| LoaderProperties.DefaultPassReads | mageconfig.go:160-174 | `Loader.SetDefault`: a field with an empty `default` tag is left alone. After a successful pass a field with a non-empty one holds that tag converted and is marked set. |
| LoaderProperties.FilePassSkipsUntagged | mageconfig.go:219-223 | A field with an empty `file` tag is left alone by the file pass, whatever the file holds and whether it can be read. |
| LoaderProperties.FilePassReads | mageconfig.go:218-234 | For a file that is read, a field whose `file` tag is empty or names no key of the file is left alone. After a successful pass a field whose tag names a key holds that key's value converted and is marked set. |
| LoaderProperties.EnvPassReads | mageconfig.go:239-257 | `Loader.LoadFromEnv`: a field whose `env` tag is empty or names an absent variable is left alone. After a successful pass a field whose tag names a present variable holds its value converted and is marked set, even when the value is empty. |
| LoaderProperties.EnvEmptyValueCounts | mageconfig.go:246-254 | A variable that is present but empty still counts: its field holds the empty string converted and is marked set. |
| LoaderProperties.ArgsPassReads | mageconfig.go:261-278 | `Loader.LoadFromArgs`: a field for which `getArgValue` finds nothing under its `arg` name is left alone. After a successful pass a field for which it finds a value holds that value converted and is marked set. |
| LoaderProperties.PassPrefixMonotone | mageconfig.go:170 | A prefix of a pass never clears a set flag. |
| LoaderProperties.PassMonotone | mageconfig.go:170 | A pass never clears a set flag. |
| LoaderProperties.PassPrefixKeepsTypes | parser.go:46-93 | A prefix of a pass keeps every field's value of its declared type. |
| LoaderProperties.StepKeepsTypes | parser.go:46-93 | One field's assignment keeps every field of its declared type. |
| LoaderProperties.PassKeepsTypes | parser.go:46-93 | A pass keeps every field's value of its declared type. |
| LoaderProperties.LastSupplied | mageconfig.go:86-107 | The winner among the sources is `None` exactly when no source supplies a string. Otherwise it is the last source that does. |
| LoaderProperties.ComposeApplied | mageconfig.go:86-107 | After four assignments, the field holds the conversion of the last supplied string, or its initial value when none was supplied. It is set exactly when it was already set or some source supplied a string. |
| LoaderProperties.PrecedenceOfEffects | mageconfig.go:86-107 | Four passes that each applied their source's strings combine into last-source-wins for every field. |
| LoaderProperties.PassApplies | mageconfig.go:160-174 | A successful pass applies its source's string to every field. |
| LoaderProperties.FilePassApplies | mageconfig.go:177-236 | A successful file pass applies the file's value to every field, or nothing when no file is read. |
| LoaderProperties.PassesPrecedence | mageconfig.go:86-107 | After the four passes of `Loader.RunPasses` succeed, each field holds the conversion of the last source that supplied a string: arguments over environment over file over default. A field no source names keeps its value, and a field is set exactly when it was set before or some source supplied a string. |
| LoaderProperties.PassesSetFlags | mageconfig.go:86-107 | Starting from fresh flags, a field ends set exactly when some source supplied a string for it. |
| LoaderProperties.LoadRunsPasses | mageconfig.go:85-115 | Past the early exits, `Load` runs the four passes on fresh set flags. A pass error is returned with the latch untouched and the partial assignments kept. Otherwise the latch fires and the requirement check gives the result. |
| LoaderProperties.LoadKeepsLatch | mageconfig.go:62-64 | `Load` keeps `isLoaded` in step with the `Once` and never clears it. |
| LoaderProperties.LoadLatches | mageconfig.go:62-64 | After a first `Load` whose passes succeed, even if the check then fails, every later non-help `Load` returns no error and leaves its struct alone. |
| LoaderProperties.LoadPassErrorDoesNotLatch | mageconfig.go:90-107 | A pass error leaves `isLoaded` false, so the next call loads again. |
| LoaderProperties.OnceFiresOnce | mageconfig.go:110-112 | Once the `Once` has fired, clearing `isLoaded` from outside is permanent. A later successful `Load` does not set it again. |
| Scenarios.TagOrDefaultCases | parser_test.go:15-37 | `arg:"testArg"` gives `testArg`; an empty `arg` tag on `TestField` gives `testfield`. |
| Scenarios.ParseBoolCases | parser_test.go:203-216 | `true` converts to the boolean true; `invalid` fails with strconv's invalid-syntax error. |
| Scenarios.ParseNumberCases | parser_test.go:217-244 | `42` is 42 as an int and as a uint; `invalid` fails with `ParseInt` and `ParseUint` invalid-syntax errors. |
| Scenarios.ParseOtherCases | parser_test.go:259-272 | `test` converts to itself as a string; a byte slice is `unsupported type`. |
| Scenarios.ScalarErrorWrapped | parser.go:85-88 | A scalar field's conversion error comes back wrapped in `parse field`. |
| Scenarios.SplitThree | parser_test.go:93-112 | `one,two,three` splits into the three words. |
| Scenarios.RequiredNotSetNamesField | mageconfig_test.go:122-129 | An unset field tagged `required:"true"` is reported by its own name, `Field6`. |
| Scenarios.SecondDependencyUnset | mageconfig.go:323-329 | Of the dependencies `[a, b]`, with `a` set and `b` unset, `b` is reported. |
| Scenarios.SecondDependencyViolation | mageconfig.go:315-330 | A field that is not required, whose dependencies are a set name followed by an unset one, is reported as missing the second. |
| Scenarios.SingleFieldCheck | mageconfig.go:312-333 | A one-field struct fails the check with that field's violation. |
| Scenarios.SplitDepends | mageconfig_test.go:13 | The `depends` list `Field1,DField0` names `Field1` and `DField0`. |
| Scenarios.DField1Tags | mageconfig_test.go:13 | `DField1` is not required and depends on `Field1` and then `DField0`. |
| Scenarios.DField0Unset | mageconfig_test.go:130-137 | With only `Field1` set, `Field1` counts as set and `DField0` does not. |
| Scenarios.DependsNotSetNamesDependency | mageconfig_test.go:130-137 | `DField1`, which depends on `Field1` and `DField0`, with only `Field1` set, fails with the dependency error naming `DField0`. |
| Scenarios.HelpOnNonPointerPanics | mageconfig.go:56-58 | `-help` with a struct value, nil, or a pointer to a non-struct ends in the usage panic, not in a help exit or the shape error. |
| Scenarios.HelpOnStructContainerExits | mageconfig.go:56-58 | `-help` with a slice, array, map or channel of structs exits after the usage text, while the same target without a help request gets the shape error (mageconfig.go:80-82). |
| Scenarios.LongerNameAnswersNothing | mageconfig.go:282-303 | `-field10=5`, and a bare `-field10` followed by `5`, give the option `field1` no value. |
| Scenarios.NotAPointer | mageconfig_test.go:159-161 | A value that is not a struct pointer is refused with `config must be a pointer to a struct`. |
| Scenarios.NumErrorMessage | parser_test.go:211-243 | `Errors.Message` renders a `strconv` syntax error on `invalid` as `strconv.<fn>: parsing "invalid": invalid syntax`. |
| Scenarios.LoadErrorMessages | mageconfig_test.go:122-137 | `Errors.Message` gives the texts the tests compare: `invalid map default value: key1`, `required parameter not set: Field6`, `dependent parameter not set: DField0`, and `parse field: unsupported type`. |

## Left out

- `printUsage`, and the `os.Exit(0)` after it. The help text is I/O: the model ends such a call with `HelpExit` and prints nothing. Go's panic inside `printUsage`, for a target whose element type is not a struct (a struct value, nil, a pointer to a non-struct), is the ending `HelpPanic`, without its panic message.
- `DropArgsAfterTarget`. It runs after loading, on the argument vector, and is not part of loading a configuration.
- Real I/O. Opening and scanning the configuration file is a function from path to `FileRead` (lines, missing, open failure or scan failure). The environment is a map, and `os.Args` is a sequence.
- Reflection. A struct is a list of field declarations and a map of values. Every target other than a pointer to a struct is one `NotStructPointer` target, which records only whether its element type is a struct. A nil pointer to a struct is not modelled: Go accepts its type, and then `setFields` panics on the first field of the default pass (parser.go:30-35).
- `sync.Once` and concurrency. The `Once` is a boolean in `Globals`, and `Load` takes and returns the package state.
- `strconv.ParseFloat`, `time.ParseDuration` and `time.Parse` with RFC 3339. They are parameters of type `ExternalParsers`: the model only routes strings to them and their results back.
- Parser.ParseStringToType: `int32`, `int64`, `uint32`, `uint64` and `float32` fields are not modelled as Go converts them. Go parses them with 64 bits and converts the result to `int`, `uint` or `float64`. For text that parses, `reflect.Value.Set` then refuses that value and Go panics. For text that does not parse, Go returns the parser's error, e.g. `parse field: strconv.ParseInt: …`. The model gives these types `OtherType` and returns `parse field: unsupported type` in both cases.
  - Named types such as `type Level int` or `type Mode string` fall under the same line. Go switches on their kind and converts them. For text that parses, `reflect.Value.Set` then panics, because the value has the unnamed type. For text that does not parse, Go returns `parse field: strconv.…`. The model gives them `OtherType` as well.
  - `Fields.IsBoolField` is false for a named bool type. Go's bare-flag rule, which supplies `"true"` for a field of bool kind, is therefore not applied to such a field.
  - The model assumes a 64-bit platform, where `int` and `uint` have 64 bits. On a 32-bit platform (GOARCH `386` or `arm`), `int(v)` and `uint(v)` at parser.go:114 and parser.go:117 keep only the low 32 bits of the 64-bit result, so text outside the 32-bit range wraps instead of being assigned or refused as the model's `IntType` and `UintType` rules say.
  - Maps whose key type is not `string` cannot be expressed: `MapOf` always has string keys. Go builds a `map[string]…` whatever the field's key type. After a successful conversion, `value.Set` panics for such a field. A failing piece still returns its error first.
- Sources.ParseLine: uses the corrected `StripQuotes` (see Findings). On a file line `key: "`, Go panics, while the model assigns the value `"`.
- Errors.Quote: wraps the number text in double quotes without escaping. Go's `strconv.Quote` also escapes quotes, backslashes and non-printable characters, so error texts for such inputs differ.
- GoStrings.ToLower: lowers ASCII letters only. Go's `strings.ToLower` also lowers non-ASCII letters. Strings are sequences of characters, not UTF-8 bytes.
- LoaderProperties: the pass laws are stated for any `Setter` (the per-field converter). `Load` instantiates it with `setFieldByKind`, and `Loader.FieldSetterTyped` connects the two for the type-safety laws.
- Scenarios: the duration, time and float test cases depend on the external parsers and are not stated. Neither is the full end-to-end `TestLoad` table.

## Findings

| source | as written | input that shows it | evidently intended | confidence | as-written member | corrected member |
|---|---|---|---|---|---|---|
| mageconfig.go:204-207 | the quote-stripping guard asks only for a non-empty value whose first and last bytes are the same quote, then slices `value[1:len(value)-1]` | a file line `key: "` (the value is the single byte `"`), which makes Go slice `value[1:0]` and panic | strip only values of length at least two wrapped in matching quotes | not executed | Sources.StripQuotesAsWritten, Sources.LoneQuotePanics | Sources.StripQuotes, Sources.StripQuotesUnwraps |
