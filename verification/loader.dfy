/**
 The merge pipeline of `Load` (mageconfig.go): the set-tracking map, the
 four overwriting passes (defaults, file, environment, arguments), the
 required/depends validation, the early exits and the `isLoaded` latch.

 A struct is the table of its field declarations together with the current
 value of each field, keyed by field name (Go field names are unique). The
 file system, the environment and the argument vector are inputs.
 */
module Loader {
  import opened Errors
  import opened GoStrings
  import opened Fields
  import opened Parser
  import opened Sources

  /** The struct's field values and the `isSet` map `Load` threads through the passes. */
  datatype Record = Record(values: map<string, Value>, isSet: map<string, bool>)

  /** `isSet[name] != nil && *isSet[name]`: an unknown name counts as unset. */
  predicate IsSet(isSet: map<string, bool>, name: string) {
    name in isSet && isSet[name]
  }

  /** The names of the declared fields. */
  function FieldNames(decls: seq<FieldDecl>): set<string> {
    set i | 0 <= i < |decls| :: decls[i].name
  }

  /** `initializeIsSet`: one entry per field, every one of them `false`. */
  function InitializeIsSet(decls: seq<FieldDecl>): (m: map<string, bool>)
    ensures forall i :: 0 <= i < |decls| ==> decls[i].name in m
    ensures forall name :: !IsSet(m, name)
    ensures forall name :: name in m ==> exists i :: 0 <= i < |decls| && decls[i].name == name
  {
    map name | name in FieldNames(decls) :: false
  }

  /** Every declared field has a value and an `isSet` entry. */
  predicate Shaped(decls: seq<FieldDecl>, rec: Record) {
    forall i :: 0 <= i < |decls| ==> decls[i].name in rec.values && decls[i].name in rec.isSet
  }

  /** Where a pass takes its raw strings from. */
  datatype Source =
    | Defaults
    | FileSource(content: map<string, string>)
    | EnvSource(env: map<string, string>)
    | ArgsSource(args: seq<string>)

  /** The raw string a pass supplies for field `f`, if any: a non-empty
      `default` tag; the file value under a non-empty `file` tag; the variable
      named by a non-empty `env` tag; and the argument value for the `arg` tag
      (or the lower-cased field name), where an empty answer means no value.
      A file value or an environment variable that is present but empty still
      counts. */
  function Lookup(src: Source, f: FieldDecl): (r: Option<string>)
    ensures r.Some? && (src.Defaults? || src.ArgsSource?) ==> r.value != ""
  {
    match src
    case Defaults =>
      var d := Tag(f, TagDefault);
      if d == "" then None else Some(d)
    case FileSource(content) =>
      var key := Tag(f, TagFile);
      if key == "" || key !in content then None else Some(content[key])
    case EnvSource(env) =>
      var name := Tag(f, TagEnv);
      if name == "" || name !in env then None else Some(env[name])
    case ArgsSource(args) =>
      var v := GetArgValue(args, TagOrDefault(f, TagArg), IsBoolField(f));
      if v == "" then None else Some(v)
  }

  /** How a pass converts the raw string it supplies for a field: `Load`
      uses `setFieldByKind` (see `FieldSetter`); the pass laws hold for any
      converter. */
  type Setter = (FieldDecl, string) -> Result<Value>

  /** The converter `Load` hands its passes. */
  function FieldSetter(ext: ExternalParsers): Setter {
    (f: FieldDecl, s: string) => SetFieldByKind(f, s, ext)
  }

  /** A converter that only yields values of the field's declared type. */
  ghost predicate TypedSetter(setter: Setter) {
    forall f, s :: setter(f, s).Ok? ==> HasType(setter(f, s).value, f.typ)
  }

  /** `setFieldByKind` only yields values of the field's declared type. */
  lemma FieldSetterTyped(ext: ExternalParsers)
    ensures TypedSetter(FieldSetter(ext))
  {
    forall f, s ensures FieldSetter(ext)(f, s).Ok? ==> HasType(FieldSetter(ext)(f, s).value, f.typ) {
      assert FieldSetter(ext)(f, s) == SetFieldByKind(f, s, ext);
    }
  }

  /** The per-field callback every pass hands to `setFields`: no raw string
      leaves the struct alone; a raw string that converts replaces the field's
      value and marks it set; one that does not stops the pass with the
      conversion's error, leaving the field untouched. */
  function Assign(f: FieldDecl, rec: Record, raw: Option<string>, setter: Setter): (Record, Outcome) {
    match raw
    case None => (rec, Pass)
    case Some(s) =>
      match setter(f, s)
      case Ok(v) => (Record(rec.values[f.name := v], rec.isSet[f.name := true]), Pass)
      case Err(e) => (rec, Fail(e))
  }

  /** What a pass supplies for each field. */
  type Supply = FieldDecl -> Option<string>

  /** The supply of the pass reading `src`. */
  function Supplier(src: Source): Supply {
    (f: FieldDecl) => Lookup(src, f)
  }

  /** The callback of a pass with the given supply and converter. */
  function Visit(supply: Supply, setter: Setter): (nat, FieldDecl, Record) -> (Record, Outcome) {
    (i: nat, f: FieldDecl, rec: Record) => Assign(f, rec, supply(f), setter)
  }

  /** One pass: `setFields` with the callback reading `src`. */
  function RunPass(decls: seq<FieldDecl>, rec: Record, src: Source, setter: Setter): (Record, Outcome) {
    SetFields(decls, rec, Visit(Supplier(src), setter))
  }

  /** `setDefault`. */
  function SetDefault(decls: seq<FieldDecl>, rec: Record, setter: Setter): (Record, Outcome) {
    RunPass(decls, rec, Defaults, setter)
  }

  /** What opening and scanning a configuration file yields. */
  datatype FileRead =
    | NotExist
    | OpenFailed(openReason: string)
    | ScanFailed(scanReason: string)
    | Lines(lines: seq<string>)

  /** The file map the file pass reads from, when it reads one. */
  function FileSourceOf(path: string, files: string -> FileRead): Option<Source> {
    if path == "" then None
    else match files(path)
      case Lines(lines) => Some(FileSource(FileContent(lines)))
      case _ => None
  }

  /** `loadFromFile`: an empty path or a missing file changes nothing; any other
      open or scan failure is returned before a field is touched; otherwise the
      file's lines are read into a map and the fields with a `file` tag are
      assigned from it. */
  function LoadFromFile(decls: seq<FieldDecl>, rec: Record, path: string, files: string -> FileRead, setter: Setter)
    : (r: (Record, Outcome))
    ensures FileSourceOf(path, files).None? && r.1 == Pass ==> r.0 == rec
    ensures FileSourceOf(path, files).None? && r.1.Fail? ==> r.0 == rec && r.1.error.FileError?
    ensures (path == "" || files(path).NotExist?) ==> r == (rec, Pass)
    ensures path != "" && files(path).OpenFailed? ==> r == (rec, Fail(FileError(files(path).openReason)))
    ensures path != "" && files(path).ScanFailed? ==> r == (rec, Fail(FileError(files(path).scanReason)))
    ensures FileSourceOf(path, files).Some? ==> r == RunPass(decls, rec, FileSourceOf(path, files).value, setter)
  {
    if path == "" then (rec, Pass)
    else match files(path)
      case NotExist => (rec, Pass)
      case OpenFailed(reason) => (rec, Fail(FileError(reason)))
      case ScanFailed(reason) => (rec, Fail(FileError(reason)))
      case Lines(lines) => RunPass(decls, rec, FileSource(FileContent(lines)), setter)
  }

  /** `loadFromEnv`. */
  function LoadFromEnv(decls: seq<FieldDecl>, rec: Record, env: map<string, string>, setter: Setter): (Record, Outcome) {
    RunPass(decls, rec, EnvSource(env), setter)
  }

  /** `loadFromArgs`. */
  function LoadFromArgs(decls: seq<FieldDecl>, rec: Record, args: seq<string>, setter: Setter): (Record, Outcome) {
    RunPass(decls, rec, ArgsSource(args), setter)
  }

  /** The four passes of `Load` in order; the first error ends the sequence. */
  function RunPasses(decls: seq<FieldDecl>, rec: Record, path: string, files: string -> FileRead,
                     env: map<string, string>, args: seq<string>, setter: Setter): (Record, Outcome)
  {
    var (r1, o1) := SetDefault(decls, rec, setter);
    if o1.Fail? then (r1, o1)
    else
      var (r2, o2) := LoadFromFile(decls, r1, path, files, setter);
      if o2.Fail? then (r2, o2)
      else
        var (r3, o3) := LoadFromEnv(decls, r2, env, setter);
        if o3.Fail? then (r3, o3)
        else LoadFromArgs(decls, r3, args, setter)
  }

  // ---------------------------------------------------------------------------
  // Validation

  /** The names of a `depends` tag: split on `,`, nothing trimmed. */
  function Dependencies(f: FieldDecl): seq<string> {
    Split(Tag(f, TagDepends), SliceSeparator)
  }

  /** The first of `names` that is not set, reported as a dependency error. */
  function FirstUnset(names: seq<string>, isSet: map<string, bool>): (r: Option<Error>)
    ensures r.None? <==> forall i :: 0 <= i < |names| ==> IsSet(isSet, names[i])
    ensures r.Some? ==> exists k :: && 0 <= k < |names| && !IsSet(isSet, names[k])
                                    && (forall i :: 0 <= i < k ==> IsSet(isSet, names[i]))
                                    && r.value == DependsNotSet(names[k])
  {
    if |names| == 0 then None
    else if !IsSet(isSet, names[0]) then Some(DependsNotSet(names[0]))
    else
      var r := FirstUnset(names[1..], isSet);
      assert forall i :: 1 <= i < |names| ==> names[i] == names[1..][i - 1];
      if r.Some? then
        ghost var k :| && 0 <= k < |names[1..]| && !IsSet(isSet, names[1..][k])
                       && (forall i :: 0 <= i < k ==> IsSet(isSet, names[1..][i]))
                       && r.value == DependsNotSet(names[1..][k]);
        assert forall i :: 0 <= i < k + 1 ==> IsSet(isSet, names[i]);
        r
      else r
  }

  /** The field's requirements hold: set if it is tagged `required:"true"`
      (exactly that text), and every name of a non-empty `depends` tag set. */
  ghost predicate Satisfied(f: FieldDecl, isSet: map<string, bool>) {
    && (Tag(f, TagRequired) == "true" ==> IsSet(isSet, f.name))
    && (Tag(f, TagDepends) != "" ==> forall d :: d in Dependencies(f) ==> IsSet(isSet, d))
  }

  /** The error one field's check reports, if any: the missing requirement of
      the field itself first, then its first unset dependency. */
  function FieldViolation(f: FieldDecl, isSet: map<string, bool>): (r: Option<Error>)
    ensures r.None? <==> Satisfied(f, isSet)
    ensures Tag(f, TagRequired) == "true" && !IsSet(isSet, f.name) ==> r == Some(RequiredNotSet(f.name))
    ensures r.Some? && !(Tag(f, TagRequired) == "true" && !IsSet(isSet, f.name)) ==>
              && r.value.DependsNotSet?
              && r.value.dependency in Dependencies(f)
              && !IsSet(isSet, r.value.dependency)
    ensures !(Tag(f, TagRequired) == "true" && !IsSet(isSet, f.name)) && Tag(f, TagDepends) != ""
            ==> r == FirstUnset(Dependencies(f), isSet)
  {
    if Tag(f, TagRequired) == "true" && !IsSet(isSet, f.name) then Some(RequiredNotSet(f.name))
    else if Tag(f, TagDepends) == "" then None
    else FirstUnset(Dependencies(f), isSet)
  }

  /** Field `k` is the first whose requirements fail. */
  ghost predicate FirstViolation(decls: seq<FieldDecl>, isSet: map<string, bool>, k: int) {
    && 0 <= k < |decls|
    && !Satisfied(decls[k], isSet)
    && forall i :: 0 <= i < k ==> Satisfied(decls[i], isSet)
  }

  /** The field checks from field `k` on. */
  function CheckFrom(decls: seq<FieldDecl>, isSet: map<string, bool>, k: nat): (r: Outcome)
    requires k <= |decls|
    ensures r == Pass <==> forall i :: k <= i < |decls| ==> Satisfied(decls[i], isSet)
    ensures r.Fail? ==> exists j :: && k <= j < |decls| && !Satisfied(decls[j], isSet)
                                    && (forall i :: k <= i < j ==> Satisfied(decls[i], isSet))
                                    && Some(r.error) == FieldViolation(decls[j], isSet)
    decreases |decls| - k
  {
    if k == |decls| then Pass
    else match FieldViolation(decls[k], isSet)
      case Some(e) => Fail(e)
      case None => CheckFrom(decls, isSet, k + 1)
  }

  /** `checkRequiredAndDepends`: fields are checked in declaration order and
      the first violation is reported. The check passes exactly when every
      field's requirements hold. */
  function CheckRequiredAndDepends(decls: seq<FieldDecl>, isSet: map<string, bool>): (r: Outcome)
    ensures r == Pass <==> forall i :: 0 <= i < |decls| ==> Satisfied(decls[i], isSet)
    ensures r.Fail? ==> exists k :: FirstViolation(decls, isSet, k) && Some(r.error) == FieldViolation(decls[k], isSet)
  {
    CheckFrom(decls, isSet, 0)
  }

  // ---------------------------------------------------------------------------
  // Load

  /** The package-level state: the `isLoaded` flag and whether the `sync.Once`
      that sets it has already fired. */
  datatype Globals = Globals(isLoaded: bool, onceDone: bool)

  /** What `Load` is handed: a pointer to a struct (its fields and their
      current values) or anything else. For anything else, `elemIsStruct`
      records whether its type still has a struct element type: a slice, an
      array, a map or a channel of structs. */
  datatype Target = StructPointer(decls: seq<FieldDecl>, values: map<string, Value>) | NotStructPointer(elemIsStruct: bool)

  /** How a call of `Load` ends: the help flag prints the usage of the
      target's element type and exits the process, or panics while describing
      an element type that is not a struct; otherwise the call returns, with the package
      state, the struct as the call left it, and the error it returned. */
  datatype Ending = HelpExit | HelpPanic | Returned(globals: Globals, target: Target, outcome: Outcome)

  /** The `once.Do(func() { isLoaded = true })` step. */
  function Latch(g: Globals): (r: Globals)
    ensures g.onceDone ==> r == g
    ensures !g.onceDone ==> r.isLoaded && r.onceDone
  {
    if g.onceDone then g else Globals(true, true)
  }

  /** `Load`. In order: the help flag exits (after describing the element type
      of the target, which panics unless that type is a struct); a loaded configuration returns at
      once; so does an argument vector naming one of the host tool's commands;
      anything but a pointer to a struct is refused; then the four passes run,
      the first error ending the call; then the latch is set; then the
      requirements are checked. */
  function Load(g: Globals, target: Target, path: string, files: string -> FileRead,
                env: map<string, string>, args: seq<string>, ext: ExternalParsers): (e: Ending)
    ensures e.HelpExit? <==> HelpRequested(args) && (target.StructPointer? || target.elemIsStruct)
    ensures e.HelpPanic? <==> HelpRequested(args) && target.NotStructPointer? && !target.elemIsStruct
    ensures !HelpRequested(args) && (g.isLoaded || "-l" in args || "-h" in args) ==> e == Returned(g, target, Pass)
    ensures !HelpRequested(args) && !g.isLoaded && !("-l" in args || "-h" in args) && target.NotStructPointer?
            ==> e == Returned(g, target, Fail(ShapeError))
    ensures e.Returned? && target.StructPointer? ==> e.target.StructPointer? && e.target.decls == target.decls
  {
    if HelpRequested(args) then
      if target.StructPointer? || target.elemIsStruct then HelpExit else HelpPanic
    else if g.isLoaded then Returned(g, target, Pass)
    else if MageCommandGiven(args) then
      MageCommandGivenIff(args);
      Returned(g, target, Pass)
    else
      MageCommandGivenIff(args);
      match target
      case NotStructPointer(_) => Returned(g, target, Fail(ShapeError))
      case StructPointer(decls, values) =>
        var rec := Record(values, InitializeIsSet(decls));
        var (r, o) := RunPasses(decls, rec, path, files, env, args, FieldSetter(ext));
        if o.Fail? then Returned(g, StructPointer(decls, r.values), o)
        else Returned(Latch(g), StructPointer(decls, r.values), CheckRequiredAndDepends(decls, r.isSet))
  }
}
