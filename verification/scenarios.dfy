/**
 Concrete cases the repository's tests exercise, stated as lemmas about the
 model: the tag fallback, the conversion rules on sample strings, the split
 of a slice default, the required and dependency errors and the refusal of a value
 that is not a struct pointer.
 */
module Scenarios {
  import opened Errors
  import opened GoStrings
  import StrConv
  import opened Fields
  import opened Parser
  import opened Loader
  import opened Sources

  /** A present tag is returned as it is; an empty one falls back to the lower-cased field name. */
  lemma TagOrDefaultCases()
    ensures TagOrDefault(FieldDecl("TestField", Plain(StringType), map[TagArg := "testArg"]), TagArg) == "testArg"
    ensures TagOrDefault(FieldDecl("TestField", Plain(StringType), map[TagArg := ""]), TagArg) == "testfield"
  {
    var r := TagOrDefault(FieldDecl("TestField", Plain(StringType), map[TagArg := ""]), TagArg);
    assert |r| == 9;
    assert r == "testfield";
  }

  /** `true` is a boolean and `invalid` is not, with strconv's message. */
  lemma ParseBoolCases(ext: ExternalParsers)
    ensures ParseStringToType("true", BoolType, ext) == Ok(BoolV(true))
    ensures ParseStringToType("invalid", BoolType, ext).Err?
    ensures ParseStringToType("invalid", BoolType, ext) == Err(NumError("ParseBool", "invalid", InvalidSyntax))
  {
  }

  /** `42` is an int and a uint; `invalid` is neither, with strconv's messages. */
  lemma ParseNumberCases(ext: ExternalParsers)
    ensures ParseStringToType("42", IntType, ext) == Ok(IntV(42))
    ensures ParseStringToType("42", UintType, ext) == Ok(UintV(42))
    ensures ParseStringToType("invalid", IntType, ext).Err?
    ensures ParseStringToType("invalid", IntType, ext) == Err(NumError("ParseInt", "invalid", InvalidSyntax))
    ensures ParseStringToType("invalid", UintType, ext).Err?
    ensures ParseStringToType("invalid", UintType, ext) == Err(NumError("ParseUint", "invalid", InvalidSyntax))
  {
    assert StrConv.DecimalValue("4") == 4;
    assert StrConv.DecimalValue("42") == 42 by {
      assert "42"[..1] == "4";
    }
    assert !StrConv.IsDigit("invalid"[0]);
  }

  /** Text is kept as it is, and a type without a rule is refused. */
  lemma ParseOtherCases(ext: ExternalParsers)
    ensures ParseStringToType("test", StringType, ext) == Ok(StringV("test"))
    ensures ParseStringToType("test", OtherType("[]uint8"), ext) == Err(UnsupportedType)
    ensures Message(UnsupportedType) == "unsupported type"
  {
  }

  /** A scalar conversion error is wrapped in `parse field`. */
  lemma ScalarErrorWrapped(ext: ExternalParsers)
    ensures SetFieldByKind(FieldDecl("Count", Plain(IntType), map[]), "x", ext)
            == Err(ParseField(NumError("ParseInt", "x", InvalidSyntax)))
  {
    assert !StrConv.IsDigit("x"[0]);
  }

  /** `one,two,three` splits into three pieces. */
  lemma SplitThree()
    ensures Split("one,two,three", SliceSeparator) == ["one", "two", "three"]
  {
    var parts := ["one", "two", "three"];
    assert Join(parts[2..], SliceSeparator) == "three";
    assert Join(parts[1..], SliceSeparator) == "two,three";
    assert Join(parts, SliceSeparator) == "one,two,three";
    SplitJoin(parts, SliceSeparator);
  }

  /** An unset field tagged `required:"true"` is reported by its own name. */
  lemma RequiredNotSetNamesField()
    ensures var decls := [FieldDecl("Field5", Plain(StringType), map[]),
                          FieldDecl("Field6", Plain(StringType), map[TagRequired := "true"])];
            var isSet := map["Field5" := true, "Field6" := false];
            CheckRequiredAndDepends(decls, isSet) == Fail(RequiredNotSet("Field6"))
  {
    var decls := [FieldDecl("Field5", Plain(StringType), map[]),
                  FieldDecl("Field6", Plain(StringType), map[TagRequired := "true"])];
    var isSet := map["Field5" := true, "Field6" := false];
    assert FieldViolation(decls[0], isSet) == None;
    assert Tag(decls[1], TagRequired) == "true" && !IsSet(isSet, "Field6");
    assert FieldViolation(decls[1], isSet) == Some(RequiredNotSet("Field6"));
    assert CheckFrom(decls, isSet, 1) == Fail(RequiredNotSet("Field6"));
    assert CheckFrom(decls, isSet, 0) == CheckFrom(decls, isSet, 1);
  }

  /** The `depends` list `Field1,DField0` names two fields. */
  lemma SplitDepends()
    ensures Split("Field1,DField0", SliceSeparator) == ["Field1", "DField0"]
  {
    var names := ["Field1", "DField0"];
    assert Join(names[1..], SliceSeparator) == "DField0";
    assert Join(names, SliceSeparator) == "Field1,DField0";
    SplitJoin(names, SliceSeparator);
  }

  /** Of two dependencies, a set one followed by an unset one, the unset one is reported. */
  lemma SecondDependencyUnset(a: string, b: string, isSet: map<string, bool>)
    requires IsSet(isSet, a) && !IsSet(isSet, b)
    ensures FirstUnset([a, b], isSet) == Some(DependsNotSet(b))
  {
    assert [a, b][1..] == [b];
    assert [b][1..] == [];
  }

  /** A field that is not required, whose `depends` list is a set name
      followed by an unset one, is reported as missing the second. */
  lemma SecondDependencyViolation(f: FieldDecl, isSet: map<string, bool>, a: string, b: string)
    requires Tag(f, TagRequired) != "true" && Tag(f, TagDepends) != ""
    requires Dependencies(f) == [a, b]
    requires IsSet(isSet, a) && !IsSet(isSet, b)
    ensures FieldViolation(f, isSet) == Some(DependsNotSet(b))
  {
    SecondDependencyUnset(a, b, isSet);
  }

  /** A struct of one field fails the check with that field's violation. */
  lemma SingleFieldCheck(f: FieldDecl, isSet: map<string, bool>)
    requires FieldViolation(f, isSet).Some?
    ensures CheckRequiredAndDepends([f], isSet) == Fail(FieldViolation(f, isSet).value)
  {
    assert [f][0] == f;
  }

  /** The repository's `DField1`: not required, and depending on `Field1` and `DField0`. */
  lemma DField1Tags(f: FieldDecl)
    requires f == FieldDecl("DField1", Plain(BoolType), map[TagDepends := "Field1,DField0"])
    ensures Tag(f, TagRequired) != "true" && Tag(f, TagDepends) != ""
    ensures Dependencies(f) == ["Field1", "DField0"]
  {
    assert Tag(f, TagRequired) == "" && Tag(f, TagDepends) == "Field1,DField0";
    SplitDepends();
  }

  /** `Field1` is set and `DField0` is not. */
  lemma DField0Unset(isSet: map<string, bool>)
    requires isSet == map["Field1" := true, "DField0" := false]
    ensures IsSet(isSet, "Field1") && !IsSet(isSet, "DField0")
  {
  }

  /** A field whose `depends` list names an unset field is reported by the
      first unset name in the list. */
  lemma DependsNotSetNamesDependency(f: FieldDecl, isSet: map<string, bool>)
    requires f == FieldDecl("DField1", Plain(BoolType), map[TagDepends := "Field1,DField0"])
    requires isSet == map["Field1" := true, "DField0" := false]
    ensures CheckRequiredAndDepends([f], isSet) == Fail(DependsNotSet("DField0"))
  {
    DField0Unset(isSet);
    DField1Tags(f);
    SecondDependencyViolation(f, isSet, "Field1", "DField0");
    SingleFieldCheck(f, isSet);
  }

  /** An argument for a longer option that starts with the name, assigned
      or bare, gives `field1` no value. */
  lemma LongerNameAnswersNothing()
    ensures GetArgValue(["cmd", "-field10=5"], "field1", false) == ""
    ensures GetArgValue(["cmd", "-field10", "5"], "field1", false) == ""
  {
    assert ("field1" + [AssignSeparator])[6] != "field10=5"[6];
    DecideOther(["cmd", "-field10=5"], 1, "field1", false);
    DecideOther(["cmd", "-field10", "5"], 1, "field1", false);
    DecideOther(["cmd", "-field10", "5"], 2, "field1", false);
  }

  /** Asking for help with a target whose element type is not a struct (a
      struct value, nil, a pointer to a non-struct) panics while the usage
      text is built, before the shape is ever checked. */
  lemma HelpOnNonPointerPanics(g: Globals, path: string, files: string -> FileRead, env: map<string, string>,
                               args: seq<string>, ext: ExternalParsers)
    requires args == ["cmd", "-help"]
    ensures Load(g, NotStructPointer(false), path, files, env, args, ext) == HelpPanic
  {
    assert args[1] == "-help";
  }

  /** Asking for help with a slice, array, map or channel of structs describes
      that struct and exits, although `Load` would refuse such a target. */
  lemma HelpOnStructContainerExits(g: Globals, path: string, files: string -> FileRead, env: map<string, string>,
                                   args: seq<string>, ext: ExternalParsers)
    requires args == ["cmd", "-help"]
    ensures Load(g, NotStructPointer(true), path, files, env, args, ext) == HelpExit
    ensures !g.isLoaded ==> Load(g, NotStructPointer(true), path, files, env, ["cmd"], ext)
                            == Returned(g, NotStructPointer(true), Fail(ShapeError))
  {
    assert args[1] == "-help";
  }

  /** A struct that is not behind a pointer is refused with Go's message. */
  lemma NotAPointer(g: Globals, path: string, files: string -> FileRead, env: map<string, string>, ext: ExternalParsers)
    requires !g.isLoaded
    ensures Load(g, NotStructPointer(false), path, files, env, ["cmd"], ext) == Returned(g, NotStructPointer(false), Fail(ShapeError))
    ensures Message(ShapeError) == "config must be a pointer to a struct"
  {
  }

  /** The `parse` error text of `strconv`, as the tests spell it for `invalid`. */
  lemma NumErrorMessage(fn: string)
    ensures Message(NumError(fn, "invalid", InvalidSyntax)) == "strconv." + fn + ": parsing \"invalid\": invalid syntax"
  {
    assert Quote("invalid") == "\"invalid\"";
  }

  /** The map test's error text, one text per lemma so that each string
      comparison is checked on its own. */
  lemma InvalidMapMessage()
    ensures Message(InvalidMapValue("key1")) == "invalid map default value: key1"
  {
  }

  /** The text of the required-field test's error. */
  lemma RequiredMessage()
    ensures Message(RequiredNotSet("Field6")) == "required parameter not set: Field6"
  {
  }

  /** The text of the dependency test's error. */
  lemma DependsMessage()
    ensures Message(DependsNotSet("DField0")) == "dependent parameter not set: DField0"
  {
  }

  /** The text of a scalar field of a type without a rule. */
  lemma UnsupportedMessage()
    ensures Message(ParseField(UnsupportedType)) == "parse field: unsupported type"
  {
  }

  /** The texts of the map and requirement errors the tests compare against. */
  lemma LoadErrorMessages()
    ensures Message(InvalidMapValue("key1")) == "invalid map default value: key1"
    ensures Message(RequiredNotSet("Field6")) == "required parameter not set: Field6"
    ensures Message(DependsNotSet("DField0")) == "dependent parameter not set: DField0"
    ensures Message(ParseField(UnsupportedType)) == "parse field: unsupported type"
  {
    InvalidMapMessage();
    RequiredMessage();
    DependsMessage();
    UnsupportedMessage();
  }
}
