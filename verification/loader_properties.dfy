/**
 The laws of the merge pipeline: what one pass does to each field, that a
 failed conversion never partly assigns a field, that the set flags only
 grow, that the last pass supplying a value wins, that types are kept, and
 how the `isLoaded` latch behaves across calls of `Load`.
 */
module LoaderProperties {
  import opened Errors
  import opened Fields
  import opened Parser
  import opened Sources
  import opened Loader

  /** The entry `name` is the same before and after, wherever it exists before. */
  ghost predicate Untouched(name: string, before: Record, after: Record) {
    && (name in before.values ==> name in after.values && after.values[name] == before.values[name])
    && (name in before.isSet ==> name in after.isSet && after.isSet[name] == before.isSet[name])
  }

  /** Field `f` went from `before` to `after` as a pass supplying `raw` for it
      prescribes: a supplied string converted and was stored with the field
      marked set; no string left the field alone. */
  ghost predicate Applied(f: FieldDecl, before: Record, after: Record, raw: Option<string>, setter: Setter) {
    match raw
    case None => Untouched(f.name, before, after)
    case Some(s) =>
      && setter(f, s).Ok?
      && f.name in after.values && after.values[f.name] == setter(f, s).value
      && f.name in after.isSet && after.isSet[f.name]
  }

  /** One visit: on success the field is as prescribed and every other name
      untouched; on failure nothing changes. */
  lemma AssignEffect(f: FieldDecl, rec: Record, raw: Option<string>, setter: Setter)
    ensures var (after, o) := Assign(f, rec, raw, setter);
            && (o == Pass ==> Applied(f, rec, after, raw, setter))
            && (o.Fail? ==> after == rec && raw.Some? && setter(f, raw.value) == Err(o.error))
            && (forall name :: name != f.name ==> Untouched(name, rec, after))
  {
  }

  /** A visit of a pass is the callback applied to what the pass supplies. */
  lemma VisitIsAssign(decls: seq<FieldDecl>, k: nat, rec: Record, supply: Supply, setter: Setter)
    requires k < |decls|
    requires VisitPrefix(decls, k, rec, Visit(supply, setter)).1 == Pass
    ensures VisitPrefix(decls, k + 1, rec, Visit(supply, setter))
            == Assign(decls[k], VisitPrefix(decls, k, rec, Visit(supply, setter)).0, supply(decls[k]), setter)
  {
  }

  /** Untouched twice is untouched. */
  lemma UntouchedTrans(name: string, a: Record, b: Record, c: Record)
    requires Untouched(name, a, b) && Untouched(name, b, c)
    ensures Untouched(name, a, c)
  {
  }

  /** A field applied and then left alone stays applied. */
  lemma AppliedThenUntouched(f: FieldDecl, rec: Record, mid: Record, after: Record, raw: Option<string>, setter: Setter)
    requires Applied(f, rec, mid, raw, setter) && Untouched(f.name, mid, after)
    ensures Applied(f, rec, after, raw, setter)
  {
    if raw.None? {
      UntouchedTrans(f.name, rec, mid, after);
    }
  }

  /** A field left alone and then applied counts as applied from the start. */
  lemma UntouchedThenApplied(f: FieldDecl, rec: Record, mid: Record, after: Record, raw: Option<string>, setter: Setter)
    requires Untouched(f.name, rec, mid) && Applied(f, mid, after, raw, setter)
    ensures Applied(f, rec, after, raw, setter)
  {
    if raw.None? {
      UntouchedTrans(f.name, rec, mid, after);
    }
  }

  /** One of the first `k` fields is called `name`. */
  ghost predicate NamedBefore(decls: seq<FieldDecl>, k: int, name: string) {
    exists j :: 0 <= j < k && j < |decls| && decls[j].name == name
  }

  /** One more successful visit keeps the earlier fields as prescribed and adds field `k - 1`. */
  lemma PassStepApplied(decls: seq<FieldDecl>, k: nat, rec: Record, mid: Record, after: Record, supply: Supply, setter: Setter)
    requires 0 < k <= |decls|
    requires forall j :: 0 <= j < k - 1 ==> decls[j].name != decls[k - 1].name
    requires forall j :: 0 <= j < k - 1 ==> Applied(decls[j], rec, mid, supply(decls[j]), setter)
    requires Untouched(decls[k - 1].name, rec, mid)
    requires Applied(decls[k - 1], mid, after, supply(decls[k - 1]), setter)
    requires forall name :: name != decls[k - 1].name ==> Untouched(name, mid, after)
    ensures forall j :: 0 <= j < k ==> Applied(decls[j], rec, after, supply(decls[j]), setter)
  {
    var f := decls[k - 1];
    UntouchedThenApplied(f, rec, mid, after, supply(f), setter);
    forall j | 0 <= j < k - 1 ensures Applied(decls[j], rec, after, supply(decls[j]), setter) {
      assert decls[j].name != f.name;
      AppliedThenUntouched(decls[j], rec, mid, after, supply(decls[j]), setter);
    }
  }

  /** One more successful visit leaves alone every name not among the first `k` fields. */
  lemma PassStepUntouched(decls: seq<FieldDecl>, k: nat, rec: Record, mid: Record, after: Record)
    requires 0 < k <= |decls|
    requires forall name :: !NamedBefore(decls, k - 1, name) ==> Untouched(name, rec, mid)
    requires forall name :: name != decls[k - 1].name ==> Untouched(name, mid, after)
    ensures forall name :: !NamedBefore(decls, k, name) ==> Untouched(name, rec, after)
  {
    forall name | !NamedBefore(decls, k, name) ensures Untouched(name, rec, after) {
      assert decls[k - 1].name != name;
      assert !NamedBefore(decls, k - 1, name);
      UntouchedTrans(name, rec, mid, after);
    }
  }

  /** The first `k` visits of a pass that have all succeeded: each of those
      fields is as the pass prescribes, and every other name is untouched. */
  lemma {:induction false} PassPrefix(decls: seq<FieldDecl>, k: nat, rec: Record, supply: Supply, setter: Setter)
    requires UniqueNames(decls) && k <= |decls|
    requires VisitPrefix(decls, k, rec, Visit(supply, setter)).1 == Pass
    ensures var after := VisitPrefix(decls, k, rec, Visit(supply, setter)).0;
            && (forall j :: 0 <= j < k ==> Applied(decls[j], rec, after, supply(decls[j]), setter))
            && (forall name :: !NamedBefore(decls, k, name) ==> Untouched(name, rec, after))
  {
    if k > 0 {
      var visit := Visit(supply, setter);
      var prev := VisitPrefix(decls, k - 1, rec, visit);
      assert prev.1 == Pass;
      PassPrefix(decls, k - 1, rec, supply, setter);
      var f := decls[k - 1];
      var raw := supply(f);
      VisitIsAssign(decls, k - 1, rec, supply, setter);
      var step := Assign(f, prev.0, raw, setter);
      assert VisitPrefix(decls, k, rec, visit) == step;
      AssignEffect(f, prev.0, raw, setter);
      assert Applied(f, prev.0, step.0, raw, setter);
      assert forall j :: 0 <= j < k - 1 ==> decls[j].name != f.name;
      assert !NamedBefore(decls, k - 1, f.name);
      PassStepApplied(decls, k, rec, prev.0, step.0, supply, setter);
      PassStepUntouched(decls, k, rec, prev.0, step.0);
    }
  }

  /** A pass that succeeds leaves every field as it prescribes and every
      other name untouched. */
  lemma PassSucceeds(decls: seq<FieldDecl>, rec: Record, src: Source, setter: Setter)
    requires UniqueNames(decls)
    requires RunPass(decls, rec, src, setter).1 == Pass
    ensures var after := RunPass(decls, rec, src, setter).0;
            && (forall j :: 0 <= j < |decls| ==> Applied(decls[j], rec, after, Lookup(src, decls[j]), setter))
            && (forall name :: name !in FieldNames(decls) ==> Untouched(name, rec, after))
  {
    PassPrefix(decls, |decls|, rec, Supplier(src), setter);
    assert forall j :: 0 <= j < |decls| ==> decls[j].name in FieldNames(decls);
  }

  /** A failing run of visits fails at some field `k` whose supplied string
      does not convert; the fields before `k` are as prescribed, and field `k`
      and the fields after it are untouched. */
  lemma VisitsFail(decls: seq<FieldDecl>, rec: Record, supply: Supply, setter: Setter)
    requires UniqueNames(decls)
    requires SetFields(decls, rec, Visit(supply, setter)).1.Fail?
    ensures var (after, o) := SetFields(decls, rec, Visit(supply, setter));
            exists k :: && 0 <= k < |decls|
                        && supply(decls[k]).Some?
                        && setter(decls[k], supply(decls[k]).value) == Err(o.error)
                        && (forall j :: 0 <= j < k ==> Applied(decls[j], rec, after, supply(decls[j]), setter))
                        && (forall j :: k <= j < |decls| ==> Untouched(decls[j].name, rec, after))
  {
    var visit := Visit(supply, setter);
    var (after, o) := SetFields(decls, rec, visit);
    SetFieldsErrorIsFirst(decls, |decls|, rec, visit);
    var k :| && 0 <= k < |decls|
             && VisitPrefix(decls, k, rec, visit).1 == Pass
             && VisitPrefix(decls, |decls|, rec, visit) == visit(k, decls[k], VisitPrefix(decls, k, rec, visit).0);
    PassPrefix(decls, k, rec, supply, setter);
    var mid := VisitPrefix(decls, k, rec, visit).0;
    assert (after, o) == Assign(decls[k], mid, supply(decls[k]), setter);
    assert after == mid;
    forall j | k <= j < |decls| ensures Untouched(decls[j].name, rec, after) {
      assert forall i :: 0 <= i < k ==> decls[i].name != decls[j].name;
      assert !NamedBefore(decls, k, decls[j].name);
    }
  }

  /** A pass that fails, fails at some field `k` whose supplied string does not
      convert, with that conversion's error; the fields before `k` are as the
      pass prescribes, and field `k` and the fields after it are untouched. */
  lemma PassFails(decls: seq<FieldDecl>, rec: Record, src: Source, setter: Setter)
    requires UniqueNames(decls)
    requires RunPass(decls, rec, src, setter).1.Fail?
    ensures var (after, o) := RunPass(decls, rec, src, setter);
            exists k :: && 0 <= k < |decls|
                        && Lookup(src, decls[k]).Some?
                        && setter(decls[k], Lookup(src, decls[k]).value) == Err(o.error)
                        && (forall j :: 0 <= j < k ==> Applied(decls[j], rec, after, Lookup(src, decls[j]), setter))
                        && (forall j :: k <= j < |decls| ==> Untouched(decls[j].name, rec, after))
  {
    VisitsFail(decls, rec, Supplier(src), setter);
  }

  /** A field its pass supplies nothing for is left alone, whether the pass
      succeeds or fails. */
  lemma NotSuppliedUntouched(decls: seq<FieldDecl>, rec: Record, src: Source, setter: Setter, j: nat)
    requires UniqueNames(decls) && j < |decls|
    requires Lookup(src, decls[j]).None?
    ensures Untouched(decls[j].name, rec, RunPass(decls, rec, src, setter).0)
  {
    if RunPass(decls, rec, src, setter).1 == Pass {
      PassSucceeds(decls, rec, src, setter);
    } else {
      PassFails(decls, rec, src, setter);
    }
  }

  // ---------------------------------------------------------------------------
  // What each pass reads for a field

  /** `setDefault`: a field with an empty `default` tag is left alone; on
      success, a field with a non-empty one holds that tag converted and is
      marked set. */
  lemma DefaultPassReads(decls: seq<FieldDecl>, rec: Record, setter: Setter, j: nat)
    requires UniqueNames(decls) && j < |decls|
    ensures var f := decls[j];
            var (after, o) := SetDefault(decls, rec, setter);
            && (Tag(f, TagDefault) == "" ==> Untouched(f.name, rec, after))
            && (o == Pass && Tag(f, TagDefault) != "" ==> Applied(f, rec, after, Some(Tag(f, TagDefault)), setter))
  {
    if Tag(decls[j], TagDefault) == "" {
      NotSuppliedUntouched(decls, rec, Defaults, setter, j);
    }
    if SetDefault(decls, rec, setter).1 == Pass {
      PassSucceeds(decls, rec, Defaults, setter);
    }
  }

  /** `loadFromFile`: a field with an empty `file` tag is left alone by the
      file pass, whatever the file holds and whether it can be read. */
  lemma FilePassSkipsUntagged(decls: seq<FieldDecl>, rec: Record, path: string, files: string -> FileRead,
                              setter: Setter, j: nat)
    requires UniqueNames(decls) && j < |decls|
    requires Tag(decls[j], TagFile) == ""
    ensures Untouched(decls[j].name, rec, LoadFromFile(decls, rec, path, files, setter).0)
  {
    if FileSourceOf(path, files).Some? {
      NotSuppliedUntouched(decls, rec, FileSourceOf(path, files).value, setter, j);
    }
  }

  /** `loadFromFile` on a file it reads: a field whose `file` tag is empty or
      names no key of the file is left alone; on success, a field whose tag
      names a key holds that key's value converted and is marked set. */
  lemma FilePassReads(decls: seq<FieldDecl>, rec: Record, path: string, files: string -> FileRead,
                      setter: Setter, j: nat)
    requires UniqueNames(decls) && j < |decls|
    requires path != "" && files(path).Lines?
    ensures var f := decls[j];
            var key := Tag(f, TagFile);
            var content := FileContent(files(path).lines);
            var (after, o) := LoadFromFile(decls, rec, path, files, setter);
            && (key == "" || key !in content ==> Untouched(f.name, rec, after))
            && (o == Pass && key != "" && key in content ==> Applied(f, rec, after, Some(content[key]), setter))
  {
    var src := FileSource(FileContent(files(path).lines));
    var key := Tag(decls[j], TagFile);
    if key == "" || key !in src.content {
      NotSuppliedUntouched(decls, rec, src, setter, j);
    }
    if RunPass(decls, rec, src, setter).1 == Pass {
      PassSucceeds(decls, rec, src, setter);
    }
  }

  /** `loadFromEnv`: a field whose `env` tag is empty or names a variable that
      is absent is left alone; on success, a field whose tag names a present
      variable holds its value converted and is marked set, even when that
      value is empty. */
  lemma EnvPassReads(decls: seq<FieldDecl>, rec: Record, env: map<string, string>, setter: Setter, j: nat)
    requires UniqueNames(decls) && j < |decls|
    ensures var f := decls[j];
            var name := Tag(f, TagEnv);
            var (after, o) := LoadFromEnv(decls, rec, env, setter);
            && (name == "" || name !in env ==> Untouched(f.name, rec, after))
            && (o == Pass && name != "" && name in env ==> Applied(f, rec, after, Some(env[name]), setter))
  {
    var name := Tag(decls[j], TagEnv);
    if name == "" || name !in env {
      NotSuppliedUntouched(decls, rec, EnvSource(env), setter, j);
    }
    if LoadFromEnv(decls, rec, env, setter).1 == Pass {
      PassSucceeds(decls, rec, EnvSource(env), setter);
    }
  }

  /** A variable that is present but empty still counts: after a successful
      env pass its field holds the empty string converted and is marked set. */
  lemma EnvEmptyValueCounts(decls: seq<FieldDecl>, rec: Record, env: map<string, string>, setter: Setter, j: nat)
    requires UniqueNames(decls) && j < |decls|
    requires Tag(decls[j], TagEnv) != "" && Tag(decls[j], TagEnv) in env && env[Tag(decls[j], TagEnv)] == ""
    requires LoadFromEnv(decls, rec, env, setter).1 == Pass
    ensures var after := LoadFromEnv(decls, rec, env, setter).0;
            && setter(decls[j], "").Ok?
            && decls[j].name in after.isSet && after.isSet[decls[j].name]
            && decls[j].name in after.values && after.values[decls[j].name] == setter(decls[j], "").value
  {
    EnvPassReads(decls, rec, env, setter, j);
  }

  /** `loadFromArgs`: a field for which `getArgValue` finds nothing under its
      `arg` name is left alone; on success, a field for which it finds a value
      holds that value converted and is marked set. */
  lemma ArgsPassReads(decls: seq<FieldDecl>, rec: Record, args: seq<string>, setter: Setter, j: nat)
    requires UniqueNames(decls) && j < |decls|
    ensures var f := decls[j];
            var v := GetArgValue(args, TagOrDefault(f, TagArg), IsBoolField(f));
            var (after, o) := LoadFromArgs(decls, rec, args, setter);
            && (v == "" ==> Untouched(f.name, rec, after))
            && (o == Pass && v != "" ==> Applied(f, rec, after, Some(v), setter))
  {
    var f := decls[j];
    if GetArgValue(args, TagOrDefault(f, TagArg), IsBoolField(f)) == "" {
      NotSuppliedUntouched(decls, rec, ArgsSource(args), setter, j);
    }
    if LoadFromArgs(decls, rec, args, setter).1 == Pass {
      PassSucceeds(decls, rec, ArgsSource(args), setter);
    }
  }

  /** The set flags only grow within a pass, whether it succeeds or fails,
      and no entry disappears. */
  lemma {:induction false} PassPrefixMonotone(decls: seq<FieldDecl>, k: nat, rec: Record, supply: Supply, setter: Setter)
    requires k <= |decls|
    ensures var after := VisitPrefix(decls, k, rec, Visit(supply, setter)).0;
            && (forall name :: IsSet(rec.isSet, name) ==> IsSet(after.isSet, name))
            && (forall name :: name in rec.values ==> name in after.values)
            && (forall name :: name in rec.isSet ==> name in after.isSet)
  {
    if k > 0 {
      PassPrefixMonotone(decls, k - 1, rec, supply, setter);
      var visit := Visit(supply, setter);
      var prev := VisitPrefix(decls, k - 1, rec, visit);
      if prev.1 == Pass {
        assert VisitPrefix(decls, k, rec, visit) == Assign(decls[k - 1], prev.0, supply(decls[k - 1]), setter);
      }
    }
  }

  /** The set flags only grow across a pass. */
  lemma PassMonotone(decls: seq<FieldDecl>, rec: Record, src: Source, setter: Setter)
    ensures var after := RunPass(decls, rec, src, setter).0;
            && (forall name :: IsSet(rec.isSet, name) ==> IsSet(after.isSet, name))
            && (forall name :: name in rec.values ==> name in after.values)
            && (forall name :: name in rec.isSet ==> name in after.isSet)
  {
    PassPrefixMonotone(decls, |decls|, rec, Supplier(src), setter);
  }

  /** Every field holds a value of its declared type. */
  ghost predicate WellTypedRecord(decls: seq<FieldDecl>, rec: Record) {
    forall i :: 0 <= i < |decls| ==> decls[i].name in rec.values && HasType(rec.values[decls[i].name], decls[i].typ)
  }

  /** A pass never stores a value of the wrong type, even when it fails half way. */
  lemma {:induction false} PassPrefixKeepsTypes(decls: seq<FieldDecl>, k: nat, rec: Record, supply: Supply, setter: Setter)
    requires UniqueNames(decls) && k <= |decls| && WellTypedRecord(decls, rec) && TypedSetter(setter)
    ensures WellTypedRecord(decls, VisitPrefix(decls, k, rec, Visit(supply, setter)).0)
  {
    if k > 0 {
      PassPrefixKeepsTypes(decls, k - 1, rec, supply, setter);
      var visit := Visit(supply, setter);
      var prev := VisitPrefix(decls, k - 1, rec, visit);
      if prev.1 == Pass {
        var f := decls[k - 1];
        var raw := supply(f);
        VisitIsAssign(decls, k - 1, rec, supply, setter);
        var step := Assign(f, prev.0, raw, setter);
        assert VisitPrefix(decls, k, rec, visit) == step;
        AssignEffect(f, prev.0, raw, setter);
        if step.1 == Pass {
          assert forall i :: 0 <= i < |decls| && i != k - 1 ==> decls[i].name != f.name;
          StepKeepsTypes(decls, k - 1, prev.0, step.0, raw, setter);
        } else {
          assert step.0 == prev.0;
        }
      } else {
        assert VisitPrefix(decls, k, rec, visit) == prev;
      }
    }
  }

  /** Applying field `k` to a well-typed record, and leaving the other names alone, keeps it well typed. */
  lemma StepKeepsTypes(decls: seq<FieldDecl>, k: nat, mid: Record, after: Record, raw: Option<string>, setter: Setter)
    requires k < |decls| && WellTypedRecord(decls, mid) && TypedSetter(setter)
    requires forall i :: 0 <= i < |decls| && i != k ==> decls[i].name != decls[k].name
    requires Applied(decls[k], mid, after, raw, setter)
    requires forall name :: name != decls[k].name ==> Untouched(name, mid, after)
    ensures WellTypedRecord(decls, after)
  {
    forall i | 0 <= i < |decls| ensures decls[i].name in after.values && HasType(after.values[decls[i].name], decls[i].typ) {
      if i != k {
        assert Untouched(decls[i].name, mid, after);
      }
    }
  }

  /** A pass never stores a value of the wrong type. */
  lemma PassKeepsTypes(decls: seq<FieldDecl>, rec: Record, src: Source, setter: Setter)
    requires UniqueNames(decls) && WellTypedRecord(decls, rec) && TypedSetter(setter)
    ensures WellTypedRecord(decls, RunPass(decls, rec, src, setter).0)
  {
    PassPrefixKeepsTypes(decls, |decls|, rec, Supplier(src), setter);
  }

  // ---------------------------------------------------------------------------
  // Precedence across the four passes

  /** The string the file pass supplies for `f`, if it reads a file at all. */
  function FileLookup(f: FieldDecl, path: string, files: string -> FileRead): Option<string> {
    match FileSourceOf(path, files)
    case None => None
    case Some(src) => Lookup(src, f)
  }

  /** What the passes supply for `f`, in the order they run: default, file,
      environment, arguments. */
  function Candidates(f: FieldDecl, path: string, files: string -> FileRead, env: map<string, string>, args: seq<string>)
    : seq<Option<string>>
  {
    [Lookup(Defaults, f), FileLookup(f, path, files), Lookup(EnvSource(env), f), Lookup(ArgsSource(args), f)]
  }

  /** Entry `i` is supplied and no later one is. */
  ghost predicate LastAt(cs: seq<Option<string>>, i: int) {
    0 <= i < |cs| && cs[i].Some? && forall j :: i < j < |cs| ==> cs[j].None?
  }

  /** The last of the supplied strings. */
  function LastSupplied(cs: seq<Option<string>>): (r: Option<string>)
    ensures r.None? <==> forall i :: 0 <= i < |cs| ==> cs[i].None?
    ensures r.Some? ==> exists i :: LastAt(cs, i) && cs[i] == r
  {
    if |cs| == 0 then None
    else if cs[|cs| - 1].Some? then
      assert LastAt(cs, |cs| - 1);
      cs[|cs| - 1]
    else
      var prefix := cs[..|cs| - 1];
      var r := LastSupplied(prefix);
      assert forall i :: 0 <= i < |prefix| ==> cs[i] == prefix[i];
      if r.Some? then
        ghost var i :| LastAt(prefix, i) && prefix[i] == r;
        assert LastAt(cs, i);
        r
      else r
  }

  /** Four successive pass effects on one field compose into "the last supplied
      string wins, and the field is set exactly when it was or some pass
      supplied a string". */
  lemma ComposeApplied(f: FieldDecl, r0: Record, r1: Record, r2: Record, r3: Record, r4: Record,
                       cs: seq<Option<string>>, setter: Setter)
    requires |cs| == 4 && f.name in r0.values && f.name in r0.isSet
    requires Applied(f, r0, r1, cs[0], setter) && Applied(f, r1, r2, cs[1], setter)
    requires Applied(f, r2, r3, cs[2], setter) && Applied(f, r3, r4, cs[3], setter)
    ensures f.name in r4.values && f.name in r4.isSet
    ensures var w := LastSupplied(cs);
            && (w.Some? ==> setter(f, w.value).Ok? && r4.values[f.name] == setter(f, w.value).value)
            && (w.None? ==> r4.values[f.name] == r0.values[f.name])
    ensures r4.isSet[f.name] <==> r0.isSet[f.name] || exists i :: 0 <= i < 4 && cs[i].Some?
  {
    var w := LastSupplied(cs);
    assert cs[..4][..3] == cs[..3];
    assert cs[..3][..2] == cs[..2];
    assert cs[..2][..1] == cs[..1];
    assert cs[..4] == cs;
  }

  /** Every field went from `before` to `after` as a pass supplying `raw(f)` prescribes. */
  ghost predicate AllApplied(decls: seq<FieldDecl>, before: Record, after: Record, raw: FieldDecl -> Option<string>, setter: Setter) {
    forall j :: 0 <= j < |decls| ==> Applied(decls[j], before, after, raw(decls[j]), setter)
  }

  /** Four pass effects, field by field, give the precedence of the last supplied string. */
  lemma PrecedenceOfEffects(decls: seq<FieldDecl>, rec: Record, r1: Record, r2: Record, r3: Record, r4: Record,
                            path: string, files: string -> FileRead, env: map<string, string>, args: seq<string>, setter: Setter)
    requires Shaped(decls, rec)
    requires AllApplied(decls, rec, r1, f => Lookup(Defaults, f), setter)
    requires AllApplied(decls, r1, r2, f => FileLookup(f, path, files), setter)
    requires AllApplied(decls, r2, r3, f => Lookup(EnvSource(env), f), setter)
    requires AllApplied(decls, r3, r4, f => Lookup(ArgsSource(args), f), setter)
    ensures forall i :: 0 <= i < |decls| ==>
              var f := decls[i];
              var cs := Candidates(f, path, files, env, args);
              var w := LastSupplied(cs);
              && f.name in r4.values && f.name in r4.isSet
              && (w.Some? ==> setter(f, w.value).Ok? && r4.values[f.name] == setter(f, w.value).value)
              && (w.None? ==> r4.values[f.name] == rec.values[f.name])
              && (r4.isSet[f.name] <==> rec.isSet[f.name] || exists c :: 0 <= c < 4 && cs[c].Some?)
  {
    forall i | 0 <= i < |decls|
      ensures var f := decls[i];
              var cs := Candidates(f, path, files, env, args);
              var w := LastSupplied(cs);
              && f.name in r4.values && f.name in r4.isSet
              && (w.Some? ==> setter(f, w.value).Ok? && r4.values[f.name] == setter(f, w.value).value)
              && (w.None? ==> r4.values[f.name] == rec.values[f.name])
              && (r4.isSet[f.name] <==> rec.isSet[f.name] || exists c :: 0 <= c < 4 && cs[c].Some?)
    {
      var f := decls[i];
      var cs := Candidates(f, path, files, env, args);
      assert Applied(f, rec, r1, cs[0], setter);
      assert Applied(f, r1, r2, cs[1], setter);
      assert Applied(f, r2, r3, cs[2], setter);
      assert Applied(f, r3, r4, cs[3], setter);
      ComposeApplied(f, rec, r1, r2, r3, r4, cs, setter);
    }
  }

  /** A successful pass reading `src` applies its lookups to every field. */
  lemma PassApplies(decls: seq<FieldDecl>, rec: Record, src: Source, setter: Setter)
    requires UniqueNames(decls)
    requires RunPass(decls, rec, src, setter).1 == Pass
    ensures AllApplied(decls, rec, RunPass(decls, rec, src, setter).0, f => Lookup(src, f), setter)
  {
    PassSucceeds(decls, rec, src, setter);
  }

  /** The file pass, when it succeeds, applies the file lookups to every field. */
  lemma FilePassApplies(decls: seq<FieldDecl>, rec: Record, path: string, files: string -> FileRead, setter: Setter)
    requires UniqueNames(decls)
    requires LoadFromFile(decls, rec, path, files, setter).1 == Pass
    ensures AllApplied(decls, rec, LoadFromFile(decls, rec, path, files, setter).0, f => FileLookup(f, path, files), setter)
  {
    var after := LoadFromFile(decls, rec, path, files, setter).0;
    match FileSourceOf(path, files)
    case None =>
      assert after == rec;
      forall j | 0 <= j < |decls| ensures Applied(decls[j], rec, after, FileLookup(decls[j], path, files), setter) {
        assert FileLookup(decls[j], path, files) == None;
      }
    case Some(src) =>
      PassApplies(decls, rec, src, setter);
      forall j | 0 <= j < |decls| ensures Applied(decls[j], rec, after, FileLookup(decls[j], path, files), setter) {
        assert FileLookup(decls[j], path, files) == Lookup(src, decls[j]);
      }
  }

  /** Precedence: when all four passes succeed, every field holds the
      conversion of the string supplied by the LAST pass that supplied one
      (arguments over environment over file over default), or its original
      value when none did; and it is set exactly when it was set before or
      some pass supplied a string for it. */
  lemma PassesPrecedence(decls: seq<FieldDecl>, rec: Record, path: string, files: string -> FileRead,
                         env: map<string, string>, args: seq<string>, setter: Setter)
    requires UniqueNames(decls) && Shaped(decls, rec)
    requires RunPasses(decls, rec, path, files, env, args, setter).1 == Pass
    ensures var after := RunPasses(decls, rec, path, files, env, args, setter).0;
            forall i :: 0 <= i < |decls| ==>
              var f := decls[i];
              var cs := Candidates(f, path, files, env, args);
              var w := LastSupplied(cs);
              && f.name in after.values && f.name in after.isSet
              && (w.Some? ==> setter(f, w.value).Ok? && after.values[f.name] == setter(f, w.value).value)
              && (w.None? ==> after.values[f.name] == rec.values[f.name])
              && (after.isSet[f.name] <==> rec.isSet[f.name] || exists c :: 0 <= c < 4 && cs[c].Some?)
  {
    var (r1, o1) := SetDefault(decls, rec, setter);
    var (r2, o2) := LoadFromFile(decls, r1, path, files, setter);
    var (r3, o3) := LoadFromEnv(decls, r2, env, setter);
    var (r4, o4) := LoadFromArgs(decls, r3, args, setter);
    assert o1 == Pass && o2 == Pass && o3 == Pass;
    assert RunPasses(decls, rec, path, files, env, args, setter) == (r4, o4);
    PassApplies(decls, rec, Defaults, setter);
    FilePassApplies(decls, r1, path, files, setter);
    PassApplies(decls, r2, EnvSource(env), setter);
    PassApplies(decls, r3, ArgsSource(args), setter);
    PrecedenceOfEffects(decls, rec, r1, r2, r3, r4, path, files, env, args, setter);
  }

  /** Starting from the freshly initialised set flags, a field ends the passes
      set exactly when some pass supplied a string for it. */
  lemma PassesSetFlags(decls: seq<FieldDecl>, values: map<string, Value>, path: string, files: string -> FileRead,
                       env: map<string, string>, args: seq<string>, setter: Setter)
    requires UniqueNames(decls) && forall i :: 0 <= i < |decls| ==> decls[i].name in values
    requires RunPasses(decls, Record(values, InitializeIsSet(decls)), path, files, env, args, setter).1 == Pass
    ensures var after := RunPasses(decls, Record(values, InitializeIsSet(decls)), path, files, env, args, setter).0;
            forall i :: 0 <= i < |decls| ==>
              (IsSet(after.isSet, decls[i].name) <==>
               exists c :: 0 <= c < 4 && Candidates(decls[i], path, files, env, args)[c].Some?)
  {
    var rec := Record(values, InitializeIsSet(decls));
    PassesPrecedence(decls, rec, path, files, env, args, setter);
    assert forall i :: 0 <= i < |decls| ==> !rec.isSet[decls[i].name] by {
      forall i | 0 <= i < |decls| ensures !rec.isSet[decls[i].name] {
        assert !IsSet(rec.isSet, decls[i].name);
      }
    }
  }

  // ---------------------------------------------------------------------------
  // Load and the latch

  /** Past the early exits, `Load` runs the passes on the struct with fresh set
      flags; a pass error is returned with the latch left alone and the
      fields the passes assigned so far kept; otherwise the latch is set and
      the requirement check decides the outcome. */
  lemma LoadRunsPasses(g: Globals, decls: seq<FieldDecl>, values: map<string, Value>, path: string,
                       files: string -> FileRead, env: map<string, string>, args: seq<string>, ext: ExternalParsers)
    requires !HelpRequested(args) && !g.isLoaded && !("-l" in args || "-h" in args)
    ensures var (r, o) := RunPasses(decls, Record(values, InitializeIsSet(decls)), path, files, env, args, FieldSetter(ext));
            var e := Load(g, StructPointer(decls, values), path, files, env, args, ext);
            && e.Returned?
            && e.target == StructPointer(decls, r.values)
            && (o.Fail? ==> e.globals == g && e.outcome == o)
            && (o == Pass ==> e.globals == Latch(g) && e.outcome == CheckRequiredAndDepends(decls, r.isSet))
  {
    MageCommandGivenIff(args);
  }

  /** The latch invariant: `isLoaded` is true exactly when the `sync.Once` has fired. */
  predicate Consistent(g: Globals) {
    g.isLoaded == g.onceDone
  }

  /** `Load` keeps the latch consistent and never clears `isLoaded`. */
  lemma LoadKeepsLatch(g: Globals, target: Target, path: string, files: string -> FileRead,
                       env: map<string, string>, args: seq<string>, ext: ExternalParsers)
    requires Consistent(g)
    ensures var e := Load(g, target, path, files, env, args, ext);
            e.Returned? ==> Consistent(e.globals) && (g.isLoaded ==> e.globals == g)
  {
  }

  /** Once the passes of a first `Load` have succeeded, the latch is set, even
      when the requirement check then fails; every later `Load` that is not a
      help request returns no error and leaves its struct alone. */
  lemma LoadLatches(decls: seq<FieldDecl>, values: map<string, Value>, path: string, files: string -> FileRead,
                    env: map<string, string>, args: seq<string>, ext: ExternalParsers,
                    target2: Target, path2: string, files2: string -> FileRead,
                    env2: map<string, string>, args2: seq<string>)
    requires !HelpRequested(args) && !("-l" in args || "-h" in args)
    requires RunPasses(decls, Record(values, InitializeIsSet(decls)), path, files, env, args, FieldSetter(ext)).1 == Pass
    requires !HelpRequested(args2)
    ensures var e := Load(Globals(false, false), StructPointer(decls, values), path, files, env, args, ext);
            && e.Returned? && e.globals == Globals(true, true)
            && Load(e.globals, target2, path2, files2, env2, args2, ext) == Returned(e.globals, target2, Pass)
  {
    LoadRunsPasses(Globals(false, false), decls, values, path, files, env, args, ext);
  }

  /** A pass error does not set the latch: the next `Load` runs the passes again. */
  lemma LoadPassErrorDoesNotLatch(g: Globals, decls: seq<FieldDecl>, values: map<string, Value>, path: string,
                                  files: string -> FileRead, env: map<string, string>, args: seq<string>,
                                  ext: ExternalParsers)
    requires !HelpRequested(args) && !g.isLoaded && !("-l" in args || "-h" in args)
    requires RunPasses(decls, Record(values, InitializeIsSet(decls)), path, files, env, args, FieldSetter(ext)).1.Fail?
    ensures var e := Load(g, StructPointer(decls, values), path, files, env, args, ext);
            e.Returned? && e.globals == g && !e.globals.isLoaded && e.outcome.Fail?
  {
    LoadRunsPasses(g, decls, values, path, files, env, args, ext);
  }

  /** The `sync.Once` fires once: after `isLoaded` has been cleared from outside
      (as the repository's tests do), a successful `Load` does not set it again. */
  lemma OnceFiresOnce(decls: seq<FieldDecl>, values: map<string, Value>, path: string, files: string -> FileRead,
                      env: map<string, string>, args: seq<string>, ext: ExternalParsers)
    requires !HelpRequested(args) && !("-l" in args || "-h" in args)
    ensures var e := Load(Globals(false, true), StructPointer(decls, values), path, files, env, args, ext);
            e.Returned? && e.globals == Globals(false, true)
  {
    LoadRunsPasses(Globals(false, true), decls, values, path, files, env, args, ext);
  }
}
