/**
 Typed string conversion (parser.go): one raw string becomes a scalar, a
 comma-separated slice or a `key:value,...` map, according to the field's
 type; and the in-order field iteration every loading pass is built on.
 */
module Parser {
  import opened Errors
  import opened GoStrings
  import StrConv
  import opened Fields

  /** Separates slice elements and map pairs. */
  const SliceSeparator: char := ','
  /** Separates a map pair's key from its value (and a file line's key from its value). */
  const KvSeparator: char := ':'

  /** `parseStringToType`. Durations and times are recognised by their exact
      type before the switch on kinds; strings convert as they are; types
      without a rule are refused. What each rule accepts is stated by
      `ParseStringToTypeRules`. */
  function ParseStringToType(s: string, t: ScalarType, ext: ExternalParsers): (r: Result<Scalar>)
    ensures r.Ok? ==> ScalarHasType(r.value, t)
  {
    match t
    case DurationType =>
      (match ext.parseDuration(s) case Ok(n) => Ok(DurationV(n)) case Err(e) => Err(e))
    case TimeType =>
      (match ext.parseTime(s) case Ok(i) => Ok(TimeV(i)) case Err(e) => Err(e))
    case BoolType =>
      (match StrConv.ParseBool(s) case Ok(b) => Ok(BoolV(b)) case Err(e) => Err(e))
    case IntType =>
      (match StrConv.ParseInt(s) case Ok(i) => Ok(IntV(i)) case Err(e) => Err(e))
    case UintType =>
      (match StrConv.ParseUint(s) case Ok(u) => Ok(UintV(u)) case Err(e) => Err(e))
    case Float64Type =>
      (match ext.parseFloat(s) case Ok(bits) => Ok(FloatV(bits)) case Err(e) => Err(e))
    case StringType => Ok(StringV(s))
    case OtherType(_) => Err(UnsupportedType)
  }

  /** The conversion rules: text is the identity; booleans take exactly
      strconv's twelve spellings; `int` takes an optionally signed decimal
      within 64 bits and `uint` an unsigned one; any other type without a rule
      is unsupported; floats, durations and times are whatever their parsers
      return. A failing conversion returns the parser's own error. */
  lemma ParseStringToTypeRules(s: string, t: ScalarType, ext: ExternalParsers)
    ensures var r := ParseStringToType(s, t, ext);
      && (t == StringType ==> r == Ok(StringV(s)))
      && (t.OtherType? ==> r == Err(UnsupportedType))
      && (t == BoolType ==> (r.Ok? <==> s in StrConv.TrueSpellings + StrConv.FalseSpellings))
      && (t == BoolType && r.Ok? ==> (r.value.b <==> s in StrConv.TrueSpellings))
      && (t == BoolType && r.Err? ==> r.error == NumError("ParseBool", s, InvalidSyntax))
      && (t == IntType ==>
           (r.Ok? <==> StrConv.IsSignedDecimal(s) && StrConv.MinInt64 <= StrConv.SignedValue(s) <= StrConv.MaxInt64))
      && (t == IntType && r.Ok? ==> r.value.i == StrConv.SignedValue(s))
      && (t == IntType && r.Err? ==> r.error == StrConv.ParseInt(s).error)
      && (t == UintType ==> (r.Ok? <==> s != "" && StrConv.AllDigits(s) && StrConv.DecimalValue(s) <= StrConv.MaxUint64))
      && (t == UintType && r.Ok? ==> r.value.u == StrConv.DecimalValue(s))
      && (t == UintType && r.Err? ==> r.error == StrConv.ParseUint(s).error)
      && (t == DurationType ==> (r.Ok? <==> ext.parseDuration(s).Ok?))
      && (t == DurationType && r.Ok? ==> r.value == DurationV(ext.parseDuration(s).value))
      && (t == DurationType && r.Err? ==> r.error == ext.parseDuration(s).error)
      && (t == TimeType ==> (r.Ok? <==> ext.parseTime(s).Ok?))
      && (t == TimeType && r.Ok? ==> r.value == TimeV(ext.parseTime(s).value))
      && (t == TimeType && r.Err? ==> r.error == ext.parseTime(s).error)
      && (t == Float64Type ==> (r.Ok? <==> ext.parseFloat(s).Ok?))
      && (t == Float64Type && r.Ok? ==> r.value == FloatV(ext.parseFloat(s).value))
      && (t == Float64Type && r.Err? ==> r.error == ext.parseFloat(s).error)
  {
  }

  /** The conversion applied to one slice element or map value. */
  type Converter = string -> Result<Scalar>

  /** The conversion `setFieldByKind` applies to the elements of a slice or
      the values of a map of element type `t`: trim, then convert. */
  function ElemConverter(t: ScalarType, ext: ExternalParsers): Converter {
    s => ConvertElem(s, t, ext)
  }

  /** One element or map value: trimmed, then converted. */
  function ConvertElem(s: string, t: ScalarType, ext: ExternalParsers): (r: Result<Scalar>)
    ensures r.Ok? ==> ScalarHasType(r.value, t)
  {
    ParseStringToType(TrimSpace(s), t, ext)
  }

  /** The first `k` pieces convert. */
  ghost predicate AllConvert(pieces: seq<string>, conv: Converter, k: int)
    requires 0 <= k <= |pieces|
  {
    forall i :: 0 <= i < k ==> conv(pieces[i]).Ok?
  }

  /** Piece `k` is the first that fails to convert, and fails with `e`. */
  ghost predicate FirstFailure(pieces: seq<string>, conv: Converter, k: int, e: Error) {
    0 <= k < |pieces| && AllConvert(pieces, conv, k) && conv(pieces[k]) == Err(e)
  }

  /** The slice branch's element loop: every piece is converted, and the first
      element that fails fails the whole slice with its own error. */
  function ConvertElems(pieces: seq<string>, conv: Converter): (r: Result<seq<Scalar>>)
    ensures r.Ok? <==> AllConvert(pieces, conv, |pieces|)
    ensures r.Ok? ==> |r.value| == |pieces| && forall i :: 0 <= i < |pieces| ==> conv(pieces[i]) == Ok(r.value[i])
    ensures r.Err? ==> exists k :: FirstFailure(pieces, conv, k, r.error)
  {
    if |pieces| == 0 then Ok([])
    else
      var tail := pieces[1..];
      assert forall i :: 1 <= i < |pieces| ==> pieces[i] == tail[i - 1];
      match conv(pieces[0])
      case Err(e) =>
        assert FirstFailure(pieces, conv, 0, e);
        Err(e)
      case Ok(x) =>
        match ConvertElems(tail, conv)
        case Err(e) =>
          ghost var k :| FirstFailure(tail, conv, k, e);
          assert FirstFailure(pieces, conv, k + 1, e);
          Err(e)
        case Ok(rest) =>
          Ok([x] + rest)
  }

  /** One map pair: split at the first `:` (so the value may contain `:`), the
      key trimmed and the value converted. A piece without `:` is reported
      untrimmed. */
  function ConvertPair(piece: string, conv: Converter): (r: Result<(string, Scalar)>)
    ensures KvSeparator !in piece ==> r == Err(InvalidMapValue(piece))
  {
    match Cut(piece, KvSeparator)
    case None => Err(InvalidMapValue(piece))
    case Some((key, value)) =>
      match conv(value)
      case Ok(x) => Ok((TrimSpace(key), x))
      case Err(e) => Err(e)
  }

  /** A pair `key:rest` with a colon-free key converts `rest` (colons and all)
      after trimming, and keys its value by the trimmed key. */
  lemma ConvertPairAtFirstColon(key: string, rest: string, conv: Converter)
    requires KvSeparator !in key
    ensures ConvertPair(key + [KvSeparator] + rest, conv)
            == match conv(rest)
               case Ok(x) => Ok((TrimSpace(key), x))
               case Err(e) => Err(e)
  {
    CutAtFirst(key, rest, KvSeparator);
  }

  /** The map branch's pair loop: pairs are applied to `acc` in order, and the
      first pair that fails fails the whole map with its own error. */
  function ConvertPairs(pieces: seq<string>, conv: Converter, acc: map<string, Scalar>)
    : (r: Result<map<string, Scalar>>)
    ensures r.Ok? <==> AllPairsConvert(pieces, conv, |pieces|)
    ensures r.Err? ==> exists k :: FirstPairFailure(pieces, conv, k, r.error)
  {
    if |pieces| == 0 then Ok(acc)
    else
      var tail := pieces[1..];
      assert forall i :: 1 <= i < |pieces| ==> pieces[i] == tail[i - 1];
      match ConvertPair(pieces[0], conv)
      case Err(e) =>
        assert FirstPairFailure(pieces, conv, 0, e);
        Err(e)
      case Ok((key, x)) =>
        var r := ConvertPairs(tail, conv, acc[key := x]);
        if r.Err? then
          ghost var k :| FirstPairFailure(tail, conv, k, r.error);
          assert FirstPairFailure(pieces, conv, k + 1, r.error);
          r
        else r
  }

  /** The first `k` pieces convert as pairs. */
  ghost predicate AllPairsConvert(pieces: seq<string>, conv: Converter, k: int)
    requires 0 <= k <= |pieces|
  {
    forall i :: 0 <= i < k ==> ConvertPair(pieces[i], conv).Ok?
  }

  /** Piece `k` is the first that fails to convert as a pair, and fails with `e`. */
  ghost predicate FirstPairFailure(pieces: seq<string>, conv: Converter, k: int, e: Error) {
    0 <= k < |pieces| && AllPairsConvert(pieces, conv, k) && ConvertPair(pieces[k], conv) == Err(e)
  }

  /** The pairs of a map string whose every piece converts, in order. */
  function Pairs(pieces: seq<string>, conv: Converter): (r: seq<(string, Scalar)>)
    requires AllPairsConvert(pieces, conv, |pieces|)
    ensures |r| == |pieces| && forall i :: 0 <= i < |pieces| ==> r[i] == ConvertPair(pieces[i], conv).value
  {
    if |pieces| == 0 then []
    else
      var tail := pieces[1..];
      assert forall i :: 0 <= i < |tail| ==> tail[i] == pieces[i + 1];
      assert AllPairsConvert(tail, conv, |tail|);
      var rest := Pairs(tail, conv);
      var r := [ConvertPair(pieces[0], conv).value] + rest;
      assert forall i :: 1 <= i < |pieces| ==> r[i] == rest[i - 1];
      r
  }

  /** Assigns the pairs to `acc` one after the other, as Go's `m.SetMapIndex` does. */
  function Insert(acc: map<string, Scalar>, pairs: seq<(string, Scalar)>): map<string, Scalar>
    decreases |pairs|
  {
    if |pairs| == 0 then acc else Insert(acc[pairs[0].0 := pairs[0].1], pairs[1..])
  }

  /** A successful pair loop inserts the converted pairs in order. */
  lemma {:induction false} ConvertPairsInserts(pieces: seq<string>, conv: Converter, acc: map<string, Scalar>)
    requires ConvertPairs(pieces, conv, acc).Ok?
    ensures AllPairsConvert(pieces, conv, |pieces|)
    ensures ConvertPairs(pieces, conv, acc).value == Insert(acc, Pairs(pieces, conv))
  {
    if |pieces| > 0 {
      var (k0, x0) := ConvertPair(pieces[0], conv).value;
      ConvertPairsInserts(pieces[1..], conv, acc[k0 := x0]);
      assert Pairs(pieces, conv)[1..] == Pairs(pieces[1..], conv);
    }
  }

  /** The keys after a run of insertions: those of `acc` and those of the pairs. */
  lemma {:induction false} InsertKeys(acc: map<string, Scalar>, pairs: seq<(string, Scalar)>)
    ensures forall key :: key in Insert(acc, pairs) <==> key in acc || exists i :: 0 <= i < |pairs| && pairs[i].0 == key
    decreases |pairs|
  {
    if |pairs| > 0 {
      var acc' := acc[pairs[0].0 := pairs[0].1];
      var tail := pairs[1..];
      InsertKeys(acc', tail);
      var m := Insert(acc, pairs);
      assert m == Insert(acc', tail);
      forall key ensures key in m <==> key in acc || exists i :: 0 <= i < |pairs| && pairs[i].0 == key {
        if exists i :: 0 <= i < |tail| && tail[i].0 == key {
          var i :| 0 <= i < |tail| && tail[i].0 == key;
          assert pairs[i + 1].0 == key;
        }
        if exists i :: 0 <= i < |pairs| && pairs[i].0 == key {
          var i :| 0 <= i < |pairs| && pairs[i].0 == key;
          if i > 0 {
            assert tail[i - 1].0 == key;
          }
        }
      }
    }
  }

  /** Pair `i` is the last one naming its key. */
  ghost predicate LastFor(pairs: seq<(string, Scalar)>, i: int) {
    0 <= i < |pairs| && forall j :: i < j < |pairs| ==> pairs[j].0 != pairs[i].0
  }

  /** A key inserted for the last time keeps the value of that last pair. */
  lemma {:induction false} InsertLastPair(acc: map<string, Scalar>, pairs: seq<(string, Scalar)>)
    ensures forall i :: LastFor(pairs, i) ==> pairs[i].0 in Insert(acc, pairs) && Insert(acc, pairs)[pairs[i].0] == pairs[i].1
    decreases |pairs|
  {
    if |pairs| > 0 {
      var acc' := acc[pairs[0].0 := pairs[0].1];
      var tail := pairs[1..];
      InsertLastPair(acc', tail);
      var m := Insert(acc, pairs);
      assert m == Insert(acc', tail);
      forall i | LastFor(pairs, i) ensures pairs[i].0 in m && m[pairs[i].0] == pairs[i].1 {
        var key := pairs[i].0;
        if i > 0 {
          assert tail[i - 1] == pairs[i];
          forall j | i - 1 < j < |tail| ensures tail[j].0 != key {
            assert tail[j] == pairs[j + 1];
          }
          assert LastFor(tail, i - 1);
        } else {
          forall j | 0 <= j < |tail| ensures tail[j].0 != key {
            assert tail[j] == pairs[j + 1];
          }
          assert key in acc' && acc'[key] == pairs[0].1;
          InsertUntouched(acc', tail);
        }
      }
    }
  }

  /** A key of `acc` that no pair names keeps its value. */
  lemma {:induction false} InsertUntouched(acc: map<string, Scalar>, pairs: seq<(string, Scalar)>)
    ensures forall key :: key in acc && (forall i :: 0 <= i < |pairs| ==> pairs[i].0 != key)
                          ==> key in Insert(acc, pairs) && Insert(acc, pairs)[key] == acc[key]
    decreases |pairs|
  {
    if |pairs| > 0 {
      var acc' := acc[pairs[0].0 := pairs[0].1];
      var tail := pairs[1..];
      InsertUntouched(acc', tail);
      assert Insert(acc, pairs) == Insert(acc', tail);
      assert forall j :: 0 <= j < |tail| ==> tail[j] == pairs[j + 1];
    }
  }

  /** Every value after a run of insertions comes from `acc` or from a pair. */
  lemma {:induction false} InsertValuesFrom(acc: map<string, Scalar>, pairs: seq<(string, Scalar)>)
    ensures forall key :: key in Insert(acc, pairs) ==>
              (key in acc && Insert(acc, pairs)[key] == acc[key])
              || exists i :: 0 <= i < |pairs| && pairs[i] == (key, Insert(acc, pairs)[key])
    decreases |pairs|
  {
    if |pairs| > 0 {
      var acc' := acc[pairs[0].0 := pairs[0].1];
      var tail := pairs[1..];
      InsertValuesFrom(acc', tail);
      var m := Insert(acc, pairs);
      assert m == Insert(acc', tail);
      forall key | key in m
        ensures (key in acc && m[key] == acc[key]) || exists i :: 0 <= i < |pairs| && pairs[i] == (key, m[key])
      {
        if exists i :: 0 <= i < |tail| && tail[i] == (key, m[key]) {
          var i :| 0 <= i < |tail| && tail[i] == (key, m[key]);
          assert pairs[i + 1] == (key, m[key]);
        } else if key != pairs[0].0 {
        } else {
          assert pairs[0] == (key, m[key]);
        }
      }
    }
  }

  /** What a run of insertions leaves: the keys of `acc` and of the pairs;
      each inserted key mapped to the value of its LAST pair; the other keys of
      `acc` untouched; so every value is an inserted one or one from `acc`. */
  lemma InsertLastWins(acc: map<string, Scalar>, pairs: seq<(string, Scalar)>)
    ensures forall key :: key in Insert(acc, pairs) <==> key in acc || exists i :: 0 <= i < |pairs| && pairs[i].0 == key
    ensures forall i :: 0 <= i < |pairs| && (forall j :: i < j < |pairs| ==> pairs[j].0 != pairs[i].0)
                        ==> pairs[i].0 in Insert(acc, pairs) && Insert(acc, pairs)[pairs[i].0] == pairs[i].1
    ensures forall key :: key in acc && (forall i :: 0 <= i < |pairs| ==> pairs[i].0 != key)
                          ==> key in Insert(acc, pairs) && Insert(acc, pairs)[key] == acc[key]
    ensures forall key :: key in Insert(acc, pairs) ==>
              (key in acc && Insert(acc, pairs)[key] == acc[key])
              || exists i :: 0 <= i < |pairs| && pairs[i] == (key, Insert(acc, pairs)[key])
  {
    InsertKeys(acc, pairs);
    InsertLastPair(acc, pairs);
    forall i | 0 <= i < |pairs| && (forall j :: i < j < |pairs| ==> pairs[j].0 != pairs[i].0)
      ensures pairs[i].0 in Insert(acc, pairs) && Insert(acc, pairs)[pairs[i].0] == pairs[i].1
    {
      assert LastFor(pairs, i);
    }
    InsertUntouched(acc, pairs);
    InsertValuesFrom(acc, pairs);
  }

  /** An element conversion only yields values of the element type. */
  lemma ElemConverterTyped(t: ScalarType, ext: ExternalParsers, s: string)
    ensures ElemConverter(t, ext)(s).Ok? ==> ScalarHasType(ElemConverter(t, ext)(s).value, t)
  {
    assert ElemConverter(t, ext)(s) == ConvertElem(s, t, ext);
  }

  /** A map pair only yields values of the element type. */
  lemma ConvertPairTyped(piece: string, t: ScalarType, ext: ExternalParsers)
    ensures ConvertPair(piece, ElemConverter(t, ext)).Ok? ==> ScalarHasType(ConvertPair(piece, ElemConverter(t, ext)).value.1, t)
  {
    if Cut(piece, KvSeparator).Some? {
      ElemConverterTyped(t, ext, Cut(piece, KvSeparator).value.1);
    }
  }

  /** The slice branch of `setFieldByKind`: split on `,`, trim each piece and
      convert it; the first failure is the result. */
  function ConvertSlice(s: string, e: ScalarType, ext: ExternalParsers): (r: Result<seq<Scalar>>)
    ensures r.Ok? ==> forall i :: 0 <= i < |r.value| ==> ScalarHasType(r.value[i], e)
  {
    var pieces := Split(s, SliceSeparator);
    var conv := ElemConverter(e, ext);
    var r := ConvertElems(pieces, conv);
    if r.Ok? then
      assert forall i :: 0 <= i < |r.value| ==> ScalarHasType(r.value[i], e) by {
        forall i | 0 <= i < |r.value| ensures ScalarHasType(r.value[i], e) {
          ElemConverterTyped(e, ext, pieces[i]);
        }
      }
      r
    else r
  }

  /** The map branch of `setFieldByKind`: split on `,`, cut each piece at its
      first `:` and convert the trimmed value under the trimmed key, later
      pairs overwriting earlier ones; the first failure is the result. */
  function ConvertMap(s: string, e: ScalarType, ext: ExternalParsers): (r: Result<map<string, Scalar>>)
    ensures r.Ok? ==> forall key :: key in r.value ==> ScalarHasType(r.value[key], e)
  {
    var pieces := Split(s, SliceSeparator);
    var conv := ElemConverter(e, ext);
    var r := ConvertPairs(pieces, conv, map[]);
    if r.Ok? then
      ConvertPairsTyped(pieces, e, ext, r.value);
      r
    else r
  }

  /** Every value of the map a successful map loop builds has the element type. */
  lemma ConvertPairsTyped(pieces: seq<string>, e: ScalarType, ext: ExternalParsers, m: map<string, Scalar>)
    requires ConvertPairs(pieces, ElemConverter(e, ext), map[]) == Ok(m)
    ensures forall key :: key in m ==> ScalarHasType(m[key], e)
  {
    var conv := ElemConverter(e, ext);
    ConvertPairsInserts(pieces, conv, map[]);
    var pairs := Pairs(pieces, conv);
    InsertLastWins(map[], pairs);
    forall key | key in m ensures ScalarHasType(m[key], e) {
      var i :| 0 <= i < |pairs| && pairs[i] == (key, m[key]);
      ConvertPairTyped(pieces[i], e, ext);
    }
  }

  /** `setFieldByKind`: the converted value for a field of type `f.typ`, or the
      error that stops the assignment. The value is only produced once the
      whole string has converted, so a failure leaves the field as it was.
      Scalars get the raw, untrimmed string and wrap a failure in `parse field`;
      slice and map errors are returned as the element conversion produced them
      (see `SliceField` and `MapField`). */
  function SetFieldByKind(f: FieldDecl, s: string, ext: ExternalParsers): (r: Result<Value>)
    ensures r.Ok? ==> HasType(r.value, f.typ)
    ensures f.typ.Plain? ==> (r.Ok? <==> ParseStringToType(s, f.typ.scalar, ext).Ok?)
    ensures f.typ.Plain? && r.Ok? ==> r.value == ScalarValue(ParseStringToType(s, f.typ.scalar, ext).value)
    ensures f.typ.Plain? && r.Err? ==> r.error == ParseField(ParseStringToType(s, f.typ.scalar, ext).error)
  {
    match f.typ
    case SliceOf(e) =>
      (match ConvertSlice(s, e, ext)
       case Ok(xs) => Ok(SliceValue(xs))
       case Err(err) => Err(err))
    case MapOf(e) =>
      (match ConvertMap(s, e, ext)
       case Ok(m) => Ok(MapValue(m))
       case Err(err) => Err(err))
    case Plain(t) =>
      (match ParseStringToType(s, t, ext)
       case Ok(x) => Ok(ScalarValue(x))
       case Err(err) => Err(ParseField(err)))
  }


  /** A slice field gets one element per comma-separated piece (one more than
      there are commas), element `i` being piece `i` trimmed and converted; if
      any piece fails, the first failing piece's error is returned unwrapped. */
  lemma SliceField(f: FieldDecl, s: string, ext: ExternalParsers)
    requires f.typ.SliceOf?
    ensures var pieces := Split(s, SliceSeparator);
            var conv := ElemConverter(f.typ.elem, ext);
            var r := SetFieldByKind(f, s, ext);
            && (r.Ok? <==> AllConvert(pieces, conv, |pieces|))
            && (r.Ok? ==> && r.value.SliceValue?
                          && |r.value.elems| == multiset(s)[SliceSeparator] + 1
                          && forall i :: 0 <= i < |pieces| ==>
                               ParseStringToType(TrimSpace(pieces[i]), f.typ.elem, ext) == Ok(r.value.elems[i]))
            && (r.Err? ==> exists k :: FirstFailure(pieces, conv, k, r.error))
  {
  }

  /** What `setFieldByKind` promises of a map field whose string splits into
      `pieces`: it succeeds exactly when every piece has a `:` and a
      convertible value; its keys are then exactly the pairs' keys, each
      mapped to the value of the last pair carrying it. Otherwise the first
      failing piece decides the error, `invalid map default value: <piece>`
      for a piece without `:`. */
  ghost predicate MapConversion(pieces: seq<string>, conv: Converter, r: Result<Value>) {
    && (r.Ok? <==> AllPairsConvert(pieces, conv, |pieces|))
    && (r.Ok? ==> && r.value.MapValue?
                  && var pairs := Pairs(pieces, conv);
                  && (forall key :: key in r.value.entries <==>
                        exists i :: 0 <= i < |pairs| && pairs[i].0 == key)
                  && (forall i :: 0 <= i < |pairs| && (forall j :: i < j < |pairs| ==> pairs[j].0 != pairs[i].0)
                        ==> pairs[i].0 in r.value.entries && r.value.entries[pairs[i].0] == pairs[i].1))
    && (r.Err? ==> exists k :: && FirstPairFailure(pieces, conv, k, r.error)
                               && (KvSeparator !in pieces[k] ==> r.error == InvalidMapValue(pieces[k])))
  }

  /** The map loop from no entries, wrapped as a field value, meets `MapConversion`. */
  lemma MapResult(pieces: seq<string>, conv: Converter, r: Result<Value>)
    requires var c := ConvertPairs(pieces, conv, map[]);
             r == if c.Ok? then Ok(MapValue(c.value)) else Err(c.error)
    ensures MapConversion(pieces, conv, r)
  {
    var c := ConvertPairs(pieces, conv, map[]);
    if c.Ok? {
      ConvertPairsEntries(pieces, conv, c.value);
    } else {
      var k :| FirstPairFailure(pieces, conv, k, c.error);
      assert KvSeparator !in pieces[k] ==> c.error == InvalidMapValue(pieces[k]);
    }
  }

  /** The map a successful map loop builds from no entries has exactly the
      pairs' keys, each mapped to the value of the last pair carrying it. */
  lemma ConvertPairsEntries(pieces: seq<string>, conv: Converter, m: map<string, Scalar>)
    requires ConvertPairs(pieces, conv, map[]) == Ok(m)
    ensures AllPairsConvert(pieces, conv, |pieces|)
    ensures var pairs := Pairs(pieces, conv);
            && (forall key :: key in m <==> exists i :: 0 <= i < |pairs| && pairs[i].0 == key)
            && (forall i :: 0 <= i < |pairs| && (forall j :: i < j < |pairs| ==> pairs[j].0 != pairs[i].0)
                  ==> pairs[i].0 in m && m[pairs[i].0] == pairs[i].1)
  {
    ConvertPairsInserts(pieces, conv, map[]);
    InsertedKeys(Pairs(pieces, conv), m);
    InsertedLast(Pairs(pieces, conv), m);
  }

  /** The keys of a map built from no entries are exactly the pairs' keys. */
  lemma InsertedKeys(pairs: seq<(string, Scalar)>, m: map<string, Scalar>)
    requires m == Insert(map[], pairs)
    ensures forall key :: key in m <==> exists i :: 0 <= i < |pairs| && pairs[i].0 == key
  {
    InsertKeys(map[], pairs);
  }

  /** In a map built from no entries, each key has the value of the last pair carrying it. */
  lemma InsertedLast(pairs: seq<(string, Scalar)>, m: map<string, Scalar>)
    requires m == Insert(map[], pairs)
    ensures forall i :: 0 <= i < |pairs| && (forall j :: i < j < |pairs| ==> pairs[j].0 != pairs[i].0)
                        ==> pairs[i].0 in m && m[pairs[i].0] == pairs[i].1
  {
    InsertLastPair(map[], pairs);
    forall i | 0 <= i < |pairs| && (forall j :: i < j < |pairs| ==> pairs[j].0 != pairs[i].0)
      ensures pairs[i].0 in m && m[pairs[i].0] == pairs[i].1
    {
      assert LastFor(pairs, i);
    }
  }

  /** A map field converts as `MapConversion` prescribes for its comma-separated
      pieces; a failing value's conversion error comes back unwrapped. */
  lemma MapField(f: FieldDecl, s: string, ext: ExternalParsers)
    requires f.typ.MapOf?
    ensures MapConversion(Split(s, SliceSeparator), ElemConverter(f.typ.elem, ext), SetFieldByKind(f, s, ext))
  {
    MapFieldConverts(f, s, ext);
    ConvertMapIsPairs(s, f.typ.elem, ext);
    MapResult(Split(s, SliceSeparator), ElemConverter(f.typ.elem, ext), SetFieldByKind(f, s, ext));
  }

  /** A map field's value is the map conversion's, wrapped. */
  lemma MapFieldConverts(f: FieldDecl, s: string, ext: ExternalParsers)
    requires f.typ.MapOf?
    ensures var c := ConvertMap(s, f.typ.elem, ext);
            SetFieldByKind(f, s, ext) == if c.Ok? then Ok(MapValue(c.value)) else Err(c.error)
  {
  }

  /** The map conversion is the map loop over the comma-separated pieces, from no entries. */
  lemma ConvertMapIsPairs(s: string, e: ScalarType, ext: ExternalParsers)
    ensures ConvertMap(s, e, ext) == ConvertPairs(Split(s, SliceSeparator), ElemConverter(e, ext), map[])
  {
  }

  /** The first `k` visits of `setFields`: fields are visited in declaration
      order, each seeing the state the previous visits left, and the first
      failing visit ends the iteration with its error. */
  function VisitPrefix<S>(decls: seq<FieldDecl>, k: nat, s: S, visit: (nat, FieldDecl, S) -> (S, Outcome)): (S, Outcome)
    requires k <= |decls|
  {
    if k == 0 then (s, Pass)
    else
      var (t, o) := VisitPrefix(decls, k - 1, s, visit);
      if o.Fail? then (t, o) else visit(k - 1, decls[k - 1], t)
  }

  /** `setFields`: applies `visit` to every field in declaration order and
      returns the first error. */
  function SetFields<S>(decls: seq<FieldDecl>, s: S, visit: (nat, FieldDecl, S) -> (S, Outcome)): (S, Outcome) {
    VisitPrefix(decls, |decls|, s, visit)
  }

  /** Once a visit has failed, further fields change nothing. */
  lemma {:induction false} VisitPrefixFailureSticks<S>(decls: seq<FieldDecl>, k: nat, j: nat, s: S,
                                                       visit: (nat, FieldDecl, S) -> (S, Outcome))
    requires k <= j <= |decls|
    requires VisitPrefix(decls, k, s, visit).1.Fail?
    ensures VisitPrefix(decls, j, s, visit) == VisitPrefix(decls, k, s, visit)
    decreases j
  {
    if j > k {
      VisitPrefixFailureSticks(decls, k, j - 1, s, visit);
    }
  }

  /** The visits of a prefix of the fields are those of the whole struct. */
  lemma {:induction false} VisitPrefixOfPrefix<S>(decls: seq<FieldDecl>, n: nat, k: nat, s: S,
                                                  visit: (nat, FieldDecl, S) -> (S, Outcome))
    requires k <= n <= |decls|
    ensures VisitPrefix(decls[..n], k, s, visit) == VisitPrefix(decls, k, s, visit)
    decreases k
  {
    if k > 0 {
      VisitPrefixOfPrefix(decls, n, k - 1, s, visit);
    }
  }

  /** If field `k` is the first whose visit fails, `setFields` returns exactly
      what that visit returned, and the fields after it are never visited: the
      result is the same as for the struct cut after field `k`. */
  lemma SetFieldsStopsAtFirstError<S>(decls: seq<FieldDecl>, k: nat, s: S, visit: (nat, FieldDecl, S) -> (S, Outcome))
    requires k < |decls|
    requires VisitPrefix(decls, k, s, visit).1 == Pass
    requires visit(k, decls[k], VisitPrefix(decls, k, s, visit).0).1.Fail?
    ensures SetFields(decls, s, visit) == visit(k, decls[k], VisitPrefix(decls, k, s, visit).0)
    ensures SetFields(decls, s, visit) == SetFields(decls[..k + 1], s, visit)
  {
    VisitPrefixFailureSticks(decls, k + 1, |decls|, s, visit);
    VisitPrefixOfPrefix(decls, k + 1, k + 1, s, visit);
  }

  /** Every error `setFields` returns comes from the first failing visit. */
  lemma {:induction false} SetFieldsErrorIsFirst<S>(decls: seq<FieldDecl>, n: nat, s: S, visit: (nat, FieldDecl, S) -> (S, Outcome))
    requires n <= |decls|
    requires VisitPrefix(decls, n, s, visit).1.Fail?
    ensures exists k :: 0 <= k < n
                        && VisitPrefix(decls, k, s, visit).1 == Pass
                        && VisitPrefix(decls, n, s, visit) == visit(k, decls[k], VisitPrefix(decls, k, s, visit).0)
    decreases n
  {
    if VisitPrefix(decls, n - 1, s, visit).1.Fail? {
      SetFieldsErrorIsFirst(decls, n - 1, s, visit);
    } else {
      assert VisitPrefix(decls, n, s, visit) == visit(n - 1, decls[n - 1], VisitPrefix(decls, n - 1, s, visit).0);
    }
  }
}
