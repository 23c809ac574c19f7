/**
 Where the loader's raw strings come from (mageconfig.go): the lines of a
 `key: value` configuration file, the command-line argument vector, and the
 scan for the host build tool's own commands.

 The file, the environment and the argument vector are plain values here;
 the argument vector includes the program name at index 0, as `os.Args` does.
 */
module Sources {
  import opened Errors
  import opened GoStrings

  /** Prefix of command-line options. */
  const ArgPrefix: char := '-'
  /** Separates a file line's key from its value. */
  const LineSeparator: char := ':'
  /** Separates an option's name from its value in `name=value`. */
  const AssignSeparator: char := '='
  /** The host build tool's own commands: when one is given, loading is skipped. */
  const MageCommands: seq<string> := ["-l", "-h"]

  // ---------------------------------------------------------------------------
  // Quote stripping

  /** The guard of the file pass's quote stripping, as written: the value is
      non-empty and its first and last bytes are the same quote character. A
      lone quote character passes, because its first byte is its last. */
  predicate QuotedAsWritten(v: string) {
    |v| > 0 && ((v[0] == '"' && v[|v| - 1] == '"') || (v[0] == '\'' && v[|v| - 1] == '\''))
  }

  /** The quote stripping as written: `value[1:len(value)-1]` once the guard
      holds. `None` stands for the run-time panic Go raises when that slice
      has its low bound above its high bound. */
  function StripQuotesAsWritten(v: string): (r: Option<string>)
    ensures r.None? <==> QuotedAsWritten(v) && |v| == 1
    ensures r.Some? && QuotedAsWritten(v) ==> [v[0]] + r.value + [v[|v| - 1]] == v
    ensures r.Some? && !QuotedAsWritten(v) ==> r.value == v
  {
    if QuotedAsWritten(v) then
      if 1 <= |v| - 1 then
        assert v == [v[0]] + v[1..|v| - 1] + [v[|v| - 1]];
        Some(v[1..|v| - 1])
      else None
    else Some(v)
  }

  /** A file value made of one quote character makes the as-written stripping
      fail (Go panics on `value[1:0]`). */
  lemma LoneQuotePanics()
    ensures StripQuotesAsWritten("\"") == None
    ensures StripQuotesAsWritten("'") == None
  {
  }

  /** The value is wrapped in one pair of matching `"` or `'` quotes. */
  predicate Quoted(v: string) {
    |v| >= 2 && ((v[0] == '"' && v[|v| - 1] == '"') || (v[0] == '\'' && v[|v| - 1] == '\''))
  }

  /** Quote stripping as evidently intended: one pair of matching quotes is
      removed, and anything else (a lone quote included) is kept as it is. */
  function StripQuotes(v: string): (r: string)
    ensures Quoted(v) ==> [v[0]] + r + [v[|v| - 1]] == v
    ensures !Quoted(v) ==> r == v
  {
    if Quoted(v) then
      assert v == [v[0]] + v[1..|v| - 1] + [v[|v| - 1]];
      v[1..|v| - 1]
    else v
  }

  /** The corrected stripping agrees with the code on every value the code does
      not panic on, and never fails. */
  lemma StripQuotesAgrees(v: string)
    requires StripQuotesAsWritten(v).Some?
    ensures StripQuotes(v) == StripQuotesAsWritten(v).value
  {
  }

  /** Wrapping any text in a pair of matching quotes and stripping gives it back. */
  lemma StripQuotesUnwraps(q: char, x: string)
    requires q == '"' || q == '\''
    ensures StripQuotes([q] + x + [q]) == x
  {
    var v := [q] + x + [q];
    assert Quoted(v);
    assert v[1..|v| - 1] == x;
  }

  // ---------------------------------------------------------------------------
  // The configuration file

  /** One file line: split at the first `:` (so the value may contain `:`), the
      key and the value trimmed, the value stripped of one pair of quotes. A
      line without `:` is skipped. */
  function ParseLine(line: string): (r: Option<(string, string)>)
    ensures r.None? <==> LineSeparator !in line
  {
    match Cut(line, LineSeparator)
    case None => None
    case Some((key, value)) => Some((TrimSpace(key), StripQuotes(TrimSpace(value))))
  }

  /** A line `key:rest` with a colon-free key gives the trimmed key and the
      trimmed, unquoted rest, colons and all. */
  lemma ParseLineAtFirstColon(key: string, rest: string)
    requires LineSeparator !in key
    ensures ParseLine(key + [LineSeparator] + rest) == Some((TrimSpace(key), StripQuotes(TrimSpace(rest))))
  {
    CutAtFirst(key, rest, LineSeparator);
  }

  /** The lines of a file, each parsed or skipped. */
  function ParsedLines(lines: seq<string>): (r: seq<Option<(string, string)>>)
    ensures |r| == |lines| && forall i :: 0 <= i < |lines| ==> r[i] == ParseLine(lines[i])
  {
    seq(|lines|, i requires 0 <= i < |lines| => ParseLine(lines[i]))
  }

  /** Applies the parsed lines in order: each valid one assigns its value to its key. */
  function Updates(ups: seq<Option<(string, string)>>): map<string, string> {
    if |ups| == 0 then map[]
    else
      var before := Updates(ups[..|ups| - 1]);
      match ups[|ups| - 1]
      case None => before
      case Some((key, value)) => before[key := value]
  }

  /** The file's key/value map, built as the scanner reads the lines. */
  function FileContent(lines: seq<string>): map<string, string> {
    Updates(ParsedLines(lines))
  }

  /** Update `i` assigns to `key`. */
  ghost predicate UpdateKey(ups: seq<Option<(string, string)>>, i: int, key: string)
    requires 0 <= i < |ups|
  {
    ups[i].Some? && ups[i].value.0 == key
  }

  /** The keys assigned are exactly the keys of the updates, and a key assigned
      several times keeps the value of its last update. */
  lemma {:induction false} UpdatesLastWins(ups: seq<Option<(string, string)>>)
    ensures forall key :: key in Updates(ups) <==> exists i :: 0 <= i < |ups| && UpdateKey(ups, i, key)
    ensures forall i, key :: 0 <= i < |ups| && UpdateKey(ups, i, key)
                             && (forall j :: i < j < |ups| ==> !UpdateKey(ups, j, key))
                             ==> key in Updates(ups) && Updates(ups)[key] == ups[i].value.1
  {
    if |ups| > 0 {
      var n := |ups| - 1;
      var init := ups[..n];
      UpdatesLastWins(init);
      assert forall j :: 0 <= j < n ==> ups[j] == init[j];
      var m := Updates(ups);
      assert m == if ups[n].Some? then Updates(init)[ups[n].value.0 := ups[n].value.1] else Updates(init);
      forall key ensures key in m <==> exists i :: 0 <= i < |ups| && UpdateKey(ups, i, key) {
        if UpdateKey(ups, n, key) {
          assert key in m;
        }
        if exists i :: 0 <= i < n && UpdateKey(init, i, key) {
          var i :| 0 <= i < n && UpdateKey(init, i, key);
          assert UpdateKey(ups, i, key);
        }
        if exists i :: 0 <= i < |ups| && UpdateKey(ups, i, key) {
          var i :| 0 <= i < |ups| && UpdateKey(ups, i, key);
          if i < n {
            assert UpdateKey(init, i, key);
          }
        }
      }
      forall i, key | 0 <= i < |ups| && UpdateKey(ups, i, key) && (forall j :: i < j < |ups| ==> !UpdateKey(ups, j, key))
        ensures key in m && m[key] == ups[i].value.1
      {
        if i < n {
          assert !UpdateKey(ups, n, key);
          assert UpdateKey(init, i, key);
          forall j | i < j < n ensures !UpdateKey(init, j, key) {
            assert !UpdateKey(ups, j, key);
          }
        }
      }
    }
  }

  /** Line `i` is valid and has key `key`. */
  ghost predicate LineKey(lines: seq<string>, i: int, key: string)
    requires 0 <= i < |lines|
  {
    ParseLine(lines[i]).Some? && ParseLine(lines[i]).value.0 == key
  }

  /** The keys of the file map are exactly the keys of its valid lines, and a
      key repeated on several lines keeps the value of the last one. */
  lemma FileContentLastWins(lines: seq<string>)
    ensures forall key :: key in FileContent(lines) <==> exists i :: 0 <= i < |lines| && LineKey(lines, i, key)
    ensures forall i, key :: 0 <= i < |lines| && LineKey(lines, i, key)
                             && (forall j :: i < j < |lines| ==> !LineKey(lines, j, key))
                             ==> key in FileContent(lines) && FileContent(lines)[key] == ParseLine(lines[i]).value.1
  {
    var ups := ParsedLines(lines);
    UpdatesLastWins(ups);
    assert forall i, key :: 0 <= i < |lines| ==> (LineKey(lines, i, key) <==> UpdateKey(ups, i, key));
  }

  // ---------------------------------------------------------------------------
  // The argument vector

  /** What token `i` of the argument vector says about option `name`, once all
      its leading dashes are dropped: `name=value` answers `value` (a token
      whose `=` is its first character is not of that form); a bare `name`
      answers the next token when there is one that does not start with `-`,
      and otherwise `true` for a boolean option; anything else says nothing
      and the scan goes on. */
  function Decide(args: seq<string>, i: nat, name: string, isBool: bool): Option<string>
    requires i < |args|
  {
    var arg := TrimLeftDashes(args[i]);
    var eq := IndexOf(arg, AssignSeparator);
    if eq > 0 then
      if arg[..eq] == name then Some(arg[eq + 1..]) else None
    else if arg == name then
      if i + 1 < |args| && !HasDashPrefix(args[i + 1]) then Some(args[i + 1])
      else if isBool then Some("true")
      else None
    else None
  }

  /** Token `i` is the first token after the program name that says something about `name`. */
  ghost predicate FirstDecision(args: seq<string>, i: int, name: string, isBool: bool) {
    && 1 <= i < |args|
    && Decide(args, i, name, isBool).Some?
    && forall j :: 1 <= j < i ==> Decide(args, j, name, isBool).None?
  }

  /** The scan of `getArgValue` from token `i` on, over what each token says:
      the first answer, or "" when there is none. */
  function FirstAnswer(ds: seq<Option<string>>, i: nat): (r: string)
    ensures forall k :: i <= k < |ds| && ds[k].Some? && (forall j :: i <= j < k ==> ds[j].None?) ==> r == ds[k].value
    ensures (forall k :: i <= k < |ds| ==> ds[k].None?) ==> r == ""
    decreases |ds| - i
  {
    if i >= |ds| then ""
    else
      match ds[i]
      case Some(v) => v
      case None => FirstAnswer(ds, i + 1)
  }

  /** What each token says about `name`, in order. */
  function Decisions(args: seq<string>, name: string, isBool: bool): seq<Option<string>> {
    seq(|args|, i requires 0 <= i < |args| => Decide(args, i, name, isBool))
  }

  /** `getArgValue`: the answer of the first token after the program name that
      says something about `name`, or "" when none does. */
  function GetArgValue(args: seq<string>, name: string, isBool: bool): (r: string)
    ensures forall i :: FirstDecision(args, i, name, isBool) ==> r == Decide(args, i, name, isBool).value
    ensures (forall i :: 1 <= i < |args| ==> Decide(args, i, name, isBool).None?) ==> r == ""
  {
    var ds := Decisions(args, name, isBool);
    assert forall i :: 0 <= i < |args| ==> ds[i] == Decide(args, i, name, isBool);
    FirstAnswer(ds, 1)
  }

  /** A run of dashes, possibly empty: any number of them may precede an option. */
  predicate AllDashes(d: string) {
    forall k :: 0 <= k < |d| ==> d[k] == ArgPrefix
  }

  /** Dropping the leading dashes of `d + x`, `x` not starting with a dash, leaves `x`. */
  lemma {:induction false} TrimDashesPrefix(d: string, x: string)
    requires AllDashes(d) && !HasDashPrefix(x)
    ensures TrimLeftDashes(d + x) == x
  {
    if |d| > 0 {
      assert (d + x)[1..] == d[1..] + x;
      TrimDashesPrefix(d[1..], x);
    } else {
      assert d + x == x;
    }
  }

  /** An option name the forms below apply to: non-empty, not starting with a
      dash, and without `=`. */
  predicate PlainName(name: string) {
    name != "" && !HasDashPrefix(name) && AssignSeparator !in name
  }

  /** `-name=value`, `--name=value` (any number of dashes, none included)
      answers `value`, even when `value` is empty or contains `=`. */
  lemma DecideAssigned(args: seq<string>, i: nat, d: string, name: string, value: string, isBool: bool)
    requires i < |args| && AllDashes(d) && PlainName(name)
    requires args[i] == d + name + [AssignSeparator] + value
    ensures Decide(args, i, name, isBool) == Some(value)
  {
    var x := name + [AssignSeparator] + value;
    assert d + x == args[i];
    TrimDashesPrefix(d, x);
    CutAtFirst(name, value, AssignSeparator);
    var eq := IndexOf(x, AssignSeparator);
    assert x[|name|] == AssignSeparator;
    assert x[..eq] == name;
    assert x[eq + 1..] == value;
  }

  /** A bare `-name` answers the next token if there is one and it does not
      start with a dash; otherwise `true` for a boolean option, and nothing
      for any other option. */
  lemma DecideBare(args: seq<string>, i: nat, d: string, name: string, isBool: bool)
    requires i < |args| && AllDashes(d) && PlainName(name)
    requires args[i] == d + name
    ensures i + 1 < |args| && !HasDashPrefix(args[i + 1]) ==> Decide(args, i, name, isBool) == Some(args[i + 1])
    ensures !(i + 1 < |args| && !HasDashPrefix(args[i + 1])) ==>
              Decide(args, i, name, isBool) == if isBool then Some("true") else None
  {
    TrimDashesPrefix(d, name);
  }

  /** A token that, once its dashes are dropped, is neither `name` itself nor
      `name=` followed by anything says nothing about it: the name must match
      exactly, so `-field10=5` and a bare `-field10` say nothing about `field1`. */
  lemma DecideOther(args: seq<string>, i: nat, name: string, isBool: bool)
    requires i < |args|
    requires TrimLeftDashes(args[i]) != name && !(name + [AssignSeparator] <= TrimLeftDashes(args[i]))
    ensures Decide(args, i, name, isBool) == None
  {
    var arg := TrimLeftDashes(args[i]);
    var eq := IndexOf(arg, AssignSeparator);
    if eq > 0 {
      SeparatorPrefix(arg, eq, AssignSeparator);
    }
  }

  /** The text before a separator, with the separator, is a prefix. */
  lemma SeparatorPrefix(s: string, k: int, c: char)
    requires 0 <= k < |s| && s[k] == c
    ensures s[..k] + [c] <= s
  {
    assert s[..k] + [c] == s[..k + 1];
  }

  // ---------------------------------------------------------------------------
  // Early exit for the host tool's own commands

  /** `contains`: `str` occurs in `s`. */
  function Contains(s: seq<string>, str: string): (r: bool)
    ensures r <==> str in s
  {
    if |s| == 0 then false else s[0] == str || Contains(s[1..], str)
  }

  /** The early-exit loop of `Load`: some dash-prefixed argument is one of the
      host tool's commands. The program name at index 0 is scanned too. */
  function MageCommandGiven(args: seq<string>): bool {
    if |args| == 0 then false
    else (HasDashPrefix(args[0]) && Contains(MageCommands, args[0])) || MageCommandGiven(args[1..])
  }

  /** Loading is skipped exactly when `-l` or `-h` appears in the argument vector. */
  lemma {:induction false} MageCommandGivenIff(args: seq<string>)
    ensures MageCommandGiven(args) <==> "-l" in args || "-h" in args
  {
    if |args| > 0 {
      MageCommandGivenIff(args[1..]);
      assert args == [args[0]] + args[1..];
    }
  }

  /** `isHelpRequested`: `-help` or `--help` appears in the argument vector. */
  predicate HelpRequested(args: seq<string>) {
    "-help" in args || "--help" in args
  }
}
