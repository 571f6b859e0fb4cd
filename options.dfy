/**
  The options registry of src/Utils/hiopOptions.cpp and src/Utils/hiopOptions.hpp, as
  functions over the option table `mOptions_`: a map from option names to entries, each
  entry a typed value with its bounds or its range of allowed strings, and the two
  provenance flags `specifiedInFile` and `specifiedAtRuntime`.

  Each setter is one function from the old table to the new one (`SetNumeric`,
  `SetInteger`, `SetString`, `SetValNum`, `SetValInt`, `SetValStr`), ending where the
  source ends with `ensure_consistence()` of the PriDec options (`Consistent`). The
  option-file loop is `LoadLines`, one `LoadLine` per line, after `Classify` has told
  blank, comment, unparsable and setting lines apart.
 */
module Options {

  /** The outcome of parsing a token as a number: the parsers run by `load_from_file` are
      not part of this model and are parameters of type `string -> Maybe<T>`. */
  datatype Maybe<T> = Nothing | Just(value: T)

  /** The typed part of an entry: `OptionNum`, `OptionInt` or `OptionStr`. An empty range
      means that the string option takes any value. */
  datatype Value =
    | Num(nval: real, nlb: real, nub: real)
    | Int(ival: int, ilb: int, iub: int)
    | Str(sval: string, range: seq<string>)

  /** An entry of the table: the base `Option` fields and the typed value. */
  datatype Option = Option(specifiedInFile: bool, specifiedAtRuntime: bool, value: Value)

  type Table = map<string, Option>

  const Tolerance: string := "tolerance"
  const AcceptableTolerance: string := "acceptable_tolerance"

  /** A freshly registered option: neither provenance flag is set. The description text is
      only printed and is not modelled. */
  function NewOption(v: Value): (o: Option)
    ensures !o.specifiedInFile && !o.specifiedAtRuntime && o.value == v
  {
    Option(false, false, v)
  }

  // ----- Characters: `std::isspace` and `::tolower` in the C locale -----

  predicate IsSpace(c: char)
  {
    c == ' ' || c == '\t' || c == '\n' || c == '\U{B}' || c == '\U{C}' || c == '\r'
  }

  function LowerChar(c: char): char
  {
    if 'A' <= c <= 'Z' then (c as int + 32) as char else c
  }

  predicate IsLower(s: string)
  {
    forall i :: 0 <= i < |s| ==> !('A' <= s[i] <= 'Z')
  }

  /** `transform(s.begin(), s.end(), s.begin(), ::tolower)`. */
  function ToLower(s: string): (r: string)
    ensures |r| == |s|
  {
    seq(|s|, i requires 0 <= i < |s| => LowerChar(s[i]))
  }

  /** `ltrim` and the white space skipped by `>>`: the first index at or after `k` whose
      character is not white space, or the end of the string. */
  function SkipSpace(s: string, k: nat): (e: nat)
    requires k <= |s|
    ensures k <= e <= |s| && (e == |s| || !IsSpace(s[e]))
    ensures forall i :: k <= i < e ==> IsSpace(s[i])
    decreases |s| - k
  {
    if k == |s| || !IsSpace(s[k]) then k else SkipSpace(s, k + 1)
  }

  /** One `>>` extraction of a string: the word starting at `k` runs up to the first white
      space or the end of the string. */
  function WordEnd(s: string, k: nat): (e: nat)
    requires k <= |s|
    ensures k <= e <= |s| && (e == |s| || IsSpace(s[e]))
    ensures forall i :: k <= i < e ==> !IsSpace(s[i])
    decreases |s| - k
  {
    if k == |s| || IsSpace(s[k]) then k else WordEnd(s, k + 1)
  }

  // ----- Lines of the option file -----

  /** What the loop of `load_from_file` makes of one line. */
  datatype LineKind = Blank | Comment | Unparsable | Setting(name: string, value: string)

  /** A line after `ltrim`: empty lines and lines starting with '#' are skipped; otherwise
      `iss >> name >> value` reads two words, and a line with only one is not parsable. */
  function Classify(line: string): LineKind
  {
    var p := SkipSpace(line, 0);
    if p == |line| then Blank
    else if line[p] == '#' then Comment
    else
      var e := WordEnd(line, p);
      var q := SkipSpace(line, e);
      var f := WordEnd(line, q);
      if f == q then Unparsable else Setting(line[p..e], line[q..f])
  }

  // ----- Queries -----

  /** `is_user_defined(name)`. */
  predicate IsUserDefined(m: Table, name: string)
  {
    name in m && (m[name].specifiedInFile || m[name].specifiedAtRuntime)
  }

  predicate IsNum(m: Table, name: string)
  {
    name in m && m[name].value.Num?
  }

  predicate IsInt(m: Table, name: string)
  {
    name in m && m[name].value.Int?
  }

  predicate IsStr(m: Table, name: string)
  {
    name in m && m[name].value.Str?
  }

  /** What `ensure_consistence` of the PriDec options reads with `GetNumeric`: both
      tolerances are registered numeric options. */
  predicate Registered(m: Table)
  {
    IsNum(m, Tolerance) && IsNum(m, AcceptableTolerance)
  }

  /** The value of 'tolerance' lies in its own bounds, which lie in the bounds of
      'acceptable_tolerance': the internal `set_val` of the fix-up is then always in range. */
  predicate TolInAccRange(m: Table)
    requires Registered(m)
  {
    var tol, acc := m[Tolerance].value, m[AcceptableTolerance].value;
    tol.nlb <= tol.nval <= tol.nub && acc.nlb <= tol.nlb && tol.nub <= acc.nub
  }

  /** Every numeric and integer value lies in its bounds: registration with such defaults and
      setters that store only values in range keep it so. */
  ghost predicate InBounds(m: Table)
  {
    && (forall k :: IsNum(m, k) ==> m[k].value.nlb <= m[k].value.nval <= m[k].value.nub)
    && (forall k :: IsInt(m, k) ==> m[k].value.ilb <= m[k].value.ival <= m[k].value.iub)
  }

  // ----- The internal setters `set_val` -----

  /** `set_val(name, double)`: the value of a registered numeric option within its bounds is
      stored; anything else is a failed assertion of the source, and changes nothing here. */
  function SetValNum(m: Table, name: string, v: real): (r: Table)
  {
    if IsNum(m, name) && !(v < m[name].value.nlb || v > m[name].value.nub)
    then m[name := m[name].(value := m[name].value.(nval := v))]
    else m
  }

  /** `set_val(name, int)`. */
  function SetValInt(m: Table, name: string, v: int): (r: Table)
  {
    if IsInt(m, name) && !(v < m[name].value.ilb || v > m[name].value.iub)
    then m[name := m[name].(value := m[name].value.(ival := v))]
    else m
  }

  /** `set_val(name, const char*)`: the lower-cased value, if the range is empty or holds it. */
  function SetValStr(m: Table, name: string, v: string): (r: Table)
  {
    var lower := ToLower(v);
    if IsStr(m, name) && (m[name].value.range == [] || lower in m[name].value.range)
    then m[name := m[name].(value := m[name].value.(sval := lower))]
    else m
  }

  // ----- `hiopOptionsPriDec::ensure_consistence` -----

  /** An 'acceptable_tolerance' below 'tolerance' that the user chose is raised to 'tolerance'. */
  function Consistent(m: Table): (r: Table)
    requires Registered(m)
  {
    var acc, tol := m[AcceptableTolerance].value.nval, m[Tolerance].value.nval;
    if acc < tol && IsUserDefined(m, AcceptableTolerance) then SetValNum(m, AcceptableTolerance, tol) else m
  }

  // ----- The public setters -----

  /** A runtime value for an option already specified in the option file: the setter returns
      at once, without `ensure_consistence`. */
  predicate Overridden(o: Option, fromFile: bool)
  {
    o.specifiedInFile && !fromFile
  }

  /** The entry of a numeric option after a setter that was not ignored: the flag of the
      source of the value is set even when the value is out of bounds and rejected. */
  function StoreNum(o: Option, v: real, fromFile: bool): (r: Option)
    requires o.value.Num?
  {
    var flagged := if fromFile then o.(specifiedInFile := true) else o.(specifiedAtRuntime := true);
    if v < o.value.nlb || v > o.value.nub then flagged else flagged.(value := o.value.(nval := v))
  }

  /** The entry of an integer option after a setter that was not ignored: only
      `specifiedInFile` is ever set. */
  function StoreInt(o: Option, v: int, fromFile: bool): (r: Option)
    requires o.value.Int?
  {
    var flagged := if fromFile then o.(specifiedInFile := true) else o;
    if v < o.value.ilb || v > o.value.iub then flagged else flagged.(value := o.value.(ival := v))
  }

  /** The entry of a string option after a setter that was not ignored: only `specifiedInFile`
      is ever set, and the lower-cased value is stored if the range is empty or holds it. */
  function StoreStr(o: Option, v: string, fromFile: bool): (r: Option)
    requires o.value.Str?
  {
    var flagged := if fromFile then o.(specifiedInFile := true) else o;
    var lower := ToLower(v);
    if !(lower in o.value.range) && o.value.range != [] then flagged else flagged.(value := o.value.(sval := lower))
  }

  /** `SetNumericValue(name, value, setFromFile)`. */
  function SetNumeric(m: Table, name: string, v: real, fromFile: bool): (r: Table)
    requires Registered(m)
  {
    if !IsNum(m, name) then Consistent(m)
    else if Overridden(m[name], fromFile) then m
    else Consistent(m[name := StoreNum(m[name], v, fromFile)])
  }

  /** `SetIntegerValue(name, value, setFromFile)`. */
  function SetInteger(m: Table, name: string, v: int, fromFile: bool): (r: Table)
    requires Registered(m)
  {
    if !IsInt(m, name) then Consistent(m)
    else if Overridden(m[name], fromFile) then m
    else Consistent(m[name := StoreInt(m[name], v, fromFile)])
  }

  /** `SetStringValue(name, value, setFromFile)`. */
  function SetString(m: Table, name: string, v: string, fromFile: bool): (r: Table)
    requires Registered(m)
  {
    if !IsStr(m, name) then Consistent(m)
    else if Overridden(m[name], fromFile) then m
    else Consistent(m[name := StoreStr(m[name], v, fromFile)])
  }

  // ----- `load_from_file` -----

  /** One line of the option file: a setting for a registered name goes to the setter of its
      type with `setFromFile` true; a number that does not parse is ignored; anything else
      leaves the table alone. */
  function LoadLine(m: Table, line: string, numOf: string -> Maybe<real>, intOf: string -> Maybe<int>): (r: Table)
    requires Registered(m)
  {
    Apply(m, Classify(line), numOf, intOf)
  }

  /** What a classified line does to the table. */
  function Apply(m: Table, kind: LineKind, numOf: string -> Maybe<real>, intOf: string -> Maybe<int>): (r: Table)
    requires Registered(m)
  {
    match kind
    case Setting(name, value) =>
      if name !in m then m
      else (
        match m[name].value
        case Num(_, _, _) => (match numOf(value) case Just(v) => SetNumeric(m, name, v, true) case Nothing => m)
        case Str(_, _) => SetString(m, name, value, true)
        case Int(_, _, _) => (match intOf(value) case Just(v) => SetInteger(m, name, v, true) case Nothing => m))
    case _ => m
  }

  /** The lines of the option file, in order. */
  function LoadLines(m: Table, lines: seq<string>, numOf: string -> Maybe<real>, intOf: string -> Maybe<int>): (r: Table)
    requires Registered(m)
    ensures Registered(r) && r.Keys == m.Keys
    ensures TolInAccRange(m) ==> TolInAccRange(r)
    decreases |lines|
  {
    if lines == [] then m
    else
      var before := LoadLines(m, lines[..|lines| - 1], numOf, intOf);
      ApplyKeeps(before, Classify(lines[|lines| - 1]), numOf, intOf);
      LoadLine(before, lines[|lines| - 1], numOf, intOf)
  }

  /** A line read from the file keeps both tolerances registered and 'tolerance' in range. */
  lemma {:induction false} ApplyKeeps(m: Table, kind: LineKind, numOf: string -> Maybe<real>, intOf: string -> Maybe<int>)
    requires Registered(m)
    ensures var r := Apply(m, kind, numOf, intOf);
      Registered(r) && r.Keys == m.Keys && (TolInAccRange(m) ==> TolInAccRange(r))
  {
    match kind
    case Setting(name, value) =>
      if name in m {
        match m[name].value
        case Num(_, _, _) => {
          match numOf(value)
          case Just(v) => SetNumericKeeps(m, name, v, true);
          case Nothing =>
        }
        case Str(_, _) => SetStringKeeps(m, name, value, true);
        case Int(_, _, _) => {
          match intOf(value)
          case Just(v) => SetIntegerKeeps(m, name, v, true);
          case Nothing =>
        }
      }
    case _ =>
  }

  // ----- What every setter keeps -----

  /** The fix-up changes nothing but the value of 'acceptable_tolerance'. */
  lemma {:induction false} ConsistentKeeps(m: Table)
    requires Registered(m)
    ensures var r := Consistent(m);
      && Registered(r) && r.Keys == m.Keys && (TolInAccRange(m) ==> TolInAccRange(r))
      && (forall k :: k in m && k != AcceptableTolerance ==> r[k] == m[k])
      && r[AcceptableTolerance] == m[AcceptableTolerance].(value := m[AcceptableTolerance].value.(nval := r[AcceptableTolerance].value.nval))
  {
  }

  lemma {:induction false} SetNumericKeeps(m: Table, name: string, v: real, fromFile: bool)
    requires Registered(m)
    ensures var r := SetNumeric(m, name, v, fromFile);
      Registered(r) && r.Keys == m.Keys && (TolInAccRange(m) ==> TolInAccRange(r))
  {
    if IsNum(m, name) && !Overridden(m[name], fromFile) {
      var o := m[name];
      var stored := StoreNum(o, v, fromFile);
      ConsistentKeeps(m[name := stored]);
    } else if !IsNum(m, name) {
      ConsistentKeeps(m);
    }
  }

  lemma {:induction false} SetIntegerKeeps(m: Table, name: string, v: int, fromFile: bool)
    requires Registered(m)
    ensures var r := SetInteger(m, name, v, fromFile);
      Registered(r) && r.Keys == m.Keys && (TolInAccRange(m) ==> TolInAccRange(r))
  {
    if IsInt(m, name) && !Overridden(m[name], fromFile) {
      var o := m[name];
      var stored := StoreInt(o, v, fromFile);
      ConsistentKeeps(m[name := stored]);
    } else if !IsInt(m, name) {
      ConsistentKeeps(m);
    }
  }

  lemma {:induction false} SetStringKeeps(m: Table, name: string, v: string, fromFile: bool)
    requires Registered(m)
    ensures var r := SetString(m, name, v, fromFile);
      Registered(r) && r.Keys == m.Keys && (TolInAccRange(m) ==> TolInAccRange(r))
  {
    if IsStr(m, name) && !Overridden(m[name], fromFile) {
      var o := m[name];
      var stored := StoreStr(o, v, fromFile);
      ConsistentKeeps(m[name := stored]);
    } else if !IsStr(m, name) {
      ConsistentKeeps(m);
    }
  }

  // ----- The PriDec option table -----

  /** `hiopOptionsPriDec::register_options()` in a build without RAJA, where 'mem_space' can only
      be "default": the registrations in order, each replacing any entry of its name. */
  function RegisterPriDec(m: Table): Table
  {
    m["options_file_master_prob" := NewOption(Str("hiop_pridec_master.options", []))]
     ["mem_space" := NewOption(Str("default", ["default"]))]
     ["accum_local" := NewOption(Str("false", ["yes", "no"]))]
     ["alpha_max" := NewOption(Num(1000000.0, 1.0, 100000000000000.0))]
     ["alpha_min" := NewOption(Num(0.00001, 0.00000001, 1000.0))]
     [Tolerance := NewOption(Num(0.00001, 0.00000000000001, 0.1))]
     [AcceptableTolerance := NewOption(Num(0.001, 0.00000000000001, 0.1))]
     ["acceptable_iterations" := NewOption(Int(25, 1, 1000000))]
     ["max_iter" := NewOption(Int(30000, 1, 1000000000))]
     ["verbosity_level" := NewOption(Int(2, 0, 12))]
     ["print_options" := NewOption(Str("no", ["yes", "no"]))]
  }

  /** The PriDec table of a freshly constructed options object. */
  function PriDecTable(): Table
  {
    RegisterPriDec(map[])
  }
}
