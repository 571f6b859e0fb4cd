/**
  The PriDec option registry as an object: `hiopOptions` with the table `mOptions_` and the
  logger `log_` as fields, specialised by `hiopOptionsPriDec` (its `register_options` and its
  `ensure_consistence`). Every method updates the table in place the way the source does and
  is proved to compute the table function of the Options module that it models.
 */
module OptionsRegistry {
  import opened Options
  import opened OptionsFacts

  /** `std::find` over the range of a string option: the loop of `set_val` and `SetStringValue`
      that stops at the first entry equal to the lower-cased value. */
  method FindInRange(range: seq<string>, value: string) returns (inrange: bool)
    ensures inrange <==> value in range
  {
    inrange := false;
    var it := 0;
    while it < |range| && !inrange
      invariant 0 <= it <= |range|
      invariant inrange <==> value in range[..it]
    {
      inrange := range[it] == value;
      assert range[..it + 1] == range[..it] + [range[it]];
      it := it + 1;
    }
    if !inrange {
      assert range[..it] == range;
    }
  }

  /** An opaque handle of the `hiopLogger` the options print through. */
  type Logger = nat

  class PriDecOptions {
    /** `mOptions_`: option name to entry. The entries are owned by the table and never shared,
        so they are held as values. */
    var opts: Table
    /** `log_`; `Nothing` is the null pointer. */
    var log: Maybe<Logger>

    /** Both tolerances are registered and 'tolerance' lies in the bounds of
        'acceptable_tolerance', which is what `ensure_consistence` relies on; and every numeric
        and integer value lies in its bounds. */
    ghost predicate Valid()
      reads this
    {
      Registered(opts) && TolInAccRange(opts) && InBounds(opts)
    }

    /** `hiopOptionsPriDec(opt_filename)`: registration, the option file, and the fix-up. The
        lines of the file are a parameter (no lines when the file is missing), and so are the
        number parsers of the string streams. */
    constructor (lines: seq<string>, numOf: string -> Maybe<real>, intOf: string -> Maybe<int>)
      ensures Valid() && log == Nothing
      ensures opts == Consistent(LoadLines(PriDecTable(), lines, numOf, intOf))
    {
      opts := map[];
      log := Nothing;
      new;
      RegisterOptions();
      PriDecTableFacts();
      LoadFromFile(lines, numOf, intOf);
      EnsureConsistence();
    }

    // ----- Registration -----

    /** `register_num_option`: a fresh entry replaces any entry of that name. */
    method RegisterNumOption(name: string, defaultValue: real, low: real, upp: real)
      modifies this
      ensures opts == old(opts)[name := NewOption(Num(defaultValue, low, upp))] && log == old(log)
    {
      opts := opts[name := NewOption(Num(defaultValue, low, upp))];
    }

    /** `register_int_option`. */
    method RegisterIntOption(name: string, defaultValue: int, low: int, upp: int)
      modifies this
      ensures opts == old(opts)[name := NewOption(Int(defaultValue, low, upp))] && log == old(log)
    {
      opts := opts[name := NewOption(Int(defaultValue, low, upp))];
    }

    /** `register_str_option` with a range of accepted values. */
    method RegisterStrOption(name: string, defaultValue: string, range: seq<string>)
      modifies this
      ensures opts == old(opts)[name := NewOption(Str(defaultValue, range))] && log == old(log)
    {
      opts := opts[name := NewOption(Str(defaultValue, range))];
    }

    /** `register_str_option` without a range: the empty range, which accepts any value. */
    method RegisterStrAnyOption(name: string, defaultValue: string)
      modifies this
      ensures opts == old(opts)[name := NewOption(Str(defaultValue, []))] && log == old(log)
      ensures opts[name].value.range == []
    {
      opts := opts[name := NewOption(Str(defaultValue, []))];
    }

    /** `hiopOptionsPriDec::register_options` without RAJA. */
    method RegisterOptions()
      modifies this
      ensures opts == RegisterPriDec(old(opts)) && log == old(log)
    {
      RegisterStrAnyOption("options_file_master_prob", "hiop_pridec_master.options");
      RegisterStrOption("mem_space", "default", ["default"]);
      RegisterStrOption("accum_local", "false", ["yes", "no"]);
      RegisterNumOption("alpha_max", 1000000.0, 1.0, 100000000000000.0);
      RegisterNumOption("alpha_min", 0.00001, 0.00000001, 1000.0);
      RegisterNumOption(Tolerance, 0.00001, 0.00000000000001, 0.1);
      RegisterNumOption(AcceptableTolerance, 0.001, 0.00000000000001, 0.1);
      RegisterIntOption("acceptable_iterations", 25, 1, 1000000);
      RegisterIntOption("max_iter", 30000, 1, 1000000000);
      RegisterIntOption("verbosity_level", 2, 0, 12);
      RegisterStrOption("print_options", "no", ["yes", "no"]);
    }

    // ----- Queries -----

    /** `GetNumeric`: the source asserts that the name is registered as a numeric option. */
    function GetNumeric(name: string): (v: real)
      reads this
      requires IsNum(opts, name)
      ensures v == opts[name].value.nval
      ensures Valid() ==> opts[name].value.nlb <= v <= opts[name].value.nub
    {
      opts[name].value.nval
    }

    /** `GetInteger`. */
    function GetInteger(name: string): (v: int)
      reads this
      requires IsInt(opts, name)
      ensures v == opts[name].value.ival
      ensures Valid() ==> opts[name].value.ilb <= v <= opts[name].value.iub
    {
      opts[name].value.ival
    }

    /** `GetString`. */
    function GetString(name: string): (v: string)
      reads this
      requires IsStr(opts, name)
      ensures v == opts[name].value.sval
    {
      opts[name].value.sval
    }

    /** `is_user_defined(name)`: false for a name that is not registered; for a registered one,
        whether its value was given in the option file or at runtime. */
    function IsUserDefined(name: string): (b: bool)
      reads this
      ensures name !in opts ==> !b
      ensures name in opts ==> (b <==> opts[name].specifiedInFile || opts[name].specifiedAtRuntime)
    {
      Options.IsUserDefined(opts, name)
    }

    // ----- The internal setters -----

    /** `set_val(name, double)`. */
    method SetValNum(name: string, value: real) returns (ok: bool)
      requires Valid()
      modifies this
      ensures ok && Valid() && opts == Options.SetValNum(old(opts), name, value) && log == old(log)
    {
      SetValKeepInBounds(opts, name, value, 0, "");
      if name in opts {
        var option := opts[name];
        if option.value.Num? {
          if !(value < option.value.nlb || value > option.value.nub) {
            opts := opts[name := option.(value := option.value.(nval := value))];
          }
        }
      }
      ok := true;
    }

    /** `set_val(name, int)`. */
    method SetValInt(name: string, value: int) returns (ok: bool)
      requires Valid()
      modifies this
      ensures ok && Valid() && opts == Options.SetValInt(old(opts), name, value) && log == old(log)
    {
      SetValKeepInBounds(opts, name, 0.0, value, "");
      if name in opts {
        var option := opts[name];
        if option.value.Int? {
          if !(value < option.value.ilb || value > option.value.iub) {
            opts := opts[name := option.(value := option.value.(ival := value))];
          }
        }
      }
      ok := true;
    }

    /** `set_val(name, const char*)`. */
    method SetValStr(name: string, value: string) returns (ok: bool)
      requires Valid()
      modifies this
      ensures ok && Valid() && opts == Options.SetValStr(old(opts), name, value) && log == old(log)
    {
      SetValKeepInBounds(opts, name, 0.0, 0, value);
      if name in opts {
        var option := opts[name];
        if option.value.Str? {
          var lower := ToLower(value);
          var inrange := FindInRange(option.value.range, lower);
          if !(!inrange && option.value.range != []) {
            opts := opts[name := option.(value := option.value.(sval := lower))];
          }
        }
      }
      ok := true;
    }

    /** `hiopOptionsPriDec::ensure_consistence`. */
    method EnsureConsistence()
      requires Valid()
      modifies this
      ensures Valid() && opts == Consistent(old(opts)) && log == old(log)
    {
      var epsTolAccep := GetNumeric(AcceptableTolerance);
      var epsTol := GetNumeric(Tolerance);
      if epsTolAccep < epsTol {
        if Options.IsUserDefined(opts, AcceptableTolerance) {
          var _ := SetValNum(AcceptableTolerance, epsTol);
        }
      }
    }

    /** `SetLog`: the logger is replaced and the fix-up runs. */
    method SetLog(logIn: Maybe<Logger>)
      requires Valid()
      modifies this
      ensures Valid() && log == logIn && opts == Consistent(old(opts))
    {
      log := logIn;
      EnsureConsistence();
    }

    // ----- The public setters -----

    /** `SetNumericValue(name, value, setFromFile)`. */
    method SetNumericValue(name: string, value: real, setFromFile: bool) returns (ok: bool)
      requires Valid()
      modifies this
      ensures ok && Valid() && opts == SetNumeric(old(opts), name, value, setFromFile) && log == old(log)
    {
      if name in opts {
        var option := opts[name];
        if option.value.Num? {
          if option.specifiedInFile && !setFromFile {
            return true;
          }
          ghost var entry := option;
          if setFromFile {
            option := option.(specifiedInFile := true);
          } else {
            option := option.(specifiedAtRuntime := true);
          }
          if !(value < option.value.nlb || value > option.value.nub) {
            option := option.(value := option.value.(nval := value));
          }
          assert option == StoreNum(entry, value, setFromFile);
          StoreNumValid(opts, name, value, setFromFile);
          opts := opts[name := option];
        }
      }
      EnsureConsistence();
      ok := true;
    }

    /** `SetIntegerValue(name, value, setFromFile)`. */
    method SetIntegerValue(name: string, value: int, setFromFile: bool) returns (ok: bool)
      requires Valid()
      modifies this
      ensures ok && Valid() && opts == SetInteger(old(opts), name, value, setFromFile) && log == old(log)
    {
      if name in opts {
        var option := opts[name];
        if option.value.Int? {
          if option.specifiedInFile && !setFromFile {
            return true;
          }
          ghost var entry := option;
          if setFromFile {
            option := option.(specifiedInFile := true);
          }
          if !(value < option.value.ilb || value > option.value.iub) {
            option := option.(value := option.value.(ival := value));
          }
          assert option == StoreInt(entry, value, setFromFile);
          StoreIntValid(opts, name, value, setFromFile);
          opts := opts[name := option];
        }
      }
      EnsureConsistence();
      ok := true;
    }

    /** `SetStringValue(name, value, setFromFile)`. */
    method SetStringValue(name: string, value: string, setFromFile: bool) returns (ok: bool)
      requires Valid()
      modifies this
      ensures ok && Valid() && opts == SetString(old(opts), name, value, setFromFile) && log == old(log)
    {
      if name in opts {
        var option := opts[name];
        if option.value.Str? {
          if option.specifiedInFile && !setFromFile {
            return true;
          }
          ghost var entry := option;
          if setFromFile {
            option := option.(specifiedInFile := true);
          }
          var strValue := ToLower(value);
          var inrange := FindInRange(option.value.range, strValue);
          if !(!inrange && option.value.range != []) {
            option := option.(value := option.value.(sval := strValue));
          }
          assert option == StoreStr(entry, value, setFromFile);
          StoreStrValid(opts, name, value, setFromFile);
          opts := opts[name := option];
        }
      }
      EnsureConsistence();
      ok := true;
    }

    // ----- The option file -----

    /** `load_from_file`: the lines in order, each classified and, if it is a setting for a
        registered name whose value parses, given to the setter of the option's type. */
    method LoadFromFile(lines: seq<string>, numOf: string -> Maybe<real>, intOf: string -> Maybe<int>)
      requires Valid()
      modifies this
      ensures Valid() && opts == LoadLines(old(opts), lines, numOf, intOf) && log == old(log)
    {
      ghost var m0 := opts;
      var i := 0;
      while i < |lines|
        invariant 0 <= i <= |lines| && Registered(m0)
        invariant Valid() && opts == LoadLines(m0, lines[..i], numOf, intOf) && log == old(log)
      {
        ghost var before := opts;
        match Classify(lines[i]) {
          case Setting(name, value) =>
            if name in opts {
              match opts[name].value {
                case Num(_, _, _) =>
                  match numOf(value) {
                    case Just(v) => var _ := SetNumericValue(name, v, true);
                    case Nothing =>
                  }
                case Str(_, _) => var _ := SetStringValue(name, value, true);
                case Int(_, _, _) =>
                  match intOf(value) {
                    case Just(v) => var _ := SetIntegerValue(name, v, true);
                    case Nothing =>
                  }
              }
            }
          case _ =>
        }
        assert opts == LoadLine(before, lines[i], numOf, intOf);
        assert lines[..i + 1][..i] == lines[..i];
        i := i + 1;
      }
      assert lines[..i] == lines;
    }
  }
}
