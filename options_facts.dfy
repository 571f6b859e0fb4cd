/**
  What the setters of src/Utils/hiopOptions.cpp promise, proved about the table functions
  of the Options module: precedence of the option file, rejection of values out of range,
  the provenance flags each setter sets, the internal `set_val` leaving the flags alone, the
  PriDec consistency fix-up, and the classification of the lines of an option file.
 */
module OptionsFacts {
  import opened Options

  // ----- Strings -----

  /** `::tolower` leaves no upper-case letter and is idempotent. */
  lemma {:induction false} ToLowerFacts(s: string)
    ensures IsLower(ToLower(s))
    ensures ToLower(ToLower(s)) == ToLower(s)
    ensures forall i :: 0 <= i < |s| && !('A' <= s[i] <= 'Z') ==> ToLower(s)[i] == s[i]
  {
    var t := ToLower(s);
    forall i | 0 <= i < |s|
      ensures !('A' <= t[i] <= 'Z') && LowerChar(t[i]) == t[i]
    {
      assert t[i] == LowerChar(s[i]);
    }
  }

  /** A blank line is one made of white space only. */
  lemma {:induction false} ClassifyBlank(line: string)
    ensures Classify(line) == Blank <==> forall i :: 0 <= i < |line| ==> IsSpace(line[i])
  {
  }

  /** A comment line is one whose first character that is not white space is '#'. */
  lemma {:induction false} ClassifyComment(line: string)
    ensures Classify(line) == Comment <==>
      exists p :: 0 <= p < |line| && line[p] == '#' && forall q :: 0 <= q < p ==> IsSpace(line[q])
  {
    var p0 := SkipSpace(line, 0);
    if exists p :: 0 <= p < |line| && line[p] == '#' && forall q :: 0 <= q < p ==> IsSpace(line[q]) {
      var p :| 0 <= p < |line| && line[p] == '#' && forall q :: 0 <= q < p ==> IsSpace(line[q]);
      assert p == p0;
    }
  }

  /** The words of a setting line: `name` starts at `p` after white space, `value` starts at
      `q` after white space, and each word runs up to white space or to the end of the line. */
  ghost predicate WordsAt(line: string, name: string, value: string, p: int, q: int)
  {
    && 0 <= p && p + |name| < q && q + |value| <= |line|
    && (forall i :: 0 <= i < p ==> IsSpace(line[i]))
    && line[p..p + |name|] == name
    && (forall i :: p + |name| <= i < q ==> IsSpace(line[i]))
    && line[q..q + |value|] == value
    && (q + |value| == |line| || IsSpace(line[q + |value|]))
  }

  /** `SkipSpace` from `k` stops at the first character that is not white space. */
  lemma {:induction false} SkipSpaceAt(s: string, k: nat, p: nat)
    requires k <= p <= |s|
    requires forall i :: k <= i < p ==> IsSpace(s[i])
    requires p == |s| || !IsSpace(s[p])
    ensures SkipSpace(s, k) == p
    decreases p - k
  {
    if k < p {
      SkipSpaceAt(s, k + 1, p);
    }
  }

  /** `WordEnd` from `k` stops at the first white space character. */
  lemma {:induction false} WordEndAt(s: string, k: nat, p: nat)
    requires k <= p <= |s|
    requires forall i :: k <= i < p ==> !IsSpace(s[i])
    requires p == |s| || IsSpace(s[p])
    ensures WordEnd(s, k) == p
    decreases p - k
  {
    if k < p {
      WordEndAt(s, k + 1, p);
    }
  }

  predicate NoSpace(w: string)
  {
    forall i :: 0 <= i < |w| ==> !IsSpace(w[i])
  }

  /** The words of a line read as a setting are those found after white space. */
  lemma {:induction false} SettingWords(line: string, name: string, value: string)
    requires Classify(line) == Setting(name, value)
    ensures |name| > 0 && |value| > 0 && name[0] != '#' && NoSpace(name) && NoSpace(value)
    ensures exists p, q :: WordsAt(line, name, value, p, q)
  {
    var p := SkipSpace(line, 0);
    var e := WordEnd(line, p);
    var q := SkipSpace(line, e);
    var f := WordEnd(line, q);
    assert name == line[p..e] && value == line[q..f];
    assert WordsAt(line, name, value, p, q);
  }

  /** Two words found after white space are read as that setting. */
  lemma {:induction false} WordsSetting(line: string, name: string, value: string, p: int, q: int)
    requires |name| > 0 && |value| > 0 && name[0] != '#' && NoSpace(name) && NoSpace(value)
    requires WordsAt(line, name, value, p, q)
    ensures Classify(line) == Setting(name, value)
  {
    var e := p + |name|;
    var f := q + |value|;
    assert line[p] == name[0];
    forall i | p <= i < e
      ensures !IsSpace(line[i])
    {
      assert line[i] == line[p..e][i - p] == name[i - p];
    }
    forall i | q <= i < f
      ensures !IsSpace(line[i])
    {
      assert line[i] == line[q..f][i - q] == value[i - q];
    }
    SkipSpaceAt(line, 0, p);
    WordEndAt(line, p, e);
    SkipSpaceAt(line, e, q);
    WordEndAt(line, q, f);
  }

  /** A line is read as the setting `name value` exactly when it holds, after optional white
      space, the name, which does not start with '#', white space, and the value, both words
      non-empty and free of white space; whatever follows the value is ignored. */
  lemma {:induction false} ClassifySetting(line: string, name: string, value: string)
    ensures Classify(line) == Setting(name, value) <==>
      && |name| > 0 && |value| > 0 && name[0] != '#' && NoSpace(name) && NoSpace(value)
      && exists p, q :: WordsAt(line, name, value, p, q)
  {
    if Classify(line) == Setting(name, value) {
      SettingWords(line, name, value);
    }
    if && |name| > 0 && |value| > 0 && name[0] != '#' && NoSpace(name) && NoSpace(value)
       && exists p, q :: WordsAt(line, name, value, p, q)
    {
      var p, q :| WordsAt(line, name, value, p, q);
      WordsSetting(line, name, value, p, q);
    }
  }

  /** The only word of a line: it starts at `p` after white space, does not start with '#',
      ends at `e`, and only white space follows it. */
  ghost predicate OneWordAt(line: string, p: int, e: int)
  {
    && 0 <= p < e <= |line|
    && (forall i :: 0 <= i < p ==> IsSpace(line[i]))
    && line[p] != '#'
    && (forall i :: p <= i < e ==> !IsSpace(line[i]))
    && (forall i :: e <= i < |line| ==> IsSpace(line[i]))
  }

  /** The `>>` extractions fail, and the line is ignored with a warning, exactly when it holds
      a single word that does not start with '#'. */
  lemma {:induction false} ClassifyUnparsable(line: string)
    ensures Classify(line) == Unparsable <==> exists p, e :: OneWordAt(line, p, e)
  {
    if Classify(line) == Unparsable {
      var p := SkipSpace(line, 0);
      var e := WordEnd(line, p);
      var q := SkipSpace(line, e);
      assert q == |line|;
      assert OneWordAt(line, p, e);
    }
    if exists p, e :: OneWordAt(line, p, e) {
      var p, e :| OneWordAt(line, p, e);
      SkipSpaceAt(line, 0, p);
      WordEndAt(line, p, e);
      SkipSpaceAt(line, e, |line|);
    }
  }

  // ----- is_user_defined and the internal set_val -----

  /** `set_val(name, double)` stores exactly a value within the bounds of a registered numeric
      option, changes nothing otherwise, and never touches the provenance flags. */
  lemma {:induction false} SetValNumEffect(m: Table, name: string, v: real)
    ensures var r := SetValNum(m, name, v);
      && r.Keys == m.Keys
      && (forall k :: k in m ==> r[k].specifiedInFile == m[k].specifiedInFile && r[k].specifiedAtRuntime == m[k].specifiedAtRuntime)
      && (forall k :: k in m ==> (IsUserDefined(r, k) <==> IsUserDefined(m, k)))
      && (forall k :: k in m && k != name ==> r[k] == m[k])
      && (IsNum(m, name) && m[name].value.nlb <= v <= m[name].value.nub ==>
            r[name] == m[name].(value := Num(v, m[name].value.nlb, m[name].value.nub)))
      && (!(IsNum(m, name) && m[name].value.nlb <= v <= m[name].value.nub) ==> r == m)
  {
  }

  /** `set_val(name, int)`: the same for integer options. */
  lemma {:induction false} SetValIntEffect(m: Table, name: string, v: int)
    ensures var r := SetValInt(m, name, v);
      && r.Keys == m.Keys
      && (forall k :: k in m ==> r[k].specifiedInFile == m[k].specifiedInFile && r[k].specifiedAtRuntime == m[k].specifiedAtRuntime)
      && (forall k :: k in m && k != name ==> r[k] == m[k])
      && (IsInt(m, name) && m[name].value.ilb <= v <= m[name].value.iub ==>
            r[name] == m[name].(value := Int(v, m[name].value.ilb, m[name].value.iub)))
      && (!(IsInt(m, name) && m[name].value.ilb <= v <= m[name].value.iub) ==> r == m)
  {
  }

  /** `set_val(name, const char*)`: the lower-cased value is stored when the range is empty or
      holds it; the flags are never touched. */
  lemma {:induction false} SetValStrEffect(m: Table, name: string, v: string)
    ensures var r := SetValStr(m, name, v);
      && r.Keys == m.Keys
      && (forall k :: k in m ==> r[k].specifiedInFile == m[k].specifiedInFile && r[k].specifiedAtRuntime == m[k].specifiedAtRuntime)
      && (forall k :: k in m && k != name ==> r[k] == m[k])
      && (IsStr(m, name) && (m[name].value.range == [] || ToLower(v) in m[name].value.range) ==>
            r[name] == m[name].(value := Str(ToLower(v), m[name].value.range)))
      && (!(IsStr(m, name) && (m[name].value.range == [] || ToLower(v) in m[name].value.range)) ==> r == m)
  {
  }

  // ----- ensure_consistence -----

  /** After the fix-up an 'acceptable_tolerance' chosen by the user is at least 'tolerance'. */
  lemma {:induction false} ConsistentOrders(m: Table)
    requires Registered(m) && TolInAccRange(m)
    ensures var r := Consistent(m);
      IsUserDefined(r, AcceptableTolerance) ==> r[AcceptableTolerance].value.nval >= r[Tolerance].value.nval
  {
    ConsistentKeeps(m);
  }

  /** The fix-up is idempotent. */
  lemma {:induction false} ConsistentIdempotent(m: Table)
    requires Registered(m) && TolInAccRange(m)
    ensures Registered(Consistent(m)) && Consistent(Consistent(m)) == Consistent(m)
  {
    ConsistentKeeps(m);
    ConsistentOrders(m);
  }

  /** The ordering of the tolerances that the fix-up establishes. */
  predicate Ordered(m: Table)
    requires Registered(m)
  {
    IsUserDefined(m, AcceptableTolerance) ==> m[AcceptableTolerance].value.nval >= m[Tolerance].value.nval
  }

  /** Every public setter keeps the ordering: either it returns early and changes nothing, or
      it ends with the fix-up. */
  lemma {:induction false} SettersKeepOrdered(m: Table, name: string, vn: real, vi: int, vs: string, fromFile: bool)
    requires Registered(m) && TolInAccRange(m) && Ordered(m)
    ensures Registered(SetNumeric(m, name, vn, fromFile)) && Ordered(SetNumeric(m, name, vn, fromFile))
    ensures Registered(SetInteger(m, name, vi, fromFile)) && Ordered(SetInteger(m, name, vi, fromFile))
    ensures Registered(SetString(m, name, vs, fromFile)) && Ordered(SetString(m, name, vs, fromFile))
  {
    SetNumericKeeps(m, name, vn, fromFile);
    SetIntegerKeeps(m, name, vi, fromFile);
    SetStringKeeps(m, name, vs, fromFile);
    if IsNum(m, name) && !Overridden(m[name], fromFile) {
      var o := m[name];
      var stored := StoreNum(o, vn, fromFile);
      SetsKeepRange(m, name, stored);
      ConsistentOrders(m[name := stored]);
    } else if !IsNum(m, name) {
      ConsistentOrders(m);
    }
    if IsInt(m, name) && !Overridden(m[name], fromFile) {
      var o := m[name];
      var stored := StoreInt(o, vi, fromFile);
      SetsKeepRange(m, name, stored);
      ConsistentOrders(m[name := stored]);
    } else if !IsInt(m, name) {
      ConsistentOrders(m);
    }
    if IsStr(m, name) && !Overridden(m[name], fromFile) {
      var o := m[name];
      var stored := StoreStr(o, vs, fromFile);
      SetsKeepRange(m, name, stored);
      ConsistentOrders(m[name := stored]);
    } else if !IsStr(m, name) {
      ConsistentOrders(m);
    }
  }

  /** Replacing an entry by one of the same type and bounds whose value, if numeric, lies in
      those bounds keeps both tolerances registered and 'tolerance' in range. */
  lemma {:induction false} SetsKeepRange(m: Table, name: string, stored: Option)
    requires Registered(m) && TolInAccRange(m) && name in m
    requires stored.value.Num? == m[name].value.Num?
    requires stored.value.Num? ==> stored.value.nlb == m[name].value.nlb && stored.value.nub == m[name].value.nub
    requires stored.value.Num? ==> stored.value.nlb <= stored.value.nval <= stored.value.nub || stored.value == m[name].value
    ensures Registered(m[name := stored]) && TolInAccRange(m[name := stored])
  {
  }

  /** Replacing one entry by one of the same bounds whose numeric or integer value lies in
      them keeps every value in range. */
  lemma {:induction false} StoreKeepsInBounds(m: Table, name: string, stored: Option)
    requires InBounds(m)
    requires stored.value.Num? ==> stored.value.nlb <= stored.value.nval <= stored.value.nub
    requires stored.value.Int? ==> stored.value.ilb <= stored.value.ival <= stored.value.iub
    ensures InBounds(m[name := stored])
  {
    var r := m[name := stored];
    forall k | IsNum(r, k)
      ensures r[k].value.nlb <= r[k].value.nval <= r[k].value.nub
    {
      if k != name {
        assert IsNum(m, k);
      }
    }
    forall k | IsInt(r, k)
      ensures r[k].value.ilb <= r[k].value.ival <= r[k].value.iub
    {
      if k != name {
        assert IsInt(m, k);
      }
    }
  }

  /** The entry stored by a public setter keeps the invariants of the table. */
  lemma {:induction false} StoreNumValid(m: Table, name: string, v: real, fromFile: bool)
    requires Registered(m) && TolInAccRange(m) && InBounds(m) && IsNum(m, name)
    ensures var r := m[name := StoreNum(m[name], v, fromFile)];
      Registered(r) && TolInAccRange(r) && InBounds(r)
  {
    SetsKeepRange(m, name, StoreNum(m[name], v, fromFile));
    StoreKeepsInBounds(m, name, StoreNum(m[name], v, fromFile));
  }

  lemma {:induction false} StoreIntValid(m: Table, name: string, v: int, fromFile: bool)
    requires Registered(m) && TolInAccRange(m) && InBounds(m) && IsInt(m, name)
    ensures var r := m[name := StoreInt(m[name], v, fromFile)];
      Registered(r) && TolInAccRange(r) && InBounds(r)
  {
    SetsKeepRange(m, name, StoreInt(m[name], v, fromFile));
    StoreKeepsInBounds(m, name, StoreInt(m[name], v, fromFile));
  }

  lemma {:induction false} StoreStrValid(m: Table, name: string, v: string, fromFile: bool)
    requires Registered(m) && TolInAccRange(m) && InBounds(m) && IsStr(m, name)
    ensures var r := m[name := StoreStr(m[name], v, fromFile)];
      Registered(r) && TolInAccRange(r) && InBounds(r)
  {
    SetsKeepRange(m, name, StoreStr(m[name], v, fromFile));
    StoreKeepsInBounds(m, name, StoreStr(m[name], v, fromFile));
  }

  /** The internal setters store only values in range. */
  lemma {:induction false} SetValKeepInBounds(m: Table, name: string, vn: real, vi: int, vs: string)
    requires InBounds(m)
    ensures InBounds(SetValNum(m, name, vn)) && InBounds(SetValInt(m, name, vi)) && InBounds(SetValStr(m, name, vs))
  {
    if IsNum(m, name) && m[name].value.nlb <= vn <= m[name].value.nub {
      StoreKeepsInBounds(m, name, m[name].(value := m[name].value.(nval := vn)));
    }
    if IsInt(m, name) && m[name].value.ilb <= vi <= m[name].value.iub {
      StoreKeepsInBounds(m, name, m[name].(value := m[name].value.(ival := vi)));
    }
    if IsStr(m, name) {
      StoreKeepsInBounds(m, name, m[name].(value := m[name].value.(sval := ToLower(vs))));
    }
  }

  /** The fix-up keeps every value in range. */
  lemma {:induction false} ConsistentInBounds(m: Table)
    requires Registered(m) && InBounds(m)
    ensures InBounds(Consistent(m))
  {
    SetValKeepInBounds(m, AcceptableTolerance, m[Tolerance].value.nval, 0, "");
  }

  /** `SetNumericValue` keeps every numeric and integer value in its bounds. */
  lemma {:induction false} SetNumericInBounds(m: Table, name: string, v: real, fromFile: bool)
    requires Registered(m) && InBounds(m)
    ensures InBounds(SetNumeric(m, name, v, fromFile))
  {
    if IsNum(m, name) && !Overridden(m[name], fromFile) {
      var o := m[name];
      var stored := StoreNum(o, v, fromFile);
      StoreKeepsInBounds(m, name, stored);
      ConsistentInBounds(m[name := stored]);
    } else if !IsNum(m, name) {
      ConsistentInBounds(m);
    }
  }

  /** `SetIntegerValue` keeps every numeric and integer value in its bounds. */
  lemma {:induction false} SetIntegerInBounds(m: Table, name: string, v: int, fromFile: bool)
    requires Registered(m) && InBounds(m)
    ensures InBounds(SetInteger(m, name, v, fromFile))
  {
    if IsInt(m, name) && !Overridden(m[name], fromFile) {
      var o := m[name];
      var stored := StoreInt(o, v, fromFile);
      StoreKeepsInBounds(m, name, stored);
      ConsistentInBounds(m[name := stored]);
    } else if !IsInt(m, name) {
      ConsistentInBounds(m);
    }
  }

  /** `SetStringValue` keeps every numeric and integer value in its bounds. */
  lemma {:induction false} SetStringInBounds(m: Table, name: string, v: string, fromFile: bool)
    requires Registered(m) && InBounds(m)
    ensures InBounds(SetString(m, name, v, fromFile))
  {
    if IsStr(m, name) && !Overridden(m[name], fromFile) {
      var o := m[name];
      var stored := StoreStr(o, v, fromFile);
      StoreKeepsInBounds(m, name, stored);
      ConsistentInBounds(m[name := stored]);
    } else if !IsStr(m, name) {
      ConsistentInBounds(m);
    }
  }

  /** A line of the option file keeps every value in range. */
  lemma {:induction false} ApplyInBounds(m: Table, kind: LineKind, numOf: string -> Maybe<real>, intOf: string -> Maybe<int>)
    requires Registered(m) && InBounds(m)
    ensures InBounds(Apply(m, kind, numOf, intOf))
  {
    match kind
    case Setting(name, value) =>
      if name in m {
        match m[name].value
        case Num(_, _, _) => {
          match numOf(value)
          case Just(v) => SetNumericInBounds(m, name, v, true);
          case Nothing =>
        }
        case Str(_, _) => SetStringInBounds(m, name, value, true);
        case Int(_, _, _) => {
          match intOf(value)
          case Just(v) => SetIntegerInBounds(m, name, v, true);
          case Nothing =>
        }
      }
    case _ =>
  }

  /** Reading an option file keeps every value in range. */
  lemma {:induction false} LoadLinesInBounds(m: Table, lines: seq<string>, numOf: string -> Maybe<real>, intOf: string -> Maybe<int>)
    requires Registered(m) && InBounds(m)
    ensures InBounds(LoadLines(m, lines, numOf, intOf))
    decreases |lines|
  {
    if lines != [] {
      LoadLinesInBounds(m, lines[..|lines| - 1], numOf, intOf);
      ApplyInBounds(LoadLines(m, lines[..|lines| - 1], numOf, intOf), Classify(lines[|lines| - 1]), numOf, intOf);
    }
  }

  // ----- The public setters -----

  /** A runtime value for an option already specified in the option file is ignored, and the
      setter reports success. */
  lemma {:induction false} FileBeatsRuntime(m: Table, name: string, vn: real, vi: int, vs: string)
    requires Registered(m) && name in m && m[name].specifiedInFile
    ensures IsNum(m, name) ==> SetNumeric(m, name, vn, false) == m
    ensures IsInt(m, name) ==> SetInteger(m, name, vi, false) == m
    ensures IsStr(m, name) ==> SetString(m, name, vs, false) == m
  {
  }

  /** A name that is not registered with the setter's type changes no entry: only the fix-up
      at the end of the setter may act. */
  lemma {:induction false} UnknownNameOnlyFixUp(m: Table, name: string, vn: real, vi: int, vs: string, fromFile: bool)
    requires Registered(m)
    ensures !IsNum(m, name) ==> SetNumeric(m, name, vn, fromFile) == Consistent(m)
    ensures !IsInt(m, name) ==> SetInteger(m, name, vi, fromFile) == Consistent(m)
    ensures !IsStr(m, name) ==> SetString(m, name, vs, fromFile) == Consistent(m)
  {
  }

  /** `SetNumericValue` on a registered numeric option that is not overridden: the flag of the
      source of the value is set, and the value is stored if it lies in the bounds and kept
      otherwise. Only the fix-up of 'acceptable_tolerance' may change another entry. */
  lemma {:induction false} SetNumericEffect(m: Table, name: string, v: real, fromFile: bool)
    requires Registered(m) && IsNum(m, name) && !Overridden(m[name], fromFile)
    ensures var r := SetNumeric(m, name, v, fromFile);
      && r.Keys == m.Keys
      && (forall k :: k in m && k != name && k != AcceptableTolerance ==> r[k] == m[k])
      && r[name].value.Num?
      && r[name].value.nlb == m[name].value.nlb && r[name].value.nub == m[name].value.nub
      && r[name].specifiedInFile == (m[name].specifiedInFile || fromFile)
      && r[name].specifiedAtRuntime == (m[name].specifiedAtRuntime || !fromFile)
      && IsUserDefined(r, name)
      && (name != AcceptableTolerance ==>
            r[name].value.nval == (if v < m[name].value.nlb || v > m[name].value.nub then m[name].value.nval else v))
  {
    var o := m[name];
    var stored := StoreNum(o, v, fromFile);
    ConsistentKeeps(m[name := stored]);
  }

  /** Setting 'acceptable_tolerance': the value kept or stored by the setter, raised to
      'tolerance' when it is below it. */
  lemma {:induction false} SetAcceptableTolerance(m: Table, v: real, fromFile: bool)
    requires Registered(m) && TolInAccRange(m) && !Overridden(m[AcceptableTolerance], fromFile)
    ensures var acc := m[AcceptableTolerance].value;
      var kept := if v < acc.nlb || v > acc.nub then acc.nval else v;
      var tol := m[Tolerance].value.nval;
      SetNumeric(m, AcceptableTolerance, v, fromFile)[AcceptableTolerance].value.nval == (if kept < tol then tol else kept)
  {
  }

  /** `SetIntegerValue`: as `SetNumericValue`, except that a runtime value never sets
      `specifiedAtRuntime`; no flag of any entry is then touched. */
  lemma {:induction false} SetIntegerEffect(m: Table, name: string, v: int, fromFile: bool)
    requires Registered(m) && IsInt(m, name) && !Overridden(m[name], fromFile)
    ensures var r := SetInteger(m, name, v, fromFile);
      && r.Keys == m.Keys
      && (forall k :: k in m && k != name && k != AcceptableTolerance ==> r[k] == m[k])
      && r[name].value.Int?
      && r[name].value.ilb == m[name].value.ilb && r[name].value.iub == m[name].value.iub
      && r[name].specifiedInFile == (m[name].specifiedInFile || fromFile)
      && r[name].specifiedAtRuntime == m[name].specifiedAtRuntime
      && r[name].value.ival == (if v < m[name].value.ilb || v > m[name].value.iub then m[name].value.ival else v)
  {
    var o := m[name];
    var stored := StoreInt(o, v, fromFile);
    ConsistentKeeps(m[name := stored]);
  }

  /** `SetStringValue`: the lower-cased value is stored if the range is empty or holds it, and
      the old value kept otherwise; a runtime value never sets `specifiedAtRuntime`. */
  lemma {:induction false} SetStringEffect(m: Table, name: string, v: string, fromFile: bool)
    requires Registered(m) && IsStr(m, name) && !Overridden(m[name], fromFile)
    ensures var r := SetString(m, name, v, fromFile);
      && r.Keys == m.Keys
      && (forall k :: k in m && k != name && k != AcceptableTolerance ==> r[k] == m[k])
      && r[name].value.Str? && r[name].value.range == m[name].value.range
      && r[name].specifiedInFile == (m[name].specifiedInFile || fromFile)
      && r[name].specifiedAtRuntime == m[name].specifiedAtRuntime
      && r[name].value.sval == (if m[name].value.range == [] || ToLower(v) in m[name].value.range
                                then ToLower(v) else m[name].value.sval)
  {
    var o := m[name];
    var stored := StoreStr(o, v, fromFile);
    ConsistentKeeps(m[name := stored]);
  }

  /** An integer or string set at runtime on an option that was not user-defined leaves it not
      user-defined: `is_user_defined` sees only values from the file and numeric runtime values. */
  lemma {:induction false} RuntimeIntStrNotUserDefined(m: Table, name: string, vi: int, vs: string)
    requires Registered(m) && name in m && !IsUserDefined(m, name)
    ensures IsInt(m, name) ==> !IsUserDefined(SetInteger(m, name, vi, false), name)
    ensures IsStr(m, name) ==> !IsUserDefined(SetString(m, name, vs, false), name)
  {
    if IsInt(m, name) {
      SetIntegerEffect(m, name, vi, false);
    }
    if IsStr(m, name) {
      SetStringEffect(m, name, vs, false);
    }
  }

  /** A value from the file overrides a runtime value; a later runtime value is ignored, and a
      later value passed with `setFromFile` true overwrites the file value again. */
  lemma {:induction false} FilePrecedence(m: Table, name: string, v1: real, v2: real, v3: real)
    requires Registered(m) && IsNum(m, name) && name != AcceptableTolerance
    ensures var r1 := SetNumeric(m, name, v1, true);
      var r2 := SetNumeric(r1, name, v2, false);
      var r3 := SetNumeric(r2, name, v3, true);
      && Registered(r1) && IsNum(r1, name) && r1[name].specifiedInFile
      && r2 == r1
      && r3[name].value.nval == (if v3 < m[name].value.nlb || v3 > m[name].value.nub then r1[name].value.nval else v3)
  {
    SetNumericKeeps(m, name, v1, true);
    SetNumericEffect(m, name, v1, true);
    var r1 := SetNumeric(m, name, v1, true);
    SetNumericEffect(r1, name, v3, true);
  }

  // ----- The option file -----

  /** Blank, comment and unparsable lines and settings for unknown names leave the table
      alone; every other setting goes to the setter of the option's type with `setFromFile`
      true. */
  lemma {:induction false} LoadLineDispatch(m: Table, kind: LineKind, numOf: string -> Maybe<real>, intOf: string -> Maybe<int>)
    requires Registered(m)
    ensures !kind.Setting? ==> Apply(m, kind, numOf, intOf) == m
    ensures kind.Setting? && kind.name !in m ==> Apply(m, kind, numOf, intOf) == m
    ensures kind.Setting? && IsStr(m, kind.name) ==> Apply(m, kind, numOf, intOf) == SetString(m, kind.name, kind.value, true)
    ensures kind.Setting? && IsNum(m, kind.name) ==>
      Apply(m, kind, numOf, intOf) == (match numOf(kind.value)
                                        case Just(v) => SetNumeric(m, kind.name, v, true)
                                        case Nothing => m)
    ensures kind.Setting? && IsInt(m, kind.name) ==>
      Apply(m, kind, numOf, intOf) == (match intOf(kind.value)
                                        case Just(v) => SetInteger(m, kind.name, v, true)
                                        case Nothing => m)
  {
  }

  /** A file with no setting line changes nothing. */
  lemma {:induction false} LoadNoSettings(m: Table, lines: seq<string>, numOf: string -> Maybe<real>, intOf: string -> Maybe<int>)
    requires Registered(m)
    requires forall i :: 0 <= i < |lines| ==> !Classify(lines[i]).Setting?
    ensures LoadLines(m, lines, numOf, intOf) == m
    decreases |lines|
  {
    if lines != [] {
      var init := lines[..|lines| - 1];
      assert forall i :: 0 <= i < |init| ==> init[i] == lines[i];
      LoadNoSettings(m, init, numOf, intOf);
      LoadLineDispatch(m, Classify(lines[|lines| - 1]), numOf, intOf);
    }
  }

  /** Reading the lines of two files one after the other is reading their concatenation. */
  lemma {:induction false} LoadLinesAppend(m: Table, a: seq<string>, b: seq<string>,
                                          numOf: string -> Maybe<real>, intOf: string -> Maybe<int>)
    requires Registered(m)
    ensures LoadLines(m, a + b, numOf, intOf) == LoadLines(LoadLines(m, a, numOf, intOf), b, numOf, intOf)
    decreases |b|
  {
    if b == [] {
      assert a + b == a;
    } else {
      var b0 := b[..|b| - 1];
      assert (a + b)[..|a + b| - 1] == a + b0;
      assert (a + b)[|a + b| - 1] == b[|b| - 1];
      LoadLinesAppend(m, a, b0, numOf, intOf);
    }
  }

  // ----- The PriDec table -----

  /** The PriDec table has both tolerances with 'tolerance' inside the bounds of
      'acceptable_tolerance', no option is user-defined, and every numeric and integer default
      lies in its bounds. */
  lemma {:induction false} PriDecTableFacts()
    ensures Registered(PriDecTable()) && TolInAccRange(PriDecTable()) && Ordered(PriDecTable()) && InBounds(PriDecTable())
    ensures forall k :: k in PriDecTable() ==> !IsUserDefined(PriDecTable(), k)
    ensures forall k :: IsNum(PriDecTable(), k) ==>
      PriDecTable()[k].value.nlb <= PriDecTable()[k].value.nval <= PriDecTable()[k].value.nub
    ensures forall k :: IsInt(PriDecTable(), k) ==>
      PriDecTable()[k].value.ilb <= PriDecTable()[k].value.ival <= PriDecTable()[k].value.iub
  {
  }

  /** The default "false" of 'accum_local' is not in its range {"yes", "no"}: a value the setters
      would reject, while a string option without a range, such as 'options_file_master_prob',
      takes any value. */
  lemma {:induction false} PriDecStringDefaults()
    ensures IsStr(PriDecTable(), "accum_local") && PriDecTable()["accum_local"].value.sval !in PriDecTable()["accum_local"].value.range
    ensures IsStr(PriDecTable(), "options_file_master_prob") && PriDecTable()["options_file_master_prob"].value.range == []
  {
  }
}
