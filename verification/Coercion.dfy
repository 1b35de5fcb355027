/**
The declared knob types (scripts/glm_config.py: coerce), and that they keep what the registry model asks of
a knob: a coerced value coerces to itself, a choice never yields an empty name, an integer knob yields a
number. Python's own str(), int() and float() on values that are not strings are parameters.
*/
module Coercion {
  import opened Options
  import opened Knobs

  datatype Kind =
    | BoolKind
    | IntKind(low: Option<int>, high: Option<int>)
    | FloatKind(least: Option<real>, most: Option<real>, leastExclusive: bool, mostExclusive: bool)
    | ChoiceKind(choices: seq<string>)
    | CsvKind
    | TextKind

  /** str() of a scalar that is not a string, and what int() and float() read in a string; float() of a NaN
      or an infinity is rejected, so it reads as None. */
  datatype Python = Python(str: Value -> string, readInt: string -> Option<int>, readFloat: string -> Option<real>)

  const SPACES: set<char> := {' ', '\t', '\n', '\r'}
  const TRUES: set<string> := {"1", "true", "yes", "on"}
  const FALSES: set<string> := {"0", "false", "no", "off", ""}

  function LeftStripped(s: string): string {
    if s == "" || s[0] !in SPACES then s else LeftStripped(s[1..])
  }

  function RightStripped(s: string): string {
    if s == "" || s[|s| - 1] !in SPACES then s else RightStripped(s[..|s| - 1])
  }

  function Stripped(s: string): string {
    RightStripped(LeftStripped(s))
  }

  function Lower(s: string): string {
    if s == "" then ""
    else (if 'A' <= s[0] <= 'Z' then [s[0] - 'A' + 'a'] else [s[0]]) + Lower(s[1..])
  }

  /** re.sub(r"\s+", "", s) */
  function Squeezed(s: string): string {
    if s == "" then ""
    else (if s[0] in SPACES then "" else [s[0]]) + Squeezed(s[1..])
  }

  predicate Digit(c: char) {
    '0' <= c <= '9'
  }

  /** re.fullmatch(r"\d+(,\d+)*", s) */
  predicate IntegerList(s: string) {
    && s != ""
    && Digit(s[0]) && Digit(s[|s| - 1])
    && (forall i :: 0 <= i < |s| ==> Digit(s[i]) || s[i] == ',')
    && (forall i :: 0 < i < |s| - 1 && s[i] == ',' ==> Digit(s[i + 1]))
  }

  predicate Controlled(s: string) {
    '\n' in s || '\r' in s || '\0' in s
  }

  function TextOf(py: Python, raw: Value): string {
    if raw.Text? then raw.s else py.str(raw)
  }

  predicate Within(v: int, kind: Kind)
    requires kind.IntKind?
  {
    (kind.low.Some? ==> kind.low.value <= v) && (kind.high.Some? ==> v <= kind.high.value)
  }

  predicate Inside(v: real, kind: Kind)
    requires kind.FloatKind?
  {
    && (kind.least.Some? ==> kind.least.value <= v && !(kind.leastExclusive && v == kind.least.value))
    && (kind.most.Some? ==> v <= kind.most.value && !(kind.mostExclusive && v == kind.most.value))
  }

  function Coerced(py: Python, kind: Kind, raw: Value): Option<Value> {
    match kind
    case BoolKind =>
      if raw.Flag? then Some(raw)
      else
        var s := Lower(Stripped(TextOf(py, raw)));
        if s in TRUES then Some(Flag(true)) else if s in FALSES then Some(Flag(false)) else None
    case IntKind(_, _) =>
      var v := match raw
        case Num(n) => Some(n)
        case Text(s) => py.readInt(Stripped(s))
        case _ => None;
      if v.Some? && Within(v.value, kind) then Some(Num(v.value)) else None
    case FloatKind(_, _, _, _) =>
      var v := match raw
        case Num(n) => Some(n as real)
        case Fraction(r) => Some(r)
        case Text(s) => py.readFloat(Stripped(s))
        case Flag(_) => None;
      if v.Some? && Inside(v.value, kind) then Some(Fraction(v.value)) else None
    case ChoiceKind(choices) =>
      var v := Stripped(TextOf(py, raw));
      if v in choices then Some(Text(v)) else None
    case CsvKind =>
      var v := Squeezed(TextOf(py, raw));
      if IntegerList(v) then Some(Text(v)) else None
    case TextKind =>
      var v := Stripped(TextOf(py, raw));
      if Controlled(v) then None else Some(Text(v))
  }

  // ------------------------------------------------------------------ coercion settles

  lemma {:induction false} LeftTwice(s: string)
    ensures LeftStripped(LeftStripped(s)) == LeftStripped(s)
    ensures LeftStripped(s) != "" ==> LeftStripped(s)[0] !in SPACES
  {
    if s != "" && s[0] in SPACES {
      LeftTwice(s[1..]);
    }
  }

  lemma {:induction false} RightIsPrefix(s: string)
    ensures RightStripped(s) <= s
    ensures RightStripped(RightStripped(s)) == RightStripped(s)
  {
    if s != "" && s[|s| - 1] in SPACES {
      RightIsPrefix(s[..|s| - 1]);
    }
  }

  lemma StrippedTwice(s: string)
    ensures Stripped(Stripped(s)) == Stripped(s)
  {
    var left := LeftStripped(s);
    LeftTwice(s);
    RightIsPrefix(left);
    if RightStripped(left) != "" {
      assert RightStripped(left)[0] == left[0];
    }
  }

  lemma {:induction false} SqueezedTwice(s: string)
    ensures Squeezed(Squeezed(s)) == Squeezed(s)
  {
    if s != "" {
      SqueezedTwice(s[1..]);
      if s[0] !in SPACES {
        assert ([s[0]] + Squeezed(s[1..]))[1..] == Squeezed(s[1..]);
      } else {
        assert "" + Squeezed(s[1..]) == Squeezed(s[1..]);
      }
    }
  }

  /** Main result: whatever the raw value, a value that was accepted is accepted again, unchanged. */
  lemma CoercionSettles(py: Python, kind: Kind, raw: Value)
    ensures Coerced(py, kind, raw).Some? ==>
              Coerced(py, kind, Coerced(py, kind, raw).value) == Coerced(py, kind, raw)
  {
    hide Stripped, Squeezed, Lower, IntegerList, Controlled;
    StrippedTwice(TextOf(py, raw));
    SqueezedTwice(TextOf(py, raw));
  }

  function KnobOf(py: Python, kind: Kind, default: Value, families: set<Value>, editable: bool, rejectInvalid: bool): Knob {
    Knob(default, families, editable, rejectInvalid, raw => Coerced(py, kind, raw))
  }

  /** A knob of a declared type is what the registry model asks for. */
  lemma DeclaredKnobIsWellFormed(py: Python, kind: Kind, default: Value, families: set<Value>, editable: bool,
                                 rejectInvalid: bool)
    ensures var knob := KnobOf(py, kind, default, families, editable, rejectInvalid);
            && Settled(knob)
            && (kind.ChoiceKind? && "" !in kind.choices ==> Naming(knob))
            && (kind.IntKind? && default.Num? ==> Counting(knob))
  {
    hide Stripped, Squeezed, Lower, IntegerList, Controlled;
    var knob := KnobOf(py, kind, default, families, editable, rejectInvalid);
    forall raw, v | knob.coerce(raw) == Some(v) ensures knob.coerce(v) == Some(v) {
      CoercionSettles(py, kind, raw);
    }
  }
}
