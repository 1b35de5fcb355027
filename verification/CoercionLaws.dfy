/** Which raw values each declared knob type accepts, and as what (scripts/glm_config.py: coerce). */
module CoercionLaws {
  import opened Options
  import opened Knobs
  import opened Coercion

  predicate Blank(c: char) {
    c == ' ' || c == '\t' || c == '\n' || c == '\r'
  }

  predicate Blanks(s: string) {
    forall i :: 0 <= i < |s| ==> Blank(s[i])
  }

  /** r is s without the blanks around it. */
  predicate TrimsAt(s: string, r: string, i: int, j: int) {
    && 0 <= i <= j <= |s| && r == s[i..j] && Blanks(s[..i]) && Blanks(s[j..])
    && (i < j ==> !Blank(s[i]) && !Blank(s[j - 1]))
  }

  ghost predicate Trims(s: string, r: string) {
    exists i, j :: TrimsAt(s, r, i, j)
  }

  /** b is a in lower case. */
  predicate Lowers(a: string, b: string) {
    |a| == |b| && forall i :: 0 <= i < |a| ==>
      b[i] as int == a[i] as int + if 'A' <= a[i] <= 'Z' then 32 else 0
  }

  /** r is s without any blank. */
  ghost predicate Squeezes(s: string, r: string)
    decreases |s|
  {
    if s == "" then r == ""
    else if Blank(s[|s| - 1]) then Squeezes(s[..|s| - 1], r)
    else r != "" && r[|r| - 1] == s[|s| - 1] && Squeezes(s[..|s| - 1], r[..|r| - 1])
  }

  predicate Digits(s: string) {
    s != "" && forall i :: 0 <= i < |s| ==> '0' <= s[i] <= '9'
  }

  predicate FirstField(s: string, i: int) {
    0 < i < |s| && Digits(s[..i]) && s[i] == ','
  }

  /** Digits, or digits and a comma before such a list. */
  ghost predicate Fields(s: string)
    decreases |s|
  {
    Digits(s) || exists i :: FirstField(s, i) && Fields(s[i + 1..])
  }

  ghost predicate Words(text: string, v: Value) {
    exists trimmed, word :: Trims(text, trimmed) && Lowers(trimmed, word) &&
      ((v == Flag(true) && (word == "1" || word == "true" || word == "yes" || word == "on")) ||
       (v == Flag(false) && (word == "0" || word == "false" || word == "no" || word == "off" || word == "")))
  }

  /** The number a raw value stands for, or none. */
  ghost predicate Counts(py: Python, raw: Value, n: int) {
    raw == Num(n) || (raw.Text? && exists trimmed :: Trims(raw.s, trimmed) && py.readInt(trimmed) == Some(n))
  }

  ghost predicate Measures(py: Python, raw: Value, x: real) {
    || (raw.Num? && raw.n as real == x) || raw == Fraction(x)
    || (raw.Text? && exists trimmed :: Trims(raw.s, trimmed) && py.readFloat(trimmed) == Some(x))
  }

  /** The raw value is accepted as v. */
  ghost predicate Accepts(py: Python, kind: Kind, raw: Value, v: Value) {
    var text := if raw.Text? then raw.s else py.str(raw);
    match kind
    case BoolKind => if raw.Flag? then v == raw else Words(text, v)
    case IntKind(low, high) =>
      v.Num? && Counts(py, raw, v.n) && (low.Some? ==> v.n >= low.value) && (high.Some? ==> v.n <= high.value)
    case FloatKind(least, most, leastExclusive, mostExclusive) =>
      && v.Fraction? && Measures(py, raw, v.r)
      && (least.Some? ==> v.r > least.value || (v.r == least.value && !leastExclusive))
      && (most.Some? ==> v.r < most.value || (v.r == most.value && !mostExclusive))
    case ChoiceKind(choices) => v.Text? && Trims(text, v.s) && v.s in choices
    case CsvKind => v.Text? && Squeezes(text, v.s) && Fields(v.s)
    case TextKind => v.Text? && Trims(text, v.s) && forall i :: 0 <= i < |v.s| ==> v.s[i] !in {'\n', '\r', '\0'}
  }

  // ------------------------------------------------------------------ strip

  lemma {:induction false} LeftAt(s: string) returns (i: nat)
    ensures i <= |s| && LeftStripped(s) == s[i..] && Blanks(s[..i]) && (i < |s| ==> !Blank(s[i]))
  {
    if s == "" || s[0] !in SPACES {
      i := 0;
    } else {
      var k := LeftAt(s[1..]);
      i := k + 1;
      assert s[..i] == [s[0]] + s[1..][..k];
    }
  }

  lemma {:induction false} RightAt(s: string) returns (j: nat)
    ensures j <= |s| && RightStripped(s) == s[..j] && Blanks(s[j..]) && (j > 0 ==> !Blank(s[j - 1]))
  {
    if s == "" || s[|s| - 1] !in SPACES {
      j := |s|;
      assert s[..|s|] == s;
    } else {
      j := RightAt(s[..|s| - 1]);
      assert s[j..] == s[..|s| - 1][j..] + [s[|s| - 1]];
      assert s[..|s| - 1][..j] == s[..j];
    }
  }

  lemma {:induction false} StrippedTrims(s: string)
    ensures Trims(s, Stripped(s))
  {
    var i := LeftAt(s);
    var left := s[i..];
    var j := RightAt(left);
    assert left[..j] == s[i..i + j] && left[j..] == s[i + j..];
    assert j > 0 ==> left[j - 1] == s[i + j - 1];
    assert TrimsAt(s, Stripped(s), i, i + j);
  }

  lemma {:induction false} TrimsOnce(s: string, a: string, b: string)
    requires Trims(s, a) && Trims(s, b)
    ensures a == b
  {
    var i, j :| TrimsAt(s, a, i, j);
    var k, l :| TrimsAt(s, b, k, l);
    NoBlankEdge(s, a, i, j, k, l, b);
    NoBlankEdge(s, b, k, l, i, j, a);
  }

  lemma BlankBefore(s: string, k: nat, i: nat)
    requires i < k <= |s| && Blanks(s[..k])
    ensures Blank(s[i])
  {
    assert s[..k][i] == s[i];
  }

  lemma BlankAfter(s: string, l: nat, j: nat)
    requires l <= j < |s| && Blanks(s[l..])
    ensures Blank(s[j])
  {
    assert s[l..][j - l] == s[j];
  }

  /** A non-empty trimmed part lies inside any other. */
  lemma {:induction false} NoBlankEdge(s: string, a: string, i: int, j: int, k: int, l: int, b: string)
    requires TrimsAt(s, a, i, j) && TrimsAt(s, b, k, l)
    ensures i < j ==> k <= i && j <= l
  {
    if i < k {
      BlankBefore(s, k, i);
    }
    if i < j && j > l {
      BlankAfter(s, l, j - 1);
    }
  }

  lemma {:induction false} TrimsIff(s: string, r: string)
    ensures Trims(s, r) <==> r == Stripped(s)
  {
    StrippedTrims(s);
    if Trims(s, r) {
      TrimsOnce(s, r, Stripped(s));
    }
  }

  // ------------------------------------------------------------------ lower and squeeze

  lemma {:induction false} LowersIff(a: string, b: string)
    ensures Lowers(a, b) <==> b == Lower(a)
    decreases |a|
  {
    if a == "" {
    } else if b != "" {
      LowersIff(a[1..], b[1..]);
      assert b == [b[0]] + b[1..];
      assert (Lower(a))[1..] == Lower(a[1..]);
      if Lowers(a[1..], b[1..]) {
        forall i | 0 < i < |a| ensures b[i] as int == a[i] as int + if 'A' <= a[i] <= 'Z' then 32 else 0 {
          assert a[1..][i - 1] == a[i] && b[1..][i - 1] == b[i];
        }
      }
    }
  }

  lemma {:induction false} SqueezedSnoc(s: string, c: char)
    ensures Squeezed(s + [c]) == Squeezed(s) + if c in SPACES then "" else [c]
  {
    if s == "" {
      assert s + [c] == [c] && [c][1..] == "";
    } else {
      assert (s + [c])[1..] == s[1..] + [c];
      SqueezedSnoc(s[1..], c);
    }
  }

  lemma {:induction false} SqueezesIff(s: string, r: string)
    ensures Squeezes(s, r) <==> r == Squeezed(s)
    decreases |s|
  {
    if s != "" {
      var front, last := s[..|s| - 1], s[|s| - 1];
      assert s == front + [last];
      SqueezedSnoc(front, last);
      if Blank(last) {
        SqueezesIff(front, r);
        assert Squeezed(front) + "" == Squeezed(front);
      } else if r != "" {
        SqueezesIff(front, r[..|r| - 1]);
        assert r == r[..|r| - 1] + [r[|r| - 1]];
      }
    }
  }

  // ------------------------------------------------------------------ lists of integers

  lemma ListPrepends(d: string, rest: string)
    requires Digits(d) && IntegerList(rest)
    ensures IntegerList(d + [','] + rest)
  {
    var s := d + [','] + rest;
    forall k | 0 <= k < |s| ensures Digit(s[k]) || s[k] == ',' {
      assert s[k] == if k < |d| then d[k] else if k == |d| then ',' else rest[k - |d| - 1];
    }
    forall k | 0 < k < |s| - 1 ensures s[k] == ',' ==> Digit(s[k + 1]) {
      assert s[k] == if k < |d| then d[k] else if k == |d| then ',' else rest[k - |d| - 1];
      if k >= |d| {
        assert s[k + 1] == rest[k - |d|];
      }
    }
    assert s[0] == d[0] && s[|s| - 1] == rest[|rest| - 1];
  }

  lemma {:induction false} FieldsAreList(s: string)
    requires Fields(s)
    ensures IntegerList(s)
    decreases |s|
  {
    hide IntegerList, Fields, Digits, FirstField;
    if Digits(s) {
      DigitsAreList(s);
    } else {
      var i := FirstOfFields(s);
      FieldsAreList(s[i + 1..]);
      ListPrepends(s[..i], s[i + 1..]);
      assert s == s[..i] + [','] + s[i + 1..];
    }
  }

  lemma {:induction false} FirstOfFields(s: string) returns (i: nat)
    requires Fields(s) && !Digits(s)
    ensures i < |s| && Digits(s[..i]) && s[i] == ',' && Fields(s[i + 1..])
  {
    i :| FirstField(s, i) && Fields(s[i + 1..]);
  }

  lemma DigitsAreList(s: string)
    requires Digits(s)
    ensures IntegerList(s)
  {
  }

  lemma {:induction false} ListIsFields(s: string)
    requires IntegerList(s)
    ensures Fields(s)
    decreases |s|
  {
    if !Digits(s) {
      var i := FirstComma(s);
      var rest := s[i + 1..];
      assert i < |s| - 1 && Digit(s[i + 1]) && rest[0] == s[i + 1];
      forall k | 0 < k < |rest| - 1 && rest[k] == ',' ensures Digit(rest[k + 1]) {
        assert rest[k] == s[i + 1 + k] && rest[k + 1] == s[i + 2 + k];
      }
      ListIsFields(rest);
      assert FirstField(s, i);
    }
  }

  lemma {:induction false} FirstComma(s: string) returns (i: nat)
    requires IntegerList(s) && !Digits(s)
    ensures 0 < i < |s| - 1 && s[i] == ',' && Digits(s[..i])
  {
    i := 0;
    while Digit(s[i])
      invariant i < |s| && forall k :: 0 <= k < i ==> Digit(s[k])
      decreases |s| - i
    {
      assert i == |s| - 1 ==> Digits(s);
      i := i + 1;
    }
  }

  lemma {:induction false} FieldsIff(s: string)
    ensures Fields(s) <==> IntegerList(s)
  {
    if Fields(s) {
      FieldsAreList(s);
    }
    if IntegerList(s) {
      ListIsFields(s);
    }
  }

  // ------------------------------------------------------------------ every kind

  lemma WordsIff(text: string, v: Value)
    ensures Words(text, v) <==>
            (var s := Lower(Stripped(text));
             v == if s in TRUES then Flag(true) else Flag(false)) && Lower(Stripped(text)) in TRUES + FALSES
  {
    hide Trims, Lowers, Stripped, Lower;
    forall trimmed ensures Trims(text, trimmed) <==> trimmed == Stripped(text) {
      TrimsIff(text, trimmed);
    }
    forall word ensures Lowers(Stripped(text), word) <==> word == Lower(Stripped(text)) {
      LowersIff(Stripped(text), word);
    }
    WordsDiffer(Lower(Stripped(text)));
    var trimmed, word := Stripped(text), Lower(Stripped(text));
    assert Trims(text, trimmed) && Lowers(trimmed, word);
    assert word in TRUES <==> word == "1" || word == "true" || word == "yes" || word == "on";
    assert word in FALSES <==> word == "0" || word == "false" || word == "no" || word == "off" || word == "";
  }

  lemma WordsDiffer(s: string)
    ensures !(s in TRUES && s in FALSES)
  {
    assert |"1"| == 1 && |"true"| == 4 && |"yes"| == 3 && |"on"| == 2 && |"0"| == 1 && |"false"| == 5 && |"no"| == 2 && |"off"| == 3;
    assert "on"[1] == 'n' && "no"[1] == 'o' && "yes"[0] == 'y' && "off"[0] == 'o' && "1"[0] == '1' && "0"[0] == '0';
  }

  /** Main result: a raw value is accepted as v exactly when its type says so. */
  lemma CoercedIff(py: Python, kind: Kind, raw: Value, v: Value)
    ensures Coerced(py, kind, raw) == Some(v) <==> Accepts(py, kind, raw, v)
  {
    hide Trims, Stripped, Lower, Words, Squeezes, Squeezed, Fields, IntegerList;
    var text := TextOf(py, raw);
    forall t ensures Trims(text, t) <==> t == Stripped(text) {
      TrimsIff(text, t);
    }
    match kind
    case BoolKind => WordsIff(text, v);
    case CsvKind =>
      SqueezesIff(text, Squeezed(text));
      if v.Text? {
        SqueezesIff(text, v.s);
      }
      FieldsIff(Squeezed(text));
    case TextKind =>
    case _ =>
  }
}
